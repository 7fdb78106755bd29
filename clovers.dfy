/** The weighted choice of a grimoire's clover. The table gives each clover a
    relative weight; a draw is mapped to the first clover whose cumulative
    weight exceeds it.

    The table's weights are 4, 3, 2, 1 and 0.5. Here they are doubled to the
    integers 8, 6, 4, 2 and 1 (total 21). The library pick multiplies a
    uniform number in [0, 1) by the total and takes the first cumulative
    weight above it; since every cumulative weight is an integer, that is
    the same as taking the first one above the integer part of the doubled
    product, a draw in [0, 21). */
module Clovers {

  datatype Clover = Clover(name: string, weight: nat)

  /** The weight table, one leaf to five leaves, weights doubled. */
  const Table: seq<Clover> := [
    Clover("Trébol una hoja", 8),
    Clover("Trébol dos hojas", 6),
    Clover("Trébol tres hojas", 4),
    Clover("Trébol cuatro hojas", 2),
    Clover("Trébol cinco hojas", 1)]

  /** The sum of the first `n` weights. */
  function Cumulative(t: seq<Clover>, n: nat): nat
    requires n <= |t|
  {
    if n == 0 then 0 else Cumulative(t, n - 1) + t[n - 1].weight
  }

  function Total(t: seq<Clover>): nat {
    Cumulative(t, |t|)
  }

  predicate IsName(t: seq<Clover>, s: string) {
    exists i :: 0 <= i < |t| && t[i].name == s
  }

  lemma {:induction false} CumulativeMonotone(t: seq<Clover>, m: nat, n: nat)
    requires m <= n <= |t|
    ensures Cumulative(t, m) <= Cumulative(t, n)
    decreases n - m
  {
    if m < n {
      CumulativeMonotone(t, m, n - 1);
    }
  }

  /** The index the weighted choice selects for draw `r`: the first bucket
      whose cumulative weight exceeds `r`. A draw past the total falls into
      the last bucket, as the library's search is bounded by the last index. */
  function PickIndex(t: seq<Clover>, r: nat): (i: nat)
    requires |t| > 0
    ensures i < |t|
    ensures r < Total(t) ==> Cumulative(t, i) <= r < Cumulative(t, i + 1)
  {
    PickFrom(t, 0, r)
  }

  /** Searches buckets `lo..` for the draw `r`, which is known to lie at or
      past the cumulative weight of bucket `lo`. */
  function PickFrom(t: seq<Clover>, lo: nat, r: nat): (i: nat)
    requires lo < |t|
    requires Cumulative(t, lo) <= r
    ensures lo <= i < |t|
    ensures Cumulative(t, i) <= r
    ensures r < Total(t) ==> r < Cumulative(t, i + 1)
    decreases |t| - lo
  {
    if lo == |t| - 1 || r < Cumulative(t, lo + 1) then lo
    else PickFrom(t, lo + 1, r)
  }

  /** The bucket of a draw is the only one whose interval holds it. */
  lemma PickIndexUnique(t: seq<Clover>, r: nat, j: nat)
    requires |t| > 0 && j < |t| && r < Total(t)
    ensures PickIndex(t, r) == j <==> Cumulative(t, j) <= r < Cumulative(t, j + 1)
  {
    var i := PickIndex(t, r);
    if i < j {
      CumulativeMonotone(t, i + 1, j);
    } else if j < i {
      CumulativeMonotone(t, j + 1, i);
    }
  }

  /** The clover name a draw selects from the table. */
  function Pick(r: nat): (name: string)
    ensures IsName(Table, name)
  {
    Table[PickIndex(Table, r)].name
  }

  lemma TableFacts()
    ensures |Table| == 5
    ensures Total(Table) == 21
    ensures forall i :: 0 <= i < |Table| ==> Table[i].weight > 0
    ensures forall i, j :: 0 <= i < j < |Table| ==> Table[i].weight > Table[j].weight
    ensures forall i, j :: 0 <= i < j < |Table| ==> Table[i].name != Table[j].name
  {
  }

  /** The set of draws below `hi` that a bucket receives. */
  function DrawsOf(t: seq<Clover>, j: nat, hi: nat): set<nat>
    requires |t| > 0
  {
    set r: nat | r < hi && PickIndex(t, r) == j
  }

  /** The draws `lo`, `lo + 1`, ..., `hi - 1`. */
  function Interval(lo: nat, hi: nat): (s: set<nat>)
    ensures forall r :: r in s <==> lo <= r < hi
    ensures lo <= hi ==> |s| == hi - lo
    decreases hi
  {
    if hi <= lo then {} else Interval(lo, hi - 1) + {hi - 1}
  }

  /** Each clover is selected by exactly as many of the equally likely
      draws as its weight: the choice follows the table's proportions. */
  lemma BucketWidth(t: seq<Clover>, j: nat)
    requires j < |t|
    ensures |DrawsOf(t, j, Total(t))| == t[j].weight
  {
    var lo, hi := Cumulative(t, j), Cumulative(t, j + 1);
    CumulativeMonotone(t, j + 1, |t|);
    forall r: nat | r < Total(t)
      ensures PickIndex(t, r) == j <==> lo <= r < hi
    {
      PickIndexUnique(t, r, j);
    }
    assert DrawsOf(t, j, Total(t)) == Interval(lo, hi);
  }

  /** Every clover of the table can be drawn, and a rarer clover receives
      strictly fewer draws than a more common one. */
  lemma EveryCloverSelectable(j: nat)
    requires j < |Table|
    ensures exists r: nat :: r < Total(Table) && Pick(r) == Table[j].name
    ensures 0 < j ==> |DrawsOf(Table, j, 21)| < |DrawsOf(Table, j - 1, 21)|
  {
    TableFacts();
    var r := Cumulative(Table, j);
    CumulativeMonotone(Table, j + 1, |Table|);
    PickIndexUnique(Table, r, j);
    assert Pick(r) == Table[j].name;
    BucketWidth(Table, j);
    if 0 < j {
      BucketWidth(Table, j - 1);
    }
  }
}
