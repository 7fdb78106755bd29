/** The admission-request lifecycle as functions of the stored tables: what
    each controller replies and what the two tables hold afterwards. The
    store's methods (module Registry) are proved to follow these functions;
    the lemmas below state what the controllers promise. */
module Lifecycle {
  import opened Schema
  import opened Models
  import Clovers

  /** The controllers' replies; `Code` is the HTTP status each is sent with. */
  datatype Reply =
    | Created
    | Updated
    | Deleted
    | Approved(grimorio: string)
    | Rejected
    | ValidationError
    | NotPending
    | InvalidStatus
    | AlreadyRejected
    | AlreadyApproved
    | NotFound
    | DuplicateIdentity
  {
    function Code(): (code: int)
      ensures code == 200 || code == 201 || code == 400 || code == 404 || code == 409
      ensures code == 200 <==> this.Updated? || this.Deleted? || this.Approved? || this.Rejected?
      ensures code == 201 <==> this.Created?
      ensures code == 404 <==> this.NotFound?
      ensures code == 409 <==> this.DuplicateIdentity?
    {
      match this
      case Created => 201
      case Updated => 200
      case Deleted => 200
      case Approved(_) => 200
      case Rejected => 200
      case ValidationError => 400
      case NotPending => 400
      case InvalidStatus => 400
      case AlreadyRejected => 400
      case AlreadyApproved => 400
      case NotFound => 404
      case DuplicateIdentity => 409
    }
  }

  /** The two tables, in storage order, and the next primary keys. */
  datatype DB = DB(apps: seq<Application>, grims: seq<Grimorio>, nextId: nat, nextGrimId: nat)

  datatype Outcome = Outcome(reply: Reply, db: DB)

  /** A freshly created database: both tables empty, keys start at 1. */
  const Empty: DB := DB([], [], 1, 1)

  // ---------------------------------------------------------------------
  // Invariants of the stored tables
  // ---------------------------------------------------------------------

  /** The unique constraint on `identity`. */
  predicate UniqueIdentities(apps: seq<Application>) {
    forall i, j :: 0 <= i < j < |apps| ==> apps[i].identity != apps[j].identity
  }

  /** Whether some stored application has this identity. */
  predicate IdentityStored(apps: seq<Application>, identity: string) {
    exists i :: 0 <= i < |apps| && apps[i].identity == identity
  }

  /** Primary keys are positive, below the next key, and ascend in storage order. */
  predicate KeysAscend(apps: seq<Application>, nextId: nat) {
    && 0 < nextId
    && (forall i :: 0 <= i < |apps| ==> 0 < apps[i].id < nextId)
    && (forall i, j :: 0 <= i < j < |apps| ==> apps[i].id < apps[j].id)
  }

  predicate GrimorioKeysAscend(grims: seq<Grimorio>, nextGrimId: nat) {
    && 0 < nextGrimId
    && (forall k :: 0 <= k < |grims| ==> 0 < grims[k].id < nextGrimId)
    && (forall k, l :: 0 <= k < l < |grims| ==> grims[k].id < grims[l].id)
  }

  predicate Inv(db: DB) {
    && UniqueIdentities(db.apps)
    && KeysAscend(db.apps, db.nextId)
    && (forall i :: 0 <= i < |db.apps| ==> WellFormed(db.apps[i]))
    && GrimorioKeysAscend(db.grims, db.nextGrimId)
  }

  /** Monotone status: a record that has left `Pending` is never changed
      again, neither its status nor any other field. */
  predicate Frozen(db: DB, db': DB) {
    forall i, j ::
      (0 <= i < |db.apps| && 0 <= j < |db'.apps| &&
       db.apps[i].status != Pending && db'.apps[j].id == db.apps[i].id) ==>
      db'.apps[j] == db.apps[i]
  }

  // ---------------------------------------------------------------------
  // Queries on the tables
  // ---------------------------------------------------------------------

  /** The first element satisfying `p`, as a query's `.first()` returns it. */
  function FirstIndex<T>(s: seq<T>, p: T -> bool): (r: Option<nat>)
    ensures r.Some? ==> r.value < |s| && p(s[r.value])
    ensures r.Some? ==> forall j :: 0 <= j < r.value ==> !p(s[j])
    ensures r.None? ==> forall j :: 0 <= j < |s| ==> !p(s[j])
  {
    if |s| == 0 then None
    else if p(s[0]) then Some(0)
    else match FirstIndex(s[1..], p)
      case None => None
      case Some(k) => Some(k + 1)
  }

  /** The primary-key lookup the routes perform before each controller. */
  function FindById(apps: seq<Application>, id: int): (r: Option<nat>)
    ensures r.Some? ==> r.value < |apps| && apps[r.value].id == id
    ensures r.None? ==> forall j :: 0 <= j < |apps| ==> apps[j].id != id
  {
    FirstIndex(apps, (a: Application) => a.id == id)
  }

  function FindByIdentity(apps: seq<Application>, identity: string): (r: Option<nat>)
    ensures r.Some? ==> r.value < |apps| && apps[r.value].identity == identity
    ensures r.Some? ==> forall j :: 0 <= j < r.value ==> apps[j].identity != identity
    ensures r.None? ==> forall j :: 0 <= j < |apps| ==> apps[j].identity != identity
  {
    FirstIndex(apps, (a: Application) => a.identity == identity)
  }

  function FindByAssignment(grims: seq<Grimorio>, key: string): (r: Option<nat>)
    ensures r.Some? ==> r.value < |grims| && grims[r.value].assignment == key
    ensures r.Some? ==> forall j :: 0 <= j < r.value ==> grims[j].assignment != key
    ensures r.None? ==> forall j :: 0 <= j < |grims| ==> grims[j].assignment != key
  {
    FirstIndex(grims, (g: Grimorio) => g.assignment == key)
  }

  function RemoveAt<T>(s: seq<T>, i: nat): seq<T>
    requires i < |s|
  {
    s[..i] + s[i + 1..]
  }

  /** The decimal text of a key, as the text column `assignment` compares
      with an integer key: `7` reads as "7". */
  function DecimalText(n: nat): (t: string)
    ensures |t| >= 1
    ensures forall k :: 0 <= k < |t| ==> '0' <= t[k] <= '9'
    ensures DigitsValue(t) == n
    ensures |t| == 1 || t[0] != '0'
  {
    if n < 10 then [['0', '1', '2', '3', '4', '5', '6', '7', '8', '9'][n]]
    else
      var hi, lo := DecimalText(n / 10), DecimalText(n % 10);
      assert (hi + lo)[..|hi + lo| - 1] == hi;
      hi + lo
  }

  /** The number a text of decimal digits denotes, most significant first. */
  function DigitsValue(t: string): nat
    requires forall k :: 0 <= k < |t| ==> '0' <= t[k] <= '9'
  {
    if t == [] then 0
    else 10 * DigitsValue(t[..|t| - 1]) + (t[|t| - 1] as int - '0' as int)
  }

  /** How many Grimorios are keyed by `key`. */
  function AssignedTo(grims: seq<Grimorio>, key: string): nat {
    if grims == [] then 0
    else AssignedTo(grims[..|grims| - 1], key) + (if grims[|grims| - 1].assignment == key then 1 else 0)
  }

  // ---------------------------------------------------------------------
  // The controllers
  // ---------------------------------------------------------------------

  /** The record a valid payload creates, with the default status. */
  function Submitted(id: nat, p: Payload): Application
    requires ValidPayload(p)
  {
    Application(id, p.nombre.value.s, p.apellido.value.s, p.identificacion.value.s,
                AgeOf(p.edad.value), p.afinidadMagica.value.s, Pending)
  }

  /** The record after an accepted edit: name, last name, age and affinity
      are overwritten; the identity is never written. */
  function Edited(a: Application, p: Payload): Application
    requires ValidPayload(p)
  {
    a.(name := p.nombre.value.s, lastname := p.apellido.value.s,
       age := AgeOf(p.edad.value), magicalAffinity := p.afinidadMagica.value.s)
  }

  /** `create_application`. */
  function Create(db: DB, p: Payload): (o: Outcome)
    ensures o.reply == Created || o.reply == ValidationError || o.reply == DuplicateIdentity
    ensures o.reply != Created ==> o.db == db
    ensures o.reply == Created ==>
      && |o.db.apps| == |db.apps| + 1 && o.db.apps[..|db.apps|] == db.apps
      && o.db.apps[|db.apps|].id == db.nextId && o.db.apps[|db.apps|].status == Pending
    ensures o.db.grims == db.grims
  {
    if !ValidPayload(p) then Outcome(ValidationError, db)
    else if FindByIdentity(db.apps, p.identificacion.value.s).Some? then Outcome(DuplicateIdentity, db)
    else Outcome(Created, db.(apps := db.apps + [Submitted(db.nextId, p)], nextId := db.nextId + 1))
  }

  /** The route's lookup, then `update_application`. */
  function Update(db: DB, id: int, p: Payload): (o: Outcome)
    ensures o.reply in {NotFound, ValidationError, NotPending, DuplicateIdentity, Updated}
    ensures o.reply != Updated ==> o.db == db
    ensures o.db.grims == db.grims && o.db.nextId == db.nextId && |o.db.apps| == |db.apps|
    ensures forall k :: 0 <= k < |db.apps| ==>
      o.db.apps[k].id == db.apps[k].id && o.db.apps[k].identity == db.apps[k].identity
  {
    match FindById(db.apps, id)
    case None => Outcome(NotFound, db)
    case Some(i) =>
      if !ValidPayload(p) then Outcome(ValidationError, db)
      else if db.apps[i].status != Pending then Outcome(NotPending, db)
      else if p.identificacion.value.s != db.apps[i].identity &&
              FindByIdentity(db.apps, p.identificacion.value.s).Some?
      then Outcome(DuplicateIdentity, db)
      else Outcome(Updated, db.(apps := db.apps[i := Edited(db.apps[i], p)]))
  }

  /** The route's lookup, then `delete_application`: the first Grimorio whose
      `assignment` equals the record's integer key, read as text, goes with
      the record. */
  function Delete(db: DB, id: int): (o: Outcome)
    ensures o.reply == Deleted || o.reply == NotFound
    ensures o.reply == NotFound ==> o.db == db
    ensures o.reply == Deleted ==>
      |o.db.apps| == |db.apps| - 1 && |db.grims| - 1 <= |o.db.grims| <= |db.grims|
    ensures o.db.nextId == db.nextId && o.db.nextGrimId == db.nextGrimId
  {
    match FindById(db.apps, id)
    case None => Outcome(NotFound, db)
    case Some(i) =>
      var grims := match FindByAssignment(db.grims, DecimalText(db.apps[i].id))
        case None => db.grims
        case Some(g) => RemoveAt(db.grims, g);
      Outcome(Deleted, db.(apps := RemoveAt(db.apps, i), grims := grims))
  }

  datatype Assignment = Assignment(name: string, db: DB)

  /** `assign_grimorio`: draws a clover and appends a Grimorio keyed by the
      application's identity, without looking for an earlier one. */
  function Assign(db: DB, a: Application, draw: nat): (r: Assignment)
    ensures Clovers.IsName(Clovers.Table, r.name)
    ensures r.db.apps == db.apps && r.db.nextId == db.nextId
    ensures |r.db.grims| == |db.grims| + 1 && r.db.grims[..|db.grims|] == db.grims
    ensures r.db.grims[|db.grims|].assignment == a.identity
  {
    var name := Clovers.Pick(draw);
    Assignment(name, db.(grims := db.grims + [Grimorio(db.nextGrimId, name, name, a.identity)],
                         nextGrimId := db.nextGrimId + 1))
  }

  /** The route's lookup, then `update_application_status`. */
  function SetStatus(db: DB, id: int, estatus: Option<Json>, draw: nat): (o: Outcome)
    ensures o.reply.Code() != 200 ==> o.db == db
    ensures o.reply.Code() == 200 || o.reply.Code() == 400 || o.reply.Code() == 404
    ensures |o.db.apps| == |db.apps| && o.db.nextId == db.nextId
    ensures forall k :: 0 <= k < |db.apps| ==>
      o.db.apps[k].id == db.apps[k].id && o.db.apps[k].identity == db.apps[k].identity
    ensures |o.db.grims| == |db.grims| + (if o.reply.Approved? then 1 else 0)
  {
    match FindById(db.apps, id)
    case None => Outcome(NotFound, db)
    case Some(i) =>
      if estatus != Some(JString("aprobada")) && estatus != Some(JString("rechazada")) then Outcome(InvalidStatus, db)
      else if db.apps[i].status == Rechazada then Outcome(AlreadyRejected, db)
      else if db.apps[i].status == Aprobada then Outcome(AlreadyApproved, db)
      else if estatus == Some(JString("aprobada")) then
        var granted := Assign(db, db.apps[i], draw);
        Outcome(Approved(granted.name),
                granted.db.(apps := db.apps[i := db.apps[i].(status := Aprobada)]))
      else Outcome(Rejected, db.(apps := db.apps[i := db.apps[i].(status := Rechazada)]))
  }

  /** `get_applications_info`: every record serialized, in storage order. */
  function ApplicationsInfo(db: DB): (r: seq<map<string, Json>>)
    ensures |r| == |db.apps|
    ensures forall i :: 0 <= i < |r| ==> DeserializeApplication(r[i]) == Some(db.apps[i])
  {
    seq(|db.apps|, i requires 0 <= i < |db.apps| => SerializeApplication(db.apps[i]))
  }

  /** One row of the assignment listing. */
  datatype AssignmentRow = AssignmentRow(
    nombre: string, apellido: string, identificacion: string,
    edad: int, afinidadMagica: string, grimorio: string)

  function RowOf(a: Application, g: Grimorio): AssignmentRow {
    AssignmentRow(a.name, a.lastname, a.identity, a.age, a.magicalAffinity, g.rarity)
  }

  /** The row one Grimorio contributes: none when no application has the
      identity it is keyed by. */
  function RowsFor(apps: seq<Application>, g: Grimorio): seq<AssignmentRow> {
    match FindByIdentity(apps, g.assignment)
    case None => []
    case Some(i) => [RowOf(apps[i], g)]
  }

  /** `get_assignments_info`: Grimorios joined with applications on identity,
      in Grimorio order. */
  function AssignmentsOf(apps: seq<Application>, grims: seq<Grimorio>): (rows: seq<AssignmentRow>)
    ensures |rows| <= |grims|
  {
    if grims == [] then []
    else AssignmentsOf(apps, grims[..|grims| - 1]) + RowsFor(apps, grims[|grims| - 1])
  }

  // ---------------------------------------------------------------------
  // What the controllers promise
  // ---------------------------------------------------------------------

  lemma EmptyInv()
    ensures Inv(Empty)
  {
  }

  /** Create answers 400 on a schema failure, 409 when the identity is
      taken, and otherwise 201 with exactly one appended `Pending` record
      carrying the payload's fields; only the 201 case changes anything. */
  lemma CreateOutcome(db: DB, p: Payload)
    ensures var o := Create(db, p);
      && (o.reply == ValidationError <==> !ValidPayload(p))
      && (o.reply == DuplicateIdentity <==> ValidPayload(p) && IdentityStored(db.apps, p.identificacion.value.s))
      && (o.reply == Created <==> ValidPayload(p) && !IdentityStored(db.apps, p.identificacion.value.s))
      && (o.reply != Created ==> o.db == db)
      && (o.reply == Created ==>
            && o.db.apps == db.apps + [Application(db.nextId, p.nombre.value.s, p.apellido.value.s,
                                                    p.identificacion.value.s, AgeOf(p.edad.value),
                                                    p.afinidadMagica.value.s, Pending)]
            && o.db.grims == db.grims)
  {
  }

  lemma CreatePreserves(db: DB, p: Payload)
    requires Inv(db)
    ensures Inv(Create(db, p).db) && Frozen(db, Create(db, p).db)
  {
  }

  /** With unique keys, the route's lookup finds the one record with the key. */
  lemma FindByIdExact(db: DB, i: nat)
    requires Inv(db) && i < |db.apps|
    ensures FindById(db.apps, db.apps[i].id) == Some(i)
  {
  }

  /** Update answers 404 for an unknown key; otherwise 400 on a schema
      failure, then 400 when the record is no longer pending, then 409 when
      the payload names another record's identity, and otherwise overwrites
      name, last name, age and affinity only. Every failure leaves the
      tables as they were. */
  lemma UpdateOutcome(db: DB, id: int, p: Payload)
    requires Inv(db)
    ensures var o := Update(db, id, p);
      && (o.reply == NotFound <==> forall i :: 0 <= i < |db.apps| ==> db.apps[i].id != id)
      && (o.reply != Updated ==> o.db == db)
      && forall i :: 0 <= i < |db.apps| && db.apps[i].id == id ==>
        && (o.reply == ValidationError <==> !ValidPayload(p))
        && (o.reply == NotPending <==> ValidPayload(p) && db.apps[i].status != Pending)
        && (o.reply == DuplicateIdentity <==>
              && ValidPayload(p) && db.apps[i].status == Pending
              && p.identificacion.value.s != db.apps[i].identity
              && IdentityStored(db.apps, p.identificacion.value.s))
        && (o.reply == Updated <==>
              && ValidPayload(p) && db.apps[i].status == Pending
              && !(p.identificacion.value.s != db.apps[i].identity
                   && IdentityStored(db.apps, p.identificacion.value.s)))
        && (o.reply == Updated ==>
              && o.db.apps == db.apps[i := db.apps[i].(name := p.nombre.value.s,
                                                       lastname := p.apellido.value.s,
                                                       age := AgeOf(p.edad.value),
                                                       magicalAffinity := p.afinidadMagica.value.s)]
              && o.db.apps[i].identity == db.apps[i].identity
              && o.db.apps[i].status == Pending
              && o.db.grims == db.grims)
  {
    forall i | 0 <= i < |db.apps| && db.apps[i].id == id {
      FindByIdExact(db, i);
    }
  }

  /** Replacing a record by one with the same key and identity keeps the
      invariant; replacing a pending one keeps every other record frozen. */
  lemma ReplaceKeeps(db: DB, i: nat, a: Application)
    requires Inv(db) && i < |db.apps|
    requires a.id == db.apps[i].id && a.identity == db.apps[i].identity && WellFormed(a)
    requires db.apps[i].status == Pending
    ensures Inv(db.(apps := db.apps[i := a]))
    ensures Frozen(db, db.(apps := db.apps[i := a]))
  {
    var apps' := db.apps[i := a];
    forall j, k | 0 <= j < k < |apps'|
      ensures apps'[j].id < apps'[k].id && apps'[j].identity != apps'[k].identity
    {
      assert apps'[j].id == db.apps[j].id && apps'[k].id == db.apps[k].id;
    }
  }

  lemma FrozenRefl(db: DB)
    requires Inv(db)
    ensures Frozen(db, db)
  {
  }

  lemma UpdatePreserves(db: DB, id: int, p: Payload)
    requires Inv(db)
    ensures Inv(Update(db, id, p).db) && Frozen(db, Update(db, id, p).db)
  {
    var o := Update(db, id, p);
    if o.reply == Updated {
      var i := FindById(db.apps, id).value;
      ReplaceKeeps(db, i, Edited(db.apps[i], p));
    } else {
      FrozenRefl(db);
    }
  }


  // --- counting Grimorios per key ---

  lemma {:induction false} AssignedToConcat(a: seq<Grimorio>, b: seq<Grimorio>, key: string)
    ensures AssignedTo(a + b, key) == AssignedTo(a, key) + AssignedTo(b, key)
    decreases |b|
  {
    if b == [] {
      assert a + b == a;
    } else {
      AssignedToConcat(a, b[..|b| - 1], key);
      assert (a + b)[..|a + b| - 1] == a + b[..|b| - 1];
    }
  }

  lemma AssignedToRemove(s: seq<Grimorio>, g: nat, key: string)
    requires g < |s|
    ensures AssignedTo(RemoveAt(s, g), key) == AssignedTo(s, key) - (if s[g].assignment == key then 1 else 0)
  {
    assert s == s[..g] + [s[g]] + s[g + 1..];
    AssignedToConcat(s[..g] + [s[g]], s[g + 1..], key);
    AssignedToConcat(s[..g], [s[g]], key);
    AssignedToConcat(s[..g], s[g + 1..], key);
    assert [s[g]][..0] == [];
  }

  // --- delete ---

  lemma RemoveKeeps(db: DB, i: nat, grims': seq<Grimorio>)
    requires Inv(db) && i < |db.apps|
    requires GrimorioKeysAscend(grims', db.nextGrimId)
    ensures Inv(db.(apps := RemoveAt(db.apps, i), grims := grims'))
    ensures Frozen(db, db.(apps := RemoveAt(db.apps, i), grims := grims'))
  {
    var apps' := RemoveAt(db.apps, i);
    assert forall j :: 0 <= j < |apps'| ==> apps'[j] == db.apps[if j < i then j else j + 1];
  }

  lemma RemoveGrimorioKeeps(grims: seq<Grimorio>, g: nat, next: nat)
    requires GrimorioKeysAscend(grims, next) && g < |grims|
    ensures GrimorioKeysAscend(RemoveAt(grims, g), next)
  {
    var grims' := RemoveAt(grims, g);
    assert forall k :: 0 <= k < |grims'| ==> grims'[k] == grims[if k < g then k else k + 1];
  }

  /** Delete answers 404 for an unknown key; otherwise it removes exactly
      that record and, of the Grimorios, only the first whose `assignment`
      is the record's key written in decimal (none when there is none). */
  lemma DeleteOutcome(db: DB, id: int)
    requires Inv(db)
    ensures var o := Delete(db, id);
      && (o.reply == NotFound <==> forall i :: 0 <= i < |db.apps| ==> db.apps[i].id != id)
      && (o.reply == NotFound ==> o.db == db)
      && forall i :: 0 <= i < |db.apps| && db.apps[i].id == id ==>
        && o.reply == Deleted
        && o.db.apps == RemoveAt(db.apps, i)
        && ((forall g :: 0 <= g < |db.grims| ==> db.grims[g].assignment != DecimalText(db.apps[i].id)) ==>
              o.db.grims == db.grims)
        && (forall g :: (0 <= g < |db.grims| && db.grims[g].assignment == DecimalText(db.apps[i].id) &&
                         forall h :: 0 <= h < g ==> db.grims[h].assignment != DecimalText(db.apps[i].id)) ==>
              o.db.grims == RemoveAt(db.grims, g))
  {
    forall i | 0 <= i < |db.apps| && db.apps[i].id == id
      ensures FindById(db.apps, id) == Some(i)
    {
      FindByIdExact(db, i);
    }
  }

  lemma DeletePreserves(db: DB, id: int)
    requires Inv(db)
    ensures Inv(Delete(db, id).db) && Frozen(db, Delete(db, id).db)
  {
    match FindById(db.apps, id)
    case None =>
      FrozenRefl(db);
    case Some(i) =>
      var o := Delete(db, id);
      assert o.db.apps == RemoveAt(db.apps, i);
      assert o.db.nextId == db.nextId && o.db.nextGrimId == db.nextGrimId;
      match FindByAssignment(db.grims, DecimalText(db.apps[i].id))
      case None =>
        assert o.db.grims == db.grims;
        RemoveKeeps(db, i, db.grims);
      case Some(g) =>
        assert o.db.grims == RemoveAt(db.grims, g);
        RemoveGrimorioKeeps(db.grims, g, db.nextGrimId);
        RemoveKeeps(db, i, RemoveAt(db.grims, g));
  }

  /** Delete removes at most one Grimorio, and none keyed by anything other
      than the record's key in decimal. */
  lemma DeleteCounts(db: DB, id: int, key: string)
    requires Inv(db)
    ensures |Delete(db, id).db.grims| >= |db.grims| - 1
    ensures (forall i :: 0 <= i < |db.apps| && db.apps[i].id == id ==> key != DecimalText(db.apps[i].id)) ==>
      AssignedTo(Delete(db, id).db.grims, key) == AssignedTo(db.grims, key)
  {
    match FindById(db.apps, id)
    case None =>
    case Some(i) =>
      match FindByAssignment(db.grims, DecimalText(db.apps[i].id))
      case None =>
      case Some(g) =>
        AssignedToRemove(db.grims, g, key);
  }

  /** Delete does not cascade to the record's Grimorio: Grimorios are keyed
      by identity while the delete looks them up by the integer key, so when
      the identity has a character other than a digit, every Grimorio keyed
      by it survives the deletion of its record. */
  lemma DeleteLeavesGrimorios(db: DB, i: nat)
    requires Inv(db) && i < |db.apps|
    requires exists k :: 0 <= k < |db.apps[i].identity| && !('0' <= db.apps[i].identity[k] <= '9')
    ensures Delete(db, db.apps[i].id).reply == Deleted
    ensures AssignedTo(Delete(db, db.apps[i].id).db.grims, db.apps[i].identity) ==
            AssignedTo(db.grims, db.apps[i].identity)
  {
    FindByIdExact(db, i);
    DeleteCounts(db, db.apps[i].id, db.apps[i].identity);
  }

  // --- grimoire assignment and status change ---

  /** Assign appends exactly one Grimorio, named after a clover of the table
      in both `clover_type` and `rarity` and keyed by the application's
      identity; it leaves the applications and earlier Grimorios alone, and
      it adds a Grimorio for that identity whatever is already there. */
  lemma AssignOutcome(db: DB, a: Application, draw: nat)
    ensures var r := Assign(db, a, draw);
      && Clovers.IsName(Clovers.Table, r.name)
      && r.db.grims == db.grims + [Grimorio(db.nextGrimId, r.name, r.name, a.identity)]
      && r.db.apps == db.apps
      && AssignedTo(r.db.grims, a.identity) == AssignedTo(db.grims, a.identity) + 1
  {
    var r := Assign(db, a, draw);
    assert r.db.grims[..|r.db.grims| - 1] == db.grims;
  }

  /** No uniqueness check: assigning twice yields two more Grimorios for the
      same identity. */
  lemma AssignTwice(db: DB, a: Application, first: nat, second: nat)
    ensures var db' := Assign(Assign(db, a, first).db, a, second).db;
      AssignedTo(db'.grims, a.identity) == AssignedTo(db.grims, a.identity) + 2
  {
    AssignOutcome(db, a, first);
    AssignOutcome(Assign(db, a, first).db, a, second);
  }

  lemma AssignPreserves(db: DB, a: Application, draw: nat)
    requires Inv(db)
    ensures Inv(Assign(db, a, draw).db) && Frozen(db, Assign(db, a, draw).db)
  {
    FrozenRefl(db);
  }

  /** SetStatus answers 404 for an unknown key; then 400 for a missing or
      unknown target status, then 400 when the record is already rejected
      or approved; these leave the tables as they were. Approving a pending
      record adds exactly one Grimorio for its identity and marks it
      `'aprobada'`; rejecting marks it `'rechazada'` and adds nothing. */
  lemma SetStatusOutcome(db: DB, id: int, estatus: Option<Json>, draw: nat)
    requires Inv(db)
    ensures var o := SetStatus(db, id, estatus, draw);
      && (o.reply == NotFound <==> forall i :: 0 <= i < |db.apps| ==> db.apps[i].id != id)
      && (o.reply.Code() != 200 ==> o.db == db)
      && forall i :: 0 <= i < |db.apps| && db.apps[i].id == id ==>
        && (o.reply == InvalidStatus <==>
              estatus != Some(JString("aprobada")) && estatus != Some(JString("rechazada")))
        && (o.reply == AlreadyRejected <==>
              (estatus == Some(JString("aprobada")) || estatus == Some(JString("rechazada")))
              && db.apps[i].status == Rechazada)
        && (o.reply == AlreadyApproved <==>
              (estatus == Some(JString("aprobada")) || estatus == Some(JString("rechazada")))
              && db.apps[i].status == Aprobada)
        && (o.reply.Approved? <==> estatus == Some(JString("aprobada")) && db.apps[i].status == Pending)
        && (o.reply == Rejected <==> estatus == Some(JString("rechazada")) && db.apps[i].status == Pending)
        && (o.reply.Approved? ==>
              && o.reply.grimorio == Clovers.Pick(draw)
              && Clovers.IsName(Clovers.Table, o.reply.grimorio)
              && o.db.apps == db.apps[i := db.apps[i].(status := Aprobada)]
              && o.db.grims == db.grims + [Grimorio(db.nextGrimId, o.reply.grimorio, o.reply.grimorio,
                                                    db.apps[i].identity)])
        && (o.reply == Rejected ==>
              o.db.apps == db.apps[i := db.apps[i].(status := Rechazada)] && o.db.grims == db.grims)
  {
    forall i | 0 <= i < |db.apps| && db.apps[i].id == id
      ensures FindById(db.apps, id) == Some(i)
    {
      FindByIdExact(db, i);
    }
  }

  lemma SetStatusPreserves(db: DB, id: int, estatus: Option<Json>, draw: nat)
    requires Inv(db)
    ensures Inv(SetStatus(db, id, estatus, draw).db) && Frozen(db, SetStatus(db, id, estatus, draw).db)
  {
    var o := SetStatus(db, id, estatus, draw);
    if o.reply.Approved? {
      var i := FindById(db.apps, id).value;
      var db1 := Assign(db, db.apps[i], draw).db;
      AssignPreserves(db, db.apps[i], draw);
      ReplaceKeeps(db1, i, db.apps[i].(status := Aprobada));
      assert o.db == db1.(apps := db1.apps[i := db.apps[i].(status := Aprobada)]);
    } else if o.reply == Rejected {
      var i := FindById(db.apps, id).value;
      ReplaceKeeps(db, i, db.apps[i].(status := Rechazada));
    } else {
      FrozenRefl(db);
    }
  }

  /** Both `'aprobada'` and `'rechazada'` are terminal: from then on every
      status change and every edit of that record answers 400 and changes
      nothing. */
  lemma TerminalIsFinal(db: DB, i: nat, estatus: Option<Json>, draw: nat, p: Payload)
    requires Inv(db) && i < |db.apps| && db.apps[i].status != Pending
    ensures SetStatus(db, db.apps[i].id, estatus, draw).reply.Code() == 400
    ensures SetStatus(db, db.apps[i].id, estatus, draw).db == db
    ensures Update(db, db.apps[i].id, p).reply.Code() == 400
    ensures Update(db, db.apps[i].id, p).db == db
  {
    FindByIdExact(db, i);
  }

  // --- the assignment listing ---

  /** The listing of a concatenation is the concatenation of the listings:
      the join keeps Grimorio order. */
  lemma {:induction false} AssignmentsAppend(apps: seq<Application>, g1: seq<Grimorio>, g2: seq<Grimorio>)
    ensures AssignmentsOf(apps, g1 + g2) == AssignmentsOf(apps, g1) + AssignmentsOf(apps, g2)
    decreases |g2|
  {
    if g2 == [] {
      assert g1 + g2 == g1;
    } else {
      var init, last := g2[..|g2| - 1], g2[|g2| - 1];
      var all := g1 + g2;
      assert all[..|all| - 1] == g1 + init && all[|all| - 1] == last;
      calc {
        AssignmentsOf(apps, all);
        AssignmentsOf(apps, g1 + init) + RowsFor(apps, last);
        { AssignmentsAppend(apps, g1, init); }
        AssignmentsOf(apps, g1) + AssignmentsOf(apps, init) + RowsFor(apps, last);
        AssignmentsOf(apps, g1) + (AssignmentsOf(apps, init) + RowsFor(apps, last));
        AssignmentsOf(apps, g1) + AssignmentsOf(apps, g2);
      }
    }
  }

  /** A Grimorio keyed by an identity no application has is skipped,
      wherever it stands. */
  lemma AssignmentsSkipUnmatched(apps: seq<Application>, g1: seq<Grimorio>, g: Grimorio, g2: seq<Grimorio>)
    requires !IdentityStored(apps, g.assignment)
    ensures AssignmentsOf(apps, g1 + [g] + g2) == AssignmentsOf(apps, g1 + g2)
  {
    assert [g][..0] == [];
    AssignmentsAppend(apps, g1 + [g], g2);
    AssignmentsAppend(apps, g1, [g]);
    AssignmentsAppend(apps, g1, g2);
  }

  /** When every Grimorio is keyed by a stored identity, the listing has one
      row per Grimorio, in Grimorio order, carrying that application's
      fields and the Grimorio's rarity. */
  lemma {:induction false} AssignmentsAllMatched(apps: seq<Application>, grims: seq<Grimorio>)
    requires UniqueIdentities(apps)
    requires forall k :: 0 <= k < |grims| ==> IdentityStored(apps, grims[k].assignment)
    ensures |AssignmentsOf(apps, grims)| == |grims|
    ensures forall k, i :: 0 <= k < |grims| && 0 <= i < |apps| && apps[i].identity == grims[k].assignment ==>
      AssignmentsOf(apps, grims)[k] == RowOf(apps[i], grims[k])
    decreases |grims|
  {
    if grims != [] {
      var n := |grims| - 1;
      var init := grims[..n];
      assert forall k :: 0 <= k < n ==> init[k] == grims[k];
      AssignmentsAllMatched(apps, init);
      var head := AssignmentsOf(apps, init);
      var found := FindByIdentity(apps, grims[n].assignment);
      assert IdentityStored(apps, grims[n].assignment);
      var j := found.value;
      assert AssignmentsOf(apps, grims) == head + [RowOf(apps[j], grims[n])];
      forall k, i | 0 <= k < |grims| && 0 <= i < |apps| && apps[i].identity == grims[k].assignment
        ensures AssignmentsOf(apps, grims)[k] == RowOf(apps[i], grims[k])
      {
        if k < n {
          assert init[k] == grims[k];
        } else {
          assert apps[j].identity == apps[i].identity;
        }
      }
    }
  }


  /** Every row of the listing comes from a Grimorio joined with the
      application whose identity it is keyed by. */
  lemma {:induction false} AssignmentsTrace(apps: seq<Application>, grims: seq<Grimorio>, k: nat)
    requires k < |AssignmentsOf(apps, grims)|
    ensures exists i, j ::
      && 0 <= i < |apps| && 0 <= j < |grims|
      && apps[i].identity == grims[j].assignment
      && AssignmentsOf(apps, grims)[k] == RowOf(apps[i], grims[j])
    decreases |grims|
  {
    var n := |grims| - 1;
    var init := grims[..n];
    var head := AssignmentsOf(apps, init);
    if k < |head| {
      AssignmentsTrace(apps, init, k);
      var i, j :| 0 <= i < |apps| && 0 <= j < |init| &&
        apps[i].identity == init[j].assignment && head[k] == RowOf(apps[i], init[j]);
      assert init[j] == grims[j];
    } else {
      var i := FindByIdentity(apps, grims[n].assignment).value;
      assert AssignmentsOf(apps, grims)[k] == RowOf(apps[i], grims[n]);
    }
  }

  // --- a whole lifecycle ---

  /** Creating a request with a fresh identity and approving it appends the
      approved record and one Grimorio for its identity. */
  lemma CreateThenApprove(db: DB, p: Payload, draw: nat)
    requires Inv(db) && ValidPayload(p)
    requires !IdentityStored(db.apps, p.identificacion.value.s)
    ensures
      var s1 := Create(db, p);
      var s2 := SetStatus(s1.db, db.nextId, Some(JString("aprobada")), draw);
      && s1.reply == Created && s2.reply.Approved? && Inv(s2.db)
      && s2.db.apps == db.apps + [Submitted(db.nextId, p).(status := Aprobada)]
      && s2.db.nextId == db.nextId + 1
      && AssignedTo(s2.db.grims, p.identificacion.value.s) == AssignedTo(db.grims, p.identificacion.value.s) + 1
  {
    var identity := p.identificacion.value.s;
    var n := |db.apps|;
    var s1 := Create(db, p);
    CreateOutcome(db, p);
    CreatePreserves(db, p);
    assert s1.db.apps == db.apps + [Submitted(db.nextId, p)];
    var s2 := SetStatus(s1.db, db.nextId, Some(JString("aprobada")), draw);
    FindByIdExact(s1.db, n);
    assert s2.reply.Approved?;
    AssignOutcome(s1.db, s1.db.apps[n], draw);
    SetStatusPreserves(s1.db, db.nextId, Some(JString("aprobada")), draw);
  }

  /** Approving, deleting, re-creating and re-approving a request whose
      identity holds a letter leaves two more Grimorios for that identity:
      the delete never finds the first Grimorio, and nothing checks for an
      earlier one. So "at most one Grimorio per request" and "deleting a
      request deletes its Grimorio" do not hold of these controllers. */
  lemma ReapprovalDuplicatesGrimorio(db: DB, p: Payload, first: nat, second: nat)
    requires Inv(db) && ValidPayload(p)
    requires !IdentityStored(db.apps, p.identificacion.value.s)
    requires exists k :: 0 <= k < |p.identificacion.value.s| && !('0' <= p.identificacion.value.s[k] <= '9')
    ensures
      var approve := Some(JString("aprobada"));
      var s2 := SetStatus(Create(db, p).db, db.nextId, approve, first);
      var s3 := Delete(s2.db, db.nextId);
      var s5 := SetStatus(Create(s3.db, p).db, s3.db.nextId, approve, second);
      && s3.reply == Deleted && s3.db.apps == db.apps
      && AssignedTo(s5.db.grims, p.identificacion.value.s) == AssignedTo(db.grims, p.identificacion.value.s) + 2
  {
    var approve := Some(JString("aprobada"));
    CreateThenApprove(db, p, first);
    var s2 := SetStatus(Create(db, p).db, db.nextId, approve, first);
    var n := |db.apps|;
    var s3 := Delete(s2.db, db.nextId);
    assert s2.db.apps[n].id == db.nextId;
    DeleteLeavesGrimorios(s2.db, n);
    DeleteOutcome(s2.db, db.nextId);
    DeletePreserves(s2.db, db.nextId);
    assert s3.db.apps == RemoveAt(s2.db.apps, n) == db.apps;
    CreateThenApprove(s3.db, p, second);
  }

  /** The request the repository's route tests submit, and its edit. */
  const Noelle: Payload := Payload(Some(JString("Noelle")), Some(JString("Silva")), Some(JString("ID123456")),
                                   Some(JInt(25)), Some(JString("Luz")))
  const NoelleEdit: Payload := Noelle.(edad := Some(JInt(30)), afinidadMagica := Some(JString("Agua")))

  /** The request the route tests work on, once created and then edited. */
  function NoelleSubmitted(): Application {
    Application(1, "Noelle", "Silva", "ID123456", 25, "Luz", Pending)
  }

  function NoelleEdited(): Application {
    NoelleSubmitted().(age := 30, magicalAffinity := "Agua")
  }

  /** The first half of the route tests' scenario, from an empty database,
      each step applied to the previous step's tables: the request is
      created (201) as a pending record with the payload's fields, created
      again (409, nothing changes), and edited (200, age and affinity
      replaced). */
  lemma RouteScenarioSubmit()
    ensures Create(Empty, Noelle) == Outcome(Created, DB([NoelleSubmitted()], [], 2, 1))
    ensures Create(DB([NoelleSubmitted()], [], 2, 1), Noelle)
         == Outcome(DuplicateIdentity, DB([NoelleSubmitted()], [], 2, 1))
    ensures Update(DB([NoelleSubmitted()], [], 2, 1), 1, NoelleEdit)
         == Outcome(Updated, DB([NoelleEdited()], [], 2, 1))
  {
    assert ValidPayload(Noelle) && ValidPayload(NoelleEdit);
    assert Submitted(1, Noelle) == NoelleSubmitted();
    assert Edited(NoelleSubmitted(), NoelleEdit) == NoelleEdited();
    assert FindByIdentity([NoelleSubmitted()], "ID123456").Some?;
    assert FindById([NoelleSubmitted()], 1) == Some(0);
  }

  /** The second half, continuing from the edited request: approval (200)
      grants the clover `draw` selects as one Grimorio for the identity, a
      later edit is refused (400, it is no longer pending, nothing changes),
      the listing is one row with the edited fields under that clover, and
      delete (200) leaves no request. */
  lemma RouteScenarioDecide(draw: nat)
    ensures
      var approved := NoelleEdited().(status := Aprobada);
      var name := Clovers.Pick(draw);
      var grimorio := Grimorio(1, name, name, "ID123456");
      && SetStatus(DB([NoelleEdited()], [], 2, 1), 1, Some(JString("aprobada")), draw)
         == Outcome(Approved(name), DB([approved], [grimorio], 2, 2))
      && Update(DB([approved], [grimorio], 2, 2), 1, NoelleEdit) == Outcome(NotPending, DB([approved], [grimorio], 2, 2))
      && AssignmentsOf([approved], [grimorio]) == [AssignmentRow("Noelle", "Silva", "ID123456", 30, "Agua", name)]
      && Delete(DB([approved], [grimorio], 2, 2), 1).reply == Deleted
      && Delete(DB([approved], [grimorio], 2, 2), 1).db.apps == []
  {
    var approved := NoelleEdited().(status := Aprobada);
    var name := Clovers.Pick(draw);
    var grimorio := Grimorio(1, name, name, "ID123456");
    assert ValidPayload(NoelleEdit);
    assert FindById([NoelleEdited()], 1) == Some(0);
    assert FindById([approved], 1) == Some(0);
    assert FindByIdentity([approved], "ID123456") == Some(0);
    assert [grimorio][..0] == [];
    assert AssignmentsOf([approved], [grimorio]) == RowsFor([approved], grimorio) == [RowOf(approved, grimorio)];
  }
}
