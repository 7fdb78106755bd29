/** The two stored record types of the admission service, `Application`
    (an admission request) and `Grimorio` (the artifact granted on
    approval), with their column bounds and their `serialize` views. */
module Models {
  import opened Schema

  /** The values the `status` column ever takes: the default `'Pending'`
      and the two targets of a status change, `'aprobada'` and `'rechazada'`. */
  datatype Status = Pending | Aprobada | Rechazada

  function StatusText(st: Status): string {
    match st
    case Pending => "Pending"
    case Aprobada => "aprobada"
    case Rechazada => "rechazada"
  }

  function ParseStatus(t: string): (r: Option<Status>)
    ensures forall st :: r == Some(st) <==> StatusText(st) == t
  {
    if t == "Pending" then Some(Pending)
    else if t == "aprobada" then Some(Aprobada)
    else if t == "rechazada" then Some(Rechazada)
    else None
  }

  /** One admission request. `created_at` is not modelled. */
  datatype Application = Application(
    id: nat,
    name: string,
    lastname: string,
    identity: string,
    age: int,
    magicalAffinity: string,
    status: Status)

  /** One granted artifact. `rarity` holds the clover name, as does
      `cloverType`; `assignment` holds the text it is keyed by. */
  datatype Grimorio = Grimorio(id: nat, cloverType: string, rarity: string, assignment: string)

  /** The declared widths of the string columns of `Application`. */
  predicate FitsColumns(a: Application) {
    |a.name| <= 20 && |a.lastname| <= 20 && |a.identity| <= 10 && |a.magicalAffinity| <= 20
  }

  /** A record whose fields all come from a payload that passed the schema. */
  predicate WellFormed(a: Application) {
    && ValidNameText(a.name)
    && ValidNameText(a.lastname)
    && ValidIdentityText(a.identity)
    && 0 <= a.age <= 99
    && ValidAffinityText(a.magicalAffinity)
  }

  /** The schema keeps every stored record within its column widths. */
  lemma WellFormedFitsColumns(a: Application)
    requires WellFormed(a)
    ensures FitsColumns(a)
  {
  }

  /** `Application.serialize`: exactly the seven keys below; `created_at`
      is left out. The dictionary carries the whole record back. */
  function SerializeApplication(a: Application): (m: map<string, Json>)
    ensures m.Keys == {"id", "name", "lastname", "identity", "age", "magical_affinity", "status"}
    ensures "created_at" !in m
    ensures DeserializeApplication(m) == Some(a)
  {
    map[
      "id" := JInt(a.id),
      "name" := JString(a.name),
      "lastname" := JString(a.lastname),
      "identity" := JString(a.identity),
      "age" := JInt(a.age),
      "magical_affinity" := JString(a.magicalAffinity),
      "status" := JString(StatusText(a.status))]
  }

  /** Reads an `Application` back from its serialized dictionary. */
  function DeserializeApplication(m: map<string, Json>): Option<Application> {
    if && "id" in m && m["id"].JInt? && m["id"].i >= 0
       && "name" in m && m["name"].JString?
       && "lastname" in m && m["lastname"].JString?
       && "identity" in m && m["identity"].JString?
       && "age" in m && m["age"].JInt?
       && "magical_affinity" in m && m["magical_affinity"].JString?
       && "status" in m && m["status"].JString?
       && ParseStatus(m["status"].s).Some?
    then
      Some(Application(m["id"].i, m["name"].s, m["lastname"].s, m["identity"].s,
                       m["age"].i, m["magical_affinity"].s, ParseStatus(m["status"].s).value))
    else None
  }

  /** `Grimorio.serialize`: exactly id, clover_type, rarity and assignment. */
  function SerializeGrimorio(g: Grimorio): (m: map<string, Json>)
    ensures m.Keys == {"id", "clover_type", "rarity", "assignment"}
    ensures DeserializeGrimorio(m) == Some(g)
  {
    map[
      "id" := JInt(g.id),
      "clover_type" := JString(g.cloverType),
      "rarity" := JString(g.rarity),
      "assignment" := JString(g.assignment)]
  }

  function DeserializeGrimorio(m: map<string, Json>): Option<Grimorio> {
    if && "id" in m && m["id"].JInt? && m["id"].i >= 0
       && "clover_type" in m && m["clover_type"].JString?
       && "rarity" in m && m["rarity"].JString?
       && "assignment" in m && m["assignment"].JString?
    then Some(Grimorio(m["id"].i, m["clover_type"].s, m["rarity"].s, m["assignment"].s))
    else None
  }
}
