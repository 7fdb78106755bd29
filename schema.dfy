/** The request-payload validator of the admission service: the JSON schema
    `solicitud_schema` that both the create and the update controller apply
    before touching the store. */
module Schema {

  datatype Option<T> = None | Some(value: T)

  /** The JSON values a payload field can hold, as far as the schema tells
      them apart. `JFloat` is any JSON number with a fraction or exponent;
      `JOther` is null, a boolean, an array or an object. */
  datatype Json = JString(s: string) | JInt(i: int) | JFloat(r: real) | JOther

  /** The five fields the schema knows, each absent (`None`) or present.
      Further keys of the request object are allowed and ignored. */
  datatype Payload = Payload(
    nombre: Option<Json>,
    apellido: Option<Json>,
    identificacion: Option<Json>,
    edad: Option<Json>,
    afinidadMagica: Option<Json>)

  const Affinities: seq<string> := ["Oscuridad", "Luz", "Fuego", "Agua", "Viento", "Tierra"]

  /** The character class `[a-zA-zñÑ]`. The range `A-z` runs from code 65 to
      code 122, so it also admits `[ \ ] ^ _` and the backtick. */
  predicate InNameClass(c: char) {
    ('a' <= c <= 'z') || ('A' <= c <= 'z') || c == 'ñ' || c == 'Ñ'
  }

  /** The character class `[0-9a-zA-z]`, with the same wide `A-z` range. */
  predicate InIdentityClass(c: char) {
    ('0' <= c <= '9') || ('a' <= c <= 'z') || ('A' <= c <= 'z')
  }

  predicate AllIn(s: string, inClass: char -> bool) {
    forall k :: 0 <= k < |s| ==> inClass(s[k])
  }

  /** Whether a pattern `^[class]*$` is found in `s` by a regular-expression
      search: `$` matches at the very end and also just before one final
      newline, so a string made of class characters followed by "\n" passes. */
  predicate Matches(s: string, inClass: char -> bool) {
    AllIn(s, inClass) || (|s| > 0 && s[|s| - 1] == '\n' && AllIn(s[..|s| - 1], inClass))
  }

  predicate ValidNameText(s: string) {
    1 <= |s| <= 20 && Matches(s, InNameClass)
  }

  predicate ValidIdentityText(s: string) {
    1 <= |s| <= 10 && Matches(s, InIdentityClass)
  }

  predicate ValidAge(v: Json) {
    match v
    case JInt(i) => 0 <= i <= 99
    case JFloat(r) => r == r.Floor as real && 0.0 <= r <= 99.0
    case _ => false
  }

  predicate ValidField(f: Option<Json>, valid: string -> bool) {
    f.Some? && f.value.JString? && valid(f.value.s)
  }

  predicate ValidAffinityText(s: string) {
    s in Affinities
  }

  /** The schema: all five fields are required, each of its type and within
      its bounds. */
  function ValidPayload(p: Payload): (ok: bool)
    ensures ok ==>
      && p.nombre.Some? && p.apellido.Some? && p.identificacion.Some? && p.edad.Some? && p.afinidadMagica.Some?
      && p.nombre.value.JString? && 1 <= |p.nombre.value.s| <= 20
      && p.apellido.value.JString? && 1 <= |p.apellido.value.s| <= 20
      && p.identificacion.value.JString? && 1 <= |p.identificacion.value.s| <= 10
      && (p.edad.value.JInt? || p.edad.value.JFloat?)
      && p.afinidadMagica.value.JString? && p.afinidadMagica.value.s in Affinities
  {
    && ValidField(p.nombre, ValidNameText)
    && ValidField(p.apellido, ValidNameText)
    && ValidField(p.identificacion, ValidIdentityText)
    && p.edad.Some? && ValidAge(p.edad.value)
    && ValidField(p.afinidadMagica, ValidAffinityText)
  }

  /** The integer stored for a valid `edad`; an integral float such as 25.0
      passes the schema and is stored as the integer it denotes. */
  function AgeOf(v: Json): (age: int)
    requires ValidAge(v)
    ensures 0 <= age <= 99
    ensures v.JInt? ==> age == v.i
    ensures v.JFloat? ==> age as real == v.r
  {
    match v
    case JInt(i) => i
    case JFloat(r) => r.Floor
  }

  /** Boundary cases of the patterns and the bounds: the wide `A-z` range
      admits an underscore, one trailing newline slips through the `$`
      anchor, a digit is no name character, and 20 characters are the
      most a name may have. */
  lemma PatternCases()
    ensures ValidNameText("Noelle_")
    ensures ValidNameText("Noelle\n")
    ensures !ValidNameText("Noelle1")
    ensures !ValidNameText("")
    ensures ValidNameText("AbcdefghijAbcdefghij")
    ensures !ValidNameText("AbcdefghijAbcdefghijA")
    ensures ValidIdentityText("ID123456")
    ensures !ValidIdentityText("ID-123456")
    ensures !ValidIdentityText("ID12345678X")
    ensures ValidAge(JFloat(25.0)) && !ValidAge(JFloat(25.5)) && !ValidAge(JInt(100))
  {
    assert "Noelle1"[6] == '1';
    assert "ID-123456"[2] == '-';
  }

  /** Every string the name pattern admits has no character outside the
      class, except possibly one trailing newline. */
  lemma NameTextChars(s: string, k: nat)
    requires ValidNameText(s) && k < |s|
    ensures InNameClass(s[k]) || (k == |s| - 1 && s[k] == '\n')
  {
  }
}
