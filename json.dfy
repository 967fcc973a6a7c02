/**
 * JSON values as the content bodies, metadata and interaction logs are
 * stored, with the few JavaScript semantics the services rely on: property
 * access, truthiness, `typeof … === 'object'` and object spread.
 */
module Json {
  import opened Wrappers

  /** Numbers are integers here; object keys are unordered. */
  datatype Json =
    | JNull
    | JBool(b: bool)
    | JNumber(n: int)
    | JString(s: string)
    | JArray(elems: seq<Json>)
    | JObject(fields: map<string, Json>)

  /** v.key: the field of an object, undefined (None) for a missing field and for any other value. */
  function Get(v: Json, key: string): (r: Option<Json>)
    ensures r.Some? <==> v.JObject? && key in v.fields
    ensures r.Some? ==> r.value == v.fields[key]
  {
    if v.JObject? && key in v.fields then Some(v.fields[key]) else None
  }

  /** JavaScript truthiness; undefined is falsy. */
  predicate Truthy(v: Option<Json>)
  {
    match v
    case None => false
    case Some(JNull) => false
    case Some(JBool(b)) => b
    case Some(JNumber(n)) => n != 0
    case Some(JString(s)) => s != ""
    case Some(JArray(_)) => true
    case Some(JObject(_)) => true
  }

  /** typeof v === 'object': null, arrays and objects. */
  predicate IsObjectType(v: Json)
  {
    v.JNull? || v.JArray? || v.JObject?
  }

  /** A truthy value of type 'object' is an array or an object. */
  lemma TruthyObjectType(v: Json)
    ensures Truthy(Some(v)) && IsObjectType(v) <==> v.JArray? || v.JObject?
  {
  }

  /** The decimal digits of a natural number, the key of an array index or string position. */
  function Digits(n: nat): (r: string)
    ensures |r| >= 1 && forall i :: 0 <= i < |r| ==> '0' <= r[i] <= '9'
  {
    var d := ['0' + (n % 10) as char];
    if n < 10 then d else Digits(n / 10) + d
  }

  /** The value of a string of digits. */
  function ValueOf(s: string): int
  {
    if |s| == 0 then 0 else 10 * ValueOf(s[..|s| - 1]) + (s[|s| - 1] as int - '0' as int)
  }

  /** Digits is read back by ValueOf, so distinct indices have distinct keys. */
  lemma {:induction false} DigitsRoundTrip(n: nat)
    ensures ValueOf(Digits(n)) == n
  {
    if n >= 10 {
      DigitsRoundTrip(n / 10);
      var d := Digits(n / 10) + ['0' + (n % 10) as char];
      assert d[..|d| - 1] == Digits(n / 10);
    }
  }

  /** Distinct indices have distinct keys. */
  lemma DigitsInjective(i: nat, j: nat)
    ensures Digits(i) == Digits(j) ==> i == j
  {
    DigitsRoundTrip(i);
    DigitsRoundTrip(j);
  }

  /** The map of positions of a sequence, as spread copies an array or a string. */
  function Positions<T>(s: seq<T>, f: T -> Json): (r: map<string, Json>)
    ensures forall i :: 0 <= i < |s| ==> Digits(i) in r && r[Digits(i)] == f(s[i])
  {
    if |s| == 0 then map[]
    else
      var init := Positions(s[..|s| - 1], f);
      forall i | 0 <= i < |s| - 1
        ensures Digits(i) != Digits(|s| - 1)
      {
        DigitsInjective(i, |s| - 1);
      }
      init[Digits(|s| - 1) := f(s[|s| - 1])]
  }

  /** The own enumerable fields `{...v}` copies: an object's fields, the positions of an array or a string, nothing for the rest. */
  function Spread(v: Json): map<string, Json>
  {
    match v
    case JObject(m) => m
    case JArray(a) => Positions(a, (x: Json) => x)
    case JString(s) => Positions(s, (c: char) => JString([c]))
    case _ => map[]
  }

  /** `{...a, ...b}`: every field of b, and the fields of a that b lacks. */
  function Merge(a: Json, b: Json): (r: Json)
    ensures r.JObject?
    ensures forall k :: k in r.fields <==> k in Spread(a) || k in Spread(b)
    ensures forall k :: k in Spread(b) ==> r.fields[k] == Spread(b)[k]
    ensures forall k :: k in Spread(a) && k !in Spread(b) ==> r.fields[k] == Spread(a)[k]
  {
    JObject(Spread(a) + Spread(b))
  }

  /** Merging objects only adds or replaces fields; merging with null copies. */
  lemma MergeObjects(a: map<string, Json>, b: map<string, Json>)
    ensures Merge(JObject(a), JObject(b)) == JObject(a + b)
    ensures Merge(JObject(a), JNull) == JObject(a)
    ensures Merge(JObject(a), JObject(map[])) == JObject(a)
  {
    assert a + map[] == a;
  }
}
