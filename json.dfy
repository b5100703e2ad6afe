/**
 * The JavaScript values a parsed JSON request body can hold, with the three
 * pieces of JavaScript semantics the page validator relies on: reading a
 * property (`v.key`), the `typeof` operator and truthiness.
 */
module Json {
  import opened Wrappers

  /** A value produced by `JSON.parse`. Objects keep the last value of a
      repeated key, so a map from key to value is exact. */
  datatype Value =
    | Null
    | Bool(b: bool)
    | Num(x: real)
    | Str(s: string)
    | Arr(elems: seq<Value>)
    | Obj(fields: map<string, Value>)

  /** The results of `typeof` that a parsed value (or `undefined`) can give. */
  datatype TypeTag = Undefined | Object | Boolean | Number | String

  /** `v[key]` for the property names the validator reads (`slug`,
      `components`, `metadata`, `type`, `props`): only an object's own keys
      can supply them, every other value yields `undefined`. */
  function Property(v: Value, key: string): Option<Value>
  {
    match v
    case Obj(fields) => if key in fields then Some(fields[key]) else None
    case _ => None
  }

  /** `typeof v`; `null` and arrays are both "object". */
  function TypeOf(v: Option<Value>): TypeTag {
    match v
    case None => Undefined
    case Some(Null) => Object
    case Some(Bool(_)) => Boolean
    case Some(Num(_)) => Number
    case Some(Str(_)) => String
    case Some(Arr(_)) => Object
    case Some(Obj(_)) => Object
  }

  /** JavaScript truthiness: `undefined`, `null`, `false`, `0` and `""` are falsy. */
  predicate Truthy(v: Option<Value>) {
    match v
    case None => false
    case Some(Null) => false
    case Some(Bool(b)) => b
    case Some(Num(x)) => x != 0.0
    case Some(Str(s)) => s != ""
    case Some(Arr(_)) => true
    case Some(Obj(_)) => true
  }

  /** `v && typeof v === 'object'` holds exactly of arrays and objects. */
  lemma TruthyObjectIsContainer(v: Option<Value>)
    ensures (Truthy(v) && TypeOf(v) == Object) <==> (v.Some? && (v.value.Arr? || v.value.Obj?))
  {
  }
}
