/** Argument and result values, seen through JavaScript's `typeof`, and
    what a JSON round trip makes of them. */
module Values {

  /** A dynamic value with its type tag. Finite numbers carry their value
      as a real number, and `NonFinite` stands for NaN and the two
      infinities. Objects and arrays are one case whose contents the
      registry never inspects. */
  datatype Value =
    | Str(s: string)
    | Num(n: real)
    | NonFinite
    | Bool(b: bool)
    | Null
    | Undefined
    | Obj

  /** The `typeof` tag of a value (`null` is an object to JavaScript). */
  function TypeOf(v: Value): (tag: string)
    ensures tag == "string" <==> v.Str?
    ensures tag == "number" <==> v.Num? || v.NonFinite?
    ensures tag == "boolean" <==> v.Bool?
  {
    match v
    case Str(_) => "string"
    case Num(_) => "number"
    case NonFinite => "number"
    case Bool(_) => "boolean"
    case Null => "object"
    case Undefined => "undefined"
    case Obj => "object"
  }

  /** Argument mapping from parameter name to value. */
  type Args = map<string, Value>

  /** A value that `JSON.parse` can produce: no NaN, infinity or `undefined`. */
  predicate IsJson(v: Value) {
    !v.NonFinite? && !v.Undefined?
  }

  /** A property value after `JSON.stringify` and `JSON.parse`: NaN and the
      infinities are written as `null`; every other value that is written at
      all comes back as it was. */
  function JsonValue(v: Value): (r: Value)
    requires !v.Undefined?
    ensures IsJson(r)
    ensures TypeOf(r) == TypeOf(v) <==> !v.NonFinite?
    ensures IsJson(v) ==> r == v
  {
    if v.NonFinite? then Null else v
  }

  /** An argument mapping after `JSON.stringify` and `JSON.parse`: keys whose
      value is `undefined` are not written, and every other value goes
      through `JsonValue`. */
  function JsonArgs(args: Args): (r: Args)
    ensures forall k :: k in r <==> k in args && !args[k].Undefined?
    ensures forall k :: k in r ==> IsJson(r[k])
    ensures forall k :: k in r ==> TypeOf(r[k]) == TypeOf(args[k]) || args[k].NonFinite?
  {
    map k | k in args && !args[k].Undefined? :: JsonValue(args[k])
  }

  /** A second JSON round trip changes nothing. */
  lemma JsonArgsIdempotent(args: Args)
    ensures JsonArgs(JsonArgs(args)) == JsonArgs(args)
  {
    var once := JsonArgs(args);
    assert forall k :: k in once ==> JsonValue(once[k]) == once[k];
  }

  /** Arguments that hold only JSON values survive the round trip unchanged. */
  lemma JsonArgsOfJson(args: Args)
    requires forall k :: k in args ==> IsJson(args[k])
    ensures JsonArgs(args) == args
  {
  }
}
