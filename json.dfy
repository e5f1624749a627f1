/** JavaScript values as the request handlers see them after `request.json()`,
    with the two questions the handlers ask of them: `typeof` and truthiness. */
module Json {

  datatype Option<+T> = None | Some(value: T)

  /** A decoded JSON field. `Undefined` is a field the body does not have;
      `Composite` stands for any object or array. JSON numbers are modelled as
      integers (millisecond timestamps); fractions and the `Infinity` that
      `JSON.parse` makes of an out-of-range literal such as `1e999` are not
      modelled. */
  datatype Value =
    | Undefined
    | Null
    | Bool(b: bool)
    | Number(n: int)
    | Str(s: string)
    | Composite

  /** JavaScript truthiness, as used by `if (website)`. */
  predicate Truthy(v: Value)
    ensures !Truthy(v) <==> v in {Undefined, Null, Bool(false), Number(0), Str("")}
  {
    match v
    case Undefined => false
    case Null => false
    case Bool(b) => b
    case Number(n) => n != 0
    case Str(s) => s != ""
    case Composite => true
  }

  /** An optional string argument (`v.optional(v.string())`) tested with `if (x)`. */
  predicate TruthyOptional(x: Option<string>)
    ensures TruthyOptional(x) <==> x.Some? && Truthy(Str(x.value))
  {
    x.Some? && x.value != ""
  }
}
