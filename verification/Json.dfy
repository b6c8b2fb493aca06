/** JSON values as `serde_json` holds them. Objects are unordered: two objects are equal
    when they bind the same keys to the same values. */
module Json {

  type U64 = n: int | 0 <= n < 0x1_0000_0000_0000_0000

  type NegativeI64 = n: int | -0x8000_0000_0000_0000 <= n < 0 witness -1

  /** The three internal forms of a `serde_json::Number`. */
  datatype Number = PosInt(n: U64) | NegInt(m: NegativeI64) | Float(r: real)

  datatype Value =
    | Null
    | Bool(b: bool)
    | Num(num: Number)
    | Str(s: string)
    | Array(items: seq<Value>)
    | Object(fields: map<string, Value>)
  {
    predicate IsI64() {
      Num? && (num.NegInt? || (num.PosInt? && num.n < 0x8000_0000_0000_0000))
    }

    predicate IsU64() {
      Num? && num.PosInt?
    }

    /** The JSON kind, as named in error messages. */
    function TypeName(): string {
      match this
      case Null => "null"
      case Bool(_) => "bool"
      case Num(_) => "number"
      case Str(_) => "string"
      case Array(_) => "array"
      case Object(_) => "object"
    }
  }
}
