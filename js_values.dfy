/** The JavaScript values that flow through the catalog (record fields, form
    values, request bodies) and the conversions of the language that the code
    applies to them: truthiness, `===`, `typeof`, `Number(...)`, `isNaN(...)`
    and string conversion in template literals. Numbers are integers here. */
module JsValues {
  import opened JsStrings

  datatype JsValue =
    | Undefined
    | Null
    | Bool(b: bool)
    | Num(n: int)
    | NaN
    | Str(s: string)

  /** A plain object: property name to value. A missing key reads as `undefined`. */
  type Record = map<string, JsValue>

  /** How an evaluation ends: with a value, or by throwing a TypeError (calling a
      string method on a value that has none). */
  datatype Completion<T> = Normal(value: T) | ThrowTypeError

  datatype Option<T> = None | Some(value: T)

  /** `r.key`. */
  function Get(r: Record, key: string): JsValue {
    if key in r then r[key] else Undefined
  }

  /** The ToBoolean conversion behind `||`, `&&`, `!` and conditions. */
  predicate Truthy(v: JsValue) {
    match v
    case Undefined => false
    case Null => false
    case Bool(b) => b
    case Num(n) => n != 0
    case NaN => false
    case Str(s) => s != ""
  }

  /** `a === b`: NaN is the one value that is not equal to itself. */
  predicate StrictEquals(a: JsValue, b: JsValue) {
    a == b && a != NaN
  }

  /** `typeof v === "number"`. */
  predicate TypeofNumber(v: JsValue) {
    v.Num? || v.NaN?
  }

  /** The StringToNumber conversion for the literals this model can hold:
      blank text is 0, an optionally signed run of decimal digits is its value,
      anything else is NaN. */
  function StringToNumber(s: string): (r: JsValue)
    ensures TypeofNumber(r)
    ensures AllWhitespace(s) ==> r == Num(0)
  {
    var t := Trim(s);
    if t == "" then Num(0)
    else if t[0] == '-' && IsDigits(t[1..]) then Num(-(DigitsValue(t[1..]) as int))
    else if t[0] == '+' && IsDigits(t[1..]) then Num(DigitsValue(t[1..]))
    else if IsDigits(t) then Num(DigitsValue(t))
    else NaN
  }

  /** `Number(v)`. */
  function ToNumber(v: JsValue): (r: JsValue)
    ensures TypeofNumber(r)
    ensures TypeofNumber(v) ==> r == v
    ensures v == Undefined ==> r == NaN
  {
    match v
    case Undefined => NaN
    case Null => Num(0)
    case Bool(b) => if b then Num(1) else Num(0)
    case Num(n) => v
    case NaN => NaN
    case Str(s) => StringToNumber(s)
  }

  /** `isNaN(v)`: the global function, which converts its argument first. */
  predicate IsNaN(v: JsValue) {
    ToNumber(v) == NaN
  }

  /** The decimal text of an integer, as `String(n)` writes it for magnitudes
      below 10^21 (larger ones it writes in exponent form, which this model
      does not have); reading it back with `Number(...)` gives `n` again. */
  function NumberToString(n: int): (r: string)
    ensures r != [] && !IsWhitespace(r[0]) && !IsWhitespace(r[|r| - 1])
    ensures StringToNumber(r) == Num(n)
  {
    var r := if n < 0 then "-" + DecimalDigits(-n) else DecimalDigits(n);
    assert r[|r| - 1] == DecimalDigits(if n < 0 then -n else n)[|r| - 1 - (if n < 0 then 1 else 0)];
    assert Trim(r) == r by { TrimOfUnpadded(r); }
    if n < 0 then assert r[1..] == DecimalDigits(-n); r else r
  }

  lemma TrimOfUnpadded(s: string)
    requires s != [] && !IsWhitespace(s[0]) && !IsWhitespace(s[|s| - 1])
    ensures Trim(s) == s
  {
  }

  /** The ToString conversion used by template literals (`${v}`). */
  function ToString(v: JsValue): string {
    match v
    case Undefined => "undefined"
    case Null => "null"
    case Bool(b) => if b then "true" else "false"
    case Num(n) => NumberToString(n)
    case NaN => "NaN"
    case Str(s) => s
  }
}
