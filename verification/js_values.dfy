/**
 * The JavaScript values the modelled code inspects, with the language's
 * truthiness, strict equality, `||`, property reads and String conversion.
 *
 * Numbers are integers here. The ids, codes and flags the modelled code
 * compares, converts to a string or tests for truthiness are integers; an
 * amount with a fraction reaches `numberRender` as the string JavaScript
 * would make of it, which renders the same.
 */
module JsValues {
  import opened Text

  datatype Value =
    | Undefined
    | Null
    | Bool(b: bool)
    | Num(n: int)
    | Str(s: string)
    | Arr(items: seq<Value>)
    | Obj(fields: map<string, Value>)

  /** A plain object: its own enumerable properties. */
  type Object = map<string, Value>

  /** Property read `o.key`: a missing property reads as undefined. */
  function Prop(o: Object, key: string): Value {
    if key in o then o[key] else Undefined
  }

  /** `v === null || v === undefined` (lodash `isNil`). */
  predicate IsNullish(v: Value) {
    v.Undefined? || v.Null?
  }

  /** ToBoolean: the values an `if` or `||` treats as true. */
  predicate Truthy(v: Value) {
    match v
    case Undefined => false
    case Null => false
    case Bool(b) => b
    case Num(n) => n != 0
    case Str(s) => s != ""
    case Arr(_) => true
    case Obj(_) => true
  }

  /** `a || b`: the first operand when it is truthy, the second otherwise. */
  function Or(a: Value, b: Value): Value {
    if Truthy(a) then a else b
  }

  /**
   * `a === b`. Primitives compare by type and value. Arrays and objects
   * compare by reference; the values modelled here are never the same
   * reference as the value they are compared with, so they never match.
   */
  predicate StrictEquals(a: Value, b: Value) {
    a == b && !a.Arr? && !a.Obj?
  }

  function DigitChar(d: nat): (c: char)
    requires d < 10
    ensures IsDigit(c)
  {
    "0123456789"[d]
  }

  function DigitValue(c: char): nat
    requires IsDigit(c)
  {
    (c as int - '0' as int) as nat
  }

  /** The value of a string of decimal digits (the empty string reads as 0). */
  function DecimalValue(s: string): nat
    requires AllDigits(s)
  {
    if |s| == 0 then 0 else 10 * DecimalValue(s[..|s| - 1]) + DigitValue(s[|s| - 1])
  }

  /** An optional minus sign followed by at least one decimal digit. */
  predicate IsIntegerLiteral(s: string) {
    if |s| > 0 && s[0] == '-' then |s| >= 2 && AllDigits(s[1..]) else |s| >= 1 && AllDigits(s)
  }

  /** The integer an integer literal denotes. */
  function ParseInteger(s: string): int
    requires IsIntegerLiteral(s)
  {
    if s[0] == '-' then -(DecimalValue(s[1..]) as int) else DecimalValue(s) as int
  }

  /** Decimal digits of a natural number, most significant first, without leading zeros. */
  function NatToString(n: nat): (r: string)
    ensures |r| >= 1 && AllDigits(r)
    ensures DecimalValue(r) == n
    ensures r[0] == '0' ==> r == "0"
    decreases n
  {
    if n < 10 then
      [DigitChar(n)]
    else
      var r := NatToString(n / 10) + [DigitChar(n % 10)];
      assert r[..|r| - 1] == NatToString(n / 10);
      r
  }

  /**
   * Number::toString for an integer: a minus sign for negatives, then the
   * digits, with no leading zero (so the form is the only one).
   */
  function IntToString(n: int): (r: string)
    ensures IsIntegerLiteral(r)
    ensures ParseInteger(r) == n
    ensures r[0] == '0' ==> r == "0"
    ensures |r| > 1 && r[0] == '-' ==> r[1] != '0'
  {
    if n < 0 then
      var digits := NatToString(-n);
      var r := "-" + digits;
      assert r[1..] == digits;
      r
    else
      NatToString(n)
  }

  /**
   * ToString, as used by `String(v)`, template literals and the
   * replacement argument of `String.prototype.replace`. An array joins its
   * elements with commas, writing null and undefined elements as nothing.
   */
  function ToString(v: Value): string {
    match v
    case Undefined => "undefined"
    case Null => "null"
    case Bool(b) => if b then "true" else "false"
    case Num(n) => IntToString(n)
    case Str(s) => s
    case Arr(items) =>
      Join(seq(|items|, i requires 0 <= i < |items| =>
                 if IsNullish(items[i]) then "" else ToString(items[i])), ",")
    case Obj(_) => "[object Object]"
  }
}
