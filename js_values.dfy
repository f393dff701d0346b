/**
 * The slice of JavaScript's value model that the utilities depend on:
 * primitive values, truthiness, the characters the regular expressions
 * treat as whitespace and digits, decimal rendering, and the two array
 * primitives (`some` and `filter`) that several helpers are built from.
 */
module JsValues {

  datatype Option<+T> = None | Some(value: T)

  /** A call either completes normally with a value or throws. */
  datatype Completion<+T> = Normal(value: T) | Throw(error: JsError)

  /** What a call throws: a built-in error, or a value handed to `throw`. */
  datatype JsError = RangeError | TypeError | Thrown(value: Value)

  /**
   * A primitive JavaScript value. `Null` also stands for `undefined`
   * wherever the code only asks whether a value is null/undefined or falsy.
   * Numbers are integers (fractions, NaN and the infinities are not modelled).
   */
  datatype Value = Null | Bool(b: bool) | Num(n: int) | Str(s: string)

  /** JavaScript truthiness: null, false, 0 and "" are falsy. */
  predicate Truthy(v: Value)
  {
    match v
    case Null => false
    case Bool(b) => b
    case Num(n) => n != 0
    case Str(s) => s != []
  }

  /** The characters matched by the regular-expression class `\s`. */
  predicate IsSpace(c: char)
  {
    var k := c as int;
    k == 0x09 || k == 0x0A || k == 0x0B || k == 0x0C || k == 0x0D || k == 0x20
    || k == 0xA0 || k == 0x1680 || (0x2000 <= k <= 0x200A)
    || k == 0x2028 || k == 0x2029 || k == 0x202F || k == 0x205F
    || k == 0x3000 || k == 0xFEFF
  }

  /** The characters matched by `\d` (no `u` flag: ASCII digits only). */
  predicate IsDigit(c: char)
  {
    '0' <= c <= '9'
  }

  predicate AllDigits(s: string)
  {
    forall i :: 0 <= i < |s| ==> IsDigit(s[i])
  }

  /** ASCII case mapping, standing in for `toLowerCase`. */
  function LowerChar(c: char): (r: char)
    ensures 'A' <= c <= 'Z' ==> r as int == c as int + 32
    ensures !('A' <= c <= 'Z') ==> r == c
    ensures !('A' <= r <= 'Z')
  {
    if 'A' <= c <= 'Z' then (c as int + 32) as char else c
  }

  function Lower(s: string): (r: string)
    ensures |r| == |s|
    ensures forall i :: 0 <= i < |s| ==> r[i] == LowerChar(s[i])
  {
    seq(|s|, i requires 0 <= i < |s| => LowerChar(s[i]))
  }

  function DigitValue(c: char): (d: nat)
    requires IsDigit(c)
    ensures d < 10
  {
    c as int - '0' as int
  }

  function DigitChar(d: nat): (c: char)
    requires d < 10
    ensures IsDigit(c) && DigitValue(c) == d
  {
    (d + '0' as int) as char
  }

  /** The base-10 value of a digit string, as unary `+` gives it. */
  function DigitsValue(s: string): nat
    requires AllDigits(s)
  {
    if s == [] then 0 else 10 * DigitsValue(s[..|s| - 1]) + DigitValue(s[|s| - 1])
  }

  /** The decimal rendering of a natural number, without leading zeros. */
  function DecimalString(n: nat): (r: string)
    ensures r != [] && AllDigits(r)
  {
    if n < 10 then [DigitChar(n)] else DecimalString(n / 10) + [DigitChar(n % 10)]
  }

  lemma {:induction false} DecimalStringValue(n: nat)
    ensures DigitsValue(DecimalString(n)) == n
  {
    var r := DecimalString(n);
    if n >= 10 {
      DecimalStringValue(n / 10);
      assert r[..|r| - 1] == DecimalString(n / 10);
    }
  }

  /** `String(v)`: the property key a value becomes when it indexes an object. */
  function JsString(v: Value): string
  {
    match v
    case Null => "null"
    case Bool(b) => if b then "true" else "false"
    case Num(n) => if n < 0 then "-" + DecimalString(-n) else DecimalString(n)
    case Str(s) => s
  }

  /** `Array.prototype.some`. */
  function Any<T>(xs: seq<T>, p: T -> bool): (r: bool)
    ensures r <==> exists i :: 0 <= i < |xs| && p(xs[i])
  {
    if xs == [] then false
    else if p(xs[0]) then true
    else
      assert forall i :: 1 <= i < |xs| ==> xs[i] == xs[1..][i - 1];
      Any(xs[1..], p)
  }

  /** `Array.prototype.filter`: the elements that pass, in their order. */
  function Select<T>(xs: seq<T>, p: T -> bool): (r: seq<T>)
    ensures |r| <= |xs|
    ensures multiset(r) <= multiset(xs)
    ensures forall i :: 0 <= i < |r| ==> p(r[i])
    ensures forall x :: x in xs && p(x) ==> x in r
  {
    if xs == [] then []
    else
      var rest := Select(xs[1..], p);
      assert xs == [xs[0]] + xs[1..];
      if p(xs[0]) then [xs[0]] + rest else rest
  }

  function Min(a: int, b: int): int
  {
    if a <= b then a else b
  }

  /** The largest value `Array(n)` accepts as a length, plus one. */
  const ArrayLengthBound: int := 0x1_0000_0000

  /**
   * `Array.apply(null, arguments)`: the arguments as an array, except that a
   * single numeric argument `n` is taken as a length, giving `n` holes
   * (`None`), or a RangeError when `n` is not a valid array length.
   */
  function ArrayFromArguments(args: seq<Value>): (r: Completion<seq<Option<Value>>>)
    ensures !(|args| == 1 && args[0].Num?) ==>
      r.Normal? && |r.value| == |args| && forall i :: 0 <= i < |args| ==> r.value[i] == Some(args[i])
    ensures |args| == 1 && args[0].Num? ==>
      if 0 <= args[0].n < ArrayLengthBound then r.Normal? && |r.value| == args[0].n && forall i :: 0 <= i < |r.value| ==> r.value[i].None?
      else r == Throw(RangeError)
  {
    if |args| == 1 && args[0].Num? then
      if 0 <= args[0].n < ArrayLengthBound then Normal(seq(args[0].n, _ => None)) else Throw(RangeError)
    else Normal(seq(|args|, i requires 0 <= i < |args| => Some(args[i])))
  }

  /** `vals.some(p)`, which skips holes. */
  function SomePresent(vals: seq<Option<Value>>, p: Value -> bool): (r: bool)
    ensures r <==> exists i :: 0 <= i < |vals| && vals[i].Some? && p(vals[i].value)
  {
    Any(vals, (o: Option<Value>) => o.Some? && p(o.value))
  }
}
