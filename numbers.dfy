/** `Number.prototype.in` of numbers.js: is the number among the arguments? */
module Numbers {
  import opened JsValues

  /** `v.in(...args)` as written, argument list built with `Array.apply`. */
  function NumberIn(v: int, args: seq<Value>): Completion<bool>
  {
    match ArrayFromArguments(args)
    case Throw(e) => Throw(e)
    case Normal(nums) =>
      if |nums| == 0 then Normal(false) else Normal(SomePresent(nums, e => e == Num(v)))
  }

  /**
   * Except for a single numeric argument, `in` is strict membership: no
   * arguments give false and values of another type never match.
   */
  lemma NumberInIsMembership(v: int, args: seq<Value>)
    requires !(|args| == 1 && args[0].Num?)
    ensures NumberIn(v, args) == Normal(Num(v) in args)
  {
    var nums := ArrayFromArguments(args).value;
    if Num(v) in args {
      var i :| 0 <= i < |args| && args[i] == Num(v);
      assert nums[i] == Some(args[i]);
    }
  }

  /** The documented examples: 5.in(5, 10, 15, 20) and 5.in("5", "10", "15"). */
  lemma NumberInExamples()
    ensures NumberIn(5, [Num(5), Num(10), Num(15), Num(20)]) == Normal(true)
    ensures NumberIn(5, [Str("5"), Str("10"), Str("15")]) == Normal(false)
  {
    NumberInIsMembership(5, [Num(5), Num(10), Num(15), Num(20)]);
    NumberInIsMembership(5, [Str("5"), Str("10"), Str("15")]);
  }

  /**
   * As written, a single numeric argument is taken as an array length:
   * `x.in(n)` is false even when `n == x`, and throws when `n` is negative.
   */
  lemma SingleNumberArgument(v: int, n: int)
    ensures 0 <= n < ArrayLengthBound ==> NumberIn(v, [Num(n)]) == Normal(false)
    ensures n < 0 ==> NumberIn(v, [Num(n)]) == Throw(RangeError)
    ensures NumberIn(5, [Num(5)]) == Normal(false)
  {
  }

  /** `in` as documented: true exactly when an argument is strictly equal to the number. */
  function NumberInCorrected(v: int, args: seq<Value>): (r: bool)
    ensures r <==> Num(v) in args
  {
    Any(args, e => e == Num(v))
  }

  /** The correction changes nothing but the single-number case, where the number's own value now matches. */
  lemma NumberInCorrectedAgrees(v: int, args: seq<Value>)
    ensures !(|args| == 1 && args[0].Num?) ==> NumberIn(v, args) == Normal(NumberInCorrected(v, args))
    ensures NumberInCorrected(v, [Num(v)])
  {
    if !(|args| == 1 && args[0].Num?) {
      NumberInIsMembership(v, args);
    }
  }
}
