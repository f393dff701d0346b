/**
 * The String extensions of strings.js: `repeat`, the membership test `in`,
 * and `fancify`, a chain of global regular-expression replacements that
 * turns straight quotes, dot runs and dashes into typographic characters.
 *
 * Each global replacement is modelled as the scan the regular-expression
 * engine performs: at each position the pattern is tried, a match is
 * replaced and the scan resumes after it, otherwise one character is kept.
 */
module Strings {
  import opened JsValues

  // ---------------------------------------------------------------- repeat

  /** `parts.join(sep)`. */
  function Join(parts: seq<string>, sep: string): string
  {
    if |parts| == 0 then []
    else if |parts| == 1 then parts[0]
    else Join(parts[..|parts| - 1], sep) + sep + parts[|parts| - 1]
  }

  /** `s` written `n` times in a row. */
  function Repeated(s: string, n: nat): (r: string)
    ensures |r| == n * |s|
  {
    if n == 0 then [] else Repeated(s, n - 1) + s
  }

  /** The `q`-th block of length `m` of `r`. */
  function Block(r: string, m: nat, q: nat): string
    requires (q + 1) * m <= |r|
  {
    r[q * m .. (q + 1) * m]
  }

  /** Block `q` of `Repeated(s, n)` is `s`. */
  lemma {:induction false} RepeatedBlock(s: string, n: nat, q: nat)
    requires q < n
    ensures (q + 1) * |s| <= n * |s|
    ensures Block(Repeated(s, n), |s|, q) == s
  {
    var k := (n - 1) * |s|;
    assert n * |s| == k + |s|;
    assert (q + 1) * |s| == q * |s| + |s|;
    if q < n - 1 {
      RepeatedBlock(s, n - 1, q);
      assert Repeated(s, n)[..k] == Repeated(s, n - 1);
    } else {
      assert q * |s| == k;
    }
  }

  /** Joining `n + 1` holes (empty strings) writes the separator `n` times. */
  lemma {:induction false} JoinOfEmpties(n: nat, sep: string)
    ensures Join(seq(n + 1, _ => ""), sep) == Repeated(sep, n)
  {
    var parts := seq(n + 1, _ => "");
    if n > 0 {
      assert parts[..n] == seq(n, _ => "");
      JoinOfEmpties(n - 1, sep);
    }
  }

  /**
   * `s.repeat(num)`: `new Array(num + 1).join(s)`, a RangeError when
   * `num + 1` is not a valid array length.
   */
  function Repeat(s: string, num: int): Completion<string>
  {
    if 0 <= num + 1 < ArrayLengthBound then Normal(Join(seq(num + 1, _ => ""), s))
    else Throw(RangeError)
  }

  /**
   * repeat gives `s` concatenated `num` times, none for -1, and throws
   * outside the array-length range.
   */
  lemma RepeatMeaning(s: string, num: int)
    ensures Repeat(s, num).Normal? <==> -1 <= num < ArrayLengthBound - 1
    ensures num == -1 ==> Repeat(s, num) == Normal([])
    ensures 0 <= num < ArrayLengthBound - 1 ==> Repeat(s, num) == Normal(Repeated(s, num))
  {
    if 0 <= num < ArrayLengthBound - 1 {
      JoinOfEmpties(num, s);
    }
  }

  /** `s` repeated `n` times has length `n * |s|` and every `|s|`-long block of it is `s`. */
  lemma {:induction false} RepeatedBlocks(s: string, n: nat)
    ensures |Repeated(s, n)| == n * |s|
    ensures forall q :: 0 <= q < n ==> (q + 1) * |s| <= n * |s| && Block(Repeated(s, n), |s|, q) == s
  {
    forall q | 0 <= q < n
      ensures (q + 1) * |s| <= n * |s| && Block(Repeated(s, n), |s|, q) == s
    {
      RepeatedBlock(s, n, q);
    }
  }

  // ---------------------------------------------------------------- in

  /** Is argument `e` a match for the receiver `v`? */
  predicate InMatch(e: Value, v: string, ignoreCase: bool)
  {
    if ignoreCase then e.Str? && Lower(e.s) == v else e == Str(v)
  }

  /**
   * `v.in(...args)` as written: a leading boolean is the ignore-case flag
   * and is dropped; under that flag each string argument is lower-cased
   * and compared with the receiver as it is.
   */
  function In(v: string, args: seq<Value>): Completion<bool>
  {
    match ArrayFromArguments(args)
    case Throw(e) => Throw(e)
    case Normal(vals) =>
      if |vals| == 0 then Normal(false)
      else
        var caseFlag := vals[0].Some? && vals[0].value.Bool?;
        var ignoreCase := caseFlag && vals[0].value.b;
        var rest := if caseFlag then vals[1..] else vals;
        if caseFlag && |rest| == 0 then Normal(false)
        else Normal(SomePresent(rest, Matches(v, ignoreCase)))
  }

  /** The test `in` applies to each argument. */
  function Matches(v: string, ignoreCase: bool): Value -> bool
  {
    (e: Value) => InMatch(e, v, ignoreCase)
  }

  /** Over arguments without holes, `some` is a plain existential. */
  lemma SomePresentMatches(tail: seq<Option<Value>>, rest: seq<Value>, v: string, ignoreCase: bool)
    requires |tail| == |rest| && forall i :: 0 <= i < |rest| ==> tail[i] == Some(rest[i])
    ensures SomePresent(tail, Matches(v, ignoreCase)) == exists i :: 0 <= i < |rest| && InMatch(rest[i], v, ignoreCase)
  {
  }

  /** No arguments, or only the flag, give false. */
  lemma InWithoutValues(v: string, b: bool)
    ensures In(v, []) == Normal(false)
    ensures In(v, [Bool(b)]) == Normal(false)
  {
  }

  lemma InOfList(v: string, flag: seq<Value>, rest: seq<Value>, ignoreCase: bool)
    requires |flag| <= 1 && (flag == [] || flag[0].Bool?) && (flag != [] ==> ignoreCase == flag[0].b)
    requires flag == [] ==> !ignoreCase && (rest == [] || !rest[0].Bool?)
    requires !(|flag + rest| == 1 && (flag + rest)[0].Num?)
    ensures In(v, flag + rest) == Normal(exists i :: 0 <= i < |rest| && InMatch(rest[i], v, ignoreCase))
  {
    var args := flag + rest;
    if args != [] {
      var vals := ArrayFromArguments(args).value;
      var tail := if flag == [] then vals else vals[1..];
      assert |tail| == |rest| && forall i :: 0 <= i < |rest| ==> tail[i] == Some(rest[i]);
      SomePresentMatches(tail, rest, v, ignoreCase);
    }
  }

  /** Without a leading boolean, `in` is strict membership of the receiver among the arguments. */
  lemma InIsMembership(v: string, args: seq<Value>)
    requires args == [] || !args[0].Bool?
    requires !(|args| == 1 && args[0].Num?)
    ensures In(v, args) == Normal(Str(v) in args)
  {
    InOfList(v, [], args, false);
    assert [] + args == args;
  }

  /** A leading `false` is dropped and the test stays case-sensitive. */
  lemma InFalseFlag(v: string, rest: seq<Value>)
    ensures In(v, [Bool(false)] + rest) == Normal(Str(v) in rest)
  {
    InOfList(v, [Bool(false)], rest, false);
  }

  /** A leading `true`: only strings match, lower-cased and compared with the receiver unchanged. */
  lemma InTrueFlag(v: string, rest: seq<Value>)
    ensures In(v, [Bool(true)] + rest)
            == Normal(exists i :: 0 <= i < |rest| && rest[i].Str? && Lower(rest[i].s) == v)
  {
    InOfList(v, [Bool(true)], rest, true);
  }

  /** The documented `"Hello".in(true, "hello", "world", "it's me")` is false as written. */
  lemma InIgnoreCaseExampleFails()
    ensures In("Hello", [Bool(true), Str("hello"), Str("world"), Str("it's me")]) == Normal(false)
  {
    InTrueFlag("Hello", [Str("hello"), Str("world"), Str("it's me")]);
    assert [Bool(true)] + [Str("hello"), Str("world"), Str("it's me")]
           == [Bool(true), Str("hello"), Str("world"), Str("it's me")];
    assert !('A' <= Lower("hello")[0] <= 'Z');
  }

  /** The other documented examples hold. */
  lemma InExamples()
    ensures In("Hello", [Str("Hello"), Str("World"), Str("It's me")]) == Normal(true)
    ensures In("Hello", [Bool(false), Str("hello"), Str("world"), Str("it's me")]) == Normal(false)
    ensures In("Hello", [Str("hello"), Str("world"), Str("it's me")]) == Normal(false)
  {
    InIsMembership("Hello", [Str("Hello"), Str("World"), Str("It's me")]);
    InFalseFlag("Hello", [Str("hello"), Str("world"), Str("it's me")]);
    assert [Bool(false)] + [Str("hello"), Str("world"), Str("it's me")]
           == [Bool(false), Str("hello"), Str("world"), Str("it's me")];
    InIsMembership("Hello", [Str("hello"), Str("world"), Str("it's me")]);
  }

  /**
   * `in` as documented: under the flag both sides are lower-cased, and the
   * arguments are taken as they are.
   */
  function InCorrected(v: string, args: seq<Value>): (r: bool)
    ensures args != [] && args[0].Bool? && args[0].b ==>
      (r <==> exists i :: 1 <= i < |args| && args[i].Str? && Lower(args[i].s) == Lower(v))
    ensures args != [] && args[0].Bool? && !args[0].b ==> (r <==> Str(v) in args[1..])
    ensures (args == [] || !args[0].Bool?) ==> (r <==> Str(v) in args)
  {
    if args == [] then false
    else if args[0].Bool? && args[0].b then
      var p := (e: Value) => e.Str? && Lower(e.s) == Lower(v);
      assert forall i :: 1 <= i < |args| ==> args[i] == args[1..][i - 1];
      Any(args[1..], p)
    else if args[0].Bool? then Any(args[1..], (e: Value) => e == Str(v))
    else Any(args, (e: Value) => e == Str(v))
  }

  lemma InCorrectedExample()
    ensures InCorrected("Hello", [Bool(true), Str("hello"), Str("world"), Str("it's me")])
  {
    var args := [Bool(true), Str("hello"), Str("world"), Str("it's me")];
    assert Lower(args[1].s) == Lower("Hello");
  }

  // ---------------------------------------------------------------- fancify

  /** `s.replace(/c/g, sub)`. */
  function ReplaceChar(s: string, c: char, sub: char): (r: string)
    ensures |r| == |s|
    ensures forall i :: 0 <= i < |s| ==> r[i] == if s[i] == c then sub else s[i]
  {
    if s == [] then [] else [if s[0] == c then sub else s[0]] + ReplaceChar(s[1..], c, sub)
  }

  /** Whether the quote `q` at `k` opens: it starts the text or follows whitespace. */
  function OpenedAt(s: string, q: char, open: char, k: nat): char
    requires k < |s|
  {
    if s[k] == q && (k == 0 || IsSpace(s[k - 1])) then open else s[k]
  }

  /**
   * The scan of `replace(/(\s|^)q/g, "$1" + open)` from position `i`: a
   * whitespace followed by `q` is a two-character match, `q` at the start
   * a one-character one.
   */
  function OpenQuotesFrom(s: string, q: char, open: char, i: nat): (r: string)
    requires i <= |s| && !IsSpace(q)
    requires 0 < i < |s| ==> !(s[i] == q && IsSpace(s[i - 1]))
    ensures |r| == |s| - i
    ensures forall k :: i <= k < |s| ==> r[k - i] == OpenedAt(s, q, open, k)
    decreases |s| - i
  {
    if i == |s| then []
    else if i + 1 < |s| && IsSpace(s[i]) && s[i + 1] == q then [s[i], open] + OpenQuotesFrom(s, q, open, i + 2)
    else if i == 0 && s[0] == q then [open] + OpenQuotesFrom(s, q, open, 1)
    else [s[i]] + OpenQuotesFrom(s, q, open, i + 1)
  }

  /** `replace(/(\s|^)q/g, "$1" + open).replace(/q/g, close)`. */
  function Quotes(s: string, q: char, open: char, close: char): string
    requires !IsSpace(q)
  {
    ReplaceChar(OpenQuotesFrom(s, q, open, 0), q, close)
  }

  /**
   * Each quote becomes the opening quote at the start of the text or after
   * whitespace and the closing quote elsewhere; all else is kept, and
   * turning the new quotes back into `q` gives the text back.
   */
  lemma QuotesMeaning(s: string, q: char, open: char, close: char)
    requires !IsSpace(q) && open != q && close != q
    ensures var r := Quotes(s, q, open, close);
      && |r| == |s|
      && (forall k :: 0 <= k < |s| ==>
            r[k] == if s[k] != q then s[k] else if k == 0 || IsSpace(s[k - 1]) then open else close)
      && q !in r
      && (forall c :: c in r ==> c in s || c == open || c == close)
      && (open !in s && close !in s ==> ReplaceChar(ReplaceChar(r, open, q), close, q) == s)
  {
    var r := Quotes(s, q, open, close);
    var o := OpenQuotesFrom(s, q, open, 0);
    assert forall k :: 0 <= k < |s| ==> o[k] == OpenedAt(s, q, open, k);
    forall c | c in r
      ensures c in s || c == open || c == close
    {
      var k :| 0 <= k < |r| && r[k] == c;
      assert o[k] == OpenedAt(s, q, open, k);
    }
    if open !in s && close !in s {
      var back := ReplaceChar(ReplaceChar(r, open, q), close, q);
      forall k | 0 <= k < |s|
        ensures back[k] == s[k]
      {
        assert o[k] == OpenedAt(s, q, open, k);
      }
    }
  }

  /** The length of the run of dots that `s` starts with. */
  function DotRun(s: string): (n: nat)
    ensures n <= |s|
    ensures forall k :: 0 <= k < n ==> s[k] == '.'
    ensures n < |s| ==> s[n] != '.'
  {
    if s != [] && s[0] == '.' then 1 + DotRun(s[1..]) else 0
  }

  /** No three dots in a row. */
  predicate NoTripleDot(s: string)
  {
    forall k :: 0 <= k && k + 2 < |s| ==> !(s[k] == '.' && s[k + 1] == '.' && s[k + 2] == '.')
  }

  /**
   * `replace(/\.\.\.\.*\/g, "…")`: each run of three or more dots becomes
   * one ellipsis; a shorter run of dots is kept.
   */
  function CollapseDots(s: string): (r: string)
    ensures |r| <= |s|
    ensures NoTripleDot(r)
    ensures DotRun(s) < 3 ==> DotRun(r) == DotRun(s)
    ensures DotRun(s) >= 3 ==> r != [] && r[0] == '…'
    ensures forall c :: c in r ==> c in s || c == '…'
  {
    if s == [] then []
    else if DotRun(s) >= 3 then
      var rest := CollapseDots(s[DotRun(s)..]);
      assert DotRun(s[DotRun(s)..]) == 0;
      PrependDot('…', rest);
      ['…'] + rest
    else
      var rest := CollapseDots(s[1..]);
      assert s[0] == '.' ==> DotRun(s) == 1 + DotRun(s[1..]);
      PrependDot(s[0], rest);
      [s[0]] + rest
  }

  /** Putting `c` in front keeps three dots apart unless it makes a third. */
  lemma PrependDot(c: char, rest: string)
    requires NoTripleDot(rest) && (c == '.' ==> DotRun(rest) < 2)
    ensures NoTripleDot([c] + rest)
    ensures DotRun([c] + rest) == if c == '.' then 1 + DotRun(rest) else 0
  {
    var t := [c] + rest;
    assert t[1..] == rest;
    forall k | 0 <= k && k + 2 < |t|
      ensures !(t[k] == '.' && t[k + 1] == '.' && t[k + 2] == '.')
    {
      if k > 0 {
        assert t[k] == rest[k - 1] && t[k + 1] == rest[k] && t[k + 2] == rest[k + 1];
      }
    }
  }

  /** Text without three dots in a row is left as it is. */
  lemma {:induction false} CollapseDotsKeeps(s: string)
    requires NoTripleDot(s)
    ensures CollapseDots(s) == s
  {
    if s != [] {
      assert NoTripleDot(s[1..]) by {
        forall k | 0 <= k && k + 2 < |s[1..]|
          ensures !(s[1..][k] == '.' && s[1..][k + 1] == '.' && s[1..][k + 2] == '.')
        {
          assert s[1..][k] == s[k + 1] && s[1..][k + 1] == s[k + 2] && s[1..][k + 2] == s[k + 3];
        }
      }
      CollapseDotsKeeps(s[1..]);
    }
  }

  /** Collapsing dots twice is collapsing them once. */
  lemma CollapseDotsIdempotent(s: string)
    ensures CollapseDots(CollapseDots(s)) == CollapseDots(s)
  {
    CollapseDotsKeeps(CollapseDots(s));
  }

  /** A dot run ends where the text following it starts with something other than a dot. */
  lemma {:induction false} DotRunConcat(a: string, t: string)
    requires t != [] && t[0] != '.'
    ensures DotRun(a + t) == DotRun(a)
  {
    if a != [] {
      assert (a + t)[1..] == a[1..] + t;
      DotRunConcat(a[1..], t);
    }
  }

  /** A run of three or more dots at the start becomes one ellipsis. */
  lemma {:induction false} CollapseDotsLongRun(s: string)
    requires s != [] && DotRun(s) >= 3
    ensures CollapseDots(s) == ['…'] + CollapseDots(s[DotRun(s)..])
  {
  }

  /** Otherwise the first character is kept. */
  lemma {:induction false} CollapseDotsShortRun(s: string)
    requires s != [] && DotRun(s) < 3
    ensures CollapseDots(s) == [s[0]] + CollapseDots(s[1..])
  {
  }

  lemma ConcatRegroup(p: string, x: string, c: char, y: string)
    ensures p + (x + [c] + y) == p + x + [c] + y
    ensures x + [c] + y == x + ([c] + y)
  {
  }

  lemma SliceOfConcat(a: string, t: string, d: nat)
    requires d <= |a|
    ensures (a + t)[d..] == a[d..] + t
  {
  }

  /** A character other than a dot separates the text into parts collapsed on their own. */
  lemma {:induction false} CollapseDotsSplit(a: string, c: char, b: string)
    requires c != '.'
    ensures CollapseDots(a + [c] + b) == CollapseDots(a) + [c] + CollapseDots(b)
    decreases |a|
  {
    var u := [c] + b;
    ConcatRegroup([], a, c, b);
    DotRunConcat(a, u);
    if a == [] {
      SliceOfConcat([c], b, 1);
      CollapseDotsShortRun(u);
    } else {
      var d := if DotRun(a) >= 3 then DotRun(a) else 1;
      var t := a[d..];
      var p := if DotRun(a) >= 3 then ['…'] else [a[0]];
      SliceOfConcat(a, u, d);
      ConcatRegroup([], t, c, b);
      calc {
        CollapseDots(a + u);
        { if DotRun(a) >= 3 { CollapseDotsLongRun(a + u); } else { CollapseDotsShortRun(a + u); } }
        p + CollapseDots(t + [c] + b);
        { CollapseDotsSplit(t, c, b); }
        p + (CollapseDots(t) + [c] + CollapseDots(b));
        { ConcatRegroup(p, CollapseDots(t), c, CollapseDots(b)); }
        p + CollapseDots(t) + [c] + CollapseDots(b);
        { if DotRun(a) >= 3 { CollapseDotsLongRun(a); } else { CollapseDotsShortRun(a); } }
        CollapseDots(a) + [c] + CollapseDots(b);
      }
    }
  }

  /** `n` dots in a row. */
  function Dots(n: nat): (r: string)
    ensures |r| == n && forall k :: 0 <= k < n ==> r[k] == '.'
  {
    if n == 0 then [] else ['.'] + Dots(n - 1)
  }

  /** A run of three or more dots becomes one ellipsis; a shorter run stays. */
  lemma CollapseDotsRun(n: nat)
    ensures CollapseDots(Dots(n)) == if n >= 3 then "…" else Dots(n)
  {
    var s := Dots(n);
    assert DotRun(s) == n;
    if n >= 3 {
      assert s[n..] == [];
    } else {
      CollapseDotsKeeps(s);
    }
  }

  /** A hyphen between two whitespace characters, at `k`. */
  predicate EnDashPattern(s: string, k: nat)
  {
    0 < k && k + 1 < |s| && IsSpace(s[k - 1]) && s[k] == '-' && IsSpace(s[k + 1])
  }

  /**
   * Whether `replace(/(\s)-(\s)/g, "$1–$2")` turns the hyphen at `k` into
   * an en dash: the pattern is there and its leading whitespace was not
   * taken by a match two positions before.
   */
  predicate EnDashAt(s: string, k: nat)
    decreases k
  {
    EnDashPattern(s, k) && !(k >= 2 && EnDashAt(s, k - 2))
  }

  /** The scan of `replace(/(\s)-(\s)/g, "$1–$2")` from position `i`. */
  function EnDashesFrom(s: string, i: nat): (r: string)
    requires i <= |s|
    ensures |r| == |s| - i
    decreases |s| - i
  {
    if i == |s| then []
    else if i + 2 < |s| && IsSpace(s[i]) && s[i + 1] == '-' && IsSpace(s[i + 2]) then
      [s[i], '–', s[i + 2]] + EnDashesFrom(s, i + 3)
    else
      [s[i]] + EnDashesFrom(s, i + 1)
  }

  /** `s` with exactly the hyphens `EnDashAt` names turned into en dashes. */
  function EnDashed(s: string): (r: string)
    ensures |r| == |s|
    ensures forall k :: 0 <= k < |s| ==> r[k] == if EnDashAt(s, k) then '–' else s[k]
  {
    seq(|s|, k requires 0 <= k < |s| => if EnDashAt(s, k) then '–' else s[k])
  }

  lemma SliceFront(m: string, i: nat, n: nat)
    requires i + n <= |m|
    ensures m[i..] == m[i..i + n] + m[i + n..]
  {
  }

  /** At a match, the scan writes the three characters `EnDashed` has there. */
  lemma {:induction false} EnDashedAtMatch(s: string, i: nat)
    requires i + 2 < |s| && IsSpace(s[i]) && s[i + 1] == '-' && IsSpace(s[i + 2])
    requires !EnDashAt(s, i) && (1 <= i ==> !EnDashAt(s, i - 1))
    ensures EnDashAt(s, i + 1) && !EnDashAt(s, i + 2)
    ensures i + 3 < |s| ==> !EnDashAt(s, i + 3)
    ensures EnDashed(s)[i..i + 3] == [s[i], '–', s[i + 2]]
  {
    assert EnDashAt(s, i + 1);
    assert !EnDashAt(s, i + 2) by { assert !EnDashPattern(s, i + 2); }
    EnDashedSlice(s, i, [s[i], '–', s[i + 2]]);
  }

  /** A slice of `EnDashed(s)` read off position by position. */
  lemma EnDashedSlice(s: string, i: nat, t: string)
    requires i + |t| <= |s|
    requires forall j :: 0 <= j < |t| ==> t[j] == if EnDashAt(s, i + j) then '–' else s[i + j]
    ensures EnDashed(s)[i..i + |t|] == t
  {
  }

  /** Elsewhere it copies the character, which `EnDashed` keeps. */
  lemma {:induction false} EnDashedAtOther(s: string, i: nat)
    requires i < |s| && !(i + 2 < |s| && IsSpace(s[i]) && s[i + 1] == '-' && IsSpace(s[i + 2]))
    requires !EnDashAt(s, i)
    ensures i + 1 < |s| ==> !EnDashAt(s, i + 1)
    ensures EnDashed(s)[i..i + 1] == [s[i]]
  {
    assert !EnDashPattern(s, i + 1);
    assert EnDashed(s)[i] == s[i];
  }

  /** A scan that starts at a position no earlier match reaches into agrees with `EnDashed`. */
  lemma {:induction false} EnDashesFromAt(s: string, i: nat)
    requires i <= |s|
    requires i < |s| ==> !EnDashAt(s, i)
    requires 1 <= i && i + 1 < |s| ==> !EnDashAt(s, i - 1)
    ensures EnDashesFrom(s, i) == EnDashed(s)[i..]
    decreases |s| - i
  {
    var m := EnDashed(s);
    if i == |s| {
    } else if i + 2 < |s| && IsSpace(s[i]) && s[i + 1] == '-' && IsSpace(s[i + 2]) {
      EnDashedAtMatch(s, i);
      EnDashesFromAt(s, i + 3);
      SliceFront(m, i, 3);
    } else {
      EnDashedAtOther(s, i);
      EnDashesFromAt(s, i + 1);
      SliceFront(m, i, 1);
    }
  }

  function EnDashes(s: string): string
  {
    EnDashesFrom(s, 0)
  }

  /**
   * Only hyphens between whitespace become en dashes, and turning the en
   * dashes back into hyphens gives the text back.
   */
  lemma EnDashesMeaning(s: string)
    ensures var r := EnDashes(s);
      && |r| == |s|
      && (forall k :: 0 <= k < |s| ==> r[k] == s[k] || (r[k] == '–' && EnDashPattern(s, k)))
      && (forall c :: c in r ==> c in s || c == '–')
      && ('–' !in s ==> ReplaceChar(r, '–', '-') == s)
  {
    var r := EnDashes(s);
    EnDashesFromAt(s, 0);
    assert r == EnDashed(s);
    forall c | c in r
      ensures c in s || c == '–'
    {
      var k :| 0 <= k < |r| && r[k] == c;
    }
    if '–' !in s {
      var back := ReplaceChar(r, '–', '-');
      forall k | 0 <= k < |s|
        ensures back[k] == s[k]
      {
      }
    }
  }

  /** Matches do not overlap: in " - - " only the first hyphen is replaced. */
  lemma EnDashesExample()
    ensures EnDashes(" - - ") == " – - "
  {
    assert EnDashAt(" - - ", 1);
    assert !EnDashAt(" - - ", 3);
  }

  /** The class `[^-\s]`. */
  predicate Word(c: char)
  {
    c != '-' && !IsSpace(c)
  }

  /** `replace(/([^-\s])--([^-\s])/g, "$1—$2")`. */
  function EmDashes(s: string): (r: string)
    ensures |r| <= |s|
    ensures forall c :: c in r ==> c in s || c == '—'
  {
    if |s| >= 4 && Word(s[0]) && s[1] == '-' && s[2] == '-' && Word(s[3]) then
      [s[0], '—', s[3]] + EmDashes(s[4..])
    else if s == [] then []
    else [s[0]] + EmDashes(s[1..])
  }

  /** Each em dash written back as two hyphens. */
  function ExpandEmDashes(s: string): string
  {
    if s == [] then [] else (if s[0] == '—' then "--" else [s[0]]) + ExpandEmDashes(s[1..])
  }

  lemma {:induction false} ExpandEmDashesAppend(a: string, b: string)
    ensures ExpandEmDashes(a + b) == ExpandEmDashes(a) + ExpandEmDashes(b)
  {
    if a != [] {
      assert (a + b)[0] == a[0] && (a + b)[1..] == a[1..] + b;
      ExpandEmDashesAppend(a[1..], b);
    } else {
      assert a + b == b;
    }
  }

  lemma ExpandEmDash(a: char, b: char)
    requires a != '—' && b != '—'
    ensures ExpandEmDashes([a, '—', b]) == [a, '-', '-', b]
  {
    var m := [a, '—', b];
    assert m[1..] == ['—', b] && m[1..][1..] == [b] && m[1..][1..][1..] == [];
    assert ExpandEmDashes([b]) == [b];
    assert ExpandEmDashes(m[1..]) == "--" + [b];
  }

  /** Writing the new em dashes back as two hyphens gives the text back. */
  lemma {:induction false} EmDashesRoundTrip(s: string)
    requires '—' !in s
    ensures ExpandEmDashes(EmDashes(s)) == s
  {
    if |s| >= 4 && Word(s[0]) && s[1] == '-' && s[2] == '-' && Word(s[3]) {
      assert '—' !in s[4..];
      EmDashesRoundTrip(s[4..]);
      ExpandEmDashesAppend([s[0], '—', s[3]], EmDashes(s[4..]));
      assert s[0] in s && s[3] in s;
      ExpandEmDash(s[0], s[3]);
      assert s == [s[0], '-', '-', s[3]] + s[4..];
    } else if s != [] {
      assert '—' !in s[1..];
      EmDashesRoundTrip(s[1..]);
      ExpandEmDashesAppend([s[0]], EmDashes(s[1..]));
      assert s == [s[0]] + s[1..];
    }
  }

  /** Matches do not overlap: in "a--b--c" the second "--" has no word character left before it. */
  lemma EmDashesExample()
    ensures EmDashes("a--b--c") == "a—b--c"
  {
    assert "a--b--c"[4..] == "--c";
    EmDashesShort("--c");
  }

  /** Text shorter than a match is left as it is. */
  lemma {:induction false} EmDashesShort(s: string)
    requires |s| < 4
    ensures EmDashes(s) == s
  {
    if s != [] {
      EmDashesShort(s[1..]);
      assert s == [s[0]] + s[1..];
    }
  }

  /** A double hyphen needs a word character on both sides. */
  lemma EmDashesNeedWords()
    ensures EmDashes("a -- b") == "a -- b"
  {
    assert EmDashes("- b") == "- b";
    assert EmDashes("-- b") == "-- b";
    assert EmDashes(" -- b") == " -- b";
  }

  /** Space or tab: the class `[ \t]`. */
  predicate IsBlank(c: char)
  {
    c == ' ' || c == '\t'
  }

  /** The length of the run of blanks that `s` starts with. */
  function BlankRun(s: string): (n: nat)
    ensures n <= |s|
    ensures forall k :: 0 <= k < n ==> IsBlank(s[k])
    ensures n < |s| ==> !IsBlank(s[n])
  {
    if s != [] && IsBlank(s[0]) then 1 + BlankRun(s[1..]) else 0
  }

  /** The text without its blanks. */
  function NonBlank(s: string): string
  {
    if s == [] then [] else (if IsBlank(s[0]) then [] else [s[0]]) + NonBlank(s[1..])
  }

  lemma {:induction false} NonBlankSkip(s: string, n: nat)
    requires n <= |s| && forall k :: 0 <= k < n ==> IsBlank(s[k])
    ensures NonBlank(s) == NonBlank(s[n..])
  {
    if n > 0 {
      assert s[1..][n - 1..] == s[n..];
      NonBlankSkip(s[1..], n - 1);
    }
  }

  /** No blank is at the start of a line after the first. */
  predicate NoBlankAfterNewline(s: string)
  {
    forall j, k :: 0 <= j < |s| && 0 <= k < |s| && k == j + 1 && s[j] == '\n' ==> !IsBlank(s[k])
  }

  /** The scan of `replace(/(\n|^)[ \t]+/g, "$1")` past the start of the text. */
  function TrimFrom(s: string): (r: string)
    ensures |r| <= |s|
    ensures s != [] ==> r != [] && r[0] == s[0]
    ensures NoBlankAfterNewline(r)
    ensures NonBlank(r) == NonBlank(s)
    ensures forall c :: c in r ==> c in s
  {
    if s == [] then []
    else if |s| >= 2 && s[0] == '\n' && IsBlank(s[1]) then
      var n := BlankRun(s[1..]);
      var rest := TrimFrom(s[1 + n..]);
      assert s[1..][n..] == s[1 + n..];
      NonBlankSkip(s[1..], n);
      ['\n'] + rest
    else
      [s[0]] + TrimFrom(s[1..])
  }

  /** `replace(/(\n|^)[ \t]+/g, "$1")`: the blanks at the start of each line are removed. */
  function TrimLineStarts(s: string): (r: string)
    ensures NoBlankAfterNewline(r)
    ensures r != [] ==> !IsBlank(r[0])
    ensures NonBlank(r) == NonBlank(s)
    ensures forall c :: c in r ==> c in s
  {
    var n := BlankRun(s);
    NonBlankSkip(s, n);
    TrimFrom(s[n..])
  }

  /** Text with no blank at the start of a line is left as it is. */
  lemma {:induction false} TrimFromKeeps(s: string)
    requires NoBlankAfterNewline(s)
    ensures TrimFrom(s) == s
  {
    if s != [] {
      assert NoBlankAfterNewline(s[1..]) by {
        forall j, k | 0 <= j < |s[1..]| && 0 <= k < |s[1..]| && k == j + 1 && s[1..][j] == '\n'
          ensures !IsBlank(s[1..][k])
        {
          assert s[1..][j] == s[j + 1] && s[1..][k] == s[k + 1];
        }
      }
      TrimFromKeeps(s[1..]);
    }
  }

  lemma TrimLineStartsKeeps(s: string)
    requires NoBlankAfterNewline(s) && (s != [] ==> !IsBlank(s[0]))
    ensures TrimLineStarts(s) == s
  {
    TrimFromKeeps(s);
  }

  /** A blank run ends where the text following it starts with something other than a blank. */
  lemma {:induction false} BlankRunConcat(a: string, t: string)
    requires t != [] && !IsBlank(t[0])
    ensures BlankRun(a + t) == BlankRun(a)
  {
    if a != [] {
      assert (a + t)[1..] == a[1..] + t;
      BlankRunConcat(a[1..], t);
    }
  }

  /** A newline followed by blanks loses the blanks. */
  lemma {:induction false} TrimFromNewlineBlanks(b: string)
    requires b != [] && IsBlank(b[0])
    ensures TrimFrom(['\n'] + b) == ['\n'] + TrimFrom(b[BlankRun(b)..])
  {
    var s := ['\n'] + b;
    assert |s| >= 2 && s[0] == '\n' && s[1] == b[0];
    assert s[1..] == b;
    assert s[1 + BlankRun(b)..] == b[BlankRun(b)..];
    var t := TrimFrom(s[1 + BlankRun(b)..]);
    assert TrimFrom(s) == ['\n'] + t;
  }

  /** Any other character is kept. */
  lemma {:induction false} TrimFromKeepsFirst(s: string)
    requires s != [] && !(|s| >= 2 && s[0] == '\n' && IsBlank(s[1]))
    ensures TrimFrom(s) == [s[0]] + TrimFrom(s[1..])
  {
  }

  lemma DropOfCons(c: char, b: string, n: nat)
    requires n <= |b|
    ensures ([c] + b)[1 + n..] == b[n..]
    ensures ([c] + b)[1..] == b
  {
  }

  lemma ConsOfTail(a: string, t: string)
    requires a != []
    ensures [a[0]] + (a[1..] + t) == a + t
  {
  }

  /** Past the start of the text, the first line is kept as it is, blanks inside it included. */
  lemma {:induction false} TrimFromSplit(a: string, b: string)
    requires '\n' !in a
    ensures TrimFrom(a + ['\n'] + b) == a + ['\n'] + TrimLineStarts(b)
  {
    var u := ['\n'] + b;
    ConcatRegroup([], a, '\n', b);
    if a == [] {
      assert a + u == u;
      DropOfCons('\n', b, BlankRun(b));
      if b != [] && IsBlank(b[0]) {
        TrimFromNewlineBlanks(b);
      } else {
        TrimFromKeepsFirst(u);
        assert b[BlankRun(b)..] == b;
      }
    } else {
      var t := TrimLineStarts(b);
      SliceOfConcat(a, u, 1);
      ConcatRegroup([], a[1..], '\n', b);
      calc {
        TrimFrom(a + u);
        { TrimFromKeepsFirst(a + u); }
        [a[0]] + TrimFrom(a[1..] + ['\n'] + b);
        { TrimFromSplit(a[1..], b); }
        [a[0]] + (a[1..] + ['\n'] + t);
        { ConcatRegroup([], a[1..], '\n', t); ConsOfTail(a, ['\n'] + t); ConcatRegroup([], a, '\n', t); }
        a + ['\n'] + t;
      }
    }
  }

  lemma {:induction false} TrimFromLine(s: string)
    requires '\n' !in s
    ensures TrimFrom(s) == s
  {
    TrimFromKeeps(s);
  }

  /** One line loses exactly the blanks it starts with, and none inside it. */
  lemma TrimLineStartsLine(a: string)
    requires '\n' !in a
    ensures TrimLineStarts(a) == a[BlankRun(a)..]
  {
    TrimFromLine(a[BlankRun(a)..]);
  }

  /** Each line of the text is trimmed on its own. */
  lemma TrimLineStartsSplit(a: string, b: string)
    requires '\n' !in a
    ensures TrimLineStarts(a + ['\n'] + b) == TrimLineStarts(a) + ['\n'] + TrimLineStarts(b)
  {
    var u := ['\n'] + b;
    var n := BlankRun(a);
    ConcatRegroup([], a, '\n', b);
    BlankRunConcat(a, u);
    SliceOfConcat(a, u, n);
    ConcatRegroup([], a[n..], '\n', b);
    assert '\n' !in a[n..];
    TrimFromSplit(a[n..], b);
    TrimLineStartsLine(a);
  }


  /** `s.fancify()`: the replacements in the order the source applies them. */
  function Fancify(s: string): string
  {
    var dq := Quotes(s, '"', '“', '”');
    var sq := Quotes(dq, '\'', '‘', '’');
    TrimLineStarts(EmDashes(EnDashes(CollapseDots(sq))))
  }

  /**
   * The fancified text has no straight quotes left and no blank at the
   * start of a line.
   */
  lemma FancifyMeaning(s: string)
    ensures var r := Fancify(s);
      && '"' !in r && '\'' !in r
      && NoBlankAfterNewline(r)
      && (r != [] ==> !IsBlank(r[0]))
  {
    var dq := Quotes(s, '"', '“', '”');
    QuotesMeaning(s, '"', '“', '”');
    var sq := Quotes(dq, '\'', '‘', '’');
    QuotesMeaning(dq, '\'', '‘', '’');
    var en := EnDashes(CollapseDots(sq));
    EnDashesMeaning(CollapseDots(sq));
  }
}
