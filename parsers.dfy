/**
 * The lenient parsers of parsers.js: digit runs out of free text, a date
 * placed from 0-3 of those numbers with today's date as the default, and a
 * time of day turned into a millisecond count.
 *
 * The ambient reads of the source are parameters here: `today` is what
 * `new Date()` gives when a date is parsed, and `tzOffset` is
 * `new Date(0).getTimezoneOffset()` in minutes. Results that the source
 * hands to the `Date` constructor are returned as the raw fields or the raw
 * millisecond count; `None` stands for the source's `NaN`.
 */
module Parsers {
  import opened JsValues

  // ---------------------------------------------------------------- filledArray

  /**
   * `filledArray(elements, value)`: `Array(elements)` makes `elements` holes,
   * or throws a RangeError for a length outside the array range;
   * `Array.apply(null, holes)` spreads them into as many `undefined`
   * entries, and `map` puts `value` in each.
   */
  function FilledArray<T>(elements: int, value: T): (r: Completion<seq<T>>)
    ensures r.Normal? <==> 0 <= elements < ArrayLengthBound
    ensures r.Normal? ==> |r.value| == elements && forall i :: 0 <= i < elements ==> r.value[i] == value
    ensures r.Throw? ==> r.error == RangeError
  {
    match ArrayFromArguments([Num(elements)])
    case Throw(e) => Throw(e)
    case Normal(holes) => Normal(seq(|holes|, _ => value))
  }

  // ---------------------------------------------------------------- numParser

  /** Length of the digit run at the front of `s` (what `\d+` consumes there). */
  function DigitRunLength(s: string): (k: nat)
    ensures k <= |s|
    ensures AllDigits(s[..k])
    ensures k < |s| ==> !IsDigit(s[k])
    ensures s != [] && IsDigit(s[0]) ==> k >= 1
  {
    if s == [] || !IsDigit(s[0]) then 0
    else
      var k := 1 + DigitRunLength(s[1..]);
      assert s[..k] == [s[0]] + s[1..][..k - 1];
      k
  }

  /** `string.match(/\d+/g).map(e => +e)`: every maximal digit run, left to right. */
  function DigitRuns(s: string): seq<nat>
    decreases |s|
  {
    if s == [] then []
    else if !IsDigit(s[0]) then DigitRuns(s[1..])
    else
      var k := DigitRunLength(s);
      [DigitsValue(s[..k])] + DigitRuns(s[k..])
  }

  predicate HasDigit(s: string)
  {
    exists i :: 0 <= i < |s| && IsDigit(s[i])
  }

  /**
   * `numParser(string)`: the empty list for a falsy or non-string argument and
   * for text without digits, the digit runs otherwise.
   */
  function NumParser(input: Value): (r: seq<nat>)
    ensures r == [] <==> !input.Str? || !HasDigit(input.s)
    ensures input.Str? ==> r == DigitRuns(input.s)
  {
    if !Truthy(input) || !input.Str? then []
    else
      DigitRunsEmpty(input.s);
      DigitRuns(input.s)
  }

  lemma {:induction false} DigitRunsEmpty(s: string)
    ensures DigitRuns(s) == [] <==> !HasDigit(s)
    decreases |s|
  {
    if s != [] && !IsDigit(s[0]) {
      DigitRunsEmpty(s[1..]);
      assert forall i :: 1 <= i < |s| ==> s[i] == s[1..][i - 1];
      assert HasDigit(s) ==> HasDigit(s[1..]) by {
        if HasDigit(s) {
          var i :| 0 <= i < |s| && IsDigit(s[i]);
          assert s[1..][i - 1] == s[i];
        }
      }
    }
  }

  /** A digit run ends at the first non-digit, whatever follows it. */
  lemma {:induction false} DigitRunLengthStops(a: string, t: string)
    requires t != [] && !IsDigit(t[0])
    ensures DigitRunLength(a + t) == DigitRunLength(a)
    decreases |a|
  {
    if a != [] && IsDigit(a[0]) {
      assert (a + t)[1..] == a[1..] + t;
      DigitRunLengthStops(a[1..], t);
    }
  }

  lemma {:induction false} DigitRunLengthAll(s: string)
    requires AllDigits(s)
    ensures DigitRunLength(s) == |s|
    decreases |s|
  {
    if s != [] {
      DigitRunLengthAll(s[1..]);
    }
  }

  /** A non-digit splits the text: the runs on each side are found independently. */
  lemma {:induction false} DigitRunsSplit(a: string, c: char, b: string)
    requires !IsDigit(c)
    ensures DigitRuns(a + [c] + b) == DigitRuns(a) + DigitRuns(b)
    decreases |a|
  {
    var s := a + [c] + b;
    if a == [] {
      assert s[1..] == b;
    } else if !IsDigit(a[0]) {
      assert s[1..] == a[1..] + [c] + b;
      DigitRunsSplit(a[1..], c, b);
    } else {
      var k := DigitRunLength(a);
      assert s == a + ([c] + b);
      DigitRunLengthStops(a, [c] + b);
      assert s[..k] == a[..k];
      assert s[k..] == a[k..] + [c] + b;
      DigitRunsSplit(a[k..], c, b);
    }
  }

  lemma DigitRunsOfNumber(n: nat)
    ensures DigitRuns(DecimalString(n)) == [n]
  {
    var d := DecimalString(n);
    DigitRunLengthAll(d);
    assert d[..|d|] == d;
    assert d[|d|..] == [];
    DecimalStringValue(n);
  }

  /** The numbers written in decimal with `sep` between them. */
  function JoinNumbers(ns: seq<nat>, sep: char): string
  {
    if |ns| == 0 then []
    else if |ns| == 1 then DecimalString(ns[0])
    else DecimalString(ns[0]) + [sep] + JoinNumbers(ns[1..], sep)
  }

  lemma {:induction false} DigitRunsOfJoin(ns: seq<nat>, sep: char)
    requires !IsDigit(sep)
    ensures DigitRuns(JoinNumbers(ns, sep)) == ns
  {
    if |ns| == 1 {
      DigitRunsOfNumber(ns[0]);
    } else if |ns| > 1 {
      DigitRunsSplit(DecimalString(ns[0]), sep, JoinNumbers(ns[1..], sep));
      DigitRunsOfNumber(ns[0]);
      DigitRunsOfJoin(ns[1..], sep);
      assert ns == [ns[0]] + ns[1..];
    }
  }

  /** numParser is a left inverse of writing the numbers out with any non-digit separator. */
  lemma NumParserRoundTrip(ns: seq<nat>, sep: char)
    requires !IsDigit(sep)
    ensures NumParser(Str(JoinNumbers(ns, sep))) == ns
  {
    DigitRunsOfJoin(ns, sep);
    if ns != [] {
      assert DecimalString(ns[0]) != [];
      assert JoinNumbers(ns, sep) != [];
    }
  }

  /** Four numbers with the separators of the documented example between them. */
  lemma {:induction false} DigitRunsOfMixedSeparators(a: nat, b: nat, c: nat, d: nat)
    ensures DigitRuns(DecimalString(a) + ['-'] + (DecimalString(b) + [','] + (DecimalString(c) + [' '] + DecimalString(d))))
            == [a, b, c, d]
  {
    var a', b', c', d' := DecimalString(a), DecimalString(b), DecimalString(c), DecimalString(d);
    DigitRunsSplit(c', ' ', d');
    DigitRunsSplit(b', ',', c' + [' '] + d');
    DigitRunsSplit(a', '-', b' + [','] + (c' + [' '] + d'));
    DigitRunsOfNumber(a);
    DigitRunsOfNumber(b);
    DigitRunsOfNumber(c);
    DigitRunsOfNumber(d);
  }

  /** The documented example: "10-12,14 18" gives [10, 12, 14, 18]. */
  lemma NumParserExample()
    ensures NumParser(Str("10-12,14 18")) == [10, 12, 14, 18]
  {
    DigitRunsOfMixedSeparators(10, 12, 14, 18);
    ExampleNumeralsOfNumParser();
    MixedSeparatorText(DecimalString(10), DecimalString(12), DecimalString(14), DecimalString(18));
  }

  lemma ExampleNumeralsOfNumParser()
    ensures DecimalString(10) == "10" && DecimalString(12) == "12"
    ensures DecimalString(14) == "14" && DecimalString(18) == "18"
  {
  }

  lemma MixedSeparatorText(a: string, b: string, c: string, d: string)
    requires a == "10" && b == "12" && c == "14" && d == "18"
    ensures a + ['-'] + (b + [','] + (c + [' '] + d)) == "10-12,14 18"
  {
  }

  // ---------------------------------------------------------------- dateParser

  /**
   * The year, month and day handed to `new Date(y, m, d)`; `month` is
   * 0-based as in the source. No rollover is applied.
   */
  datatype CalendarDate = CalendarDate(year: int, month: int, day: int)

  /** A date that `new Date()` can report: 0-based month, day 1-31. */
  predicate IsToday(today: CalendarDate)
  {
    0 <= today.month <= 11 && 1 <= today.day <= 31
  }

  /** `Math.floor(y / 100) * 100`. */
  function CenturyOf(year: int): int
  {
    (year / 100) * 100
  }

  /**
   * The two-digit-year rule: a year below 100 is put into the current
   * century, or the previous one if that would be more than 20 years ahead.
   */
  function ExpandYear(y: int, currentYear: int): (r: int)
    ensures y >= 100 ==> r == y
    ensures 0 <= y < 100 ==> r % 100 == y
    ensures 0 <= y < 100 ==> r <= currentYear + 20
    ensures 0 <= y < 100 ==> r / 100 == currentYear / 100 || r / 100 == currentYear / 100 - 1
    ensures 0 <= y < 100 && CenturyOf(currentYear) + y <= currentYear + 20 ==> r / 100 == currentYear / 100
  {
    var c := CenturyOf(currentYear);
    if y < 100 then
      var y1 := y + c;
      if y1 > currentYear + 20 then y1 - 100 else y1
    else y
  }

  /**
   * The date parser, with the month bound as a parameter: the source rejects
   * a 0-based month above 12 (`ParseDate`); `ParseDateMonthChecked` is the
   * bound of 11 that "month 1-12" calls for.
   */
  function ParseDateWith(input: Value, today: CalendarDate, monthLimit: int): Option<CalendarDate>
  {
    if !Truthy(input) then None
    else
      var nums := NumParser(input);
      var month := if |nums| >= 2 then nums[0] as int - 1 else today.month;
      var day := if |nums| == 0 then today.day else if |nums| == 1 then nums[0] else nums[1];
      var year := if |nums| >= 3 then nums[2] else today.year;
      if month > monthLimit || day > 31 then None
      else Some(CalendarDate(ExpandYear(year, today.year), month, day))
  }

  /** `dateParser(string)` as written. */
  function ParseDate(input: Value, today: CalendarDate): Option<CalendarDate>
  {
    ParseDateWith(input, today, 12)
  }

  /** `dateParser(string)` with a month above 12 rejected. */
  function ParseDateMonthChecked(input: Value, today: CalendarDate): Option<CalendarDate>
  {
    ParseDateWith(input, today, 11)
  }

  /** `dateParser`, step by step over the locals `y`, `m`, `d` as the source does. */
  method DateParser(input: Value, today: CalendarDate) returns (r: Option<CalendarDate>)
    ensures r == ParseDate(input, today)
  {
    if !Truthy(input) {
      return None;
    }
    var nums := NumParser(input);
    var y := today.year;
    var m := today.month;
    var d := today.day;
    var n := |nums|;
    var year := y;
    var c := (y / 100) * 100;

    if n == 1 {
      d := nums[0];
    } else if n > 1 {
      m := nums[0] as int - 1;
      d := nums[1];
      if n > 2 {
        y := nums[2];
      }
    }
    if m > 12 || d > 31 {
      return None;
    }
    if y < 100 {
      y := y + c;
      if y > year + 20 {
        y := y - 100;
      }
    }
    return Some(CalendarDate(y, m, d));
  }

  /** Falsy input is not a date; text without digits is today's date. */
  lemma DateWithoutTokens(input: Value, today: CalendarDate)
    requires IsToday(today) && today.year >= 100
    ensures !Truthy(input) ==> ParseDate(input, today) == None
    ensures Truthy(input) && NumParser(input) == [] ==> ParseDate(input, today) == Some(today)
  {
  }

  /**
   * Tokens are placed by count: one sets the day, two set month (minus one)
   * and day, three or more also set the year; the rest are ignored.
   */
  lemma DateTokenPlacement(input: Value, today: CalendarDate)
    requires Truthy(input)
    ensures var nums := NumParser(input);
      var r := ParseDate(input, today);
      && (|nums| == 1 ==> r == (if today.month > 12 || nums[0] > 31 then None
                               else Some(CalendarDate(ExpandYear(today.year, today.year), today.month, nums[0]))))
      && (|nums| == 2 ==> r == (if nums[0] > 13 || nums[1] > 31 then None
                               else Some(CalendarDate(ExpandYear(today.year, today.year), nums[0] as int - 1, nums[1]))))
      && (|nums| >= 3 ==> r == (if nums[0] > 13 || nums[1] > 31 then None
                               else Some(CalendarDate(ExpandYear(nums[2], today.year), nums[0] as int - 1, nums[1]))))
  {
  }

  /** Writing a date as month/day/year (4-digit year) and parsing it gives it back. */
  lemma {:induction false} DateRoundTrip(date: CalendarDate, today: CalendarDate, sep: char)
    requires !IsDigit(sep)
    requires 0 <= date.month <= 11 && 0 <= date.day <= 31 && date.year >= 100
    ensures ParseDate(Str(JoinNumbers([date.month + 1, date.day, date.year], sep)), today) == Some(date)
  {
    NumParserRoundTrip([date.month + 1, date.day, date.year], sep);
  }

  /** Tokens of a text written as numbers with a separator. */
  lemma TokensOfText(text: string, ns: seq<nat>, sep: char)
    requires !IsDigit(sep) && text == JoinNumbers(ns, sep)
    ensures NumParser(Str(text)) == ns
  {
    NumParserRoundTrip(ns, sep);
  }

  /** "12" on 12/3/1985 is 12/12/1985: a single token is the day. */
  lemma DateExampleDay()
    ensures ParseDate(Str("12"), CalendarDate(1985, 11, 3)) == Some(CalendarDate(1985, 11, 12))
  {
    TokensOfText("12", [12], '/');
  }

  /** "8.5" in 1985 is 8/5/1985: two tokens are month and day. */
  lemma DateExampleMonthDay()
    ensures ParseDate(Str("8.5"), CalendarDate(1985, 11, 3)) == Some(CalendarDate(1985, 7, 5))
  {
    TokensOfText("8.5", [8, 5], '.');
  }

  /** "6-15-84" is in 1984 both in 1985 and in 2026 (2084 would be more than 20 years ahead). */
  lemma DateExampleTwoDigitYear()
    ensures ParseDate(Str("6-15-84"), CalendarDate(1985, 11, 3)) == Some(CalendarDate(1984, 5, 15))
    ensures ParseDate(Str("6-15-84"), CalendarDate(2026, 9, 14)) == Some(CalendarDate(1984, 5, 15))
  {
    TokensOfText("6-15-84", [6, 15, 84], '-');
  }

  /** In 2026, "46" is exactly 20 years ahead and kept. */
  lemma DateExampleTwentyYearsAhead()
    ensures ParseDate(Str("6-15-46"), CalendarDate(2026, 9, 14)) == Some(CalendarDate(2046, 5, 15))
  {
    TokensOfText("6-15-46", [6, 15, 46], '-');
  }

  /** In 2026, "47" would be 21 years ahead and goes back a century. */
  lemma DateExampleMoreThanTwentyYears()
    ensures ParseDate(Str("6-15-47"), CalendarDate(2026, 9, 14)) == Some(CalendarDate(1947, 5, 15))
  {
    TokensOfText("6-15-47", [6, 15, 47], '-');
  }

  /** The bounds check lets raw month 13 through. */
  lemma DateBoundsAccepted(today: CalendarDate)
    ensures ParseDate(Str("13/1"), today) == Some(CalendarDate(ExpandYear(today.year, today.year), 12, 1))
  {
    TokensOfText("13/1", [13, 1], '/');
  }

  /** The bounds check lets month 0 and day 0 through. */
  lemma DateZerosAccepted(today: CalendarDate)
    ensures ParseDate(Str("0/0"), today) == Some(CalendarDate(ExpandYear(today.year, today.year), -1, 0))
  {
    TokensOfText("0/0", [0, 0], '/');
  }

  /** Raw month 14 and day 32 are rejected. */
  lemma DateBoundsRejected(today: CalendarDate)
    ensures ParseDate(Str("14/1"), today) == None
    ensures ParseDate(Str("1/32"), today) == None
  {
    TokensOfText("14/1", [14, 1], '/');
    TokensOfText("1/32", [1, 32], '/');
  }

  /** With the month bound of 11 no accepted date has a month past December. */
  lemma {:induction false} MonthCheckedInRange(input: Value, today: CalendarDate)
    requires IsToday(today)
    ensures ParseDateMonthChecked(input, today).Some? ==> ParseDateMonthChecked(input, today).value.month <= 11
    ensures ParseDateMonthChecked(input, today) == ParseDate(input, today)
            || (ParseDate(input, today).Some? && ParseDate(input, today).value.month == 12)
  {
  }

  /** With the month bound of 11, "13/1" is rejected. */
  lemma MonthCheckedRejectsThirteen(today: CalendarDate)
    ensures ParseDateMonthChecked(Str("13/1"), today) == None
  {
    TokensOfText("13/1", [13, 1], '/');
  }

  // ---------------------------------------------------------------- numDigits

  function Pow10(k: nat): (r: nat)
    ensures r >= 1
  {
    if k == 0 then 1 else 10 * Pow10(k - 1)
  }

  function Abs(k: int): nat
  {
    if k < 0 then -k else k
  }

  /**
   * `numDigits(num)`: `max(floor(log10(|num|)), 0) + 1`, the number of
   * decimal digits of |num|; 0 counts as one digit.
   */
  function NumDigits(num: int): (r: nat)
    ensures r >= 1
    ensures Abs(num) < Pow10(r)
    ensures num == 0 || Pow10(r - 1) <= Abs(num)
    ensures -10 < num < 10 ==> r == 1
    decreases Abs(num)
  {
    var a := Abs(num);
    if a < 10 then 1 else 1 + NumDigits(a / 10)
  }

  /** The digit count is the length of the decimal rendering. */
  lemma {:induction false} NumDigitsIsLength(n: nat)
    ensures NumDigits(n) == |DecimalString(n)|
  {
    if n >= 10 {
      NumDigitsIsLength(n / 10);
    }
  }

  lemma {:induction false} Pow10Split(k: nat)
    requires k >= 3
    ensures Pow10(k) == Pow10(k - 3) * 1000
  {
    if k > 3 {
      Pow10Split(k - 1);
    }
  }

  lemma MulCancelLess(x: int, y: int, p: int)
    requires p >= 1 && x * p < y * p
    ensures x < y
  {
  }

  /** The quotient times the divisor is at most the dividend, and one more is past it. */
  lemma DivMulBounds(a: nat, p: nat)
    requires p >= 1
    ensures (a / p) * p <= a < (a / p + 1) * p
  {
    var q := a / p;
    assert a == q * p + a % p;
    assert (q + 1) * p == q * p + p;
  }

  lemma DivBetween(a: nat, p: nat, lo: nat, hi: nat)
    requires p >= 1 && lo * p <= a < hi * p
    ensures lo <= a / p < hi
  {
    var q := a / p;
    DivMulBounds(a, p);
    MulCancelLess(q, hi, p);
    MulCancelLess(lo, q + 1, p);
  }

  /**
   * `a[3] *= Math.pow(10, 3 - numDigits(a[3]))`, applied when the field has
   * more than three digits: the field divided by the power of ten that
   * leaves three digits before the point, the others kept as a fraction.
   */
  function ScaledMs(ms: nat): (r: real)
    ensures 0.0 <= r < 1000.0
    ensures NumDigits(ms) <= 3 ==> r == ms as real
  {
    if NumDigits(ms) > 3 then
      var p := Pow10(NumDigits(ms) - 3);
      LeadingThreeDigits(ms, NumDigits(ms));
      QuotientCompare(ms, p, 1000);
      ms as real / p as real
    else
      AtMostThreeDigits(ms);
      ms as real
  }

  /** Comparing a quotient with a whole number is comparing the dividend with a multiple. */
  lemma QuotientCompare(x: nat, p: nat, b: nat)
    requires p >= 1
    ensures x as real / p as real < b as real <==> x < b * p
    ensures x as real / p as real > b as real <==> x > b * p
  {
    var q := x as real / p as real;
    QuotientTimesDivisor(x, p, q);
    assert (b * p) as real == b as real * p as real;
    RealScaleMonotone(q, b as real, p as real);
  }

  lemma QuotientTimesDivisor(x: nat, p: nat, q: real)
    requires p >= 1 && q == x as real / p as real
    ensures q * p as real == x as real
  {
  }

  lemma RealScaleMonotone(u: real, v: real, p: real)
    requires p > 0.0
    ensures u < v <==> u * p < v * p
    ensures u > v <==> u * p > v * p
  {
  }

  /** A field of more than three digits scales to at least 100: its first three digits. */
  lemma ScaledMsLongField(ms: nat)
    requires NumDigits(ms) > 3
    ensures 100.0 <= ScaledMs(ms)
  {
    var p := Pow10(NumDigits(ms) - 3);
    ScaledMsIsQuotient(ms, p);
    assert 100 * p <= ms by {
      LeadingThreeDigits(ms, NumDigits(ms));
    }
    QuotientCompare(ms, p, 100);
  }

  /** Multiplying the scaled field by the power of ten it was divided by gives the field back. */
  lemma ScaledMsRestores(ms: nat, p: nat)
    requires NumDigits(ms) > 3 && p == Pow10(NumDigits(ms) - 3)
    ensures ScaledMs(ms) * p as real == ms as real
  {
    ScaledMsIsQuotient(ms, p);
    QuotientTimesDivisor(ms, p, ScaledMs(ms));
  }

  lemma ScaledMsIsQuotient(ms: nat, p: nat)
    requires NumDigits(ms) > 3 && p == Pow10(NumDigits(ms) - 3)
    ensures ScaledMs(ms) == ms as real / p as real
  {
  }

  /**
   * The scaled field is above 999 exactly when the field has more than
   * three digits and is above 999 followed by zeros: its first three digits
   * are 999 and some later digit is not zero.
   */
  lemma ScaledMsOver999(ms: nat)
    ensures ScaledMs(ms) > 999.0 <==> NumDigits(ms) > 3 && ms > 999 * Pow10(NumDigits(ms) - 3)
  {
    if NumDigits(ms) > 3 {
      QuotientCompare(ms, Pow10(NumDigits(ms) - 3), 999);
    } else {
      AtMostThreeDigits(ms);
    }
  }

  /** A number of `d > 3` digits divided by `10^(d-3)` has three digits left. */
  lemma LeadingThreeDigits(ms: nat, d: nat)
    requires d == NumDigits(ms) && d > 3
    ensures var p := Pow10(d - 3); var q := ms / p;
      100 <= q <= 999 && q * p <= ms < (q + 1) * p && 100 * p <= ms < 1000 * p
  {
    var p := Pow10(d - 3);
    Pow10Split(d);
    assert Pow10(d) == 10 * Pow10(d - 1);
    assert 100 * p <= ms < 1000 * p;
    DivBetween(ms, p, 100, 1000);
    DivMulBounds(ms, p);
  }

  /** A number of at most three digits is below 1000. */
  lemma AtMostThreeDigits(ms: nat)
    requires NumDigits(ms) <= 3
    ensures ms <= 999
  {
    var d := NumDigits(ms);
    assert ms < Pow10(d);
    assert Pow10(1) == 10;
    assert Pow10(2) == 100;
    assert Pow10(3) == 1000;
  }

  // ---------------------------------------------------------------- timeParser

  /** `/pm/i.test(string)`: "pm" in any letter case somewhere in the text. */
  predicate HasPm(s: string)
  {
    exists i :: 0 <= i < |s| - 1 && LowerChar(s[i]) == 'p' && LowerChar(s[i + 1]) == 'm'
  }

  /** The pm marker; a non-string is tested through `String(v)`, which never holds "pm". */
  predicate IsPm(input: Value)
  {
    input.Str? && HasPm(input.s)
  }

  /** `nums.concat(filledArray(4, 0).slice(nums.length))`: padded with zeros to four fields. */
  function TimeFields(nums: seq<nat>): (a: seq<nat>)
    ensures |a| == if |nums| >= 4 then |nums| else 4
    ensures forall i :: 0 <= i < |a| ==> a[i] == if i < |nums| then nums[i] else 0
  {
    nums + FilledArray(4, 0).value[Min(|nums|, 4)..]
  }

  /**
   * The time parser, with the pm rule as a parameter: the source adds 12 to
   * every pm hour (`ParseTime`); `ParseTimeNoonFixed` leaves 12pm at 12.
   */
  function ParseTimeWith(input: Value, tzOffset: int, noonFix: bool): Option<real>
  {
    if !Truthy(input) then None
    else TimeOf(TimeFields(NumParser(input)), IsPm(input), tzOffset, noonFix)
  }

  /** The checks and the arithmetic on the four padded fields. */
  function TimeOf(a: seq<nat>, pm: bool, tzOffset: int, noonFix: bool): Option<real>
    requires |a| >= 4
  {
    var hour := if pm && !(noonFix && a[0] == 12) then a[0] + 12 else a[0];
    var ms := ScaledMs(a[3]);
    if hour > 23 || a[1] > 59 || a[2] > 59 || ms > 999.0 then None
    else Some(TimeOfDay(hour, a[1], a[2], ms, tzOffset))
  }

  /**
   * `timeParser(string)` as written: the millisecond count handed to
   * `new Date`, counted from 1970-01-01 00:00 UTC.
   */
  function ParseTime(input: Value, tzOffset: int): Option<real>
  {
    ParseTimeWith(input, tzOffset, false)
  }

  /** `timeParser(string)` with "12pm" read as noon. */
  function ParseTimeNoonFixed(input: Value, tzOffset: int): Option<real>
  {
    ParseTimeWith(input, tzOffset, true)
  }

  /** `timeParser`, updating the field array `a` in place as the source does. */
  method TimeParser(input: Value, tzOffset: int) returns (r: Option<real>)
    ensures r == ParseTime(input, tzOffset)
  {
    if !Truthy(input) {
      return None;
    }
    var nums := NumParser(input);
    var pm := IsPm(input);
    var padded := nums + FilledArray(4, 0).value[Min(|nums|, 4)..];
    assert padded == TimeFields(nums);
    r := TimeOfPadded(padded, pm, tzOffset);
  }

  /**
   * The rest of `timeParser` once the fields are padded: the array `a` of
   * fields, its hour and millisecond cells updated in place, checked, and
   * summed into milliseconds.
   */
  method TimeOfPadded(padded: seq<nat>, pm: bool, tzOffset: int) returns (r: Option<real>)
    requires |padded| >= 4
    ensures r == TimeOf(padded, pm, tzOffset, false)
  {
    var a := new real[|padded|](i requires 0 <= i < |padded| => padded[i] as real);
    if pm {
      a[0] := a[0] + 12.0;
    }
    //  Make sure milliseconds is 3 digits or less
    a[3] := ScaleCell(a[3]);
    TimeOfCells(padded, pm, tzOffset, a[0], a[1], a[2], a[3]);
    if a[0] > 23.0 || a[1] > 59.0 || a[2] > 59.0 || a[3] > 999.0 {
      return None;
    }
    a[1] := a[1] + tzOffset as real;
    var ms := a[0] * 60.0 * 60.0 * 1000.0 + a[1] * 60.0 * 1000.0 + a[2] * 1000.0 + a[3];
    return Some(ms);
  }

  /**
   * `if (numDigits(a[3]) > 3) a[3] *= Math.pow(10, 3 - numDigits(a[3]))` on
   * a cell holding a whole field: the cell becomes the scaled field.
   */
  function ScaleCell(c: real): (r: real)
    requires 0.0 <= c && c == c.Floor as real
    ensures r == ScaledMs(c.Floor as nat)
  {
    if NumDigits(c.Floor) > 3 then c / Pow10(NumDigits(c.Floor) - 3) as real else c
  }

  /** `TimeOf` in terms of the four cells after the pm and millisecond updates. */
  lemma TimeOfCells(a: seq<nat>, pm: bool, tzOffset: int, h: real, m: real, s: real, f: real)
    requires |a| >= 4
    requires h == (if pm then a[0] + 12 else a[0]) as real && m == a[1] as real && s == a[2] as real
    requires f == ScaledMs(a[3])
    ensures TimeOf(a, pm, tzOffset, false)
            == if h > 23.0 || m > 59.0 || s > 59.0 || f > 999.0 then None
               else Some(h * 60.0 * 60.0 * 1000.0 + (m + tzOffset as real) * 60.0 * 1000.0 + s * 1000.0 + f)
  {
  }

  /**
   * What rejects a time: falsy input; an hour (after pm) above 23, a minute
   * or second above 59; or a millisecond field of more than three digits
   * whose scaled value is above 999, which is when its first three digits
   * are 999 and a later digit is not zero.
   */
  lemma TimeRejection(input: Value, tzOffset: int)
    ensures var a := TimeFields(NumParser(input));
      var hour := if IsPm(input) then a[0] + 12 else a[0];
      var d := NumDigits(a[3]);
      ParseTime(input, tzOffset).None?
      <==> !Truthy(input) || hour > 23 || a[1] > 59 || a[2] > 59 || (d > 3 && a[3] > 999 * Pow10(d - 3))
  {
    ScaledMsOver999(TimeFields(NumParser(input))[3]);
  }

  /**
   * An accepted time is the wall-clock fields with the offset folded into
   * the minutes, plus the scaled millisecond field, fraction included.
   */
  lemma TimeValue(input: Value, tzOffset: int)
    requires ParseTime(input, tzOffset).Some?
    ensures var a := TimeFields(NumParser(input));
      var hour := if IsPm(input) then a[0] + 12 else a[0];
      && hour <= 23 && a[1] <= 59 && a[2] <= 59 && ScaledMs(a[3]) <= 999.0
      && ParseTime(input, tzOffset).value
         == (hour * 3600000 + (a[1] + tzOffset) * 60000 + a[2] * 1000) as real + ScaledMs(a[3])
  {
  }

  /** The milliseconds since midnight of a wall-clock time, shifted by the offset. */
  function TimeOfDay(h: nat, m: nat, s: nat, ms: real, tzOffset: int): real
  {
    (h * 3600000 + (m + tzOffset) * 60000 + s * 1000) as real + ms
  }

  lemma DigitsAndSeparatorHaveNoPm(ns: seq<nat>, sep: char)
    requires LowerChar(sep) != 'p'
    ensures !HasPm(JoinNumbers(ns, sep))
  {
    var t := JoinNumbers(ns, sep);
    JoinNumbersChars(ns, sep);
  }

  lemma {:induction false} JoinNumbersChars(ns: seq<nat>, sep: char)
    ensures forall i :: 0 <= i < |JoinNumbers(ns, sep)| ==> IsDigit(JoinNumbers(ns, sep)[i]) || JoinNumbers(ns, sep)[i] == sep
  {
    if |ns| > 1 {
      JoinNumbersChars(ns[1..], sep);
      var d := DecimalString(ns[0]);
      var t := JoinNumbers(ns[1..], sep);
      assert JoinNumbers(ns, sep) == d + [sep] + t;
      forall i | 0 <= i < |JoinNumbers(ns, sep)|
        ensures IsDigit(JoinNumbers(ns, sep)[i]) || JoinNumbers(ns, sep)[i] == sep
      {
        if i > |d| {
          assert JoinNumbers(ns, sep)[i] == t[i - |d| - 1];
        }
      }
    }
  }

  /** Tokens and pm marker of a text written as numbers with a separator. */
  lemma TimeTokensOfText(text: string, ns: seq<nat>, sep: char)
    requires !IsDigit(sep) && LowerChar(sep) != 'p' && text == JoinNumbers(ns, sep)
    ensures NumParser(Str(text)) == ns && !IsPm(Str(text))
  {
    NumParserRoundTrip(ns, sep);
    DigitsAndSeparatorHaveNoPm(ns, sep);
  }

  /** A field below 1000 has at most three digits. */
  lemma NumDigitsBelowThousand(ms: nat)
    requires ms <= 999
    ensures NumDigits(ms) <= 3
  {
    if ms >= 10 {
      assert NumDigits(ms / 10) <= 2 by {
        if ms / 10 >= 10 {
          assert NumDigits(ms / 100) == 1;
        }
      }
    }
  }

  /**
   * One to four valid fields written with a separator parse as that time
   * of day; missing fields are zero.
   */
  lemma {:induction false} TimeOfJoinedFields(ns: seq<nat>, sep: char, tzOffset: int)
    requires 1 <= |ns| <= 4 && !IsDigit(sep) && LowerChar(sep) != 'p'
    requires var a := TimeFields(ns); a[0] <= 23 && a[1] <= 59 && a[2] <= 59 && a[3] <= 999
    ensures var a := TimeFields(ns);
      ParseTime(Str(JoinNumbers(ns, sep)), tzOffset) == Some(TimeOfDay(a[0], a[1], a[2], a[3] as real, tzOffset))
  {
    TimeTokensOfText(JoinNumbers(ns, sep), ns, sep);
    assert JoinNumbers(ns, sep) != [] by {
      assert DecimalString(ns[0]) != [];
    }
    NumDigitsBelowThousand(TimeFields(ns)[3]);
  }

  /** Writing a valid time as h:m:s:ms and parsing it gives the time back. */
  lemma TimeRoundTrip(h: nat, m: nat, s: nat, ms: nat, tzOffset: int)
    requires h <= 23 && m <= 59 && s <= 59 && ms <= 999
    ensures ParseTime(Str(JoinNumbers([h, m, s, ms], ':')), tzOffset) == Some(TimeOfDay(h, m, s, ms as real, tzOffset))
  {
    TimeOfJoinedFields([h, m, s, ms], ':', tzOffset);
  }

  /** Past the separator, a text joined around one character reads from its right part. */
  lemma IndexAfterSeparator(a: string, c: char, b: string, i: int)
    requires |a| < i < |a| + 1 + |b|
    ensures (a + [c] + b)[i] == b[i - |a| - 1]
  {
  }

  /** Tokens and pm marker of h, m, s written with a separator, then a point and a fraction. */
  lemma FractionTokens(h: nat, m: nat, s: nat, frac: nat, sep: char)
    requires !IsDigit(sep) && LowerChar(sep) != 'p'
    ensures var t := JoinNumbers([h, m, s], sep) + ['.'] + DecimalString(frac);
      t != [] && NumParser(Str(t)) == [h, m, s, frac] && !IsPm(Str(t))
  {
    var j := JoinNumbers([h, m, s], sep);
    var f := DecimalString(frac);
    var t := j + ['.'] + f;
    DigitRunsOfJoin([h, m, s], sep);
    DigitRunsOfNumber(frac);
    DigitRunsSplit(j, '.', f);
    DigitRunsEmpty(t);
    JoinNumbersChars([h, m, s], sep);
    forall i | 0 <= i < |t|
      ensures IsDigit(t[i]) || t[i] == sep || t[i] == '.'
    {
      if i > |j| {
        IndexAfterSeparator(j, '.', f, i);
      }
    }
  }

  /**
   * Seconds with a decimal fraction: the fraction's digits form the
   * millisecond field, which is scaled to below 1000 and rejected when
   * the scaled value is above 999.
   */
  lemma TimeWithFraction(h: nat, m: nat, s: nat, frac: nat, sep: char, tzOffset: int)
    requires h <= 23 && m <= 59 && s <= 59 && !IsDigit(sep) && LowerChar(sep) != 'p'
    ensures var d := NumDigits(frac);
      ParseTime(Str(JoinNumbers([h, m, s], sep) + ['.'] + DecimalString(frac)), tzOffset)
      == if d > 3 && frac > 999 * Pow10(d - 3) then None
         else Some(TimeOfDay(h, m, s, ScaledMs(frac), tzOffset))
  {
    var t := JoinNumbers([h, m, s], sep) + ['.'] + DecimalString(frac);
    FractionTokens(h, m, s, frac, sep);
    var a := TimeFields([h, m, s, frac]);
    assert a[0] == h && a[1] == m && a[2] == s && a[3] == frac;
    TimeOfTokens(Str(t), [h, m, s, frac], tzOffset);
    ScaledMsOver999(frac);
  }

  /** A truthy input without pm whose clock fields are in range: the millisecond field decides. */
  lemma TimeOfTokens(input: Value, ns: seq<nat>, tzOffset: int)
    requires Truthy(input) && NumParser(input) == ns && !IsPm(input)
    requires var a := TimeFields(ns); a[0] <= 23 && a[1] <= 59 && a[2] <= 59
    ensures var a := TimeFields(ns);
      ParseTime(input, tzOffset)
      == if ScaledMs(a[3]) > 999.0 then None else Some(TimeOfDay(a[0], a[1], a[2], ScaledMs(a[3]), tzOffset))
  {
  }

  /** The wall-clock fields come back out of an accepted whole-millisecond time once the offset is removed. */
  lemma TimeOfDayDecodes(h: nat, m: nat, s: nat, ms: nat, tzOffset: int)
    requires h <= 23 && m <= 59 && s <= 59 && ms <= 999
    ensures var w := (TimeOfDay(h, m, s, ms as real, tzOffset) - (tzOffset * 60000) as real).Floor;
      && w / 3600000 == h
      && w / 60000 % 60 == m
      && w / 1000 % 60 == s
      && w % 1000 == ms
  {
    var w := h * 3600000 + m * 60000 + s * 1000 + ms;
    assert TimeOfDay(h, m, s, ms as real, tzOffset) - (tzOffset * 60000) as real == w as real;
    assert w / 1000 == h * 3600 + m * 60 + s;
    assert w / 60000 == h * 60 + m;
  }

  /** Fields after the fourth are ignored. */
  lemma {:induction false} TimeExtraFieldsIgnored(ns: seq<nat>, tzOffset: int)
    requires |ns| >= 4
    ensures ParseTime(Str(JoinNumbers(ns, ':')), tzOffset) == ParseTime(Str(JoinNumbers(ns[..4], ':')), tzOffset)
  {
    TimeTokensOfText(JoinNumbers(ns, ':'), ns, ':');
    TimeTokensOfText(JoinNumbers(ns[..4], ':'), ns[..4], ':');
    assert JoinNumbers(ns, ':') != [] && JoinNumbers(ns[..4], ':') != [] by {
      assert DecimalString(ns[0]) != [];
    }
    var a, b := TimeFields(ns), TimeFields(ns[..4]);
    assert a[0] == b[0] && a[1] == b[1] && a[2] == b[2] && a[3] == b[3];
  }

  /** "13" is 13:00 and "10:30" is 10:30. */
  lemma TimeExampleHourMinute(tzOffset: int)
    ensures ParseTime(Str("13"), tzOffset) == Some(TimeOfDay(13, 0, 0, 0.0, tzOffset))
    ensures ParseTime(Str("10:30"), tzOffset) == Some(TimeOfDay(10, 30, 0, 0.0, tzOffset))
  {
    assert JoinNumbers([13], ':') == "13";
    TimeOfJoinedFields([13], ':', tzOffset);
    assert JoinNumbers([10, 30], ':') == "10:30";
    TimeOfJoinedFields([10, 30], ':', tzOffset);
  }

  /** "25:00" is rejected. */
  lemma TimeExampleRejected(tzOffset: int)
    ensures ParseTime(Str("25:00"), tzOffset) == None
  {
    var d := DecimalString(25);
    assert "25:00" == d + [':'] + "00";
    DigitRunsSplit(d, ':', "00");
    DigitRunsOfNumber(25);
    assert NumParser(Str("25:00"))[0] == 25;
    assert TimeFields(NumParser(Str("25:00")))[0] == 25;
    TimeRejection(Str("25:00"), tzOffset);
  }

  lemma PmTokens(digits: nat)
    ensures NumParser(Str(DecimalString(digits) + "pm")) == [digits]
    ensures IsPm(Str(DecimalString(digits) + "pm"))
  {
    var d := DecimalString(digits);
    var t := d + "pm";
    assert t == d + ['p'] + "m";
    DigitRunsSplit(d, 'p', "m");
    DigitRunsOfNumber(digits);
    DigitRunsEmpty("m");
    assert t[|d|] == 'p' && t[|d| + 1] == 'm';
    assert HasDigit(t) by {
      assert IsDigit(t[0]);
    }
  }

  /** "1pm" is 13:00. */
  lemma TimeExamplePm(tzOffset: int)
    ensures ParseTime(Str("1pm"), tzOffset) == Some(TimeOfDay(13, 0, 0, 0.0, tzOffset))
  {
    assert "1pm" == DecimalString(1) + "pm";
    PmTokens(1);
  }

  lemma ShortFractionKept()
    ensures ScaledMs(587) == 587.0
  {
    NumDigitsBelowThousand(587);
  }

  lemma LongFractionScaled()
    ensures ScaledMs(58712) == 587.12
  {
    var q := ScaledMs(58712);
    assert q == 58712 as real / 100 as real by {
      assert NumDigits(58712) == 5 by {
        NumDigitsIsLength(58712);
        ExampleNumerals();
      }
      assert Pow10(2) == 100;
      ScaledMsIsQuotient(58712, 100);
    }
  }

  lemma RejectedFractionScaled()
    ensures NumDigits(9991) == 4 && ScaledMs(9991) == 999.1
  {
    assert NumDigits(9991) == 4 by {
      NumDigitsIsLength(9991);
      ExampleNumerals();
    }
    var q := ScaledMs(9991);
    assert q == 9991 as real / 10 as real by {
      assert Pow10(1) == 10;
      ScaledMsIsQuotient(9991, 10);
    }
  }

  /** The renderings the time examples use. */
  lemma ExampleNumerals()
    ensures DecimalString(14) == "14" && DecimalString(32) == "32"
    ensures DecimalString(587) == "587" && DecimalString(58712) == "58712"
    ensures DecimalString(0) == "0" && DecimalString(9991) == "9991"
  {
  }

  /** Three numbers written with a separator. */
  lemma JoinThree(a: nat, b: nat, c: nat, sep: char)
    ensures JoinNumbers([a, b, c], sep) == DecimalString(a) + [sep] + (DecimalString(b) + [sep] + DecimalString(c))
  {
    JoinTwo(b, c, sep);
    JoinThreeHead(a, b, c, sep);
  }

  lemma JoinTwo(b: nat, c: nat, sep: char)
    ensures JoinNumbers([b, c], sep) == DecimalString(b) + [sep] + DecimalString(c)
  {
    assert [b, c][1..] == [c];
  }

  lemma JoinThreeHead(a: nat, b: nat, c: nat, sep: char)
    ensures JoinNumbers([a, b, c], sep) == DecimalString(a) + [sep] + JoinNumbers([b, c], sep)
  {
    assert [a, b, c][1..] == [b, c];
  }

  lemma LongFractionPieces(h: string, m: string, f: string)
    requires h == "14" && m == "32" && f == "58712"
    ensures h + [':'] + (m + [':'] + h) + ['.'] + f == "14:32:14.58712"
  {
  }

  lemma MillisecondPieces(h: string, m: string, f: string)
    requires h == "14" && m == "32" && f == "587"
    ensures h + [' '] + (m + [' '] + h) + ['.'] + f == "14 32 14.587"
  {
  }

  lemma RejectedFractionPieces(z: string, f: string)
    requires z == "0" && f == "9991"
    ensures z + [':'] + (z + [':'] + z) + ['.'] + f == "0:0:0.9991"
  {
  }

  lemma LongFractionText()
    ensures JoinNumbers([14, 32, 14], ':') + ['.'] + DecimalString(58712) == "14:32:14.58712"
  {
    JoinThree(14, 32, 14, ':');
    ExampleNumerals();
    LongFractionPieces(DecimalString(14), DecimalString(32), DecimalString(58712));
  }

  lemma MillisecondText()
    ensures JoinNumbers([14, 32, 14], ' ') + ['.'] + DecimalString(587) == "14 32 14.587"
  {
    JoinThree(14, 32, 14, ' ');
    ExampleNumerals();
    MillisecondPieces(DecimalString(14), DecimalString(32), DecimalString(587));
  }

  lemma RejectedFractionText()
    ensures JoinNumbers([0, 0, 0], ':') + ['.'] + DecimalString(9991) == "0:0:0.9991"
  {
    JoinThree(0, 0, 0, ':');
    ExampleNumerals();
    RejectedFractionPieces(DecimalString(0), DecimalString(9991));
  }

  lemma FractionTimeText(h: nat, m: nat, s: nat, frac: nat, sep: char, text: string)
    requires text == JoinNumbers([h, m, s], sep) + ['.'] + DecimalString(frac)
    requires h <= 23 && m <= 59 && s <= 59 && !IsDigit(sep) && LowerChar(sep) != 'p'
    ensures forall tzOffset: int {:trigger ParseTime(Str(text), tzOffset)} ::
      ParseTime(Str(text), tzOffset)
      == if ScaledMs(frac) > 999.0 then None else Some(TimeOfDay(h, m, s, ScaledMs(frac), tzOffset))
  {
    ScaledMsOver999(frac);
    forall tzOffset: int {
      TimeWithFraction(h, m, s, frac, sep, tzOffset);
    }
  }

  /** "14 32 14.587" is 14:32:14.587. */
  lemma TimeExampleMilliseconds(tzOffset: int)
    ensures ParseTime(Str("14 32 14.587"), tzOffset) == Some(TimeOfDay(14, 32, 14, 587.0, tzOffset))
  {
    MillisecondText();
    ShortFractionKept();
    FractionTimeText(14, 32, 14, 587, ' ', "14 32 14.587");
  }

  /** "14:32:14.58712": a five-digit millisecond field scales to 587.12. */
  lemma TimeExampleLongMilliseconds(tzOffset: int)
    ensures ParseTime(Str("14:32:14.58712"), tzOffset) == Some(TimeOfDay(14, 32, 14, 587.12, tzOffset))
  {
    LongFractionText();
    LongFractionScaled();
    FractionTimeText(14, 32, 14, 58712, ':', "14:32:14.58712");
  }

  /** "0:0:0.9991": the field scales to 999.1, which the check rejects. */
  lemma TimeExampleLongMillisecondsRejected(tzOffset: int)
    ensures ParseTime(Str("0:0:0.9991"), tzOffset) == None
  {
    RejectedFractionText();
    RejectedFractionScaled();
    FractionTimeText(0, 0, 0, 9991, ':', "0:0:0.9991");
  }

  /** As written, "12pm" becomes hour 24 and is rejected. */
  lemma TwelvePmRejected(tzOffset: int)
    ensures ParseTime(Str("12pm"), tzOffset) == None
  {
    assert ParseTime(Str("12pm"), tzOffset) == TimeOf([12, 0, 0, 0], true, tzOffset, false) by {
      TwelvePmFields();
    }
  }

  /** With the noon rule "12pm" is 12:00. */
  lemma NoonParsesAsTwelve(tzOffset: int)
    ensures ParseTimeNoonFixed(Str("12pm"), tzOffset) == Some(TimeOfDay(12, 0, 0, 0.0, tzOffset))
  {
    assert ParseTimeNoonFixed(Str("12pm"), tzOffset) == TimeOf([12, 0, 0, 0], true, tzOffset, true) by {
      TwelvePmFields();
    }
    assert ScaledMs(0) == 0.0;
  }

  /** "12pm" is a pm text whose padded fields are 12, 0, 0, 0. */
  lemma TwelvePmFields()
    ensures Truthy(Str("12pm")) && IsPm(Str("12pm")) && TimeFields(NumParser(Str("12pm"))) == [12, 0, 0, 0]
  {
    assert "12pm" == DecimalString(12) + "pm";
    PmTokens(12);
    assert TimeFields([12]) == [12, 0, 0, 0];
  }

  /** The noon rule changes nothing but a pm time whose hour field is 12. */
  lemma NoonFixAgrees(input: Value, tzOffset: int)
    ensures var a := TimeFields(NumParser(input));
      !(IsPm(input) && a[0] == 12) ==> ParseTimeNoonFixed(input, tzOffset) == ParseTime(input, tzOffset)
  {
  }
}
