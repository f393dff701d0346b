/**
 * The LINQ-like array helpers of arrays.js, over arrays of primitive values.
 *
 * Callbacks are Dafny functions; an argument that the source tests with
 * `typeof f === "function"` is an `Option` of a function, `None` standing
 * for anything that is not a function. JavaScript's `Array.prototype.sort`
 * (a stable sort) is modelled by a stable insertion sort.
 */
module Arrays {
  import opened JsValues

  // ---------------------------------------------------------------- ordering

  /** JavaScript's `<` on two strings: code-unit lexicographic order. */
  predicate StrLess(a: string, b: string)
  {
    if a == [] then b != []
    else if b == [] then false
    else if a[0] != b[0] then a[0] < b[0]
    else StrLess(a[1..], b[1..])
  }

  lemma {:induction false} StrLessIrreflexive(a: string)
    ensures !StrLess(a, a)
  {
    if a != [] {
      StrLessIrreflexive(a[1..]);
    }
  }

  lemma {:induction false} StrLessTransitive(a: string, b: string, c: string)
    requires StrLess(a, b) && StrLess(b, c)
    ensures StrLess(a, c)
  {
    if a != [] && b != [] && c != [] && a[0] == b[0] && b[0] == c[0] {
      StrLessTransitive(a[1..], b[1..], c[1..]);
    }
  }

  /** Two different strings are ordered one way or the other, and not both. */
  lemma {:induction false} StrLessTotal(a: string, b: string)
    ensures a != b ==> (StrLess(a, b) || StrLess(b, a))
    ensures !(StrLess(a, b) && StrLess(b, a))
  {
    if a != [] && b != [] && a[0] == b[0] {
      StrLessTotal(a[1..], b[1..]);
      assert a == [a[0]] + a[1..] && b == [b[0]] + b[1..];
    }
  }

  /**
   * The type name the comparator sorts by: `typeof v`, or for `null` a run
   * of fifteen `~` (after every type name) or, when descending, fifteen
   * spaces (before every type name, so that nulls still end up last).
   */
  function TypeTag(v: Value, desc: bool): string
  {
    match v
    case Null => seq(15, _ => if desc then ' ' else '~')
    case Bool(_) => "boolean"
    case Num(_) => "number"
    case Str(_) => "string"
  }

  /** The position of a value's type group in the order of the type tags. */
  function Rank(v: Value, desc: bool): int
  {
    match v
    case Null => if desc then 0 else 4
    case Bool(_) => 1
    case Num(_) => 2
    case Str(_) => 3
  }

  /** Comparing type tags is comparing ranks. */
  lemma TypeTagOrder(a: Value, b: Value, desc: bool)
    ensures TypeTag(a, desc) == TypeTag(b, desc) <==> Rank(a, desc) == Rank(b, desc)
    ensures StrLess(TypeTag(a, desc), TypeTag(b, desc)) <==> Rank(a, desc) < Rank(b, desc)
  {
    var ta, tb := TypeTag(a, desc), TypeTag(b, desc);
    assert ta[0] == if a.Null? then (if desc then ' ' else '~') else if a.Bool? then 'b' else if a.Num? then 'n' else 's';
    assert tb[0] == if b.Null? then (if desc then ' ' else '~') else if b.Bool? then 'b' else if b.Num? then 'n' else 's';
    if ta == tb {
      StrLessIrreflexive(ta);
    }
  }

  /** The value compared inside a type group: strings lower-cased under `ignoreCase`. */
  function Folded(v: Value, ignoreCase: bool): (r: Value)
    ensures Rank(r, false) == Rank(v, false) && Rank(r, true) == Rank(v, true)
  {
    if ignoreCase && v.Str? then Str(Lower(v.s)) else v
  }

  /** JavaScript's `<` between two values of the same type. */
  predicate ValueLess(x: Value, y: Value)
  {
    match (x, y)
    case (Bool(a), Bool(b)) => !a && b
    case (Num(a), Num(b)) => a < b
    case (Str(a), Str(b)) => StrLess(a, b)
    case _ => false
  }

  lemma ValueLessTotal(x: Value, y: Value)
    requires Rank(x, false) == Rank(y, false)
    ensures x != y ==> (ValueLess(x, y) || ValueLess(y, x))
    ensures !(ValueLess(x, y) && ValueLess(y, x))
  {
    if x.Str? && y.Str? {
      StrLessTotal(x.s, y.s);
    }
  }

  lemma ValueLessTransitive(x: Value, y: Value, z: Value)
    requires ValueLess(x, y) && ValueLess(y, z)
    ensures ValueLess(x, z)
  {
    if x.Str? && y.Str? && z.Str? {
      StrLessTransitive(x.s, y.s, z.s);
    }
  }

  /** The comparator of `sortByType`: negative, zero or positive. */
  function Compare(a: Value, b: Value, ignoreCase: bool, desc: bool): int
  {
    var ta := TypeTag(a, desc);
    var tb := TypeTag(b, desc);
    var mult := if desc then -1 else 1;
    if ta != tb then (if StrLess(ta, tb) then -1 else 1) * mult
    else
      var x := Folded(a, ignoreCase);
      var y := Folded(b, ignoreCase);
      if x == y then 0 else (if ValueLess(x, y) then -1 else 1) * mult
  }

  /**
   * Ascending, the comparator orders by rank (nulls last), then by folded
   * value; descending it reverses the order of the non-null values, and
   * still puts nulls last.
   */
  lemma CompareMeaning(a: Value, b: Value, ignoreCase: bool, desc: bool)
    ensures var x, y := Folded(a, ignoreCase), Folded(b, ignoreCase);
      Compare(a, b, ignoreCase, desc) ==
        if Rank(a, desc) != Rank(b, desc) then
          (if Rank(a, desc) < Rank(b, desc) then -1 else 1) * (if desc then -1 else 1)
        else if x == y then 0
        else (if ValueLess(x, y) then -1 else 1) * (if desc then -1 else 1)
    ensures a.Null? && !b.Null? ==> Compare(a, b, ignoreCase, desc) > 0
    ensures !a.Null? && b.Null? ==> Compare(a, b, ignoreCase, desc) < 0
    ensures !a.Null? && !b.Null? ==> Compare(a, b, ignoreCase, true) == Compare(b, a, ignoreCase, false)
  {
    TypeTagOrder(a, b, desc);
    TypeTagOrder(a, b, true);
    TypeTagOrder(b, a, false);
    var x, y := Folded(a, ignoreCase), Folded(b, ignoreCase);
    if Rank(a, false) == Rank(b, false) {
      ValueLessTotal(x, y);
    }
  }

  /** The comparator is antisymmetric. */
  lemma CompareAntisymmetric(a: Value, b: Value, ignoreCase: bool, desc: bool)
    ensures Compare(a, b, ignoreCase, desc) == -Compare(b, a, ignoreCase, desc)
  {
    CompareMeaning(a, b, ignoreCase, desc);
    CompareMeaning(b, a, ignoreCase, desc);
    var x, y := Folded(a, ignoreCase), Folded(b, ignoreCase);
    if Rank(a, desc) == Rank(b, desc) {
      assert Rank(x, false) == Rank(y, false) by {
        assert Rank(a, false) == Rank(b, false);
      }
      ValueLessTotal(x, y);
    }
  }

  /** "Not after" is transitive, so the comparator is a total preorder. */
  lemma CompareTransitive(a: Value, b: Value, c: Value, ignoreCase: bool, desc: bool)
    requires Compare(a, b, ignoreCase, desc) <= 0 && Compare(b, c, ignoreCase, desc) <= 0
    ensures Compare(a, c, ignoreCase, desc) <= 0
  {
    CompareMeaning(a, b, ignoreCase, desc);
    CompareMeaning(b, c, ignoreCase, desc);
    CompareMeaning(a, c, ignoreCase, desc);
    var x, y, z := Folded(a, ignoreCase), Folded(b, ignoreCase), Folded(c, ignoreCase);
    if Rank(a, desc) == Rank(b, desc) == Rank(c, desc) && x != y && y != z {
      if desc {
        ValueLessTransitive(z, y, x);
      } else {
        ValueLessTransitive(x, y, z);
      }
      assert Rank(x, false) == Rank(z, false) by {
        assert Rank(a, false) == Rank(c, false);
      }
      ValueLessTotal(x, z);
    }
  }

  // ---------------------------------------------------------------- sortByType

  /** No element is placed after one it compares greater than. */
  predicate Sorted(s: seq<Value>, ignoreCase: bool, desc: bool)
  {
    forall i, j :: 0 <= i < j < |s| ==> Compare(s[i], s[j], ignoreCase, desc) <= 0
  }

  /**
   * One step of a stable insertion sort: `x` goes after every element of
   * the sorted `s` that does not compare greater than it.
   */
  function Insert(x: Value, s: seq<Value>, ignoreCase: bool, desc: bool): (r: seq<Value>)
    requires Sorted(s, ignoreCase, desc)
    ensures multiset(r) == multiset(s) + multiset{x}
    ensures Sorted(r, ignoreCase, desc)
  {
    if s == [] then [x]
    else if Compare(s[0], x, ignoreCase, desc) <= 0 then
      var rest := Insert(x, s[1..], ignoreCase, desc);
      assert s == [s[0]] + s[1..];
      InsertSortedAfter(s[0], x, s[1..], rest, ignoreCase, desc);
      [s[0]] + rest
    else
      InsertSortedBefore(x, s, ignoreCase, desc);
      [x] + s
  }

  lemma InsertSortedBefore(x: Value, s: seq<Value>, ignoreCase: bool, desc: bool)
    requires Sorted(s, ignoreCase, desc) && s != [] && Compare(s[0], x, ignoreCase, desc) > 0
    ensures Sorted([x] + s, ignoreCase, desc)
  {
    CompareAntisymmetric(s[0], x, ignoreCase, desc);
    forall j | 0 <= j < |s|
      ensures Compare(x, s[j], ignoreCase, desc) <= 0
    {
      if j > 0 {
        CompareTransitive(x, s[0], s[j], ignoreCase, desc);
      }
    }
    assert forall j :: 1 <= j < |[x] + s| ==> ([x] + s)[j] == s[j - 1];
  }

  lemma InsertSortedAfter(h: Value, x: Value, tail: seq<Value>, rest: seq<Value>, ignoreCase: bool, desc: bool)
    requires Sorted([h] + tail, ignoreCase, desc) && Sorted(rest, ignoreCase, desc)
    requires Compare(h, x, ignoreCase, desc) <= 0
    requires multiset(rest) == multiset(tail) + multiset{x}
    ensures Sorted([h] + rest, ignoreCase, desc)
  {
    var ht := [h] + tail;
    forall j | 0 <= j < |rest|
      ensures Compare(h, rest[j], ignoreCase, desc) <= 0
    {
      assert rest[j] in multiset(rest);
      if rest[j] != x {
        assert rest[j] in multiset(tail);
        var k :| 0 <= k < |tail| && tail[k] == rest[j];
        assert ht[0] == h && ht[k + 1] == tail[k];
        assert Compare(ht[0], ht[k + 1], ignoreCase, desc) <= 0;
      }
    }
    assert forall j :: 1 <= j < |[h] + rest| ==> ([h] + rest)[j] == rest[j - 1];
  }

  /** `arr.slice().sort(compare)`: a stable sort of a copy. */
  function SortByType(s: seq<Value>, ignoreCase: bool, desc: bool): (r: seq<Value>)
    ensures multiset(r) == multiset(s)
    ensures Sorted(r, ignoreCase, desc)
  {
    if s == [] then []
    else
      assert s == s[..|s| - 1] + [s[|s| - 1]];
      Insert(s[|s| - 1], SortByType(s[..|s| - 1], ignoreCase, desc), ignoreCase, desc)
  }

  // ---------------------------------------------------------------- firstOrDefault, lastOrDefault

  /**
   * The `filter` argument of firstOrDefault: a callback, or a value to look
   * for. A missing filter is `Match(Null)`, like any other falsy value.
   */
  datatype Filter = Predicate(f: Value -> Value) | Match(v: Value)

  /** `i` is the first index whose element passes `p`. */
  predicate IsFirst<T>(xs: seq<T>, i: int, p: T -> bool)
  {
    0 <= i < |xs| && p(xs[i]) && forall j :: 0 <= j < i ==> !p(xs[j])
  }

  function FirstIndex<T>(xs: seq<T>, p: T -> bool): (r: Option<nat>)
    ensures r.Some? ==> IsFirst(xs, r.value, p)
    ensures r.None? ==> forall j :: 0 <= j < |xs| ==> !p(xs[j])
  {
    if xs == [] then None
    else if p(xs[0]) then Some(0)
    else
      var r := FirstIndex(xs[1..], p);
      assert forall j :: 1 <= j < |xs| ==> xs[j] == xs[1..][j - 1];
      if r.Some? then Some(r.value + 1) else None
  }

  /** Only a callback result of exactly `true` selects an element. */
  predicate Selects(f: Value -> Value, e: Value)
  {
    f(e) == Bool(true)
  }

  /** The result firstOrDefault computes. */
  function FirstOrDefaultOf(xs: seq<Value>, filter: Filter): (r: Value)
    ensures filter.Match? && !Truthy(filter.v) ==> r == if xs == [] then Null else xs[0]
    ensures filter.Match? && Truthy(filter.v) ==> r == if filter.v in xs then filter.v else Null
    ensures filter.Predicate? ==>
      (exists i :: IsFirst(xs, i, e => Selects(filter.f, e)) && r == xs[i])
      || (r == Null && forall j :: 0 <= j < |xs| ==> !Selects(filter.f, xs[j]))
  {
    match filter
    case Match(v) =>
      if !Truthy(v) then (if xs == [] then Null else xs[0])
      else if exists i :: 0 <= i < |xs| && xs[i] == v then v else Null
    case Predicate(f) =>
      match FirstIndex(xs, e => Selects(f, e))
      case Some(i) => xs[i]
      case None => Null
  }

  /** `firstOrDefault(filter)`, scanning the array as the source does. */
  method FirstOrDefault(xs: seq<Value>, filter: Filter) returns (r: Value)
    ensures r == FirstOrDefaultOf(xs, filter)
  {
    if filter.Match? && !Truthy(filter.v) {
      return if |xs| > 0 then xs[0] else Null;
    }
    if filter.Predicate? {
      var p := e => Selects(filter.f, e);
      for i := 0 to |xs|
        invariant forall j :: 0 <= j < i ==> !p(xs[j])
      {
        if filter.f(xs[i]) == Bool(true) {
          assert IsFirst(xs, i, p);
          return xs[i];
        }
      }
      return Null;
    }
    for i := 0 to |xs|
      invariant forall j :: 0 <= j < i ==> xs[j] != filter.v
    {
      if xs[i] == filter.v {
        return filter.v;
      }
    }
    return Null;
  }

  function Reversed<T>(xs: seq<T>): (r: seq<T>)
    ensures |r| == |xs|
    ensures forall i :: 0 <= i < |xs| ==> r[i] == xs[|xs| - 1 - i]
  {
    seq(|xs|, i requires 0 <= i < |xs| => xs[|xs| - 1 - i])
  }

  /** `lastOrDefault(filter)`: firstOrDefault on a reversed copy. */
  function LastOrDefaultOf(xs: seq<Value>, filter: Filter): Value
  {
    FirstOrDefaultOf(Reversed(xs), filter)
  }

  /** `i` is the last index whose element passes `p`. */
  predicate IsLast<T>(xs: seq<T>, i: int, p: T -> bool)
  {
    0 <= i < |xs| && p(xs[i]) && forall j :: i < j < |xs| ==> !p(xs[j])
  }

  /**
   * lastOrDefault gives the last element that the callback selects (or
   * null), the value itself when it occurs, and with no filter the last
   * element.
   */
  lemma LastOrDefaultIsLast(xs: seq<Value>, filter: Filter)
    ensures var r := LastOrDefaultOf(xs, filter);
      && (filter.Match? && !Truthy(filter.v) ==> r == if xs == [] then Null else xs[|xs| - 1])
      && (filter.Match? && Truthy(filter.v) ==> r == if filter.v in xs then filter.v else Null)
      && (filter.Predicate? ==>
           (exists i :: IsLast(xs, i, e => Selects(filter.f, e)) && r == xs[i])
           || (r == Null && forall j :: 0 <= j < |xs| ==> !Selects(filter.f, xs[j])))
  {
    var ys := Reversed(xs);
    var r := LastOrDefaultOf(xs, filter);
    if filter.Match? && Truthy(filter.v) {
      assert filter.v in xs <==> filter.v in ys by {
        if filter.v in xs {
          var i :| 0 <= i < |xs| && xs[i] == filter.v;
          assert ys[|xs| - 1 - i] == filter.v;
        }
      }
    }
    if filter.Predicate? {
      var p := e => Selects(filter.f, e);
      if exists i :: IsFirst(ys, i, p) && r == ys[i] {
        var i :| IsFirst(ys, i, p) && r == ys[i];
        assert IsLast(xs, |xs| - 1 - i, p) by {
          forall j | |xs| - 1 - i < j < |xs|
            ensures !p(xs[j])
          {
            assert xs[j] == ys[|xs| - 1 - j];
          }
        }
      } else {
        forall j | 0 <= j < |xs|
          ensures !p(xs[j])
        {
          assert xs[j] == ys[|xs| - 1 - j];
        }
      }
    }
  }

  /** lastOrDefault leaves its receiver as it was: it reads a reversed copy. */
  lemma LastOfReversedIsFirst(xs: seq<Value>, filter: Filter)
    ensures LastOrDefaultOf(Reversed(xs), filter) == FirstOrDefaultOf(xs, filter)
  {
    assert Reversed(Reversed(xs)) == xs;
  }

  // ---------------------------------------------------------------- min, max

  /** The elements a min/max callback keeps (its result's truthiness), or all of them. */
  function Candidates(xs: seq<Value>, filter: Option<Value -> Value>): seq<Value>
  {
    if filter.Some? then Select(xs, e => Truthy(filter.value(e))) else xs
  }

  /** The callback minOrMax selects with: the element is neither null nor undefined. */
  function IsPresent(e: Value): Value
  {
    Bool(!e.Null?)
  }

  /** `minOrMax(arr, filter, isMin)`: sort (descending for max), take the first non-null. */
  function MinOrMax(xs: seq<Value>, filter: Option<Value -> Value>, isMin: bool): Value
  {
    if |xs| == 0 then Null
    else
      var sorted := SortByType(Candidates(xs, filter), false, !isMin);
      FirstOrDefaultOf(sorted, Predicate(IsPresent))
  }

  function Min(xs: seq<Value>, filter: Option<Value -> Value>): Value
  {
    MinOrMax(xs, filter, true)
  }

  function Max(xs: seq<Value>, filter: Option<Value -> Value>): Value
  {
    MinOrMax(xs, filter, false)
  }

  /**
   * The first non-null element of a list sorted with nulls last is a
   * non-null element that is not after any other non-null element.
   */
  lemma FirstNonNullIsExtreme(sorted: seq<Value>, desc: bool)
    requires Sorted(sorted, false, desc)
    ensures var r := FirstOrDefaultOf(sorted, Predicate(IsPresent));
      && (r.Null? <==> forall j :: 0 <= j < |sorted| ==> sorted[j].Null?)
      && (!r.Null? ==> r in sorted && forall y :: y in sorted && !y.Null? ==> Compare(r, y, false, desc) <= 0)
  {
    var p := e => Selects(IsPresent, e);
    var r := FirstOrDefaultOf(sorted, Predicate(IsPresent));
    if exists i :: IsFirst(sorted, i, p) && r == sorted[i] {
      var i :| IsFirst(sorted, i, p) && r == sorted[i];
      forall y | y in sorted && !y.Null?
        ensures Compare(r, y, false, desc) <= 0
      {
        var j :| 0 <= j < |sorted| && sorted[j] == y;
        assert p(sorted[j]);
        if j != i {
          assert i < j;
        }
      }
    } else {
      forall j | 0 <= j < |sorted|
        ensures sorted[j].Null?
      {
        assert !p(sorted[j]);
      }
    }
  }

  /** `min`: null exactly when no candidate is non-null; otherwise a least non-null candidate. */
  lemma MinIsLeast(xs: seq<Value>, filter: Option<Value -> Value>)
    ensures var c, r := Candidates(xs, filter), Min(xs, filter);
      && (r.Null? <==> forall y :: y in c ==> y.Null?)
      && (!r.Null? ==> r in c && forall y :: y in c && !y.Null? ==> Compare(r, y, false, false) <= 0)
  {
    var c := Candidates(xs, filter);
    var sorted := SortByType(c, false, false);
    FirstNonNullIsExtreme(sorted, false);
    assert forall y :: y in c <==> y in sorted by {
      assert forall y :: y in c <==> y in multiset(c);
    }
    if |xs| == 0 {
      assert c == [] by {
        assert |Candidates(xs, filter)| <= |xs|;
      }
    }
  }

  /** `max`: null exactly when no candidate is non-null; otherwise a greatest non-null candidate. */
  lemma MaxIsGreatest(xs: seq<Value>, filter: Option<Value -> Value>)
    ensures var c, r := Candidates(xs, filter), Max(xs, filter);
      && (r.Null? <==> forall y :: y in c ==> y.Null?)
      && (!r.Null? ==> r in c && forall y :: y in c && !y.Null? ==> Compare(y, r, false, false) <= 0)
  {
    var c := Candidates(xs, filter);
    var sorted := SortByType(c, false, true);
    var r := Max(xs, filter);
    FirstNonNullIsExtreme(sorted, true);
    assert forall y :: y in c <==> y in sorted by {
      assert forall y :: y in c <==> y in multiset(c);
    }
    if |xs| == 0 {
      assert c == [] by {
        assert |Candidates(xs, filter)| <= |xs|;
      }
    }
    forall y | y in c && !y.Null? && !r.Null?
      ensures Compare(y, r, false, false) <= 0
    {
      CompareMeaning(r, y, false, true);
    }
  }

  // ---------------------------------------------------------------- distinct, union

  lemma {:induction false} LowerIdempotent(s: string)
    ensures Lower(Lower(s)) == Lower(s)
  {
  }

  /** The comparator sees only the folded values. */
  lemma CompareFolded(a: Value, b: Value, ignoreCase: bool, desc: bool)
    ensures Compare(Folded(a, ignoreCase), b, ignoreCase, desc) == Compare(a, b, ignoreCase, desc)
  {
    if ignoreCase && a.Str? {
      LowerIdempotent(a.s);
    }
    CompareMeaning(a, b, ignoreCase, desc);
    CompareMeaning(Folded(a, ignoreCase), b, ignoreCase, desc);
  }

  /** Two values compare equal exactly when their folded values are equal. */
  lemma CompareZero(a: Value, b: Value, ignoreCase: bool, desc: bool)
    ensures Compare(a, b, ignoreCase, desc) == 0 <==> Folded(a, ignoreCase) == Folded(b, ignoreCase)
  {
    CompareMeaning(a, b, ignoreCase, desc);
    var x, y := Folded(a, ignoreCase), Folded(b, ignoreCase);
    if x == y {
      assert Rank(a, desc) == Rank(x, desc) == Rank(y, desc) == Rank(b, desc);
    }
  }

  lemma CompareStrictTransitive(a: Value, b: Value, c: Value, ignoreCase: bool)
    requires Compare(a, b, ignoreCase, false) < 0 && Compare(b, c, ignoreCase, false) <= 0
    ensures Compare(a, c, ignoreCase, false) < 0
  {
    CompareTransitive(a, b, c, ignoreCase, false);
    CompareZero(a, c, ignoreCase, false);
    if Folded(a, ignoreCase) == Folded(c, ignoreCase) {
      CompareFolded(a, b, ignoreCase, false);
      CompareFolded(c, b, ignoreCase, false);
      CompareAntisymmetric(c, b, ignoreCase, false);
    }
  }

  /** Every element comes strictly before the ones after it: no two compare equal. */
  predicate StrictlySorted(s: seq<Value>, ignoreCase: bool)
  {
    forall i, j :: 0 <= i < j < |s| ==> Compare(s[i], s[j], ignoreCase, false) < 0
  }

  /**
   * The loop of `distinct` from a given `prev`: an element is kept when its
   * folded value differs from the last kept one's.
   */
  function DedupFrom(t: seq<Value>, ignoreCase: bool, prev: Option<Value>): seq<Value>
  {
    if t == [] then []
    else
      var c := Folded(t[0], ignoreCase);
      if prev != Some(c) then [t[0]] + DedupFrom(t[1..], ignoreCase, Some(c))
      else DedupFrom(t[1..], ignoreCase, prev)
  }

  /** `distinct(ignoreCase)`: sort a copy, then drop each element equal to the one kept before it. */
  function DistinctOf(xs: seq<Value>, ignoreCase: bool): seq<Value>
  {
    if |xs| == 0 then [] else DedupFrom(SortByType(xs, ignoreCase, false), ignoreCase, None)
  }

  /** `distinct`: sort a copy, then the source's loop over it. */
  method Distinct(xs: seq<Value>, ignoreCase: bool) returns (out: seq<Value>)
    ensures out == DistinctOf(xs, ignoreCase)
  {
    out := [];
    if |xs| == 0 {
      return;
    }
    var arr := SortByType(xs, ignoreCase, false);
    out := KeepFirstOfEach(arr, ignoreCase);
  }

  /** The loop of `distinct`, with its `prev` variable (initially undefined, `None`). */
  method KeepFirstOfEach(arr: seq<Value>, ignoreCase: bool) returns (out: seq<Value>)
    ensures out == DedupFrom(arr, ignoreCase, None)
  {
    out := [];
    var prev: Option<Value> := None;
    for i := 0 to |arr|
      invariant out + DedupFrom(arr[i..], ignoreCase, prev) == DedupFrom(arr, ignoreCase, None)
    {
      var item := arr[i];
      var c := item;
      if ignoreCase && item.Str? {
        c := Str(Lower(item.s));
      }
      DedupStep(arr, i, ignoreCase, prev);
      if Some(c) != prev {
        prev := Some(c);
        out := out + [item];
      }
    }
    assert arr[|arr|..] == [];
  }

  /** One step of the loop: the element at `i` is kept or dropped. */
  lemma DedupStep(t: seq<Value>, i: nat, ignoreCase: bool, prev: Option<Value>)
    requires i < |t|
    ensures var c := Folded(t[i], ignoreCase);
      DedupFrom(t[i..], ignoreCase, prev)
      == if prev != Some(c) then [t[i]] + DedupFrom(t[i + 1..], ignoreCase, Some(c))
         else DedupFrom(t[i + 1..], ignoreCase, prev)
  {
    assert t[i..][1..] == t[i + 1..];
  }

  lemma {:induction false} DedupFromSubset(t: seq<Value>, ignoreCase: bool, prev: Option<Value>)
    ensures multiset(DedupFrom(t, ignoreCase, prev)) <= multiset(t)
  {
    if t != [] {
      assert t == [t[0]] + t[1..];
      DedupFromSubset(t[1..], ignoreCase, Some(Folded(t[0], ignoreCase)));
      DedupFromSubset(t[1..], ignoreCase, prev);
    }
  }

  lemma {:induction false} DedupFromCovers(t: seq<Value>, ignoreCase: bool, prev: Option<Value>)
    ensures var r := DedupFrom(t, ignoreCase, prev);
      forall k :: 0 <= k < |t| ==>
        prev == Some(Folded(t[k], ignoreCase)) || exists y :: y in r && Folded(y, ignoreCase) == Folded(t[k], ignoreCase)
  {
    if t != [] {
      var c := Folded(t[0], ignoreCase);
      var tail := t[1..];
      var r := DedupFrom(t, ignoreCase, prev);
      if prev != Some(c) {
        DedupFromCovers(tail, ignoreCase, Some(c));
        var rest := DedupFrom(tail, ignoreCase, Some(c));
        assert r == [t[0]] + rest;
        forall k | 0 <= k < |t|
          ensures prev == Some(Folded(t[k], ignoreCase)) || exists y :: y in r && Folded(y, ignoreCase) == Folded(t[k], ignoreCase)
        {
          if k == 0 {
            assert r[0] == t[0];
          } else {
            assert t[k] == tail[k - 1];
            if Some(c) == Some(Folded(t[k], ignoreCase)) {
              assert r[0] in r;
            } else {
              var y :| y in rest && Folded(y, ignoreCase) == Folded(tail[k - 1], ignoreCase);
              assert y in r;
            }
          }
        }
      } else {
        DedupFromCovers(tail, ignoreCase, prev);
        assert forall k :: 1 <= k < |t| ==> t[k] == tail[k - 1];
      }
    }
  }

  /** From a sorted list, the kept elements are strictly sorted and after `prev`. */
  lemma {:induction false} DedupFromSorted(t: seq<Value>, ignoreCase: bool, prev: Option<Value>)
    requires Sorted(t, ignoreCase, false)
    requires prev.Some? ==> Folded(prev.value, ignoreCase) == prev.value
    requires prev.Some? ==> forall k :: 0 <= k < |t| ==> Compare(prev.value, t[k], ignoreCase, false) <= 0
    ensures var r := DedupFrom(t, ignoreCase, prev);
      && StrictlySorted(r, ignoreCase)
      && (prev.Some? ==> forall k :: 0 <= k < |r| ==> Compare(prev.value, r[k], ignoreCase, false) < 0)
  {
    if t != [] {
      var c := Folded(t[0], ignoreCase);
      var tail := t[1..];
      assert forall i :: 0 <= i < |tail| ==> tail[i] == t[i + 1];
      assert Sorted(tail, ignoreCase, false);
      if prev != Some(c) {
        assert Folded(c, ignoreCase) == c by {
          if ignoreCase && t[0].Str? {
            LowerIdempotent(t[0].s);
          }
        }
        forall k | 0 <= k < |tail|
          ensures Compare(c, tail[k], ignoreCase, false) <= 0
        {
          CompareFolded(t[0], tail[k], ignoreCase, false);
          assert Compare(t[0], t[k + 1], ignoreCase, false) <= 0;
        }
        DedupFromSorted(tail, ignoreCase, Some(c));
        var rest := DedupFrom(tail, ignoreCase, Some(c));
        var r := [t[0]] + rest;
        forall k | 0 <= k < |rest|
          ensures Compare(t[0], rest[k], ignoreCase, false) < 0
        {
          CompareFolded(t[0], rest[k], ignoreCase, false);
        }
        if prev.Some? {
          CompareZero(prev.value, t[0], ignoreCase, false);
          assert Compare(prev.value, t[0], ignoreCase, false) < 0;
          forall k | 0 <= k < |rest|
            ensures Compare(prev.value, rest[k], ignoreCase, false) < 0
          {
            CompareStrictTransitive(prev.value, t[0], rest[k], ignoreCase);
          }
        }
        assert forall i :: 1 <= i < |r| ==> r[i] == rest[i - 1];
      } else {
        DedupFromSorted(tail, ignoreCase, prev);
      }
    }
  }

  /**
   * distinct gives a strictly sorted list drawn from the input that holds,
   * for every input element, one element with the same folded value.
   */
  lemma DistinctProperties(xs: seq<Value>, ignoreCase: bool)
    ensures var r := DistinctOf(xs, ignoreCase);
      && StrictlySorted(r, ignoreCase)
      && multiset(r) <= multiset(xs)
      && forall x :: x in xs ==> exists y :: y in r && Folded(y, ignoreCase) == Folded(x, ignoreCase)
  {
    if |xs| > 0 {
      var t := SortByType(xs, ignoreCase, false);
      DedupFromSorted(t, ignoreCase, None);
      DedupFromSubset(t, ignoreCase, None);
      DedupFromCovers(t, ignoreCase, None);
      forall x | x in xs
        ensures exists y :: y in DistinctOf(xs, ignoreCase) && Folded(y, ignoreCase) == Folded(x, ignoreCase)
      {
        assert x in multiset(t);
        var k :| 0 <= k < |t| && t[k] == x;
      }
    }
  }

  /** Case-sensitively, distinct keeps exactly the values that occur, each once. */
  lemma DistinctSameElements(xs: seq<Value>)
    ensures var r := DistinctOf(xs, false);
      StrictlySorted(r, false) && forall v :: v in r <==> v in xs
  {
    DistinctProperties(xs, false);
    var r := DistinctOf(xs, false);
    forall v | v in r
      ensures v in xs
    {
      assert v in multiset(r);
    }
  }

  /** Two strictly sorted lists with the same elements are the same list. */
  /** The first element of a strictly sorted list is its least element. */
  lemma StrictlySortedSameHead(a: seq<Value>, b: seq<Value>)
    requires StrictlySorted(a, false) && StrictlySorted(b, false)
    requires forall v :: v in a <==> v in b
    requires a != []
    ensures b != [] && a[0] == b[0]
  {
    assert a[0] in b;
    assert b[0] in b;
    var i :| 0 <= i < |a| && a[i] == b[0];
    var j :| 0 <= j < |b| && b[j] == a[0];
    CompareAntisymmetric(a[0], b[0], false, false);
    assert forall k :: 0 < k < |a| ==> Compare(a[0], a[k], false, false) < 0;
    assert forall k :: 0 < k < |b| ==> Compare(b[0], b[k], false, false) < 0;
  }

  /** Dropping the head of a strictly sorted list removes exactly that value. */
  lemma StrictlySortedTail(a: seq<Value>)
    requires StrictlySorted(a, false) && a != []
    ensures StrictlySorted(a[1..], false)
    ensures forall v :: v in a[1..] <==> v in a && v != a[0]
  {
    var a' := a[1..];
    assert forall k :: 0 <= k < |a'| ==> a'[k] == a[k + 1];
    assert a == [a[0]] + a';
    forall v | v in a'
      ensures v != a[0]
    {
      var k :| 0 <= k < |a'| && a'[k] == v;
      assert Compare(a[0], a[k + 1], false, false) < 0;
    }
  }

  /** Two strictly sorted lists with the same elements are the same list. */
  lemma {:induction false} StrictlySortedUnique(a: seq<Value>, b: seq<Value>)
    requires StrictlySorted(a, false) && StrictlySorted(b, false)
    requires forall v :: v in a <==> v in b
    ensures a == b
  {
    if a != [] || b != [] {
      var x, y := if a != [] then a else b, if a != [] then b else a;
      StrictlySortedSameHead(x, y);
      StrictlySortedTail(a);
      StrictlySortedTail(b);
      StrictlySortedUnique(a[1..], b[1..]);
      assert a == [a[0]] + a[1..] && b == [b[0]] + b[1..];
    }
  }

  /**
   * `union(otherArray, ignoreCase)`: distinct of both distinct lists when
   * the other argument is a non-empty array (`Some`), else distinct of this one.
   */
  function Union(xs: seq<Value>, other: Option<seq<Value>>, ignoreCase: bool): seq<Value>
  {
    if other.Some? && |other.value| > 0 then
      DistinctOf(DistinctOf(xs, ignoreCase) + DistinctOf(other.value, ignoreCase), ignoreCase)
    else DistinctOf(xs, ignoreCase)
  }

  /** Case-sensitively, union is distinct of the concatenation. */
  lemma UnionIsDistinctOfConcat(xs: seq<Value>, ys: seq<Value>)
    ensures Union(xs, Some(ys), false) == DistinctOf(xs + ys, false)
  {
    if |ys| == 0 {
      assert xs + ys == xs;
    } else {
      var a, b := DistinctOf(xs, false), DistinctOf(ys, false);
      DistinctSameElements(xs);
      DistinctSameElements(ys);
      DistinctSameElements(a + b);
      DistinctSameElements(xs + ys);
      StrictlySortedUnique(Union(xs, Some(ys), false), DistinctOf(xs + ys, false));
    }
  }

  /**
   * Under either case rule, union is strictly sorted, drawn from both
   * arrays, and covers every element of both by its folded value.
   */
  lemma UnionProperties(xs: seq<Value>, other: Option<seq<Value>>, ignoreCase: bool)
    ensures var u := Union(xs, other, ignoreCase);
      var ys := if other.Some? then other.value else [];
      && StrictlySorted(u, ignoreCase)
      && multiset(u) <= multiset(xs + ys)
      && forall x :: x in xs + ys ==> exists y :: y in u && Folded(y, ignoreCase) == Folded(x, ignoreCase)
  {
    var ys := if other.Some? then other.value else [];
    var a, b := DistinctOf(xs, ignoreCase), DistinctOf(ys, ignoreCase);
    DistinctProperties(xs, ignoreCase);
    DistinctProperties(ys, ignoreCase);
    DistinctProperties(a + b, ignoreCase);
    if |ys| == 0 {
      assert xs + ys == xs;
    } else {
      var u := Union(xs, other, ignoreCase);
      assert multiset(u) <= multiset(xs + ys);
      forall x | x in xs + ys
        ensures exists y :: y in u && Folded(y, ignoreCase) == Folded(x, ignoreCase)
      {
        var z :| z in a + b && Folded(z, ignoreCase) == Folded(x, ignoreCase) by {
          if x in xs {
            var z :| z in a && Folded(z, ignoreCase) == Folded(x, ignoreCase);
            assert z in a + b;
          } else {
            var z :| z in b && Folded(z, ignoreCase) == Folded(x, ignoreCase);
            assert z in a + b;
          }
        }
      }
    }
  }

  // ---------------------------------------------------------------- zip

  /**
   * `zip(otherArray, callbackResultFn)`: null without an array or a
   * callback, else the callback applied pairwise up to the shorter length.
   */
  method Zip<T, U, R>(xs: seq<T>, other: Option<seq<U>>, f: Option<(T, U) -> R>) returns (r: Option<seq<R>>)
    ensures r.None? <==> other.None? || f.None?
    ensures r.Some? ==> |r.value| == JsValues.Min(|xs|, |other.value|)
    ensures r.Some? ==> forall i :: 0 <= i < |r.value| ==> r.value[i] == f.value(xs[i], other.value[i])
  {
    if other.None? || f.None? {
      return None;
    }
    var ys := other.value;
    var len := JsValues.Min(|xs|, |ys|);
    var out := [];
    for i := 0 to len
      invariant |out| == i
      invariant forall j :: 0 <= j < i ==> out[j] == f.value(xs[j], ys[j])
    {
      out := out + [f.value(xs[i], ys[i])];
    }
    return Some(out);
  }

  // ---------------------------------------------------------------- numericOps, sum, average

  /** An element passes the optional filter when there is none or its result is truthy. */
  predicate Passes(filter: Option<Value -> Value>, e: Value)
  {
    filter.None? || Truthy(filter.value(e))
  }

  /** The numbers `numericOps` hands to its callback, in order. */
  function NumbersOf(xs: seq<Value>, filter: Option<Value -> Value>): (r: seq<int>)
    ensures |r| <= |xs|
  {
    if xs == [] then []
    else
      var init := NumbersOf(xs[..|xs| - 1], filter);
      var e := xs[|xs| - 1];
      if e.Num? && Passes(filter, e) then init + [e.n] else init
  }

  function Total(ns: seq<int>): int
  {
    if ns == [] then 0 else Total(ns[..|ns| - 1]) + ns[|ns| - 1]
  }

  lemma {:induction false} NumbersOfAppend(xs: seq<Value>, ys: seq<Value>, filter: Option<Value -> Value>)
    ensures NumbersOf(xs + ys, filter) == NumbersOf(xs, filter) + NumbersOf(ys, filter)
    decreases |ys|
  {
    if ys == [] {
      assert xs + ys == xs;
    } else {
      var ys' := ys[..|ys| - 1];
      assert (xs + ys)[..|xs + ys| - 1] == xs + ys';
      NumbersOfAppend(xs, ys', filter);
    }
  }

  lemma {:induction false} TotalAppend(ns: seq<int>, ms: seq<int>)
    ensures Total(ns + ms) == Total(ns) + Total(ms)
    decreases |ms|
  {
    if ms == [] {
      assert ns + ms == ns;
    } else {
      assert (ns + ms)[..|ns + ms| - 1] == ns + ms[..|ms| - 1];
      TotalAppend(ns, ms[..|ms| - 1]);
    }
  }

  /** `numericOps` picks exactly the number-typed elements that pass the filter. */
  lemma {:induction false} NumbersOfSelects(xs: seq<Value>, filter: Option<Value -> Value>, n: int)
    ensures n in NumbersOf(xs, filter) <==> Num(n) in xs && Passes(filter, Num(n))
  {
    if xs != [] {
      var init := xs[..|xs| - 1];
      NumbersOfSelects(init, filter, n);
      assert xs == init + [xs[|xs| - 1]];
    }
  }

  /** `sum(filter)`: the callback of `numericOps` adds each number into `sum`. */
  method Sum(xs: seq<Value>, filter: Option<Value -> Value>) returns (sum: int)
    ensures sum == Total(NumbersOf(xs, filter))
  {
    sum := 0;
    for i := 0 to |xs|
      invariant sum == Total(NumbersOf(xs[..i], filter))
    {
      var e := xs[i];
      assert xs[..i + 1] == xs[..i] + [e];
      if e.Num? && Passes(filter, e) {
        sum := sum + e.n;
      }
    }
    assert xs[..|xs|] == xs;
  }

  /** With no qualifying number the sum is 0; the sum of two arrays' concatenation adds up. */
  lemma SumProperties(xs: seq<Value>, ys: seq<Value>, filter: Option<Value -> Value>)
    ensures (forall i :: 0 <= i < |xs| ==> !(xs[i].Num? && Passes(filter, xs[i]))) ==> Total(NumbersOf(xs, filter)) == 0
    ensures Total(NumbersOf(xs + ys, filter)) == Total(NumbersOf(xs, filter)) + Total(NumbersOf(ys, filter))
  {
    NumbersOfAppend(xs, ys, filter);
    TotalAppend(NumbersOf(xs, filter), NumbersOf(ys, filter));
    if forall i :: 0 <= i < |xs| ==> !(xs[i].Num? && Passes(filter, xs[i])) {
      NoNumbers(xs, filter);
    }
  }

  lemma {:induction false} NoNumbers(xs: seq<Value>, filter: Option<Value -> Value>)
    requires forall i :: 0 <= i < |xs| ==> !(xs[i].Num? && Passes(filter, xs[i]))
    ensures NumbersOf(xs, filter) == []
  {
    if xs != [] {
      NoNumbers(xs[..|xs| - 1], filter);
    }
  }

  /**
   * `average(filter)`: null when no number qualifies, else sum / count
   * (as an exact quotient).
   */
  method Average(xs: seq<Value>, filter: Option<Value -> Value>) returns (r: Option<real>)
    ensures var ns := NumbersOf(xs, filter);
      r == if |ns| == 0 then None else Some(Total(ns) as real / |ns| as real)
  {
    var sum, count := 0, 0;
    for i := 0 to |xs|
      invariant sum == Total(NumbersOf(xs[..i], filter))
      invariant count == |NumbersOf(xs[..i], filter)|
    {
      var e := xs[i];
      assert xs[..i + 1] == xs[..i] + [e];
      if e.Num? && Passes(filter, e) {
        sum := sum + e.n;
        count := count + 1;
      }
    }
    assert xs[..|xs|] == xs;
    return if count != 0 then Some(sum as real / count as real) else None;
  }

  // ---------------------------------------------------------------- takeWhile

  /**
   * `takeWhile(filterFn)`: null without a callback, else the longest prefix
   * on which `filterFn(element, index)` is truthy.
   */
  method TakeWhile<T>(xs: seq<T>, filterFn: Option<(T, nat) -> Value>) returns (r: Option<seq<T>>)
    ensures r.None? <==> filterFn.None?
    ensures r.Some? ==> |r.value| <= |xs| && r.value == xs[..|r.value|]
    ensures r.Some? ==> forall i :: 0 <= i < |r.value| ==> Truthy(filterFn.value(xs[i], i))
    ensures r.Some? && |r.value| < |xs| ==> !Truthy(filterFn.value(xs[|r.value|], |r.value|))
  {
    if filterFn.None? {
      return None;
    }
    var out := [];
    var i := 0;
    while i < |xs|
      invariant i <= |xs| && out == xs[..i]
      invariant forall j :: 0 <= j < i ==> Truthy(filterFn.value(xs[j], j))
    {
      var e := xs[i];
      if !Truthy(filterFn.value(e, i)) {
        break;
      }
      out := out + [e];
      i := i + 1;
    }
    return Some(out);
  }

  // ---------------------------------------------------------------- toDictionary

  /** The object `toDictionary` builds: each element with a non-null key assigns its value. */
  function DictionaryOf<T>(xs: seq<T>, keyFn: T -> Value, valFn: Option<T -> Value>): map<string, Value>
  {
    if xs == [] then map[]
    else
      var d := DictionaryOf(xs[..|xs| - 1], keyFn, valFn);
      var e := xs[|xs| - 1];
      var key := keyFn(e);
      if key.Null? then d
      else d[JsString(key) := if valFn.Some? then valFn.value(e) else key]
  }

  /** Element `e` is stored under property name `k`. */
  predicate KeyedAs<T>(keyFn: T -> Value, e: T, k: string)
  {
    !keyFn(e).Null? && JsString(keyFn(e)) == k
  }

  /** `xs[i]` is the last element stored under `k`. */
  predicate LastKeyedAs<T>(xs: seq<T>, keyFn: T -> Value, k: string, i: int)
  {
    0 <= i < |xs| && KeyedAs(keyFn, xs[i], k) && forall j :: i < j < |xs| ==> !KeyedAs(keyFn, xs[j], k)
  }

  /** A property is present exactly when some element's key names it. */
  lemma {:induction false} DictionaryHasKey<T>(xs: seq<T>, keyFn: T -> Value, valFn: Option<T -> Value>, k: string)
    ensures k in DictionaryOf(xs, keyFn, valFn) <==> exists i :: 0 <= i < |xs| && KeyedAs(keyFn, xs[i], k)
  {
    if xs != [] {
      var init := xs[..|xs| - 1];
      var n := |xs| - 1;
      DictionaryHasKey(init, keyFn, valFn, k);
      assert forall i :: 0 <= i < n ==> xs[i] == init[i];
      if KeyedAs(keyFn, xs[n], k) {
        assert k in DictionaryOf(xs, keyFn, valFn);
      } else {
        assert k in DictionaryOf(xs, keyFn, valFn) <==> k in DictionaryOf(init, keyFn, valFn);
      }
    }
  }

  /**
   * A property holds the value of the last element whose key names it: a
   * duplicate key does not fail, the later element wins.
   */
  lemma {:induction false} DictionaryLastWins<T>(xs: seq<T>, keyFn: T -> Value, valFn: Option<T -> Value>, k: string, i: int)
    requires LastKeyedAs(xs, keyFn, k, i)
    ensures var d := DictionaryOf(xs, keyFn, valFn);
      k in d && d[k] == if valFn.Some? then valFn.value(xs[i]) else keyFn(xs[i])
  {
    var init := xs[..|xs| - 1];
    var n := |xs| - 1;
    if i < n {
      assert forall j :: 0 <= j < n ==> xs[j] == init[j];
      assert LastKeyedAs(init, keyFn, k, i);
      DictionaryLastWins(init, keyFn, valFn, k, i);
      assert !KeyedAs(keyFn, xs[n], k);
    }
  }

  /**
   * `toDictionary(keySelectFn, valSelectFn)`: null without a key selector;
   * the key is also the value when there is no value selector.
   */
  method ToDictionary<T>(xs: seq<T>, keyFn: Option<T -> Value>, valFn: Option<T -> Value>)
    returns (r: Option<map<string, Value>>)
    ensures r.None? <==> keyFn.None?
    ensures r.Some? ==> r.value == DictionaryOf(xs, keyFn.value, valFn)
  {
    if keyFn.None? {
      return None;
    }
    var out: map<string, Value> := map[];
    for i := 0 to |xs|
      invariant out == DictionaryOf(xs[..i], keyFn.value, valFn)
    {
      var e := xs[i];
      assert xs[..i + 1][..i] == xs[..i];
      var key := keyFn.value(e);
      if !key.Null? {
        var val := if valFn.Some? then valFn.value(e) else key;
        out := out[JsString(key) := val];
      }
    }
    assert xs[..|xs|] == xs;
    return Some(out);
  }

  // ---------------------------------------------------------------- contains

  /** `contains(item)`: some element is strictly equal to `item`. */
  function Contains(xs: seq<Value>, item: Value): (r: bool)
    ensures r <==> item in xs
  {
    Any(xs, e => e == item)
  }
}
