/** The two "second largest value" routines of second.py:

    - SecondFor, a single left-to-right pass that keeps the two largest values
      seen so far, both seeded with the sentinel -1;
    - SecondSort, which sorts a copy of the list and returns the element at
      Python index -2.

    Both are stated against one order statistic, IsSecondLargest, over the
    multiset of the list: SecondFor computes it for the list plus two copies of
    the sentinel, SecondSort computes it for the list itself (or raises
    IndexError when the list is shorter than two). */
module Second {
  import opened Sorting

  /** The outcome of a Python expression that may raise IndexError. */
  datatype Result<T> = Ok(value: T) | IndexError

  /** The value both running maxima of second_for start from. */
  const Sentinel: int := -1

  /** v, or the sentinel when v lies below it. */
  function AtLeastSentinel(v: int): int {
    if v >= Sentinel then v else Sentinel
  }

  /** The values second_for compares against: the two seeds, then the list. */
  function WithSentinels(values: seq<int>): seq<int> {
    [Sentinel, Sentinel] + values
  }

  // ---------------------------------------------------------------------------
  // The order statistic

  /** Number of elements of s that are at least x. */
  function CountAtLeast(s: seq<int>, x: int): (n: nat)
    ensures n <= |s|
  {
    if s == [] then 0
    else CountAtLeast(s[..|s| - 1], x) + (if s[|s| - 1] >= x then 1 else 0)
  }

  /** m is an element of s and no element of s exceeds it. */
  ghost predicate IsMaximum(m: int, s: seq<int>) {
    m in s && forall k | 0 <= k < |s| :: s[k] <= m
  }

  /** r is the second-largest element of the multiset of s, a repeated maximum
      counting twice: r is an element, at least two elements reach r and at
      most one exceeds it (equivalently, at least |s| - 1 elements are <= r: see
      SecondLargestByCounts). */
  ghost predicate IsSecondLargest(r: int, s: seq<int>) {
    r in s && CountAtLeast(s, r) >= 2 && CountAtLeast(s, r + 1) <= 1
  }

  /** Number of elements of s that are at most x. */
  function CountAtMost(s: seq<int>, x: int): (n: nat)
    ensures n <= |s|
  {
    if s == [] then 0
    else CountAtMost(s[..|s| - 1], x) + (if s[|s| - 1] <= x then 1 else 0)
  }

  /** Every element is either at most x or at least x + 1. */
  lemma {:induction false} CountAtMostComplement(s: seq<int>, x: int)
    ensures CountAtMost(s, x) == |s| - CountAtLeast(s, x + 1)
    decreases |s|
  {
    if s != [] {
      CountAtMostComplement(s[..|s| - 1], x);
    }
  }

  /** The second largest in the words of second_sort's promise: an element with
      at least two elements >= it and at least |s| - 1 elements <= it. */
  lemma SecondLargestByCounts(r: int, s: seq<int>)
    ensures IsSecondLargest(r, s) <==>
              r in s && CountAtLeast(s, r) >= 2 && CountAtMost(s, r) >= |s| - 1
  {
    CountAtMostComplement(s, r);
  }

  lemma CountAtLeastSnoc(s: seq<int>, v: int)
    ensures forall x :: CountAtLeast(s + [v], x) == CountAtLeast(s, x) + (if v >= x then 1 else 0)
  {
    assert (s + [v])[..|s|] == s;
  }

  lemma {:induction false} CountAtLeastAppend(s: seq<int>, t: seq<int>, x: int)
    ensures CountAtLeast(s + t, x) == CountAtLeast(s, x) + CountAtLeast(t, x)
    decreases |t|
  {
    if t == [] {
      assert s + t == s;
    } else {
      var u := t[..|t| - 1];
      assert t == u + [t[|t| - 1]];
      assert s + t == (s + u) + [t[|t| - 1]];
      CountAtLeastAppend(s, u, x);
      CountAtLeastSnoc(s + u, t[|t| - 1]);
      CountAtLeastSnoc(u, t[|t| - 1]);
    }
  }

  /** Raising the threshold never counts more elements. */
  lemma {:induction false} CountAtLeastAntitone(s: seq<int>, x: int, y: int)
    requires x <= y
    ensures CountAtLeast(s, y) <= CountAtLeast(s, x)
    decreases |s|
  {
    if s != [] {
      CountAtLeastAntitone(s[..|s| - 1], x, y);
    }
  }

  /** An element is counted at its own value. */
  lemma {:induction false} MemberCounted(s: seq<int>, v: int)
    requires v in s
    ensures CountAtLeast(s, v) >= 1
    decreases |s|
  {
    var n := |s|;
    if s[n - 1] != v {
      var i :| 0 <= i < n && s[i] == v;
      assert s[..n - 1][i] == v;
      MemberCounted(s[..n - 1], v);
    }
  }

  /** Nothing is counted above the largest element. */
  lemma {:induction false} CountAboveAll(s: seq<int>, x: int)
    requires forall k | 0 <= k < |s| :: s[k] < x
    ensures CountAtLeast(s, x) == 0
    decreases |s|
  {
    if s != [] {
      CountAboveAll(s[..|s| - 1], x);
    }
  }

  /** Taking out the element at index j lowers every count by that element's share. */
  lemma CountAtLeastRemove(b: seq<int>, j: int, x: int)
    requires 0 <= j < |b|
    ensures CountAtLeast(b, x) ==
              CountAtLeast(b[..j] + b[j + 1..], x) + (if b[j] >= x then 1 else 0)
  {
    var left, right := b[..j], b[j + 1..];
    assert b == left + ([b[j]] + right);
    CountAtLeastAppend(left, [b[j]] + right, x);
    CountAtLeastAppend([b[j]], right, x);
    CountAtLeastAppend(left, right, x);
    assert [b[j]][..0] == [];
  }

  /** Counts depend only on the multiset of elements. */
  lemma {:induction false} CountAtLeastPermutation(a: seq<int>, b: seq<int>, x: int)
    requires multiset(a) == multiset(b)
    ensures CountAtLeast(a, x) == CountAtLeast(b, x)
    decreases |a|
  {
    if a == [] {
      assert |b| == |multiset(b)| == 0;
    } else {
      var v := a[|a| - 1];
      var rest := a[..|a| - 1];
      assert a == rest + [v];
      assert v in multiset(b);
      var j :| 0 <= j < |b| && b[j] == v;
      var others := b[..j] + b[j + 1..];
      assert b == b[..j] + [v] + b[j + 1..];
      assert multiset(others) == multiset(b) - multiset{v};
      assert multiset(rest) == multiset(a) - multiset{v};
      CountAtLeastPermutation(rest, others, x);
      CountAtLeastSnoc(rest, v);
      CountAtLeastRemove(b, j, x);
    }
  }

  /** The second largest element is unique. */
  lemma SecondLargestUnique(s: seq<int>, r1: int, r2: int)
    requires IsSecondLargest(r1, s) && IsSecondLargest(r2, s)
    ensures r1 == r2
  {
    if r1 < r2 {
      CountAtLeastAntitone(s, r1 + 1, r2);
    } else if r2 < r1 {
      CountAtLeastAntitone(s, r2 + 1, r1);
    }
  }

  /** The second largest element does not depend on the order of the list. */
  lemma SecondLargestPermutation(a: seq<int>, b: seq<int>, r: int)
    requires multiset(a) == multiset(b)
    requires IsSecondLargest(r, a)
    ensures IsSecondLargest(r, b)
  {
    assert r in multiset(a);
    CountAtLeastPermutation(a, b, r);
    CountAtLeastPermutation(a, b, r + 1);
  }

  /** In a sorted list of two or more, the element just before the last one is
      the second largest. */
  lemma SortedSecondLargest(t: seq<int>)
    requires Sorted(t) && |t| >= 2
    ensures IsSecondLargest(t[|t| - 2], t)
  {
    var n := |t|;
    var r := t[n - 2];
    var init := t[..n - 1];
    assert t == init + [t[n - 1]];
    assert init == init[..n - 2] + [r];
    CountAtLeastSnoc(init, t[n - 1]);
    CountAtLeastSnoc(init[..n - 2], r);
    CountAboveAll(init, r + 1);
  }

  // ---------------------------------------------------------------------------
  // second_sort

  /** Python's `xs[i]`: a negative index counts from the end; an index outside
      `-len(xs) <= i < len(xs)` raises IndexError. */
  function PyIndex(xs: seq<int>, i: int): (r: Result<int>)
    ensures r.Ok? <==> -|xs| <= i < |xs|
    ensures r.Ok? ==> r.value in xs
    ensures r.Ok? && 0 <= i ==> r.value == xs[i]
    ensures r.Ok? && i < 0 ==> r.value == xs[|xs| + i]
  {
    if 0 <= i < |xs| then Ok(xs[i])
    else if -|xs| <= i < 0 then Ok(xs[|xs| + i])
    else IndexError
  }

  /** second_sort: `sorted(values)[-2]`. The caller's list is a value here, so
      that sorting a copy leaves it unchanged needs no statement. */
  function SecondSort(values: seq<int>): (r: Result<int>)
    ensures r.IndexError? <==> |values| < 2
    ensures r.Ok? ==> IsSecondLargest(r.value, values)
  {
    var sortedValues := SortedCopy(values);
    if |sortedValues| >= 2 then
      SortedSecondLargest(sortedValues);
      SecondLargestPermutation(sortedValues, values, sortedValues[|sortedValues| - 2]);
      PyIndex(sortedValues, -2)
    else
      PyIndex(sortedValues, -2)
  }

  /** For two or more values, second_sort returns exactly the second largest. */
  lemma SecondSortCharacterized(values: seq<int>, r: int)
    requires |values| >= 2
    ensures SecondSort(values) == Ok(r) <==> IsSecondLargest(r, values)
  {
    if IsSecondLargest(r, values) {
      SecondLargestUnique(values, r, SecondSort(values).value);
    }
  }

  /** second_sort gives the same answer for every ordering of the list. */
  lemma SecondSortOrderIndependent(a: seq<int>, b: seq<int>)
    requires multiset(a) == multiset(b)
    ensures SecondSort(a) == SecondSort(b)
  {
    SortedCopyPermutation(a, b);
  }

  // ---------------------------------------------------------------------------
  // second_for

  /** second_for: one pass keeping the largest value seen (`first`) and the
      second largest (`second`), both seeded with the sentinel. */
  method SecondFor(values: seq<int>) returns (second: int)
    ensures IsSecondLargest(second, WithSentinels(values))
    ensures Sentinel <= second
    ensures |values| < 2 ==> second == Sentinel
    ensures (|values| >= 2 && forall k | 0 <= k < |values| :: values[k] >= Sentinel) ==>
              SecondSort(values) == Ok(second)
    ensures |values| >= 2 ==>
              (SecondSort(values).Ok? &&
               second == AtLeastSentinel(SecondSort(values).value))
  {
    var first := Sentinel;
    second := Sentinel;
    ghost var seen := [Sentinel, Sentinel];
    SeedsCounted(Sentinel);
    SeedsCounted(Sentinel + 1);
    for i := 0 to |values|
      invariant seen == WithSentinels(values[..i])
      invariant second <= first
      invariant IsMaximum(first, seen)
      invariant IsSecondLargest(second, seen)
    {
      var val := values[i];
      ScanStep(seen, val, first, second);
      if val > first {
        first, second := val, first;
      } else if val > second {
        second := val;
      }
      seen := seen + [val];
      assert values[..i + 1] == values[..i] + [val];
    }
    assert values[..|values|] == values;
    SecondLargestWithSentinels(values, second);
  }

  /** What the second largest of the list plus the two sentinels says about the
      list itself: it is at least -1, it is -1 for fewer than two values, and
      for two or more it is second_sort's answer raised to -1. */
  lemma SecondLargestWithSentinels(values: seq<int>, r: int)
    requires IsSecondLargest(r, WithSentinels(values))
    ensures Sentinel <= r
    ensures |values| < 2 ==> r == Sentinel
    ensures (|values| >= 2 && forall k | 0 <= k < |values| :: values[k] >= Sentinel) ==>
              SecondSort(values) == Ok(r)
    ensures |values| >= 2 ==>
              (SecondSort(values).Ok? &&
               r == AtLeastSentinel(SecondSort(values).value))
  {
    SentinelBounds(values, r);
    if |values| < 2 {
      ShortInputGivesSentinel(values, r);
    } else {
      ForVersusSort(values, r);
      if forall k | 0 <= k < |values| :: values[k] >= Sentinel {
        ForAgreesWithSort(values, r);
      }
    }
  }

  /** One iteration of second_for's loop keeps the pair (first, second) the
      largest and the second largest of what has been compared so far. */
  lemma ScanStep(seen: seq<int>, val: int, first: int, second: int)
    requires second <= first
    requires IsMaximum(first, seen) && IsSecondLargest(second, seen)
    ensures val > first ==>
              IsMaximum(val, seen + [val]) && IsSecondLargest(first, seen + [val])
    ensures second < val <= first ==>
              IsMaximum(first, seen + [val]) && IsSecondLargest(val, seen + [val])
    ensures val <= second ==>
              IsMaximum(first, seen + [val]) && IsSecondLargest(second, seen + [val])
  {
    CountAtLeastSnoc(seen, val);
    CountAboveAll(seen, first + 1);
    MemberCounted(seen, first);
    if val > first {
      CountAtLeastAntitone(seen, first + 1, val + 1);
    } else if val > second {
      CountAtLeastAntitone(seen, val, first);
      CountAtLeastAntitone(seen, second + 1, val + 1);
    }
  }

  /** The two seeds are counted at every threshold up to the sentinel. */
  lemma SeedsCounted(x: int)
    ensures CountAtLeast([Sentinel, Sentinel], x) == if x <= Sentinel then 2 else 0
  {
    assert [Sentinel, Sentinel] == [Sentinel] + [Sentinel] && [Sentinel][..0] == [];
    CountAtLeastSnoc([Sentinel], Sentinel);
  }

  /** The result of second_for is never below the sentinel. */
  lemma SentinelBounds(values: seq<int>, r: int)
    requires IsSecondLargest(r, WithSentinels(values))
    ensures Sentinel <= r
  {
    CountAtLeastAppend([Sentinel, Sentinel], values, r + 1);
    SeedsCounted(r + 1);
  }

  /** On an empty or one-element list, second_for returns the sentinel. */
  lemma ShortInputGivesSentinel(values: seq<int>, r: int)
    requires |values| < 2
    requires IsSecondLargest(r, WithSentinels(values))
    ensures r == Sentinel
  {
    var s := WithSentinels(values);
    CountAtLeastAppend([Sentinel, Sentinel], values, Sentinel);
    CountAtLeastAppend([Sentinel, Sentinel], values, Sentinel + 1);
    SeedsCounted(Sentinel);
    SeedsCounted(Sentinel + 1);
    SecondLargestUnique(s, r, Sentinel);
  }

  /** Against the largest value m of a non-empty list, second_for's result r
      lies at or below m whenever m reaches the sentinel; when every value is
      below the sentinel, the sentinel wins and r is -1. */
  lemma ResultAgainstMaximum(values: seq<int>, r: int, m: int)
    requires IsSecondLargest(r, WithSentinels(values))
    requires IsMaximum(m, values)
    ensures m >= Sentinel ==> r <= m
    ensures m < Sentinel ==> r == Sentinel
  {
    SentinelBounds(values, r);
    if r != Sentinel {
      var s := WithSentinels(values);
      var i :| 0 <= i < |s| && s[i] == r;
      assert values[i - 2] == r;
    }
  }

  /** For two or more values the sentinels matter only when second_sort's
      answer v lies below them: second_for returns v when v >= -1 and -1
      otherwise. So the two routines agree exactly when v >= -1. */
  lemma ForVersusSort(values: seq<int>, r: int)
    requires |values| >= 2
    requires IsSecondLargest(r, WithSentinels(values))
    ensures SecondSort(values).Ok?
    ensures r == AtLeastSentinel(SecondSort(values).value)
    ensures SecondSort(values) == Ok(r) <==> SecondSort(values).value >= Sentinel
  {
    var v := SecondSort(values).value;
    var s := WithSentinels(values);
    var expected := if v >= Sentinel then v else Sentinel;
    CountAtLeastAppend([Sentinel, Sentinel], values, expected);
    CountAtLeastAppend([Sentinel, Sentinel], values, expected + 1);
    SeedsCounted(expected);
    SeedsCounted(expected + 1);
    if v < Sentinel {
      CountAtLeastAntitone(values, v + 1, expected + 1);
    }
    assert IsSecondLargest(expected, s);
    SecondLargestUnique(s, r, expected);
  }

  /** When the list has two or more values and none is below the sentinel,
      second_for agrees with second_sort. */
  lemma ForAgreesWithSort(values: seq<int>, r: int)
    requires |values| >= 2
    requires forall k | 0 <= k < |values| :: values[k] >= Sentinel
    requires IsSecondLargest(r, WithSentinels(values))
    ensures SecondSort(values) == Ok(r)
  {
    ForVersusSort(values, r);
    assert SecondSort(values).value in values;
  }

  /** Two or more values, one below the sentinel, and still the same answer:
      [5, 6, -7] gives 5 from both routines. */
  lemma AgreementBelowSentinel(r: int)
    requires IsSecondLargest(r, WithSentinels([5, 6, -7]))
    ensures r == 5 && SecondSort([5, 6, -7]) == Ok(5)
  {
    var s := [5, 6, -7];
    assert s == [5, 6] + [-7] && [5, 6] == [5] + [6] && [5][..0] == [];
    CountAtLeastSnoc([5, 6], -7);
    CountAtLeastSnoc([5], 6);
    assert IsSecondLargest(5, s);
    SecondSortCharacterized(s, 5);
    ForVersusSort(s, r);
  }

  /** second_for gives the same answer for every ordering of the list. */
  lemma ForOrderIndependent(a: seq<int>, b: seq<int>, ra: int, rb: int)
    requires multiset(a) == multiset(b)
    requires IsSecondLargest(ra, WithSentinels(a))
    requires IsSecondLargest(rb, WithSentinels(b))
    ensures ra == rb
  {
    assert multiset(WithSentinels(a)) == multiset(WithSentinels(b));
    SecondLargestPermutation(WithSentinels(a), WithSentinels(b), ra);
    SecondLargestUnique(WithSentinels(b), ra, rb);
  }

  /** A repeated maximum counts twice: for [5, 5] second_for returns 5, not -1,
      and so does second_sort. */
  lemma RepeatedMaximumCountsTwice(r: int)
    requires IsSecondLargest(r, WithSentinels([5, 5]))
    ensures r == 5
    ensures SecondSort([5, 5]) == Ok(5)
  {
  }

  /** Below the sentinel the two routines differ: for [-5, -7] second_for
      returns -1 while second_sort returns -7. */
  lemma SentinelWinsBelowMinusOne(r: int)
    requires IsSecondLargest(r, WithSentinels([-5, -7]))
    ensures r == Sentinel
    ensures SecondSort([-5, -7]) == Ok(-7)
  {
    ResultAgainstMaximum([-5, -7], r, -5);
    SecondSortCharacterized([-5, -7], -7);
    var s := [-5, -7];
    assert s == [-5] + [-7] && [-5][..0] == [];
    CountAtLeastSnoc([-5], -7);
    CountAtLeastSnoc([-5], -6);
    assert IsSecondLargest(-7, s);
  }
}
