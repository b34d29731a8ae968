/** Python's built-in `sorted` on a list of integers, modelled by its specification:
    it returns a new list that is in non-decreasing order and holds exactly the
    elements of its argument. The body of SortedCopy is one way to compute such a
    list; SortedPermutationUnique shows that there is only one, so no property of
    the model depends on which sorting algorithm produced it. */
module Sorting {

  /** Non-decreasing order. */
  ghost predicate Sorted(s: seq<int>) {
    forall i, j | 0 <= i < j < |s| :: s[i] <= s[j]
  }

  /** Inserts x into the sorted list t at its place. */
  function Insert(x: int, t: seq<int>): (r: seq<int>)
    requires Sorted(t)
    ensures Sorted(r)
    ensures multiset(r) == multiset(t) + multiset{x}
    ensures |r| == |t| + 1
    ensures r[0] == if t == [] || x <= t[0] then x else t[0]
  {
    if t == [] || x <= t[0] then
      [x] + t
    else
      assert t == [t[0]] + t[1..];
      [t[0]] + Insert(x, t[1..])
  }

  /** The list `sorted(s)` returns. */
  function SortedCopy(s: seq<int>): (r: seq<int>)
    ensures Sorted(r)
    ensures multiset(r) == multiset(s)
    ensures |r| == |s|
  {
    if s == [] then
      []
    else
      assert s == s[..|s| - 1] + [s[|s| - 1]];
      Insert(s[|s| - 1], SortedCopy(s[..|s| - 1]))
  }

  /** The head of a sorted list is at most every element of it. */
  lemma SortedHeadIsLeast(a: seq<int>, v: int)
    requires Sorted(a)
    requires v in multiset(a)
    ensures a[0] <= v
  {
    var k :| 0 <= k < |a| && a[k] == v;
    assert a[0] <= a[k];
  }

  /** A sorted list without its head is still sorted. */
  lemma SortedTail(a: seq<int>)
    requires Sorted(a) && a != []
    ensures Sorted(a[1..])
  {
    forall i, j | 0 <= i < j < |a| - 1 ensures a[1..][i] <= a[1..][j] {
      assert a[1..][i] == a[i + 1] && a[1..][j] == a[j + 1];
    }
  }

  /** Two sorted lists with the same elements are the same list. */
  lemma {:induction false} SortedPermutationUnique(a: seq<int>, b: seq<int>)
    requires Sorted(a) && Sorted(b)
    requires multiset(a) == multiset(b)
    ensures a == b
    decreases |a|
  {
    assert |a| == |multiset(a)| == |multiset(b)| == |b|;
    if a != [] {
      SortedHeadIsLeast(b, a[0]);
      SortedHeadIsLeast(a, b[0]);
      var head, restA, restB := a[0], a[1..], b[1..];
      assert a == [head] + restA;
      assert b == [head] + restB;
      assert multiset(restA) == multiset(a) - multiset{head};
      assert multiset(restB) == multiset(b) - multiset{head};
      SortedTail(a);
      SortedTail(b);
      SortedPermutationUnique(restA, restB);
    }
  }

  /** `sorted` depends only on the elements of its argument, not on their order. */
  lemma SortedCopyPermutation(a: seq<int>, b: seq<int>)
    requires multiset(a) == multiset(b)
    ensures SortedCopy(a) == SortedCopy(b)
  {
    SortedPermutationUnique(SortedCopy(a), SortedCopy(b));
  }
}
