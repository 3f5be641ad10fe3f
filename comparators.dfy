/** Comparators as the collections use them: `cmp(a, b)` is negative, zero or
    positive as `a` sorts before, with or after `b`. The library relies on
    callers to supply a consistent one; these predicates say what that means. */
module Comparators {

  /** The laws a comparator must obey for ordered structures to work:
      sign antisymmetry, and transitivity of "sorts no later than". */
  ghost predicate IsComparator<T(!new)>(cmp: (T, T) -> int)
  {
    && (forall a, b :: cmp(a, b) < 0 <==> cmp(b, a) > 0)
    && (forall a, b, c :: cmp(a, b) <= 0 && cmp(b, c) <= 0 ==> cmp(a, c) <= 0)
  }

  /** The default comparator `(a, b) => (a < b ? -1 : a > b ? 1 : 0)`, on numbers. */
  function DefaultCompare(a: int, b: int): int
  {
    if a < b then -1 else if a > b then 1 else 0
  }

  lemma DefaultCompareIsComparator()
    ensures IsComparator(DefaultCompare)
  {
  }

  /** Strict and non-strict comparisons chain: a < b <= c gives a < c. */
  lemma LessThenAtMost<T(!new)>(cmp: (T, T) -> int, a: T, b: T, c: T)
    requires IsComparator(cmp)
    requires cmp(a, b) < 0 && cmp(b, c) <= 0
    ensures cmp(a, c) < 0
  {
  }

  /** a <= b < c gives a < c. */
  lemma AtMostThenLess<T(!new)>(cmp: (T, T) -> int, a: T, b: T, c: T)
    requires IsComparator(cmp)
    requires cmp(a, b) <= 0 && cmp(b, c) < 0
    ensures cmp(a, c) < 0
  {
  }

  /** `xs` is sorted: every element sorts no later than any element after it. */
  ghost predicate Sorted<T>(xs: seq<T>, cmp: (T, T) -> int)
  {
    forall i, j :: 0 <= i < j < |xs| ==> cmp(xs[i], xs[j]) <= 0
  }
}
