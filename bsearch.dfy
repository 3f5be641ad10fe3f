/** `bsearch` (src/utils/bsearch.ts): binary search over an array sorted by a
    comparator, returning the index of an equal element or, when there is none,
    the bitwise complement of the insertion point. */
module BinarySearch {
  import opened Comparators

  /** JavaScript's `~x` on a 32-bit integer: it swaps the non-negative
      numbers (indices) with the negative ones (encoded insertion points). */
  function Complement(x: int): (r: int)
    ensures x >= 0 <==> r < 0
  {
    -x - 1
  }

  lemma ComplementInvolutive(x: int)
    ensures Complement(Complement(x)) == x
  {
  }

  /** The insertion point encoded by a negative result. */
  function InsertionPoint(r: int): int
    requires r < 0
  {
    Complement(r)
  }

  method BSearch<T(!new)>(arr: seq<T>, el: T, compare: (T, T) -> int) returns (r: int)
    ensures r >= 0 ==> r < |arr| && compare(el, arr[r]) == 0
    ensures r < 0 ==> 0 <= InsertionPoint(r) <= |arr|
    ensures |arr| == 0 ==> r == -1
    ensures r < 0 && Sorted(arr, compare) && IsComparator(compare) ==>
      (forall j :: 0 <= j < InsertionPoint(r) ==> compare(el, arr[j]) > 0) &&
      (forall j :: InsertionPoint(r) <= j < |arr| ==> compare(el, arr[j]) < 0)
    ensures Sorted(arr, compare) && IsComparator(compare) ==>
      (r >= 0 <==> exists j :: 0 <= j < |arr| && compare(el, arr[j]) == 0)
  {
    var m := 0;
    var n := |arr| - 1;
    while m <= n
      invariant 0 <= m <= |arr| && -1 <= n < |arr| && m <= n + 1
      invariant Sorted(arr, compare) && IsComparator(compare) ==>
        (forall j :: 0 <= j < m ==> compare(el, arr[j]) > 0) &&
        (forall j :: n < j < |arr| ==> compare(el, arr[j]) < 0)
      decreases n - m
    {
      var k := (n + m) / 2;
      var cmp := compare(el, arr[k]);
      if cmp > 0 {
        ghost var lo := m;
        m := k + 1;
        if Sorted(arr, compare) && IsComparator(compare) {
          forall j | lo <= j < m ensures compare(el, arr[j]) > 0 {
            if j < k {
              assert compare(arr[j], arr[k]) <= 0;
              AtMostThenLess(compare, arr[j], arr[k], el);
            }
          }
        }
      } else if cmp < 0 {
        ghost var hi := n;
        n := k - 1;
        if Sorted(arr, compare) && IsComparator(compare) {
          forall j | n < j <= hi ensures compare(el, arr[j]) < 0 {
            if j > k {
              assert compare(arr[k], arr[j]) <= 0;
              LessThenAtMost(compare, el, arr[k], arr[j]);
            }
          }
        }
      } else {
        return k;
      }
    }
    r := Complement(m);
  }
}
