/** `PriorityQueue` (src/queues/priority_queue.ts): a binary min-heap kept in
    the prefix `buffer[0.._size)` of a growable array, together with the
    queue protocol it inherits from `AbstractQueue` (src/abstract_queue.ts).
    The live prefix is the sequence field `heap`; `_size` is `|heap|`. */
module PriorityQueues {
  import opened Common
  import opened Capacity
  import opened Comparators

  /** `parent(i) = (i - 1) >> 1`: an arithmetic shift floors, as Dafny's
      division by 2 does, so `Parent(0) == -1`. */
  function Parent(i: int): (p: int)
    ensures i == 0 ==> p == -1
    ensures i > 0 ==> i == LeftChild(p) || i == LeftChild(p) + 1
  {
    (i - 1) / 2
  }

  /** `leftChild(i) = (i << 1) + 1`. */
  function LeftChild(i: int): (c: int)
    ensures i >= 0 ==> i < c && c % 2 == 1
  {
    2 * i + 1
  }

  /** The two children of `i` have `i` as their parent, and they are the
      only indices that do. */
  lemma ChildrenOfParent(i: int, j: int)
    requires i >= 0
    ensures Parent(LeftChild(i)) == i && Parent(LeftChild(i) + 1) == i
    ensures j > 0 && Parent(j) == i ==> j == LeftChild(i) || j == LeftChild(i) + 1
  {
  }

  /** A parent sits before its child. */
  lemma ParentBefore(j: int)
    requires j > 0
    ensures 0 <= Parent(j) < j
  {
  }

  /** Every parent-child edge whose parent index is at least `lo` is in
      order. */
  ghost predicate HeapFrom<E>(h: seq<E>, cmp: (E, E) -> int, lo: int)
  {
    forall j :: 0 < j < |h| && lo <= Parent(j) ==> cmp(h[Parent(j)], h[j]) <= 0
  }

  /** The heap property of `buffer[0.._size)`. */
  ghost predicate IsHeap<E>(h: seq<E>, cmp: (E, E) -> int)
  {
    HeapFrom(h, cmp, 0)
  }

  /** `h[k]` sorts no later than each of its children. */
  ghost predicate BelowOk<E>(h: seq<E>, cmp: (E, E) -> int, k: int)
    requires 0 <= k < |h|
  {
    forall j :: 0 < j < |h| && Parent(j) == k ==> cmp(h[k], h[j]) <= 0
  }

  /** The state `heapifyUp` works in at `k`: every edge not touching `k` is
      in order, and `k`'s parent sorts no later than `k`'s children. */
  ghost predicate UpAt<E>(h: seq<E>, cmp: (E, E) -> int, k: int)
  {
    && 0 <= k < |h|
    && (forall j :: 0 < j < |h| && j != k && Parent(j) != k ==> cmp(h[Parent(j)], h[j]) <= 0)
    && (0 < k ==> forall j :: 0 < j < |h| && Parent(j) == k ==> cmp(h[Parent(k)], h[j]) <= 0)
  }

  /** The state `heapifyDown` works in at `k`, for the edges whose parent
      is at least `lo`: all of them are in order except those leaving `k`,
      and `k`'s parent, when it counts, sorts no later than `k`'s children. */
  ghost predicate DownAt<E>(h: seq<E>, cmp: (E, E) -> int, lo: int, k: int)
  {
    && 0 <= lo <= k
    && (forall j :: 0 < j < |h| && lo <= Parent(j) && Parent(j) != k ==> cmp(h[Parent(j)], h[j]) <= 0)
    && (0 < k < |h| && lo <= Parent(k) ==> forall j :: 0 < j < |h| && Parent(j) == k ==> cmp(h[Parent(k)], h[j]) <= 0)
  }

  /** `swap(i, j)` on the buffer: a permutation that exchanges two slots. */
  function Swap<E>(h: seq<E>, i: int, j: int): (r: seq<E>)
    requires 0 <= i < |h| && 0 <= j < |h|
    ensures |r| == |h| && multiset(r) == multiset(h)
    ensures r[i] == h[j] && r[j] == h[i]
    ensures forall x :: 0 <= x < |h| && x != i && x != j ==> r[x] == h[x]
  {
    h[i := h[j]][j := h[i]]
  }

  /** A comparator compares every value equal to itself. */
  lemma Reflexive<E(!new)>(cmp: (E, E) -> int, a: E)
    requires IsComparator(cmp)
    ensures cmp(a, a) == 0
  {
    assert cmp(a, a) < 0 <==> cmp(a, a) > 0;
  }

  /** The root of a heap sorts no later than any element. */
  lemma {:induction false} RootIsMin<E(!new)>(h: seq<E>, cmp: (E, E) -> int, j: int)
    requires IsComparator(cmp) && IsHeap(h, cmp)
    requires 0 <= j < |h|
    ensures cmp(h[0], h[j]) <= 0
    decreases j
  {
    if j == 0 {
      Reflexive(cmp, h[0]);
    } else {
      ParentBefore(j);
      RootIsMin(h, cmp, Parent(j));
    }
  }

  /** The root is a minimum of the whole heap. */
  lemma RootIsMinimum<E(!new)>(h: seq<E>, cmp: (E, E) -> int)
    requires IsComparator(cmp) && IsHeap(h, cmp) && |h| > 0
    ensures forall x :: x in h ==> cmp(h[0], x) <= 0
  {
    forall x | x in h
      ensures cmp(h[0], x) <= 0
    {
      var j :| 0 <= j < |h| && h[j] == x;
      RootIsMin(h, cmp, j);
    }
  }

  /** One round of `heapifyUp`: swapping a child that sorts before its
      parent moves the disorder one level up, and the child's own edges
      were in order. */
  lemma UpStep<E(!new)>(h: seq<E>, cmp: (E, E) -> int, c: int)
    requires IsComparator(cmp) && UpAt(h, cmp, c)
    requires c > 0 && cmp(h[c], h[Parent(c)]) < 0
    ensures BelowOk(h, cmp, c)
    ensures UpAt(Swap(h, c, Parent(c)), cmp, Parent(c))
    ensures BelowOk(Swap(h, c, Parent(c)), cmp, Parent(c))
  {
    var p := Parent(c);
    ParentBefore(c);
    var r := Swap(h, c, p);
    forall j | 0 < j < |h| && Parent(j) == c
      ensures cmp(h[c], h[j]) <= 0
    {
      assert cmp(h[p], h[j]) <= 0;
    }
    forall j | 0 < j < |r| && j != p && Parent(j) != p
      ensures cmp(r[Parent(j)], r[j]) <= 0
    {
      ParentBefore(j);
      if Parent(j) == c {
        assert cmp(h[p], h[j]) <= 0;
      } else if j == c {
      } else {
        assert r[j] == h[j] && r[Parent(j)] == h[Parent(j)];
      }
    }
    if p > 0 {
      ParentBefore(p);
      forall j | 0 < j < |r| && Parent(j) == p
        ensures cmp(r[Parent(p)], r[j]) <= 0
      {
        assert j != Parent(p) && Parent(p) != c;
        assert r[Parent(p)] == h[Parent(p)];
        assert cmp(h[Parent(p)], h[p]) <= 0;
        if j == c {
        } else {
          assert r[j] == h[j];
          assert cmp(h[p], h[j]) <= 0;
        }
      }
    }
    forall j | 0 < j < |r| && Parent(j) == p
      ensures cmp(r[p], r[j]) <= 0
    {
      if j == c {
        assert cmp(h[p], h[c]) > 0;
      } else {
        assert r[j] == h[j];
        assert cmp(h[p], h[j]) <= 0;
      }
    }
  }

  /** `heapifyUp` stops with a heap once the disorder reaches the root or
      an edge already in order. */
  lemma UpDone<E(!new)>(h: seq<E>, cmp: (E, E) -> int, c: int)
    requires IsComparator(cmp) && UpAt(h, cmp, c) && BelowOk(h, cmp, c)
    requires c == 0 || cmp(h[c], h[Parent(c)]) >= 0
    ensures IsHeap(h, cmp)
  {
    forall j | 0 < j < |h| && 0 <= Parent(j)
      ensures cmp(h[Parent(j)], h[j]) <= 0
    {
      if j == c {
        assert cmp(h[Parent(c)], h[c]) <= 0;
      }
    }
  }

  /** When `heapifyUp` leaves the slot in place, the disorder can only be
      below it, which is what `heapifyDown` repairs. */
  lemma UpToDown<E(!new)>(h: seq<E>, cmp: (E, E) -> int, k: int)
    requires IsComparator(cmp) && UpAt(h, cmp, k)
    requires k == 0 || cmp(h[k], h[Parent(k)]) >= 0
    ensures DownAt(h, cmp, 0, k)
  {
    forall j | 0 < j < |h| && 0 <= Parent(j) && Parent(j) != k
      ensures cmp(h[Parent(j)], h[j]) <= 0
    {
      if j == k {
        assert cmp(h[Parent(k)], h[k]) <= 0;
      }
    }
  }

  /** One round of `heapifyDown`: swapping `k` with its smallest child `s`
      moves the disorder down to `s`. */
  lemma DownStep<E(!new)>(h: seq<E>, cmp: (E, E) -> int, lo: int, k: int, s: int)
    requires IsComparator(cmp) && DownAt(h, cmp, lo, k)
    requires 0 < s < |h| && Parent(s) == k && cmp(h[s], h[k]) < 0
    requires forall j :: 0 < j < |h| && Parent(j) == k ==> cmp(h[s], h[j]) <= 0
    ensures DownAt(Swap(h, k, s), cmp, lo, s)
  {
    ParentBefore(s);
    var r := Swap(h, k, s);
    forall j | 0 < j < |r| && lo <= Parent(j) && Parent(j) != s
      ensures cmp(r[Parent(j)], r[j]) <= 0
    {
      ParentBefore(j);
      if Parent(j) == k {
        if j == s {
          assert cmp(h[k], h[s]) > 0;
        } else {
          assert r[j] == h[j];
        }
      } else if j == k {
        assert cmp(h[Parent(k)], h[s]) <= 0;
        assert r[Parent(k)] == h[Parent(k)];
      } else {
        assert j != s;
        assert r[j] == h[j];
        assert Parent(j) != k && Parent(j) != s;
        assert r[Parent(j)] == h[Parent(j)];
      }
    }
    forall j | 0 < j < |r| && Parent(j) == s
      ensures cmp(r[k], r[j]) <= 0
    {
      ParentBefore(j);
      assert r[j] == h[j];
      assert cmp(h[s], h[j]) <= 0;
    }
  }

  /** The index `heapifyDown` picks at `k`, by the same two comparisons in
      the same order (left child against `k`, then right child against the
      winner): `k`, or a child that sorts strictly before it and no later
      than its sibling. */
  function Smallest<E>(h: seq<E>, cmp: (E, E) -> int, k: nat): (s: int)
    requires k < |h|
    ensures s < |h| && (s == k || s == LeftChild(k) || s == LeftChild(k) + 1)
    ensures s == LeftChild(k) ==> cmp(h[s], h[k]) < 0
    ensures s == LeftChild(k) + 1 ==>
              cmp(h[s], h[k]) < 0 || (cmp(h[LeftChild(k)], h[k]) < 0 && cmp(h[s], h[LeftChild(k)]) < 0)
  {
    var l := LeftChild(k);
    var s := if l < |h| && cmp(h[l], h[k]) < 0 then l else k;
    if l + 1 < |h| && cmp(h[l + 1], h[s]) < 0 then l + 1 else s
  }

  /** The picked index sorts no later than `k` and its children, and is `k`
      itself or one of those children. */
  lemma SmallestIsMin<E(!new)>(h: seq<E>, cmp: (E, E) -> int, k: nat)
    requires IsComparator(cmp) && k < |h|
    ensures var s := Smallest(h, cmp, k);
            && 0 <= s < |h| && (s == k || (0 < s && Parent(s) == k && cmp(h[s], h[k]) < 0))
            && forall j :: 0 < j < |h| && Parent(j) == k ==> cmp(h[s], h[j]) <= 0
  {
    var l := LeftChild(k);
    var r := l + 1;
    var s := Smallest(h, cmp, k);
    ChildrenOfParent(k, l);
    forall j | 0 < j < |h| && Parent(j) == k
      ensures cmp(h[s], h[j]) <= 0
    {
      ChildrenOfParent(k, j);
      Reflexive(cmp, h[j]);
      if s == k && j == r && l < |h| {
        assert cmp(h[k], h[r]) <= 0;
      } else if s == r && j == l {
        if cmp(h[l], h[k]) < 0 {
          assert cmp(h[r], h[l]) < 0;
        } else {
          assert cmp(h[k], h[l]) <= 0;
          LessThenAtMost(cmp, h[r], h[k], h[l]);
        }
      }
    }
  }

  /** One round of `heapifyDown` at `k`: when `k` is its own pick, every
      edge from `lo` on is in order; otherwise the pick is a child of `k`,
      and swapping them moves the disorder down to it. */
  lemma SiftStep<E(!new)>(h: seq<E>, cmp: (E, E) -> int, lo: int, k: nat)
    requires IsComparator(cmp) && k < |h| && DownAt(h, cmp, lo, k)
    ensures var s := Smallest(h, cmp, k);
            && (s == k ==> HeapFrom(h, cmp, lo))
            && (s != k ==> k < s < |h| && DownAt(Swap(h, k, s), cmp, lo, s))
  {
    var s := Smallest(h, cmp, k);
    SmallestIsMin(h, cmp, k);
    if s == k {
      DownDone(h, cmp, lo, k);
    } else {
      DownStep(h, cmp, lo, k, s);
    }
  }

  /** `heapifyDown` stops with every edge from `lo` on in order once `k`
      sorts no later than its children. */
  lemma DownDone<E>(h: seq<E>, cmp: (E, E) -> int, lo: int, k: int)
    requires DownAt(h, cmp, lo, k)
    requires forall j :: 0 < j < |h| && Parent(j) == k ==> cmp(h[k], h[j]) <= 0
    ensures HeapFrom(h, cmp, lo)
  {
  }

  /** What `poll` and `removeMatchingItem` leave before re-heapifying,
      when the dropped slot is not the last: the `heapifyUp` state at `i`. */
  lemma ReplaceByLast<E(!new)>(h: seq<E>, cmp: (E, E) -> int, i: int)
    requires IsComparator(cmp) && IsHeap(h, cmp)
    requires 0 <= i < |h| - 1
    ensures UpAt(DropAt(h, i), cmp, i)
  {
    var r := DropAt(h, i);
    forall j | 0 < j < |r| && j != i && Parent(j) != i
      ensures cmp(r[Parent(j)], r[j]) <= 0
    {
      ParentBefore(j);
    }
    if 0 < i {
      ParentBefore(i);
      forall j | 0 < j < |r| && Parent(j) == i
        ensures cmp(r[Parent(i)], r[j]) <= 0
      {
        assert cmp(h[Parent(i)], h[i]) <= 0;
        assert cmp(h[i], h[j]) <= 0;
      }
    }
  }

  /** Dropping the last slot keeps a heap. */
  lemma DropLast<E>(h: seq<E>, cmp: (E, E) -> int)
    requires IsHeap(h, cmp) && |h| > 0
    ensures IsHeap(DropAt(h, |h| - 1), cmp)
  {
  }

  /** Dropping a slot removes exactly its element. */
  lemma DropAtMultiset<E>(h: seq<E>, i: int)
    requires 0 <= i < |h|
    ensures multiset(DropAt(h, i)) + multiset{h[i]} == multiset(h)
  {
    var n := |h| - 1;
    assert h == h[..n] + [h[n]];
  }

  /** How the queue drops slot `i`: the last element moves into it
      (`buffer[i] = buffer[_size]` after `--_size`), unless `i` was last. */
  function DropAt<E>(h: seq<E>, i: int): (r: seq<E>)
    requires 0 <= i < |h|
    ensures |r| == |h| - 1 && r[..i] == h[..i]
    ensures i < |h| - 1 ==> r[i] == h[|h| - 1]
  {
    if i < |h| - 1 then h[..|h| - 1][i := h[|h| - 1]] else h[..|h| - 1]
  }

  /** What `filter`'s scan will leave, seen at cursor `i`: the elements
      before `i` (all kept) and those `p` accepts from `i` on. */
  ghost function ScanKept<E>(h: seq<E>, p: E -> bool, i: int): multiset<E>
    requires 0 <= i <= |h|
  {
    multiset(h[..i]) + multiset(Keep(h[i..], p))
  }

  /** One dropping round of `filter`: the element at `i` fails, and the
      elements still to be kept from `i` on are the same multiset. */
  lemma FilterDropStep<E>(h: seq<E>, p: E -> bool, i: int)
    requires 0 <= i < |h| && !p(h[i])
    ensures ScanKept(DropAt(h, i), p, i) == ScanKept(h, p, i)
  {
    assert DropAt(h, i)[..i] == h[..i];
    DropKeepsSuffix(h, p, i);
  }

  /** Replacing the rejected element at `i` by the last one keeps the
      multiset of what `p` accepts from `i` on. */
  lemma DropKeepsSuffix<E>(h: seq<E>, p: E -> bool, i: int)
    requires 0 <= i < |h| && !p(h[i])
    ensures multiset(Keep(DropAt(h, i)[i..], p)) == multiset(Keep(h[i..], p))
  {
    if i < |h| - 1 {
      var mid := h[i + 1..|h| - 1];
      var last := [h[|h| - 1]];
      assert DropAt(h, i)[i..] == last + mid;
      assert h[i..] == [h[i]] + (mid + last);
      RotateKeeps(h[i], mid, last, p);
    } else {
      assert h[i..] == [h[i]];
      assert DropAt(h, i)[i..] == [];
    }
  }

  /** Dropping a rejected head and moving the tail to the front keeps the
      multiset of accepted elements. */
  lemma RotateKeeps<E>(x: E, mid: seq<E>, last: seq<E>, p: E -> bool)
    requires !p(x)
    ensures multiset(Keep(last + mid, p)) == multiset(Keep([x] + (mid + last), p))
  {
    KeepAppend([x], mid + last, p);
    KeepAppend(mid, last, p);
    KeepAppend(last, mid, p);
    assert Keep([x], p) == [];
    assert [] + (Keep(mid, p) + Keep(last, p)) == Keep(mid, p) + Keep(last, p);
  }

  /** At the end of the scan everything left was kept. */
  lemma ScanDone<E>(h: seq<E>, p: E -> bool)
    ensures ScanKept(h, p, |h|) == multiset(h)
  {
    assert h[..|h|] == h && h[|h|..] == [];
  }

  /** One keeping round of `filter`: the element at `i` passes and moves
      from the part still to be scanned to the part already kept. */
  lemma FilterKeepStep<E>(h: seq<E>, p: E -> bool, i: int)
    requires 0 <= i < |h| && p(h[i])
    ensures ScanKept(h, p, i + 1) == ScanKept(h, p, i)
  {
    assert h[..i + 1] == h[..i] + [h[i]];
    assert h[i..] == [h[i]] + h[i + 1..];
    KeepAppend([h[i]], h[i + 1..], p);
  }

  /** The buffer a fresh queue starts from is a heap. */
  lemma EmptyIsHeap<E>(cmp: (E, E) -> int)
    ensures IsHeap([], cmp)
  {
  }

  class PriorityQueue<E(!new)> {
    /** `buffer[0.._size)`. */
    var heap: seq<E>
    const cmp: (E, E) -> int
    const capacity: Bound

    ghost predicate Valid()
      reads this
    {
      IsComparator(cmp) && IsHeap(heap, cmp) && WithinCapacity(|heap|, capacity)
    }

    predicate Full()
      reads this
    {
      IsFull(|heap|, capacity)
    }

    /** A queue with the given comparator (the default is `DefaultCompare`
        on numbers) and the capacity the mixin fixed. */
    constructor(cmp: (E, E) -> int, capacity: Bound)
      requires IsComparator(cmp)
      ensures Valid() && heap == [] && this.cmp == cmp && this.capacity == capacity
    {
      this.heap := [];
      this.cmp := cmp;
      this.capacity := capacity;
    }

    /** `heapifyUp(child)`: move the element at `child` towards the root
        while it sorts before its parent. It reports whether it moved
        anything; when it did not, the element already sorted no earlier
        than its parent. */
    method HeapifyUp(k0: nat) returns (modified: bool)
      requires IsComparator(cmp) && UpAt(heap, cmp, k0)
      modifies this`heap
      ensures |heap| == old(|heap|) && multiset(heap) == multiset(old(heap))
      ensures modified ==> IsHeap(heap, cmp)
      ensures BelowOk(old(heap), cmp, k0) ==> IsHeap(heap, cmp)
      ensures !modified ==> heap == old(heap) && (k0 == 0 || cmp(heap[k0], heap[Parent(k0)]) >= 0)
    {
      var c := k0;
      modified := false;
      while c > 0
        invariant UpAt(heap, cmp, c)
        invariant |heap| == old(|heap|) && multiset(heap) == multiset(old(heap))
        invariant modified ==> BelowOk(heap, cmp, c)
        invariant !modified ==> heap == old(heap) && c == k0
        decreases c
      {
        var p := Parent(c);
        if cmp(heap[c], heap[p]) >= 0 {
          break;
        }
        UpStep(heap, cmp, c);
        heap := Swap(heap, c, p);
        modified := true;
        c := p;
      }
      if modified || BelowOk(old(heap), cmp, k0) {
        UpDone(heap, cmp, c);
      }
    }

    /** `heapifyDown(parent)`: move the element at `k0` towards the leaves,
        swapping it with its smaller child, until it sorts no later than
        both children. The ghost `lo` says which edges are meant to be in
        order (all of them for `poll`, the subtree for `heapify`). */
    method HeapifyDown(k0: nat, ghost lo: int) returns (modified: bool)
      requires IsComparator(cmp) && k0 < |heap| && DownAt(heap, cmp, lo, k0)
      modifies this`heap
      ensures |heap| == old(|heap|) && multiset(heap) == multiset(old(heap))
      ensures HeapFrom(heap, cmp, lo)
      ensures !modified ==> heap == old(heap)
    {
      var k := k0;
      modified := false;
      while true
        invariant k0 <= k < |heap| && DownAt(heap, cmp, lo, k)
        invariant |heap| == old(|heap|) && multiset(heap) == multiset(old(heap))
        invariant !modified ==> heap == old(heap)
        decreases |heap| - k
      {
        var s := Smallest(heap, cmp, k);
        SiftStep(heap, cmp, lo, k);
        if s == k {
          break;
        }
        heap := Swap(heap, k, s);
        modified := true;
        k := s;
      }
    }

    /** `heapify`: sift down every internal node, last first. */
    method Heapify()
      requires IsComparator(cmp)
      modifies this`heap
      ensures IsHeap(heap, cmp)
      ensures |heap| == old(|heap|) && multiset(heap) == multiset(old(heap))
    {
      var i := |heap| / 2 - 1;
      while i >= 0
        invariant -1 <= i < |heap|
        invariant HeapFrom(heap, cmp, i + 1)
        invariant |heap| == old(|heap|) && multiset(heap) == multiset(old(heap))
        decreases i
      {
        if i > 0 {
          ParentBefore(i);
        }
        var _ := HeapifyDown(i, i);
        i := i - 1;
      }
    }

    /** `offer(item)`: refused when full; otherwise the item joins the heap. */
    method Offer(item: E) returns (accepted: bool)
      requires Valid()
      modifies this
      ensures Valid()
      ensures accepted <==> !old(Full())
      ensures accepted ==> |heap| == old(|heap|) + 1
      ensures accepted ==> multiset(heap) == multiset(old(heap)) + multiset{item}
      ensures !accepted ==> heap == old(heap)
    {
      if Full() {
        return false;
      }
      AddOneWithinCapacity(|heap|, capacity);
      heap := heap + [item];
      var _ := HeapifyUp(|heap| - 1);
      return true;
    }

    /** `peek()`: nothing when empty, else an element sorting no later than
        any other. */
    function Peek(): (r: Option<E>)
      requires Valid()
      reads this
      ensures r.None? <==> |heap| == 0
      ensures r.Some? ==> r.value in heap && forall x :: x in heap ==> cmp(r.value, x) <= 0
    {
      if |heap| == 0 then None
      else
        RootIsMinimum(heap, cmp);
        Some(heap[0])
    }

    /** `poll()`: nothing when empty; otherwise remove and return a minimum.
        Whatever a later `poll` returns was in the queue now, so successive
        polls come out in comparator order. */
    method Poll() returns (r: Option<E>)
      requires Valid()
      modifies this
      ensures Valid()
      ensures r.None? <==> old(|heap|) == 0
      ensures r.None? ==> heap == old(heap)
      ensures r.Some? ==> multiset(heap) + multiset{r.value} == multiset(old(heap))
      ensures r.Some? ==> forall x :: x in old(heap) ==> cmp(r.value, x) <= 0
    {
      if |heap| == 0 {
        return None;
      }
      RootIsMinimum(heap, cmp);
      var result := heap[0];
      DropAtMultiset(heap, 0);
      if |heap| == 1 {
        DropLast(heap, cmp);
        heap := DropAt(heap, 0);
      } else {
        ReplaceByLast(heap, cmp, 0);
        heap := DropAt(heap, 0);
        UpToDown(heap, cmp, 0);
        var _ := HeapifyDown(0, 0);
      }
      return Some(result);
    }

    /** `removeMatchingItem(p)`: remove the first element in buffer order
        that `p` accepts, putting the last element in its place and
        restoring the heap upwards or else downwards. */
    method RemoveMatchingItem(p: E -> bool) returns (r: Option<E>)
      requires Valid()
      modifies this
      ensures Valid()
      ensures r.None? <==> FirstMatch(old(heap), p) == old(|heap|)
      ensures r.None? ==> heap == old(heap)
      ensures r.Some? ==> r.value == old(heap)[FirstMatch(old(heap), p)]
      ensures r.Some? ==> multiset(heap) + multiset{r.value} == multiset(old(heap))
    {
      var i := 0;
      while i < |heap| && !p(heap[i])
        invariant i <= |heap| && heap == old(heap)
        invariant forall j :: 0 <= j < i ==> !p(heap[j])
      {
        i := i + 1;
      }
      FirstMatchUnique(heap, p, i);
      if i >= |heap| {
        return None;
      }
      var item := heap[i];
      DropAtMultiset(heap, i);
      if i < |heap| - 1 {
        ReplaceByLast(heap, cmp, i);
        heap := DropAt(heap, i);
        var up := HeapifyUp(i);
        if !up {
          UpToDown(heap, cmp, i);
          var _ := HeapifyDown(i, 0);
        }
      } else {
        DropLast(heap, cmp);
        heap := DropAt(heap, i);
      }
      return Some(item);
    }

    /** The scan of `filter`: walk the buffer, keep what `p` accepts and
        replace each rejected element by the current last one. The scan
        works on a copy of the buffer that is stored back when it ends;
        `p` cannot observe the queue, so no caller sees the difference. */
    method DropRejected(p: E -> bool) returns (modified: bool)
      modifies this`heap
      ensures multiset(heap) == multiset(Keep(old(heap), p))
      ensures |heap| == |Keep(old(heap), p)|
      ensures modified <==> |heap| < old(|heap|)
      ensures !modified ==> heap == old(heap)
    {
      ghost var orig := heap;
      var h := heap;
      var i := 0;
      modified := false;
      while i < |h|
        invariant 0 <= i <= |h| <= |orig|
        invariant ScanKept(h, p, i) == multiset(Keep(orig, p))
        invariant modified <==> |h| < |orig|
        invariant !modified ==> h == orig
        decreases |h| - i
      {
        if p(h[i]) {
          FilterKeepStep(h, p, i);
          i := i + 1;
        } else {
          FilterDropStep(h, p, i);
          h := DropAt(h, i);
          modified := true;
        }
      }
      ScanDone(h, p);
      assert |multiset(h)| == |multiset(Keep(orig, p))|;
      heap := h;
    }

    /** `filter(p)`: drop every element `p` rejects (each replaced by the
        current last one), re-heapify if anything went, and report whether
        anything did. */
    method Filter(p: E -> bool) returns (modified: bool)
      requires Valid()
      modifies this
      ensures Valid()
      ensures multiset(heap) == multiset(Keep(old(heap), p))
      ensures modified <==> exists i :: 0 <= i < |old(heap)| && !p(old(heap)[i])
    {
      modified := DropRejected(p);
      KeepShorter(old(heap), p);
      if modified {
        Heapify();
      } else {
        assert heap == old(heap);
      }
    }

    /** `clear()`: the queue empties; its comparator and capacity stay. */
    method Clear()
      requires Valid()
      modifies this
      ensures Valid() && heap == []
    {
      heap := [];
    }

    /** `add(item)` of `AbstractQueue`: `offer`, with a refusal thrown as
        `OverflowException`. */
    method Add(item: E) returns (r: Result<()>)
      requires Valid()
      modifies this
      ensures Valid()
      ensures r.Err? <==> old(Full())
      ensures r.Err? ==> r.error == OverflowException && heap == old(heap)
      ensures r.Ok? ==> |heap| == old(|heap|) + 1
      ensures r.Ok? ==> multiset(heap) == multiset(old(heap)) + multiset{item}
    {
      var ok := Offer(item);
      if !ok {
        return Err(OverflowException);
      }
      return Ok(());
    }

    /** `offerFully(items)` of `AbstractQueue`: all of them when they fit,
        otherwise none. */
    method OfferFully(items: seq<E>) returns (count: nat)
      requires Valid()
      modifies this
      ensures Valid()
      ensures FewerThan(Remaining(old(|heap|), capacity), |items|) ==> count == 0 && heap == old(heap)
      ensures !FewerThan(Remaining(old(|heap|), capacity), |items|) ==>
                count == |items| && multiset(heap) == multiset(old(heap)) + multiset(items)
    {
      if FewerThan(Remaining(|heap|, capacity), |items|) {
        return 0;
      }
      var n := 0;
      while n < |items|
        invariant 0 <= n <= |items|
        invariant Valid()
        invariant |heap| == old(|heap|) + n
        invariant multiset(heap) == multiset(old(heap)) + multiset(items[..n])
      {
        var _ := Add(items[n]);
        assert items[..n + 1] == items[..n] + [items[n]];
        n := n + 1;
      }
      assert items[..n] == items;
      return |items|;
    }

    /** `offerPartially(items)` of `AbstractQueue`: offer in order and stop
        at the first refusal; the count is as many as there was room for. */
    method OfferPartially(items: seq<E>) returns (count: nat)
      requires Valid()
      modifies this
      ensures Valid()
      ensures count == Admits(old(|heap|), capacity, |items|)
      ensures multiset(heap) == multiset(old(heap)) + multiset(items[..count])
    {
      count := 0;
      while count < |items|
        invariant 0 <= count <= |items|
        invariant Valid()
        invariant |heap| == old(|heap|) + count
        invariant count <= Admits(old(|heap|), capacity, |items|)
        invariant multiset(heap) == multiset(old(heap)) + multiset(items[..count])
      {
        var ok := Offer(items[count]);
        if !ok {
          break;
        }
        assert items[..count + 1] == items[..count] + [items[count]];
        count := count + 1;
      }
    }

    /** `remove()` of `AbstractQueue`: `poll`, with an empty queue thrown as
        `UnderflowException`. */
    method Remove() returns (r: Result<E>)
      requires Valid()
      modifies this
      ensures Valid()
      ensures r.Err? <==> old(|heap|) == 0
      ensures r.Err? ==> r.error == UnderflowException && heap == old(heap)
      ensures r.Ok? ==> multiset(heap) + multiset{r.value} == multiset(old(heap))
      ensures r.Ok? ==> forall x :: x in old(heap) ==> cmp(r.value, x) <= 0
    {
      if |heap| == 0 {
        return Err(UnderflowException);
      }
      var x := Poll();
      return Ok(x.value);
    }

    /** `element()` of `AbstractQueue`: `peek`, with an empty queue thrown
        as `UnderflowException`. */
    function Element(): (r: Result<E>)
      requires Valid()
      reads this
      ensures r.Err? <==> |heap| == 0
      ensures r.Err? ==> r.error == UnderflowException
      ensures r.Ok? ==> r.value in heap && forall x :: x in heap ==> cmp(r.value, x) <= 0
    {
      if |heap| == 0 then Err(UnderflowException) else Ok(Peek().value)
    }
  }
}
