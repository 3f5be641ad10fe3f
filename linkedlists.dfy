/** `LinkedList` (src/lists/linked_list.ts): a doubly linked ring of
    entries closed by a sentinel header, with the element count kept in
    `_size`. The model names each node of the ring by its position: the
    entries are positions `0 .. n - 1` in list order and the header is
    position `n`, where `n` is the number of entries; `after` and `before`
    are the successor and predecessor on that ring. Inserting or unlinking
    an entry is the corresponding sequence update of `values`. */
module LinkedLists {
  import opened Common
  import opened Capacity

  /** `e.after` on a ring of `n` entries and its header `n`. */
  function After(p: nat, n: nat): (q: nat)
    requires p <= n
    ensures q <= n
  {
    if p == n then 0 else p + 1
  }

  /** `e.before` on the same ring. */
  function Before(p: nat, n: nat): (q: nat)
    requires p <= n
    ensures q <= n
  {
    if p == 0 then n else p - 1
  }

  /** `after` and `before` undo each other: the links of every node of the
      ring agree in both directions. */
  lemma AfterBefore(p: nat, n: nat)
    requires p <= n
    ensures Before(After(p, n), n) == p && After(Before(p, n), n) == p
  {
  }

  /** One iterator step, `cursor.after` going forward or `cursor.before`
      going backward. */
  function Advance(p: nat, n: nat, forward: bool): (q: nat)
    requires p <= n
    ensures q <= n
  {
    if forward then After(p, n) else Before(p, n)
  }

  /** What an iterator at `cursor` with `count` left still yields from a
      ring holding `vs`: nothing at the header or once `count` is spent,
      otherwise the value at the cursor and then what the next position
      yields. */
  function Yields<E>(vs: seq<E>, cursor: nat, count: int, forward: bool): seq<E>
    requires cursor <= |vs|
    decreases Max(count, 0)
  {
    if cursor == |vs| || count <= 0 then []
    else [vs[cursor]] + Yields(vs, Advance(cursor, |vs|, forward), count - 1, forward)
  }

  /** A forward iterator yields the next `count` entries in list order, or
      all up to the end of the list when fewer remain. */
  lemma {:induction false} YieldsForward<E>(vs: seq<E>, cursor: nat, count: int)
    requires cursor <= |vs|
    ensures Yields(vs, cursor, count, true) == vs[cursor .. cursor + Min(Max(count, 0), |vs| - cursor)]
    decreases Max(count, 0)
  {
    if cursor < |vs| && count > 0 {
      YieldsForward(vs, cursor + 1, count - 1);
    }
  }

  /** A backward iterator yields the entries from `cursor` down to the
      first, at most `count` of them. */
  lemma {:induction false} YieldsBackward<E>(vs: seq<E>, cursor: nat, count: int)
    requires cursor < |vs|
    ensures var ys := Yields(vs, cursor, count, false);
            && |ys| == Min(Max(count, 0), cursor + 1)
            && forall i :: 0 <= i < |ys| ==> ys[i] == vs[cursor - i]
    decreases Max(count, 0)
  {
    if count > 0 && cursor > 0 {
      YieldsBackward(vs, cursor - 1, count - 1);
    }
  }

  /** Unlinking an entry the iterator has already passed leaves what it
      still yields unchanged: going forward the entry is behind the cursor,
      going backward it is in front of it, and in both cases the cursor
      keeps pointing at the same node (one position lower when the entry
      was before it). */
  lemma {:induction false} YieldsAfterRemove<E>(vs: seq<E>, r: nat, cursor: nat, count: int, forward: bool)
    requires r < |vs| && cursor <= |vs|
    requires forward ==> r < cursor
    requires !forward ==> cursor < r || cursor == |vs|
    ensures var c := if cursor > r then cursor - 1 else cursor;
            Yields(vs[..r] + vs[r + 1..], c, count, forward) == Yields(vs, cursor, count, forward)
    decreases Max(count, 0)
  {
    var ws := vs[..r] + vs[r + 1..];
    var c := if cursor > r then cursor - 1 else cursor;
    if cursor < |vs| && count > 0 {
      assert ws[c] == vs[cursor];
      if forward {
        YieldsAfterRemove(vs, r, cursor + 1, count - 1, forward);
      } else if cursor > 0 {
        YieldsAfterRemove(vs, r, cursor - 1, count - 1, forward);
      }
    }
  }

  /** Changing the value of an entry the iterator has already passed
      leaves what it still yields unchanged. */
  lemma {:induction false} YieldsAfterSet<E>(vs: seq<E>, r: nat, v: E, cursor: nat, count: int, forward: bool)
    requires r < |vs| && cursor <= |vs|
    requires forward ==> r < cursor
    requires !forward ==> cursor < r || cursor == |vs|
    ensures Yields(vs[r := v], cursor, count, forward) == Yields(vs, cursor, count, forward)
    decreases Max(count, 0)
  {
    if cursor < |vs| && count > 0 {
      if forward {
        YieldsAfterSet(vs, r, v, cursor + 1, count - 1, forward);
      } else if cursor > 0 {
        YieldsAfterSet(vs, r, v, cursor - 1, count - 1, forward);
      }
    }
  }

  class LinkedList<E> {
    /** The values of the entries, in ring order after the header. */
    var values: seq<E>
    /** `_size`. */
    var size: nat
    const capacity: Bound

    ghost predicate Valid()
      reads this
    {
      size == |values| && WithinCapacity(size, capacity)
    }

    predicate Full()
      reads this
    {
      IsFull(size, capacity)
    }

    constructor(capacity: Bound)
      ensures Valid() && values == [] && this.capacity == capacity
    {
      values := [];
      size := 0;
      this.capacity := capacity;
    }

    /** `getEntryAt(idx)`: walk from the header towards `idx` from the
        nearer end, `idx + 1` steps along `after` or `size - idx` steps
        along `before`. Either walk reaches the entry at `idx` (the header
        itself when `idx` is the size), in the smaller number of steps. */
    method GetEntryAt(idx: int) returns (e: nat, hops: nat)
      requires Valid() && 0 <= idx <= size
      ensures e == idx
      ensures hops == Min(idx + 1, size - idx)
    {
      var x := size - idx;
      e := size;
      hops := 0;
      if idx < x {
        var i := 0;
        while i <= idx
          invariant 0 <= i <= idx + 1 && hops == i
          invariant e == if i == 0 then size else i - 1
        {
          e := After(e, size);
          i := i + 1;
          hops := hops + 1;
        }
      } else {
        var i := 0;
        while i < x
          invariant 0 <= i <= x && hops == i
          invariant e == size - i
        {
          e := Before(e, size);
          i := i + 1;
          hops := hops + 1;
        }
      }
    }

    /** `getAt(idx)`: the value at `idx`; `IndexOutOfBounds` outside the
        list. */
    method GetAt(idx: int) returns (r: Result<E>)
      requires Valid()
      ensures r.Ok? <==> 0 <= idx < size
      ensures r.Ok? ==> r.value == values[idx]
      ensures r.Err? ==> r.error == IndexOutOfBounds
    {
      if !(0 <= idx < size) {
        return Err(IndexOutOfBounds);
      }
      var e, _ := GetEntryAt(idx);
      return Ok(values[e]);
    }

    /** `getFirst()`: `header.after`, the first entry. */
    function GetFirst(): (r: Result<E>)
      requires Valid()
      reads this
      ensures r.Err? <==> size == 0
      ensures r.Err? ==> r.error == UnderflowException
      ensures r.Ok? ==> r.value == values[0]
    {
      if size == 0 then Err(UnderflowException) else Ok(values[After(size, size)])
    }

    /** `getLast()`: `header.before`, the last entry. */
    function GetLast(): (r: Result<E>)
      requires Valid()
      reads this
      ensures r.Err? <==> size == 0
      ensures r.Err? ==> r.error == UnderflowException
      ensures r.Ok? ==> values == values[..size - 1] + [r.value]
    {
      if size == 0 then Err(UnderflowException) else Ok(values[Before(size, size)])
    }

    /** `offerAt(idx, item)`: refused (false) when full, before the index
        is checked; otherwise a new entry is linked in before the entry now
        at `idx` (before the header when `idx` is the size). */
    method OfferAt(idx: int, item: E) returns (r: Result<bool>)
      requires Valid()
      modifies this
      ensures Valid()
      ensures old(Full()) ==> r == Ok(false) && values == old(values)
      ensures !old(Full()) && !(0 <= idx <= old(size)) ==> r == Err(IndexOutOfBounds) && values == old(values)
      ensures !old(Full()) && 0 <= idx <= old(size) ==>
                r == Ok(true) && values == old(values)[..idx] + [item] + old(values)[idx..]
    {
      if Full() {
        return Ok(false);
      }
      if !(0 <= idx <= size) {
        return Err(IndexOutOfBounds);
      }
      var existing, _ := GetEntryAt(idx);
      AddOneWithinCapacity(size, capacity);
      values := values[..existing] + [item] + values[existing..];
      size := size + 1;
      return Ok(true);
    }

    /** `setAt(idx, item)`: only the entry at `idx` changes, and its
        previous value is returned. */
    method SetAt(idx: int, item: E) returns (r: Result<E>)
      requires Valid()
      modifies this
      ensures Valid() && size == old(size)
      ensures r.Ok? <==> 0 <= idx < old(size)
      ensures r.Ok? ==> r.value == old(values)[idx] && values == old(values)[idx := item]
      ensures r.Err? ==> r.error == IndexOutOfBounds && values == old(values)
    {
      if !(0 <= idx < size) {
        return Err(IndexOutOfBounds);
      }
      var e, _ := GetEntryAt(idx);
      r := Ok(values[e]);
      values := values[e := item];
    }

    /** `removeAt(idx)`: the entry at `idx` is unlinked and its value
        returned; the others keep their order. */
    method RemoveAt(idx: int) returns (r: Result<E>)
      requires Valid()
      modifies this
      ensures Valid()
      ensures r.Ok? <==> 0 <= idx < old(size)
      ensures r.Ok? ==> r.value == old(values)[idx] && values == old(values)[..idx] + old(values)[idx + 1..]
      ensures r.Err? ==> r.error == IndexOutOfBounds && values == old(values)
    {
      if !(0 <= idx < size) {
        return Err(IndexOutOfBounds);
      }
      var e, _ := GetEntryAt(idx);
      r := Ok(values[e]);
      values := values[..e] + values[e + 1..];
      size := size - 1;
    }

    /** `offerLast(item)`: linked in before the header, that is at the
        tail, unless full. */
    method OfferLast(item: E) returns (accepted: bool)
      requires Valid()
      modifies this
      ensures Valid()
      ensures accepted <==> !old(Full())
      ensures accepted ==> values == old(values) + [item]
      ensures !accepted ==> values == old(values)
    {
      if Full() {
        return false;
      }
      AddOneWithinCapacity(size, capacity);
      values := values + [item];
      size := size + 1;
      return true;
    }

    /** `clear()`: size zero and the header linked to itself. */
    method Clear()
      requires Valid()
      modifies this
      ensures Valid() && values == [] && size == 0
    {
      size := 0;
      values := [];
    }
  }

  /** The iterator `getLinkedListIterator(start, count, advance)` returns:
      its closures share `cursor`, `lastResult` and `count`, and step with
      `after` (forward) or `before` (backward). */
  class ListIter<E> {
    const list: LinkedList<E>
    var cursor: nat
    var lastResult: Option<nat>
    var count: int
    const forward: bool

    /** The cursor is a node of the ring, and the last entry returned, when
        there is one, is the node the cursor stepped away from. */
    ghost predicate Valid()
      reads this, list
    {
      && list.Valid()
      && cursor <= |list.values|
      && (lastResult.Some? ==>
            lastResult.value < |list.values| && cursor == Advance(lastResult.value, |list.values|, forward))
    }

    /** What `next` will still yield. */
    ghost function Pending(): seq<E>
      requires cursor <= |list.values|
      reads this, list
    {
      Yields(list.values, cursor, count, forward)
    }

    /** Start at the entry at `start` (the header when `start` is the
        size) with `count` items to yield and no last result. */
    constructor(list: LinkedList<E>, start: int, count: int, forward: bool)
      requires list.Valid() && 0 <= start <= list.size
      ensures Valid() && this.list == list && this.forward == forward && lastResult.None?
      ensures Pending() == Yields(list.values, start, count, forward)
    {
      var e, _ := list.GetEntryAt(start);
      this.list := list;
      cursor := e;
      lastResult := None;
      this.count := count;
      this.forward := forward;
    }

    /** `next()`: done at the header or once `count` is spent; otherwise
        the value under the cursor, which becomes the last result, and the
        cursor moves one step. */
    method Next() returns (r: Option<E>)
      requires Valid()
      modifies this
      ensures Valid()
      ensures r.None? <==> old(Pending()) == []
      ensures r.None? ==> cursor == old(cursor) && count == old(count) && lastResult == old(lastResult)
      ensures r.Some? ==> old(Pending()) == [r.value] + Pending() && lastResult == Some(old(cursor))
    {
      if cursor == list.size || count <= 0 {
        return None;
      }
      r := Some(list.values[cursor]);
      lastResult := Some(cursor);
      cursor := Advance(cursor, list.size, forward);
      count := count - 1;
    }

    /** `remove()`: throws without a last result; otherwise unlinks it,
        returns its value and clears the last result. The iterator goes on
        yielding exactly what it would have yielded. */
    method Remove() returns (r: Result<E>)
      requires Valid()
      modifies this, list
      ensures Valid()
      ensures r.Err? <==> old(lastResult).None?
      ensures r.Err? ==> r.error == NoLastResult && list.values == old(list.values)
      ensures r.Ok? ==> var k := old(lastResult).value;
                        && r.value == old(list.values)[k]
                        && list.values == old(list.values)[..k] + old(list.values)[k + 1..]
                        && lastResult.None?
      ensures Pending() == old(Pending())
    {
      if lastResult.None? {
        return Err(NoLastResult);
      }
      var k := lastResult.value;
      YieldsAfterRemove(list.values, k, cursor, count, forward);
      r := Ok(list.values[k]);
      list.values := list.values[..k] + list.values[k + 1..];
      lastResult := None;
      list.size := list.size - 1;
      if cursor > k {
        cursor := cursor - 1;
      }
    }

    /** `setValue(v)`: throws without a last result; otherwise replaces
        its value and returns the previous one. */
    method SetValue(v: E) returns (r: Result<E>)
      requires Valid()
      modifies list
      ensures Valid()
      ensures r.Err? <==> lastResult.None?
      ensures r.Err? ==> r.error == NoLastResult && list.values == old(list.values)
      ensures r.Ok? ==> var k := lastResult.value;
                        && r.value == old(list.values)[k]
                        && list.values == old(list.values)[k := v]
      ensures Pending() == old(Pending())
    {
      if lastResult.None? {
        return Err(NoLastResult);
      }
      var k := lastResult.value;
      YieldsAfterSet(list.values, k, v, cursor, count, forward);
      r := Ok(list.values[k]);
      list.values := list.values[k := v];
    }
  }
}
