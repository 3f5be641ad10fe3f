/** `BaseArrayList` (src/lists/base_array_list.ts): a list over a growable
    JavaScript array, bounded by the capacity its subclass declares. The
    array is the sequence field `elements`; `splice`, `push`, `shift` and
    `pop` become the sequence updates they perform. The bound checks
    `checkListBound` (an index of an element), `checkListBoundForAdd` (an
    index at most the size) and `checkListBounds` (a range inside the list)
    are not part of this model; they are taken to throw `IndexOutOfBounds`
    exactly outside those ranges. */
module ArrayLists {
  import opened Common
  import opened Capacity

  /** The test `compact` applies: a slot that is not `undefined`. */
  predicate Present<T>(o: Option<T>)
  {
    o.Some?
  }

  /** `compact()` after `cursor` slots: the first `cursor - shift` slots
      hold the present slots of `buf0[..cursor]` in order, the next `shift`
      are holes, and the slots from `cursor` on are still untouched. */
  ghost predicate CompactedUpTo<T>(buf: seq<Option<T>>, buf0: seq<Option<T>>, cursor: int, shift: int)
  {
    && 0 <= shift <= cursor <= |buf| == |buf0|
    && buf[..cursor - shift] == Keep(buf0[..cursor], Present)
    && (forall j :: cursor - shift <= j < cursor ==> buf[j].None?)
    && (forall j :: cursor <= j < |buf| ==> buf[j] == buf0[j])
  }

  /** A hole under the cursor is skipped. */
  lemma CompactSkip<T>(buf: seq<Option<T>>, buf0: seq<Option<T>>, cursor: int, shift: int)
    requires CompactedUpTo(buf, buf0, cursor, shift) && cursor < |buf| && buf[cursor].None?
    ensures CompactedUpTo(buf, buf0, cursor + 1, shift + 1)
  {
    assert buf0[..cursor + 1] == buf0[..cursor] + [buf0[cursor]];
    KeepAppend(buf0[..cursor], [buf0[cursor]], Present);
  }

  /** A present slot under the cursor is kept: moved down over the holes
      when there are any, left where it is otherwise. */
  lemma CompactKeep<T>(buf: seq<Option<T>>, buf0: seq<Option<T>>, cursor: int, shift: int)
    requires CompactedUpTo(buf, buf0, cursor, shift) && cursor < |buf| && buf[cursor].Some?
    ensures shift > 0 ==> CompactedUpTo(buf[cursor - shift := buf[cursor]][cursor := None], buf0, cursor + 1, shift)
    ensures shift == 0 ==> CompactedUpTo(buf, buf0, cursor + 1, shift)
  {
    assert buf0[..cursor + 1] == buf0[..cursor] + [buf0[cursor]];
    KeepAppend(buf0[..cursor], [buf0[cursor]], Present);
    if shift > 0 {
      var next := buf[cursor - shift := buf[cursor]][cursor := None];
      assert next[..cursor + 1 - shift] == buf[..cursor - shift] + [buf0[cursor]];
    } else {
      assert buf[..cursor + 1] == buf[..cursor] + [buf0[cursor]];
    }
  }

  /** `compact()`: slide every present slot left over the `undefined` ones
      before it, in place, then cut the array's length by the number
      skipped. The slots that survive are the present ones, in order. The
      scan starts at 0, the default of its optional cursor and the only
      start `filter` uses. */
  method Compact<T>(buf0: seq<Option<T>>) returns (buf: seq<Option<T>>, shift: nat)
    ensures buf == Keep(buf0, Present)
    ensures shift == |buf0| - |buf|
  {
    buf := buf0;
    shift := 0;
    var cursor := 0;
    while cursor < |buf|
      invariant CompactedUpTo(buf, buf0, cursor, shift)
      decreases |buf| - cursor
    {
      if buf[cursor].None? {
        CompactSkip(buf, buf0, cursor, shift);
        shift := shift + 1;
      } else {
        CompactKeep(buf, buf0, cursor, shift);
        if shift > 0 {
          buf := buf[cursor - shift := buf[cursor]][cursor := None];
        }
      }
      cursor := cursor + 1;
    }
    assert buf0[..cursor] == buf0;
    buf := buf[..|buf| - shift];
  }

  /** Every element of a list, as a present slot. */
  function Wrap<E>(xs: seq<E>): (buf: seq<Option<E>>)
    ensures |buf| == |xs| && forall i :: 0 <= i < |xs| ==> buf[i] == Some(xs[i])
  {
    seq(|xs|, i requires 0 <= i < |xs| => Some(xs[i]))
  }

  /** The values of slots that are all present. */
  function Unwrap<E>(buf: seq<Option<E>>): (xs: seq<E>)
    requires forall i :: 0 <= i < |buf| ==> buf[i].Some?
    ensures Wrap(xs) == buf
  {
    seq(|buf|, i requires 0 <= i < |buf| && buf[i].Some? => buf[i].value)
  }

  /** The slots after `filter`'s marking pass over a list holding `xs`:
      each rejected element is replaced by a marker that no element can
      be equal to. */
  function Mark<E>(xs: seq<E>, p: E -> bool): (buf: seq<Option<E>>)
    ensures |buf| == |xs|
  {
    seq(|xs|, i requires 0 <= i < |xs| => if p(xs[i]) then Some(xs[i]) else None)
  }

  /** Compacting the marked slots leaves exactly the accepted elements. */
  lemma {:induction false} CompactMarked<E>(xs: seq<E>, p: E -> bool)
    ensures Keep(Mark(xs, p), Present) == Wrap(Keep(xs, p))
    decreases |xs|
  {
    if xs != [] {
      var m := Mark(xs, p);
      assert m == [m[0]] + Mark(xs[1..], p);
      KeepAppend([m[0]], Mark(xs[1..], p), Present);
      CompactMarked(xs[1..], p);
      assert Keep(xs, p) == (if p(xs[0]) then [xs[0]] else []) + Keep(xs[1..], p);
      assert Wrap((if p(xs[0]) then [xs[0]] else []) + Keep(xs[1..], p))
          == Wrap(if p(xs[0]) then [xs[0]] else []) + Wrap(Keep(xs[1..], p));
    }
  }

  /** `filter` as written, on JavaScript values where `None` is
      `undefined`: the marking pass writes `undefined` over each rejected
      element and, when it rejected any, `compact` drops every `undefined`
      slot, whether it marks a rejected element or was stored by the user.
      The count is the number of rejected elements. */
  function FilterAsWritten<X>(xs: seq<Option<X>>, p: Option<X> -> bool): (r: (seq<Option<X>>, nat))
    ensures r.1 == 0 ==> r.0 == xs
    ensures r.1 > 0 ==> forall i :: 0 <= i < |r.0| ==> r.0[i].Some?
  {
    var marked := seq(|xs|, i requires 0 <= i < |xs| => if p(xs[i]) then xs[i] else None);
    var count := |xs| - |Keep(xs, p)|;
    KeepOnlyAccepted(marked, Present);
    (if count > 0 then Keep(marked, Present) else xs, count)
  }

  /** A stored `undefined` the predicate accepts is lost as soon as some
      other element is rejected: `[undefined, x]` filtered by "is not x"
      reports one removal but leaves an empty list, where the kept list is
      `[undefined]`. */
  lemma FilterAsWrittenDropsUndefined<X>(x: X)
    ensures var xs := [None, Some(x)];
            var p := (v: Option<X>) => v != Some(x);
            && FilterAsWritten(xs, p) == ([], 1)
            && Keep(xs, p) == [None]
  {
    var xs := [None, Some(x)];
    var p := (v: Option<X>) => v != Some(x);
    assert Keep(xs, p) == [None] by {
      assert xs[1..] == [Some(x)];
      assert Keep(xs[1..], p) == [] by {
        assert xs[1..][1..] == [];
      }
    }
    var marked := seq(|xs|, i requires 0 <= i < |xs| => if p(xs[i]) then xs[i] else None);
    assert marked == [None, None];
    assert Keep(marked, Present) == [] by {
      assert marked[1..] == [None];
      assert marked[1..][1..] == [];
    }
  }

  class ArrayList<E> {
    var elements: seq<E>
    const capacity: Bound

    ghost predicate Valid()
      reads this
    {
      WithinCapacity(|elements|, capacity)
    }

    predicate Full()
      reads this
    {
      IsFull(|elements|, capacity)
    }

    constructor(capacity: Bound)
      ensures Valid() && elements == [] && this.capacity == capacity
    {
      elements := [];
      this.capacity := capacity;
    }

    /** `offerAt(idx, item)`: refused (false) when full, before the index
        is checked; otherwise the item is inserted at `idx`. */
    method OfferAt(idx: int, item: E) returns (r: Result<bool>)
      requires Valid()
      modifies this
      ensures Valid()
      ensures old(Full()) ==> r == Ok(false) && elements == old(elements)
      ensures !old(Full()) && !(0 <= idx <= old(|elements|)) ==> r == Err(IndexOutOfBounds) && elements == old(elements)
      ensures !old(Full()) && 0 <= idx <= old(|elements|) ==>
                r == Ok(true) && elements == old(elements)[..idx] + [item] + old(elements)[idx..]
    {
      if Full() {
        return Ok(false);
      }
      if !(0 <= idx <= |elements|) {
        return Err(IndexOutOfBounds);
      }
      AddOneWithinCapacity(|elements|, capacity);
      elements := elements[..idx] + [item] + elements[idx..];
      return Ok(true);
    }

    /** `removeAt(idx)`: the element at `idx` comes out and the later ones
        close up. */
    method RemoveAt(idx: int) returns (r: Result<E>)
      requires Valid()
      modifies this
      ensures Valid()
      ensures !(0 <= idx < old(|elements|)) ==> r == Err(IndexOutOfBounds) && elements == old(elements)
      ensures 0 <= idx < old(|elements|) ==>
                r == Ok(old(elements)[idx]) && elements == old(elements)[..idx] + old(elements)[idx + 1..]
    {
      if !(0 <= idx < |elements|) {
        return Err(IndexOutOfBounds);
      }
      r := Ok(elements[idx]);
      elements := elements[..idx] + elements[idx + 1..];
    }

    /** `offerLast(item)`: appended unless full. */
    method OfferLast(item: E) returns (accepted: bool)
      requires Valid()
      modifies this
      ensures Valid()
      ensures accepted <==> !old(Full())
      ensures accepted ==> elements == old(elements) + [item]
      ensures !accepted ==> elements == old(elements)
    {
      if !Full() {
        AddOneWithinCapacity(|elements|, capacity);
        elements := elements + [item];
        return true;
      }
      return false;
    }

    /** `removeFirst()`: `UnderflowException` when empty, else `shift()`. */
    method RemoveFirst() returns (r: Result<E>)
      requires Valid()
      modifies this
      ensures Valid()
      ensures old(|elements|) == 0 ==> r == Err(UnderflowException) && elements == old(elements)
      ensures old(|elements|) > 0 ==> r.Ok? && old(elements) == [r.value] + elements
    {
      if |elements| == 0 {
        return Err(UnderflowException);
      }
      r := Ok(elements[0]);
      elements := elements[1..];
    }

    /** `removeLast()`: `UnderflowException` when empty, else `pop()`. */
    method RemoveLast() returns (r: Result<E>)
      requires Valid()
      modifies this
      ensures Valid()
      ensures old(|elements|) == 0 ==> r == Err(UnderflowException) && elements == old(elements)
      ensures old(|elements|) > 0 ==> r.Ok? && old(elements) == elements + [r.value]
    {
      if |elements| == 0 {
        return Err(UnderflowException);
      }
      r := Ok(elements[|elements| - 1]);
      elements := elements[..|elements| - 1];
    }

    /** `getAt(idx)`: the element at `idx`, a pure read. */
    function GetAt(idx: int): (r: Result<E>)
      reads this
      ensures r.Ok? <==> 0 <= idx < |elements|
      ensures r.Ok? ==> r.value == elements[idx]
      ensures r.Err? ==> r.error == IndexOutOfBounds
    {
      if 0 <= idx < |elements| then Ok(elements[idx]) else Err(IndexOutOfBounds)
    }

    /** `setAt(idx, item)`: only position `idx` changes, and its previous
        element is returned. */
    method SetAt(idx: int, item: E) returns (r: Result<E>)
      requires Valid()
      modifies this
      ensures Valid()
      ensures r == old(GetAt(idx))
      ensures r.Ok? ==> elements == old(elements)[idx := item]
      ensures r.Err? ==> elements == old(elements)
    {
      if !(0 <= idx < |elements|) {
        return Err(IndexOutOfBounds);
      }
      r := Ok(elements[idx]);
      elements := elements[idx := item];
    }

    /** `removeRange(start, end)`: delete `[start, end)`, where a missing
        end means the size. */
    method RemoveRange(start: int, end: Option<int>) returns (r: Result<()>)
      requires Valid()
      modifies this
      ensures Valid()
      ensures var e := if end.Some? then end.value else old(|elements|);
              && (r.Ok? <==> 0 <= start <= e <= old(|elements|))
              && (r.Ok? ==> elements == old(elements)[..start] + old(elements)[e..])
              && (r.Err? ==> r.error == IndexOutOfBounds && elements == old(elements))
    {
      var e := if end.Some? then end.value else |elements|;
      if !(0 <= start <= e <= |elements|) {
        return Err(IndexOutOfBounds);
      }
      elements := elements[..start] + elements[e..];
      return Ok(());
    }

    /** `clear()`: length zero; the capacity stays. */
    method Clear()
      requires Valid()
      modifies this
      ensures Valid() && elements == []
    {
      elements := [];
    }

    /** `filter(p)`: mark every rejected element, compact when anything was
        marked, and return how many were marked. The marker is a value no
        element can equal, so exactly the rejected elements go and the
        kept ones keep their order. */
    method Filter(p: E -> bool) returns (count: nat)
      requires Valid()
      modifies this
      ensures Valid()
      ensures elements == Keep(old(elements), p)
      ensures count == old(|elements|) - |elements|
    {
      var buf := Wrap(elements);
      var cursor := 0;
      count := 0;
      while cursor < |buf|
        invariant 0 <= cursor <= |buf| == |elements|
        invariant elements == old(elements)
        invariant forall j :: 0 <= j < cursor ==> buf[j] == Mark(elements, p)[j]
        invariant forall j :: cursor <= j < |buf| ==> buf[j] == Some(elements[j])
        invariant count + |Keep(elements[..cursor], p)| == cursor
      {
        assert elements[..cursor + 1] == elements[..cursor] + [elements[cursor]];
        KeepAppend(elements[..cursor], [elements[cursor]], p);
        if !p(buf[cursor].value) {
          buf := buf[cursor := None];
          count := count + 1;
        }
        cursor := cursor + 1;
      }
      assert buf == Mark(elements, p);
      assert elements[..cursor] == elements;
      KeepShorter(elements, p);
      if count > 0 {
        var shift;
        buf, shift := Compact(buf);
        CompactMarked(elements, p);
        elements := Unwrap(buf);
      }
    }
  }
}
