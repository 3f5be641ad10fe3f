/** `Stack` (src/stacks/stack.ts): `push`, `tryPush`, `pop`, `trySwap` and
    `swap` over the queue operations it inherits from `AbstractQueue`
    (src/abstract_queue.ts). `offer`, `poll` and `peek` are abstract there;
    the model gives them the behaviour of `ArrayStack`, whose top is the last
    element of its buffer: `offer` appends, `poll` takes the last. */
module Stacks {
  import opened Common
  import opened Capacity

  class Stack<E> {
    /** Bottom first, top last. */
    var items: seq<E>
    const capacity: Bound

    ghost predicate Valid()
      reads this
    {
      WithinCapacity(|items|, capacity)
    }

    predicate Full()
      reads this
    {
      IsFull(|items|, capacity)
    }

    constructor(capacity: Bound)
      ensures Valid() && items == [] && this.capacity == capacity
    {
      items := [];
      this.capacity := capacity;
    }

    /** The concrete `offer`: refused when full, else the new top. */
    method Offer(item: E) returns (accepted: bool)
      requires Valid()
      modifies this
      ensures Valid()
      ensures accepted <==> !old(Full())
      ensures accepted ==> items == old(items) + [item]
      ensures !accepted ==> items == old(items)
    {
      if Full() {
        return false;
      }
      AddOneWithinCapacity(|items|, capacity);
      items := items + [item];
      return true;
    }

    /** The concrete `poll`: nothing when empty, else the top comes off. */
    method Poll() returns (r: Option<E>)
      requires Valid()
      modifies this
      ensures Valid()
      ensures r.None? <==> old(|items|) == 0
      ensures r.None? ==> items == old(items)
      ensures r.Some? ==> old(items) == items + [r.value]
    {
      if |items| == 0 {
        return None;
      }
      r := Some(items[|items| - 1]);
      items := items[..|items| - 1];
    }

    /** The concrete `peek`: the top, if any. */
    function Peek(): (r: Option<E>)
      reads this
      ensures r.None? <==> |items| == 0
      ensures r.Some? ==> items == items[..|items| - 1] + [r.value]
    {
      if |items| == 0 then None else Some(items[|items| - 1])
    }

    /** `push(item)`, which is `add`: `offer`, with a refusal thrown as
        `OverflowException`. */
    method Push(item: E) returns (r: Result<()>)
      requires Valid()
      modifies this
      ensures Valid()
      ensures r.Err? <==> old(Full())
      ensures r.Err? ==> r.error == OverflowException && items == old(items)
      ensures r.Ok? ==> items == old(items) + [item]
    {
      var ok := Offer(item);
      if !ok {
        return Err(OverflowException);
      }
      return Ok(());
    }

    /** `tryPush(item)`, which is `offer`. */
    method TryPush(item: E) returns (accepted: bool)
      requires Valid()
      modifies this
      ensures Valid()
      ensures accepted <==> !old(Full())
      ensures accepted ==> items == old(items) + [item]
      ensures !accepted ==> items == old(items)
    {
      accepted := Offer(item);
    }

    /** `pop()`, which is `remove`: `poll`, with an empty stack thrown as
        `UnderflowException`. */
    method Pop() returns (r: Result<E>)
      requires Valid()
      modifies this
      ensures Valid()
      ensures r.Err? <==> old(|items|) == 0
      ensures r.Err? ==> r.error == UnderflowException && items == old(items)
      ensures r.Ok? ==> old(items) == items + [r.value]
    {
      if |items| == 0 {
        return Err(UnderflowException);
      }
      var x := Poll();
      return Ok(x.value);
    }

    /** `element()` of `AbstractQueue`: `peek`, with an empty stack thrown
        as `UnderflowException`. */
    function Element(): (r: Result<E>)
      reads this
      ensures r.Err? <==> |items| == 0
      ensures r.Err? ==> r.error == UnderflowException
      ensures r.Ok? ==> items == items[..|items| - 1] + [r.value]
    {
      if |items| == 0 then Err(UnderflowException) else Ok(Peek().value)
    }

    /** `trySwap()`: with two or more elements, pop both top elements and
        push them back in the order they came off, which exchanges them;
        with fewer, report false and change nothing. The pushes cannot
        overflow because the pops made room. */
    method TrySwap() returns (swapped: bool)
      requires Valid()
      modifies this
      ensures Valid()
      ensures swapped <==> old(|items|) >= 2
      ensures swapped ==> items == SwapTop(old(items))
      ensures !swapped ==> items == old(items)
    {
      if |items| >= 2 {
        var a := Pop();
        var b := Pop();
        var pa := Push(a.value);
        var pb := Push(b.value);
        return true;
      }
      return false;
    }

    /** `swap()`: `trySwap`, with fewer than two elements thrown as
        `UnderflowException`. */
    method Swap() returns (r: Result<()>)
      requires Valid()
      modifies this
      ensures Valid()
      ensures r.Err? <==> old(|items|) < 2
      ensures r.Err? ==> r.error == UnderflowException && items == old(items)
      ensures r.Ok? ==> items == SwapTop(old(items))
    {
      var swapped := TrySwap();
      if !swapped {
        return Err(UnderflowException);
      }
      return Ok(());
    }
  }

  /** The two top elements exchanged, everything below left alone. */
  function SwapTop<E>(s: seq<E>): (t: seq<E>)
    requires |s| >= 2
    ensures |t| == |s| && t[..|s| - 2] == s[..|s| - 2]
    ensures t[|s| - 1] == s[|s| - 2] && t[|s| - 2] == s[|s| - 1]
  {
    s[..|s| - 2] + [s[|s| - 1], s[|s| - 2]]
  }

  /** Swapping twice restores the stack: the exchange `trySwap` performs on
      the top two elements is its own inverse. */
  lemma SwapTwiceRestores<E>(s: seq<E>)
    requires |s| >= 2
    ensures SwapTop(SwapTop(s)) == s
  {
    var t := SwapTop(s);
    assert SwapTop(t) == t[..|s| - 2] + [s[|s| - 2], s[|s| - 1]];
    assert s == s[..|s| - 2] + [s[|s| - 2], s[|s| - 1]];
  }
}
