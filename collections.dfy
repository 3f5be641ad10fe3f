/** The capacity protocol of `AbstractCollection`
    (src/collections/abstract_collection.ts) as `BoundedCollection =
    CapacityMixin(AbstractCollection)` provides it. `offer` and
    `removeMatchingItem` are abstract there; the model gives them the
    behaviour of a bounded list (append when not full, remove the first
    match), so that what the protocol methods do with them can be stated. */
module Collections {
  import opened Common
  import opened Capacity

  /** `removeItem(x)` matches with `===`: it finds `x` exactly when `x` is
      an element. */
  lemma FirstEqualFound<E>(xs: seq<E>, x: E)
    ensures FirstMatch(xs, y => y == x) < |xs| <==> x in xs
  {
    var i := FirstMatch(xs, y => y == x);
    if x in xs {
      var j :| 0 <= j < |xs| && xs[j] == x;
      assert i <= j;
    }
  }

  class BoundedCollection<E(==)> {
    var items: seq<E>
    /** `_capacity`, fixed by the mixin's constructor. */
    const capacity: Bound

    ghost predicate Valid()
      reads this
    {
      WithinCapacity(|items|, capacity)
    }

    predicate Full()
      reads this
    {
      IsFull(|items|, capacity)
    }

    constructor(arg: CapacityArg)
      ensures Valid() && items == [] && capacity == InitCapacity(arg)
    {
      items := [];
      capacity := InitCapacity(arg);
    }

    /** The concrete `offer`: refused when full, else appended. */
    method Offer(item: E) returns (accepted: bool)
      requires Valid()
      modifies this
      ensures Valid()
      ensures accepted <==> !old(Full())
      ensures accepted ==> items == old(items) + [item]
      ensures !accepted ==> items == old(items)
    {
      if Full() {
        return false;
      }
      AddOneWithinCapacity(|items|, capacity);
      items := items + [item];
      return true;
    }

    /** `add(item)`: `offer`, with a refusal thrown as `OverflowException`;
        otherwise `true`. */
    method Add(item: E) returns (r: Result<bool>)
      requires Valid()
      modifies this
      ensures Valid()
      ensures r.Err? <==> old(Full())
      ensures r.Err? ==> r.error == OverflowException && items == old(items)
      ensures r.Ok? ==> r.value && items == old(items) + [item]
    {
      var ok := Offer(item);
      if !ok {
        return Err(OverflowException);
      }
      return Ok(true);
    }

    /** The concrete `removeMatchingItem`: the first accepted element goes. */
    method RemoveMatchingItem(p: E -> bool) returns (r: Option<E>)
      requires Valid()
      modifies this
      ensures Valid()
      ensures var i := FirstMatch(old(items), p);
              && (r.None? <==> i == old(|items|))
              && (r.None? ==> items == old(items))
              && (r.Some? ==> r.value == old(items)[i] && items == old(items)[..i] + old(items)[i + 1..])
    {
      var i := 0;
      while i < |items| && !p(items[i])
        invariant i <= |items|
        invariant forall j :: 0 <= j < i ==> !p(items[j])
      {
        i := i + 1;
      }
      FirstMatchUnique(items, p, i);
      if i == |items| {
        return None;
      }
      r := Some(items[i]);
      items := items[..i] + items[i + 1..];
    }

    /** `removeItem(x)`: true exactly when `x` was an element, and then its
        first occurrence is gone. */
    method RemoveItem(x: E) returns (removed: bool)
      requires Valid()
      modifies this
      ensures Valid()
      ensures removed <==> x in old(items)
      ensures !removed ==> items == old(items)
      ensures removed ==> var i := FirstMatch(old(items), y => y == x);
                          old(items)[i] == x && items == old(items)[..i] + old(items)[i + 1..]
    {
      FirstEqualFound(items, x);
      var r := RemoveMatchingItem(y => y == x);
      removed := r != None;
    }

    /** `offerPartially(items)`: offer in order and stop at the first
        refusal; the count is as many as there was room for. */
    method OfferPartially(xs: seq<E>) returns (count: nat)
      requires Valid()
      modifies this
      ensures Valid()
      ensures count == Admits(old(|items|), capacity, |xs|)
      ensures items == old(items) + xs[..count]
    {
      count := 0;
      while count < |xs|
        invariant 0 <= count <= |xs|
        invariant Valid()
        invariant count <= Admits(old(|items|), capacity, |xs|)
        invariant items == old(items) + xs[..count]
      {
        var ok := Offer(xs[count]);
        if !ok {
          break;
        }
        assert xs[..count + 1] == xs[..count] + [xs[count]];
        count := count + 1;
      }
    }

    /** `offerFully(items)`: nothing at all when the items do not fit,
        otherwise `offerPartially`, which then takes them all. */
    method OfferFully(xs: seq<E>) returns (count: nat)
      requires Valid()
      modifies this
      ensures Valid()
      ensures FewerThan(Remaining(old(|items|), capacity), |xs|) ==> count == 0 && items == old(items)
      ensures !FewerThan(Remaining(old(|items|), capacity), |xs|) ==> count == |xs| && items == old(items) + xs
    {
      if FewerThan(Remaining(|items|, capacity), |xs|) {
        return 0;
      }
      count := OfferPartially(xs);
      assert xs[..count] == xs;
    }

    /** `addPartially(items)`: add in order; the first refusal is thrown as
        `OverflowException`, and what was added before it stays. */
    method AddPartially(xs: seq<E>) returns (r: Result<nat>)
      requires Valid()
      modifies this
      ensures Valid()
      ensures var k := Admits(old(|items|), capacity, |xs|);
              && items == old(items) + xs[..k]
              && (r.Ok? <==> k == |xs|)
              && (r.Ok? ==> r.value == |xs|)
              && (r.Err? ==> r.error == OverflowException)
    {
      var count := 0;
      while count < |xs|
        invariant 0 <= count <= |xs|
        invariant Valid()
        invariant count <= Admits(old(|items|), capacity, |xs|)
        invariant items == old(items) + xs[..count]
      {
        var added := Add(xs[count]);
        if added.Err? {
          return Err(added.error);
        }
        assert xs[..count + 1] == xs[..count] + [xs[count]];
        count := count + 1;
      }
      return Ok(count);
    }

    /** `addFully(items)`: throws before adding anything when the items do
        not fit; otherwise `addPartially`, which then adds them all. */
    method AddFully(xs: seq<E>) returns (r: Result<nat>)
      requires Valid()
      modifies this
      ensures Valid()
      ensures r.Err? <==> FewerThan(Remaining(old(|items|), capacity), |xs|)
      ensures r.Err? ==> r.error == OverflowException && items == old(items)
      ensures r.Ok? ==> r.value == |xs| && items == old(items) + xs
    {
      if FewerThan(Remaining(|items|, capacity), |xs|) {
        return Err(OverflowException);
      }
      r := AddPartially(xs);
      assert xs[..|xs|] == xs;
    }
  }
}
