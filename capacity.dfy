/** Capacity bookkeeping shared by every container: `CapacityMixin` fixes a
    capacity at construction (src/utils/capacity_mixin.ts) and
    `AbstractCollection` derives `isEmpty`, `isFull` and `remaining` from it
    (src/collections/abstract_collection.ts). */
module Capacity {
  import opened Common

  /** A JavaScript capacity number: a floored finite value or `Infinity`. */
  datatype Bound = Finite(n: int) | Infinite

  /** The first constructor argument the mixin inspects. */
  datatype CapacityArg =
    | NumberArg(x: real)                  // `new C(3.7)`
    | OptionsArg(capacity: Option<real>)  // `new C({capacity?: …})`
    | NoArg                               // `new C()`

  /** Options as `buildOptions` returns them; `rest` stands for the
      subclass's own entries, which the mixin passes through. */
  datatype ContainerOptions<R> = ContainerOptions(capacity: Option<int>, rest: R)

  /** `_capacity` as the mixin's constructor fixes it. */
  function InitCapacity(arg: CapacityArg): (b: Bound)
    ensures arg.NumberArg? ==> b == Finite(arg.x.Floor)
    ensures arg.OptionsArg? && arg.capacity.Some? ==> b == Finite(arg.capacity.value.Floor)
    ensures b.Infinite? <==> arg.NoArg? || (arg.OptionsArg? && arg.capacity.None?)
  {
    match arg
    case NumberArg(x) => Finite(x.Floor)
    case OptionsArg(Some(c)) => Finite(c.Floor)
    case OptionsArg(None) => Infinite
    case NoArg => Infinite
  }

  /** `buildOptions`: record the capacity only when it is finite. */
  function BuildOptions<R>(base: ContainerOptions<R>, cap: Bound): (o: ContainerOptions<R>)
    ensures o.rest == base.rest
    ensures cap.Finite? ==> o.capacity == Some(cap.n)
    ensures cap.Infinite? ==> o == base
  {
    if cap.Finite? then base.(capacity := Some(cap.n)) else base
  }

  /** Rebuilding a container from the options of another (what `clone` and
      `buildMap` do) gives it the same capacity, provided the subclass adds
      no capacity of its own. */
  lemma BuildOptionsRoundTrip<R>(base: ContainerOptions<R>, cap: Bound)
    requires base.capacity.None?
    requires cap.Finite? ==> cap.n as real == (cap.n as real).Floor as real
    ensures var o := BuildOptions(base, cap);
            InitCapacity(OptionsArg(if o.capacity.Some? then Some(o.capacity.value as real) else None)) == cap
  {
    var o := BuildOptions(base, cap);
    if cap.Finite? {
      assert o.capacity == Some(cap.n);
      assert (cap.n as real).Floor == cap.n;
    }
  }

  /** `isEmpty`: nothing is held, so the whole capacity remains. */
  predicate IsEmpty(size: nat): (empty: bool)
    ensures empty ==> forall cap :: Remaining(size, cap) == cap
  {
    size == 0
  }

  /** `isFull`: size >= capacity (never for an infinite capacity). A full
      container cannot take one more item within its capacity. */
  predicate IsFull(size: nat, cap: Bound): (full: bool)
    ensures full ==> cap.Finite? && !WithinCapacity(size + 1, cap)
  {
    cap.Finite? && size >= cap.n
  }

  /** `remaining`: capacity - size, infinite when the capacity is. */
  function Remaining(size: nat, cap: Bound): (r: Bound)
    ensures r.Finite? <==> cap.Finite?
    ensures r.Finite? ==> r.n == cap.n - size
  {
    if cap.Finite? then Finite(cap.n - size) else Infinite
  }

  /** `remaining() < count` as JavaScript evaluates it (Infinity < n is false). */
  predicate FewerThan(r: Bound, count: int)
  {
    r.Finite? && r.n < count
  }

  /** A container is full exactly when nothing remains. */
  lemma FullIffNothingRemains(size: nat, cap: Bound)
    ensures IsFull(size, cap) <==> FewerThan(Remaining(size, cap), 1)
  {
  }

  /** The invariant every bounded container keeps: a finite capacity is never
      exceeded (a negative capacity admits nothing at all). */
  predicate WithinCapacity(size: nat, cap: Bound)
  {
    cap.Finite? ==> size <= Max(cap.n, 0)
  }

  /** Adding one item to a container that is not full keeps it within capacity. */
  lemma AddOneWithinCapacity(size: nat, cap: Bound)
    requires !IsFull(size, cap)
    ensures WithinCapacity(size + 1, cap)
  {
  }

  /** Removing one item from a full container that respects its capacity
      makes room again: a non-empty full container sits exactly at a
      positive capacity. */
  lemma RemoveOneMakesRoom(size: nat, cap: Bound)
    requires IsFull(size, cap) && WithinCapacity(size, cap) && size > 0
    ensures !IsFull(size - 1, cap)
  {
  }

  /** How many of `k` offered items a container holding `size` accepts when
      it takes them one at a time and stops at the first refusal. */
  function Admits(size: nat, cap: Bound, k: nat): (r: nat)
    ensures r <= k
    ensures cap.Infinite? ==> r == k
    ensures cap.Finite? && size + k <= cap.n ==> r == k
    ensures r < k ==> IsFull(size + r, cap)
  {
    if cap.Infinite? then k else Min(k, Max(cap.n - size, 0))
  }
}
