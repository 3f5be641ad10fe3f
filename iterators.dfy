/** The iterator helpers of src/utils/iterators.ts. A JavaScript iterator is
    modelled as a `Source` object holding the (finite) items it has still
    to deliver; `take` consumes one with a counted loop, while
    `seedToIterator` and `arrayLikeToIterator` are pure and yield the whole
    sequence their generator would produce. */
module Iterators {
  import opened Common

  /** How many items `for (let i = 0; i < n; ++i)` runs for at most. */
  function Steps(n: int): nat
  {
    if n < 0 then 0 else n
  }

  /** What `take(n, …)` yields from a source whose remaining items are `s`:
      the first `n` of them, or all of them when there are fewer. */
  function Take<E>(n: int, s: seq<E>): (r: seq<E>)
    ensures |r| == Min(Steps(n), |s|)
    ensures r <= s
  {
    s[..Min(Steps(n), |s|)]
  }

  /** Taking `m` of the first `n` takes the first `min(m, n)`. */
  lemma TakeTake<E>(m: int, n: int, s: seq<E>)
    ensures Take(m, Take(n, s)) == Take(Min(m, n), s)
  {
    var t := Take(n, s);
    assert Take(m, t) <= s;
    assert Take(Min(m, n), s) <= s;
  }

  /** A source that still has `items` to deliver. */
  class Source<E> {
    var items: seq<E>

    constructor(items: seq<E>)
      ensures this.items == items
    {
      this.items := items;
    }

    /** `next()`: the next item, or done when there is none left. */
    method Next() returns (r: Option<E>)
      modifies this
      ensures old(items) == [] ==> r.None? && items == []
      ensures old(items) != [] ==> r == Some(old(items)[0]) && items == old(items)[1..]
    {
      if items == [] {
        return None;
      }
      r := Some(items[0]);
      items := items[1..];
    }
  }

  /** `take(n, iter)`: pull at most `n` items from `iter`, stopping as soon
      as it reports done; the source is left at the first item not taken. */
  method TakeFrom<E>(n: int, iter: Source<E>) returns (out: seq<E>)
    modifies iter
    ensures out == Take(n, old(iter.items))
    ensures iter.items == old(iter.items)[|out|..]
  {
    out := [];
    var i := 0;
    while i < n
      invariant 0 <= i == |out| <= Steps(n)
      invariant old(iter.items) == out + iter.items
    {
      var item := iter.Next();
      if item.None? {
        break;
      }
      out := out + [item.value];
      i := i + 1;
    }
    assert old(iter.items)[..|out|] == out;
  }

  /** `seedToIterator(n, seed)`: `seed(0), …, seed(n - 1)`. */
  function SeedToIterator<E>(n: int, seed: int -> E): (r: seq<E>)
    ensures |r| == Steps(n)
    ensures forall i :: 0 <= i < |r| ==> r[i] == seed(i)
  {
    seq(Steps(n), i => seed(i))
  }

  /** Truncating a seeded sequence is seeding fewer items. */
  lemma TakeSeeded<E>(m: int, n: int, seed: int -> E)
    ensures Take(m, SeedToIterator(n, seed)) == SeedToIterator(Min(Steps(m), Steps(n)), seed)
  {
  }

  /** The `seed` of an `ArrayLike`, by how `arrayLikeToIterator` tells it
      apart: a function, an object with `next`, an object with
      `[Symbol.iterator]` (each of the latter two delivering `items`), or
      anything else. */
  datatype Seed<E> =
    | FunctionSeed(f: int -> E)
    | IteratorSeed(items: seq<E>)
    | IterableSeed(items: seq<E>)
    | OtherSeed

  /** `arrayLikeToIterator({seed, length})`: a function seed is called for
      `0 .. length-1`, an iterator or iterable seed is cut to `length`
      items, and anything else is an error. */
  function ArrayLikeToIterator<E>(length: int, seed: Seed<E>): (r: Result<seq<E>>)
    ensures r.Err? <==> seed.OtherSeed?
    ensures r.Err? ==> r.error == NotIterable
    ensures seed.FunctionSeed? ==> r.Ok? && |r.value| == Steps(length)
                                   && forall i :: 0 <= i < |r.value| ==> r.value[i] == seed.f(i)
    ensures (seed.IteratorSeed? || seed.IterableSeed?) ==>
              r.Ok? && r.value <= seed.items && |r.value| == Min(Steps(length), |seed.items|)
  {
    match seed
    case FunctionSeed(f) => Ok(SeedToIterator(length, f))
    case IteratorSeed(items) => Ok(Take(length, items))
    case IterableSeed(items) => Ok(Take(length, items))
    case OtherSeed => Err(NotIterable)
  }
}
