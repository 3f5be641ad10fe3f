/** Shared result types: JavaScript's `undefined` returns become `Option`,
    thrown exceptions become the `Err` arm of `Result`. */
module Common {

  datatype Option<+T> = None | Some(value: T)

  /** The exceptions the collections raise to their callers. */
  datatype Error =
    | OverflowException      // a bounded container refused a new item
    | UnderflowException     // an empty container was asked for an item
    | IndexOutOfBounds       // a list index failed its bound check
    | InvalidLoadFactor      // a hash map was configured with loadFactor <= 0
    | NoLastResult           // an iterator's remove/setValue before next (or twice)
    | NotIterable            // arrayLikeToIterator got a seed it cannot convert

  datatype Result<+T> = Ok(value: T) | Err(error: Error)

  function Min(a: int, b: int): int { if a <= b then a else b }
  function Max(a: int, b: int): int { if a <= b then b else a }

  /** The elements of `s` a predicate keeps, in order (what `filter`
      leaves behind). */
  function Keep<T>(s: seq<T>, p: T -> bool): (r: seq<T>)
    ensures |r| <= |s|
  {
    if s == [] then [] else (if p(s[0]) then [s[0]] else []) + Keep(s[1..], p)
  }

  /** Keeping distributes over concatenation. */
  lemma {:induction false} KeepAppend<T>(a: seq<T>, b: seq<T>, p: T -> bool)
    ensures Keep(a + b, p) == Keep(a, p) + Keep(b, p)
    decreases |a|
  {
    if a != [] {
      assert (a + b)[1..] == a[1..] + b;
      assert (a + b)[0] == a[0];
      KeepAppend(a[1..], b, p);
      assert Keep(a + b, p) == (if p(a[0]) then [a[0]] else []) + (Keep(a[1..], p) + Keep(b, p));
    } else {
      assert a + b == b;
    }
  }

  /** Every element kept is one the predicate accepts. */
  lemma {:induction false} KeepOnlyAccepted<T>(s: seq<T>, p: T -> bool)
    ensures forall i :: 0 <= i < |Keep(s, p)| ==> p(Keep(s, p)[i])
    decreases |s|
  {
    if s != [] {
      KeepOnlyAccepted(s[1..], p);
    }
  }

  /** Something is dropped exactly when some element fails the predicate. */
  lemma {:induction false} KeepShorter<T>(s: seq<T>, p: T -> bool)
    ensures |Keep(s, p)| < |s| <==> exists i :: 0 <= i < |s| && !p(s[i])
    ensures |Keep(s, p)| == |s| ==> Keep(s, p) == s
    decreases |s|
  {
    if s != [] {
      KeepShorter(s[1..], p);
      assert s == [s[0]] + s[1..];
      assert Keep(s, p) == (if p(s[0]) then [s[0]] else []) + Keep(s[1..], p);
      if exists i :: 0 <= i < |s[1..]| && !p(s[1..][i]) {
        var i :| 0 <= i < |s[1..]| && !p(s[1..][i]);
        assert !p(s[i + 1]);
      }
      if exists i :: 0 <= i < |s| && !p(s[i]) {
        var i :| 0 <= i < |s| && !p(s[i]);
        if i > 0 {
          assert !p(s[1..][i - 1]);
        }
      }
    }
  }

  /** The index of the first element a predicate accepts, or `|xs|`. */
  function FirstMatch<E>(xs: seq<E>, p: E -> bool): (i: nat)
    ensures i <= |xs|
    ensures i < |xs| ==> p(xs[i])
    ensures forall j :: 0 <= j < i ==> !p(xs[j])
  {
    if xs == [] then 0
    else if p(xs[0]) then 0
    else 1 + FirstMatch(xs[1..], p)
  }

  /** A scan that stopped at the first accepted index found `FirstMatch`. */
  lemma FirstMatchUnique<E>(xs: seq<E>, p: E -> bool, i: nat)
    requires i <= |xs|
    requires i < |xs| ==> p(xs[i])
    requires forall j :: 0 <= j < i ==> !p(xs[j])
    ensures FirstMatch(xs, p) == i
  {
  }
}
