/** `HashMap` (src/maps/hash_map.ts) with the admission contract of `IMap`
    (src/maps/map.ts). The slot array is a Dafny array whose elements are the
    chains; relinking a `next` pointer becomes replacing the chain in its
    slot. Two ghost fields give the meaning: `contents`, the map the table
    represents, and `log`, the calls made to the `recordAccess` hook. */
module HashMaps {
  import opened Common
  import opened Capacity
  import opened HashTables

  /** The kinds of access reported to `recordAccess`. */
  datatype AccessType = GET | INSERT | MODIFY | REMOVE

  /** One `recordAccess(e, accessType)` call, identified by the entry's key. */
  datatype Access<K> = Access(key: K, kind: AccessType)

  /** What the overridable `overflowHandler` does when a new key meets a full
      map: return false without freeing room (the default), return true to
      discard the new binding, or remove one entry and return false. */
  datatype OverflowOutcome<K> = Decline | Discard | Evict(victim: K)

  /** `OfferResult`: whether the binding is (or already was) in the map, and
      the value it replaced. */
  datatype OfferResult<V> = OfferResult(accepted: bool, previous: Option<V>)

  const DEFAULT_LOAD_FACTOR: real := 0.75

  /** The constructor's load-factor check: an absent option takes the
      default, and a factor at or below zero is refused. */
  function CheckLoadFactor(option: Option<real>): (r: Result<real>)
    ensures r.Ok? <==> option.None? || option.value > 0.0
    ensures r.Ok? ==> r.value > 0.0
    ensures r.Ok? && option.Some? ==> r.value == option.value
    ensures option.None? ==> r == Ok(DEFAULT_LOAD_FACTOR)
    ensures r.Err? ==> r.error == InvalidLoadFactor
  {
    var loadFactor := if option.Some? then option.value else DEFAULT_LOAD_FACTOR;
    if loadFactor <= 0.0 then Err(InvalidLoadFactor) else Ok(loadFactor)
  }

  /** The length `rehash` grows a table of length `len` to: the next prime
      after doubling, or the largest prime once doubling reaches it. */
  function NewLength(len: int, largestPrime: int, nextPrime: int -> int): (n: int)
    requires len > 0 && largestPrime > 0
    requires forall x :: nextPrime(x) >= x
    ensures n > 0
    ensures n == largestPrime || (2 * len < largestPrime && n >= 2 * len)
    ensures 2 * len >= largestPrime ==> n == largestPrime
  {
    var doubled := len * 2;
    if doubled < 0 || doubled >= largestPrime then largestPrime else nextPrime(doubled)
  }

  /** The map a filter leaves: the bindings the predicate accepts. */
  ghost function Restrict<K, V>(m: map<K, V>, p: (K, V) -> bool): map<K, V>
  {
    map k | k in m && p(k, m[k]) :: m[k]
  }

  /** The scan loop shared by `getEntry`, `put` and `removeEntry`: walk the
      chain while the entry's hash differs or its key does. */
  method FindInChain<K(==), V>(chain: seq<HashEntry<K, V>>, key: K, h: int) returns (j: nat)
    ensures j <= |chain|
    ensures j < |chain| ==> chain[j].hash == h && chain[j].key == key
    ensures forall i :: 0 <= i < j ==> chain[i].hash != h || chain[i].key != key
  {
    j := 0;
    while j < |chain| && (chain[j].hash != h || chain[j].key != key)
      invariant j <= |chain|
      invariant forall i :: 0 <= i < j ==> chain[i].hash != h || chain[i].key != key
    {
      j := j + 1;
    }
  }

  /** During `rehash`: every key moved so far is a binding of `m` from a
      slot below `i`, or from slot `i` among the entries `moved` of its
      chain. */
  ghost predicate Moved<K, V>(done: map<K, V>, m: map<K, V>, hashOf: K -> int, n: int, i: int, moved: seq<HashEntry<K, V>>)
    requires n > 0
  {
    forall k :: k in done ==>
      k in m && done[k] == m[k]
      && (GetSlot(hashOf(k), n) < i || (GetSlot(hashOf(k), n) == i && HasKey(moved, k)))
  }

  /** Moving entry `j` of slot `i`'s chain adds a key not moved before and
      keeps `Moved`. */
  lemma MoveOne<K, V>(done: map<K, V>, m: map<K, V>, hashOf: K -> int, n: int, i: int, chain: seq<HashEntry<K, V>>, j: int)
    requires n > 0 && 0 <= j < |chain|
    requires ChainInv(chain, i, n, m, hashOf)
    requires Moved(done, m, hashOf, n, i, chain[..j])
    ensures chain[j].key !in done && chain[j].hash == hashOf(chain[j].key)
    ensures Moved(done[chain[j].key := chain[j].value], m, hashOf, n, i, chain[..j + 1])
  {
    var e := chain[j];
    forall k | k in done
      ensures k != e.key
    {
      if GetSlot(hashOf(k), n) == i && HasKey(chain[..j], k) {
        var j' :| 0 <= j' < j && chain[..j][j'].key == k;
        assert chain[j'].key != chain[j].key;
      }
    }
    var done' := done[e.key := e.value];
    forall k | k in done'
      ensures k in m && done'[k] == m[k]
              && (GetSlot(hashOf(k), n) < i || (GetSlot(hashOf(k), n) == i && HasKey(chain[..j + 1], k)))
    {
      if k == e.key {
        assert chain[..j + 1][j] == e;
      } else if GetSlot(hashOf(k), n) == i && HasKey(chain[..j], k) {
        var j' :| 0 <= j' < j && chain[..j][j'].key == k;
        assert chain[..j + 1][j'] == chain[..j][j'];
      }
    }
  }

  /** Once a whole chain is moved, every moved key comes from a slot up to
      and including `i`. */
  lemma MovedChain<K, V>(done: map<K, V>, m: map<K, V>, hashOf: K -> int, n: int, i: int, chain: seq<HashEntry<K, V>>)
    requires n > 0
    requires Moved(done, m, hashOf, n, i, chain[..|chain|])
    ensures Moved(done, m, hashOf, n, i + 1, [])
  {
  }

  /** The inner loop of `rehash`: push each entry of one old chain, in
      chain order, onto the front of its slot in the new table. */
  method MoveChain<K, V>(newSlots: array<seq<HashEntry<K, V>>>, chain: seq<HashEntry<K, V>>, ghost done: map<K, V>,
                         ghost m: map<K, V>, hashOf: K -> int, n: int, i: int)
    returns (ghost done': map<K, V>)
    requires n > 0 && ChainInv(chain, i, n, m, hashOf)
    requires TableInv(newSlots[..], done, hashOf)
    requires Moved(done, m, hashOf, n, i, [])
    modifies newSlots
    ensures TableInv(newSlots[..], done', hashOf)
    ensures Moved(done', m, hashOf, n, i + 1, [])
    ensures |done'| == |done| + |chain|
  {
    done' := done;
    var j := 0;
    assert chain[..j] == [];
    while j < |chain|
      invariant 0 <= j <= |chain|
      invariant TableInv(newSlots[..], done', hashOf)
      invariant Moved(done', m, hashOf, n, i, chain[..j])
      invariant |done'| == |done| + j
    {
      var e := chain[j];
      MoveOne(done', m, hashOf, n, i, chain, j);
      PrependPreserves(newSlots[..], done', hashOf, e);
      var slot := GetSlot(e.hash, newSlots.Length);
      newSlots[slot] := [e] + newSlots[slot];
      done' := done'[e.key := e.value];
      j := j + 1;
    }
    MovedChain(done', m, hashOf, n, i, chain);
  }

  /** The body of `rehash` after the new length is chosen: a fresh table
      of that many empty slots receives every chain of the old one, slot by
      slot. */
  method Redistribute<K, V>(slots: array<seq<HashEntry<K, V>>>, newLength: int, ghost m: map<K, V>, hashOf: K -> int)
    returns (newSlots: array<seq<HashEntry<K, V>>>)
    requires newLength > 0 && TableInv(slots[..], m, hashOf)
    ensures fresh(newSlots) && newSlots.Length == newLength
    ensures TableInv(newSlots[..], m, hashOf)
  {
    newSlots := new seq<HashEntry<K, V>>[newLength](_ => []);
    EmptyTable(newSlots[..], hashOf);
    ghost var t := slots[..];
    ghost var done: map<K, V> := map[];
    var n := slots.Length;
    var i := 0;
    while i < n
      modifies newSlots
      invariant 0 <= i <= n
      invariant TableInv(newSlots[..], done, hashOf)
      invariant Moved(done, m, hashOf, n, i, [])
      invariant |done| == |Flatten(t[..i])|
    {
      var chain := slots[i];
      assert ChainInv(chain, i, n, m, hashOf);
      done := MoveChain(newSlots, chain, done, m, hashOf, n, i);
      assert |Flatten(t[..i + 1])| == |Flatten(t[..i])| + |chain| by {
        assert t[..i + 1][..i] == t[..i];
      }
      i := i + 1;
    }
    assert t[..n] == t;
    SubmapOfEqualSize(done, m);
  }

  /** During `filterEntries`, with `orig` the map before it: the map left
      holds bindings of `orig` only, and a key of `orig` is still bound
      exactly when the predicate accepts it, or its slot is past `i`, or it
      is in slot `i` among the entries `pending` not yet visited. */
  ghost predicate Filtered<K, V>(m: map<K, V>, orig: map<K, V>, p: (K, V) -> bool, hashOf: K -> int, n: int, i: int,
                                 pending: seq<HashEntry<K, V>>)
    requires n > 0
  {
    (forall k :: k in m ==> k in orig && m[k] == orig[k])
    && (forall k :: k in orig ==>
          (k in m <==> p(k, orig[k]) || GetSlot(hashOf(k), n) > i || (GetSlot(hashOf(k), n) == i && HasKey(pending, k))))
  }

  /** Entering slot `i` of the filter pass: its whole chain is pending. */
  lemma FilterEnter<K, V>(t: seq<seq<HashEntry<K, V>>>, m: map<K, V>, orig: map<K, V>, p: (K, V) -> bool, hashOf: K -> int, i: int)
    requires TableInv(t, m, hashOf) && 0 <= i < |t|
    requires Filtered(m, orig, p, hashOf, |t|, i - 1, [])
    ensures Filtered(m, orig, p, hashOf, |t|, i, t[i])
  {
    forall k | k in orig && GetSlot(hashOf(k), |t|) == i
      ensures k in m && HasKey(t[i], k)
    {
      KeyInSlot(t, m, hashOf, k);
    }
  }

  /** The filter pass keeps the entry under its cursor. */
  lemma FilterKeep<K, V>(m: map<K, V>, orig: map<K, V>, p: (K, V) -> bool, hashOf: K -> int, n: int, i: int,
                         c: seq<HashEntry<K, V>>, x: int)
    requires n > 0 && 0 <= x < |c|
    requires Filtered(m, orig, p, hashOf, n, i, c[x..])
    requires c[x].key in orig && p(c[x].key, orig[c[x].key])
    ensures Filtered(m, orig, p, hashOf, n, i, c[x + 1..])
  {
    forall k | k in orig && GetSlot(hashOf(k), n) == i && k != c[x].key && HasKey(c[x..], k)
      ensures HasKey(c[x + 1..], k)
    {
      var y :| 0 <= y < |c[x..]| && c[x..][y].key == k;
      assert c[x + 1..][y - 1] == c[x..][y];
    }
  }

  /** The filter pass unlinks the entry under its cursor, whose binding the
      predicate refuses; the cursor then points at its successor. */
  lemma FilterDrop<K, V>(m: map<K, V>, orig: map<K, V>, p: (K, V) -> bool, hashOf: K -> int, n: int, i: int,
                         c: seq<HashEntry<K, V>>, x: int)
    requires n > 0 && 0 <= x < |c|
    requires ChainPlaced(c, i, n, hashOf) && ChainUnique(c)
    requires Filtered(m, orig, p, hashOf, n, i, c[x..])
    requires c[x].key in orig && !p(c[x].key, orig[c[x].key])
    ensures Filtered(m - {c[x].key}, orig, p, hashOf, n, i, (c[..x] + c[x + 1..])[x..])
  {
    var c' := c[..x] + c[x + 1..];
    assert c'[x..] == c[x + 1..];
    forall k | k in orig && GetSlot(hashOf(k), n) == i && k != c[x].key && HasKey(c[x..], k)
      ensures HasKey(c[x + 1..], k)
    {
      var y :| 0 <= y < |c[x..]| && c[x..][y].key == k;
      assert c[x + 1..][y - 1] == c[x..][y];
    }
    forall y | x + 1 <= y < |c|
      ensures c[y].key != c[x].key
    {
    }
    assert !HasKey(c[x + 1..], c[x].key);
  }

  /** Leaving the last slot: exactly the bindings the predicate accepts
      remain. */
  lemma FilterDone<K, V>(m: map<K, V>, orig: map<K, V>, p: (K, V) -> bool, hashOf: K -> int, n: int)
    requires n > 0 && Filtered(m, orig, p, hashOf, n, n - 1, [])
    ensures m == Restrict(orig, p)
  {
  }

  /** The REMOVE accesses reported for the keys `ks`, in order. */
  function RemoveAccesses<K>(ks: seq<K>): (log: seq<Access<K>>)
    ensures |log| == |ks|
    ensures forall a :: 0 <= a < |ks| ==> log[a] == Access(ks[a], REMOVE)
  {
    if ks == [] then [] else RemoveAccesses(ks[..|ks| - 1]) + [Access(ks[|ks| - 1], REMOVE)]
  }

  /** Recording one more removed key keeps the removed keys exactly those
      gone from the map. */
  lemma RemovedOneMore<K, V>(removed: seq<K>, k: K, before: map<K, V>, mid: map<K, V>, after: map<K, V>)
    requires forall k' :: k' in removed <==> k' in before && k' !in mid
    requires k in mid && mid.Keys <= before.Keys && after == mid - {k}
    ensures forall k' :: k' in removed + [k] <==> k' in before && k' !in after
  {
  }

  lemma RemoveAccessesSnoc<K>(ks: seq<K>, k: K)
    ensures RemoveAccesses(ks + [k]) == RemoveAccesses(ks) + [Access(k, REMOVE)]
  {
    assert (ks + [k])[..|ks|] == ks;
  }

  lemma RemoveAccessesAppend<K>(a: seq<K>, b: seq<K>)
    ensures RemoveAccesses(a + b) == RemoveAccesses(a) + RemoveAccesses(b)
  {
  }

  /** The value `replaceValueIf(predicate, mapper)` leaves under a key. */
  function NewValue<K, V>(k: K, v: V, p: (K, V) -> bool, mapper: V -> V): V
  {
    if p(k, v) then mapper(v) else v
  }

  /** The map `replaceValueIf(predicate, mapper)` leaves: same keys, each
      accepted binding's value mapped. */
  ghost function Replacement<K, V>(orig: map<K, V>, p: (K, V) -> bool, mapper: V -> V): map<K, V>
  {
    map k | k in orig :: NewValue(k, orig[k], p, mapper)
  }

  /** During `replaceValueIf`, with `orig` the map before it: the keys are
      unchanged, and a key's value is already replaced exactly when its slot
      is below `i`, or it is in slot `i` and not among the entries `pending`
      not yet visited. */
  ghost predicate Replaced<K, V>(m: map<K, V>, orig: map<K, V>, p: (K, V) -> bool, mapper: V -> V, hashOf: K -> int,
                                 n: int, i: int, pending: seq<HashEntry<K, V>>)
    requires n > 0
  {
    m.Keys == orig.Keys
    && forall k :: k in orig ==>
         m[k] == if GetSlot(hashOf(k), n) < i || (GetSlot(hashOf(k), n) == i && !HasKey(pending, k))
                 then NewValue(k, orig[k], p, mapper) else orig[k]
  }

  /** Entering slot `i` of the replacement pass: its whole chain is
      pending. */
  lemma ReplaceEnter<K, V>(t: seq<seq<HashEntry<K, V>>>, m: map<K, V>, orig: map<K, V>, p: (K, V) -> bool, mapper: V -> V,
                           hashOf: K -> int, i: int)
    requires TableInv(t, m, hashOf) && 0 <= i < |t|
    requires Replaced(m, orig, p, mapper, hashOf, |t|, i - 1, [])
    ensures Replaced(m, orig, p, mapper, hashOf, |t|, i, t[i])
  {
    forall k | k in orig && GetSlot(hashOf(k), |t|) == i
      ensures HasKey(t[i], k)
    {
      KeyInSlot(t, m, hashOf, k);
    }
  }

  /** The replacement pass visits the entry under its cursor: its value is
      still the original one, and afterwards it is the new one. */
  lemma ReplaceStep<K, V>(m: map<K, V>, orig: map<K, V>, p: (K, V) -> bool, mapper: V -> V, hashOf: K -> int,
                          n: int, i: int, c: seq<HashEntry<K, V>>, x: int)
    requires n > 0 && 0 <= x < |c|
    requires ChainPlaced(c, i, n, hashOf) && ChainUnique(c) && c[x].key in orig
    requires Replaced(m, orig, p, mapper, hashOf, n, i, c[x..])
    ensures m[c[x].key] == orig[c[x].key]
    ensures Replaced(m[c[x].key := NewValue(c[x].key, orig[c[x].key], p, mapper)], orig, p, mapper, hashOf, n, i, c[x + 1..])
    ensures !p(c[x].key, orig[c[x].key]) ==> Replaced(m, orig, p, mapper, hashOf, n, i, c[x + 1..])
  {
    var k0 := c[x].key;
    assert c[x..][0] == c[x];
    forall y | x + 1 <= y < |c|
      ensures c[y].key != k0
    {
    }
    assert !HasKey(c[x + 1..], k0);
    forall k | k in orig && GetSlot(hashOf(k), n) == i && k != k0
      ensures HasKey(c[x..], k) <==> HasKey(c[x + 1..], k)
    {
      if HasKey(c[x..], k) {
        var y :| 0 <= y < |c[x..]| && c[x..][y].key == k;
        assert c[x + 1..][y - 1] == c[x..][y];
      }
      if HasKey(c[x + 1..], k) {
        var y :| 0 <= y < |c[x + 1..]| && c[x + 1..][y].key == k;
        assert c[x..][y + 1] == c[x + 1..][y];
      }
    }
    if !p(k0, orig[k0]) {
      assert m[k0 := NewValue(k0, orig[k0], p, mapper)] == m;
    }
  }

  /** Leaving the last slot: every value is replaced. */
  lemma ReplaceDone<K, V>(m: map<K, V>, orig: map<K, V>, p: (K, V) -> bool, mapper: V -> V, hashOf: K -> int, n: int)
    requires n > 0 && Replaced(m, orig, p, mapper, hashOf, n, n - 1, [])
    ensures m == Replacement(orig, p, mapper)
  {
  }

  /** The position of the first entry for `k` in a chain, if any. */
  function KeyIndex<K(==), V>(c: seq<HashEntry<K, V>>, k: K): (r: Option<nat>)
    ensures r.Some? ==> r.value < |c| && c[r.value].key == k
    ensures r.None? <==> !HasKey(c, k)
  {
    if c == [] then None
    else if c[0].key == k then Some(0)
    else
      var r := KeyIndex(c[1..], k);
      assert forall y :: 0 < y < |c| ==> c[y] == c[1..][y - 1];
      if r.Some? then Some(r.value + 1) else None
  }

  /** The chain `put` as written leaves when it links a new entry `e`:
      `prev` is the last entry of the chain `scanned` its search walked, and
      `current` is the chain after `handleOverflow` ran. With no `prev` the
      slot head is set to `e`; otherwise `prev.next = e`, which extends the
      chain only if `prev` is still linked into it. */
  function LinkAsWritten<K(==), V>(scanned: seq<HashEntry<K, V>>, current: seq<HashEntry<K, V>>, e: HashEntry<K, V>)
    : (r: seq<HashEntry<K, V>>)
    ensures scanned == [] ==> r == [e]
    ensures scanned != [] && !HasKey(current, scanned[|scanned| - 1].key) ==> r == current
    ensures scanned != [] && HasKey(current, scanned[|scanned| - 1].key) ==>
              |r| >= 2 && r[|r| - 1] == e && r[..|r| - 1] <= current
              && r[|r| - 2].key == scanned[|scanned| - 1].key
  {
    if scanned == [] then [e]
    else
      var ix := KeyIndex(current, scanned[|scanned| - 1].key);
      if ix.Some? then current[..ix.value + 1] + [e] else current
  }

  /** Dropping any entry of a unique chain but its last keeps that last
      entry last, and its key occurs nowhere before it. */
  lemma DropKeepsLastUnique<K, V>(scanned: seq<HashEntry<K, V>>, v: int)
    requires ChainUnique(scanned) && -1 <= v < |scanned| - 1
    ensures var current := if v < 0 then scanned else scanned[..v] + scanned[v + 1..];
            && |current| > 0 && current[|current| - 1] == scanned[|scanned| - 1]
            && forall y :: 0 <= y < |current| - 1 ==> current[y].key != scanned[|scanned| - 1].key
  {
    var current := if v < 0 then scanned else scanned[..v] + scanned[v + 1..];
    forall y | 0 <= y < |current| - 1
      ensures current[y].key != scanned[|scanned| - 1].key
    {
      if v < 0 || y < v {
        assert current[y] == scanned[y];
      } else {
        assert current[y] == scanned[y + 1];
      }
    }
  }

  /** When the handler evicted nothing from the chain, or any entry but its
      last, linking as written is appending to the current chain. */
  lemma LinkAsWrittenAppends<K, V>(scanned: seq<HashEntry<K, V>>, v: int, e: HashEntry<K, V>)
    requires ChainUnique(scanned) && -1 <= v < |scanned| - 1
    ensures var current := if v < 0 then scanned else scanned[..v] + scanned[v + 1..];
            LinkAsWritten(scanned, current, e) == current + [e]
  {
    var current := if v < 0 then scanned else scanned[..v] + scanned[v + 1..];
    DropKeepsLastUnique(scanned, v);
    var last := |current| - 1;
    var k := scanned[|scanned| - 1].key;
    assert current[last].key == k;
    var ix := KeyIndex(current, k);
    assert ix.value == last;
    assert current[..last + 1] == current;
  }

  /** When the handler evicted the last entry of the very chain the new
      key hashes to, the entry linked as written hangs off the detached node
      and is lost, although `_size` counts it; appending to the current
      chain keeps it. */
  lemma EvictedTailLosesEntry<K, V>(s: seq<HashEntry<K, V>>, x: HashEntry<K, V>, e: HashEntry<K, V>)
    requires ChainUnique(s + [x]) && !HasKey(s + [x], e.key)
    ensures LinkAsWritten(s + [x], s, e) == s
    ensures !HasKey(LinkAsWritten(s + [x], s, e), e.key)
    ensures HasKey(s + [e], e.key)
  {
    assert (s + [x])[|s + [x]| - 1] == x;
    forall j | 0 <= j < |s|
      ensures s[j].key != x.key
    {
      assert (s + [x])[j] == s[j];
    }
    assert !HasKey(s, x.key);
    forall j | 0 <= j < |s|
      ensures s[j].key != e.key
    {
      assert (s + [x])[j] == s[j];
    }
    assert (s + [e])[|s|] == e;
  }

  /** `other.get(k)` as `equals` sees it, on a map whose values may be
      `undefined` (`None`): the stored value, and `undefined` as well when
      the key is absent. */
  function GetOrUndefined<K, W>(m: map<K, Option<W>>, k: K): (r: Option<W>)
    ensures k in m ==> r == m[k]
    ensures k !in m ==> r.None?
  {
    if k in m then m[k] else None
  }

  /** `equals` as written, between maps that may store `undefined`: the
      sizes agree and `other.get(k)` equals `v` for every binding `k -> v`
      of this map. Any map equals itself. */
  function EqualsAsWritten<K, W(==)>(m: map<K, Option<W>>, other: map<K, Option<W>>): (r: bool)
    ensures m == other ==> r
  {
    |m| == |other| && forall k :: k in m ==> GetOrUndefined(other, k) == m[k]
  }

  /** While this map stores no `undefined`, `equals` as written is equality
      of the two maps. */
  lemma EqualsAsWrittenWithoutUndefined<K, W>(m: map<K, Option<W>>, other: map<K, Option<W>>)
    requires forall k :: k in m ==> m[k].Some?
    ensures EqualsAsWritten(m, other) <==> m == other
  {
    if EqualsAsWritten(m, other) {
      forall k | k in m
        ensures k in other && m[k] == other[k]
      {
        assert GetOrUndefined(other, k) == m[k];
      }
      SubmapOfEqualSize(m, other);
    }
  }

  /** A stored `undefined` under a key the other map lacks passes the
      lookup test, so `{a: undefined}` equals `{b: w}` as written while
      `{b: w}` does not equal `{a: undefined}`: the relation is not
      symmetric, and neither direction is equality of the maps. */
  lemma EqualsAsWrittenAsymmetric<K, W>(a: K, b: K, w: W)
    requires a != b
    ensures EqualsAsWritten(map[a := None], map[b := Some(w)])
    ensures !EqualsAsWritten(map[b := Some(w)], map[a := None])
    ensures map[a := None] != map[b := Some(w)]
  {
    var undefinedAtA: map<K, Option<W>> := map[a := None];
    var definedAtB: map<K, Option<W>> := map[b := Some(w)];
    assert undefinedAtA.Keys == {a} && definedAtB.Keys == {b};
    assert GetOrUndefined(undefinedAtA, b).None?;
  }

  class HashMap<K(==), V(==)> {
    /** `hashAny` on keys; `equalsAny` is Dafny's equality, under which equal
        keys hash equal. */
    const hashOf: K -> int
    /** `nextPrime` and `LARGEST_PRIME`, helpers outside this model. */
    const nextPrime: int -> int
    const largestPrime: int
    const loadFactor: real
    /** `_capacity` of the `CapacityMixin`-bound map; `Infinite` for a plain
        `HashMap`. */
    const capacity: Bound

    var slots: array<seq<HashEntry<K, V>>>
    var size: nat
    ghost var contents: map<K, V>
    ghost var log: seq<Access<K>>

    ghost predicate Valid()
      reads this, slots
    {
      TableInv(slots[..], contents, hashOf)
      && size == |contents|
      && WithinCapacity(size, capacity)
      && loadFactor > 0.0 && largestPrime > 0
      && (forall x :: nextPrime(x) >= x)
    }

    /** `isFull()` of the capacity-bound map: it cannot take one more
        entry. */
    predicate IsFull(): (full: bool)
      reads this
      ensures full ==> !WithinCapacity(size + 1, capacity)
    {
      Capacity.IsFull(size, capacity)
    }

    /** `new HashMap(options)` after the load factor passed its check:
        `MIN_INITIAL_CAPACITY = nextPrime(5)` empty slots. */
    constructor (hashOf: K -> int, nextPrime: int -> int, largestPrime: int, loadFactor: real, capacityArg: CapacityArg)
      requires loadFactor > 0.0 && largestPrime > 0
      requires forall x :: nextPrime(x) >= x
      ensures Valid() && fresh(slots)
      ensures contents == map[] && log == []
      ensures slots.Length == nextPrime(5)
      ensures capacity == InitCapacity(capacityArg)
      ensures this.hashOf == hashOf && this.nextPrime == nextPrime && this.largestPrime == largestPrime
      ensures this.loadFactor == loadFactor
    {
      this.hashOf := hashOf;
      this.nextPrime := nextPrime;
      this.largestPrime := largestPrime;
      this.loadFactor := loadFactor;
      this.capacity := InitCapacity(capacityArg);
      slots := new seq<HashEntry<K, V>>[nextPrime(5)](_ => []);
      size := 0;
      contents := map[];
      log := [];
      new;
      EmptyTable(slots[..], hashOf);
    }

    /** `HashMap.create`: the constructor throws on a load factor at or below
        zero. */
    static method Create(hashOf: K -> int, nextPrime: int -> int, largestPrime: int, loadFactor: Option<real>, capacityArg: CapacityArg)
      returns (r: Result<HashMap<K, V>>)
      requires largestPrime > 0
      requires forall x :: nextPrime(x) >= x
      ensures r.Err? <==> CheckLoadFactor(loadFactor).Err?
      ensures r.Err? ==> r.error == InvalidLoadFactor
      ensures r.Ok? ==> fresh(r.value) && r.value.Valid() && r.value.contents == map[]
                        && r.value.loadFactor == CheckLoadFactor(loadFactor).value
                        && r.value.capacity == InitCapacity(capacityArg)
    {
      var checked := CheckLoadFactor(loadFactor);
      if checked.Err? {
        return Err(checked.error);
      }
      var m := new HashMap(hashOf, nextPrime, largestPrime, checked.value, capacityArg);
      return Ok(m);
    }

    /** `getEntry(key)`: the entry cached under `hashAny(key)` with an equal
        key; a hit is reported to `recordAccess` as GET. */
    method GetEntry(key: K) returns (e: Option<HashEntry<K, V>>)
      requires Valid()
      modifies this`log
      ensures Valid()
      ensures e.Some? <==> key in contents
      ensures e.Some? ==> e.value == HashEntry(key, contents[key], hashOf(key))
      ensures log == old(log) + (if e.Some? then [Access(key, GET)] else [])
    {
      var h := hashOf(key);
      var slot := GetSlot(h, slots.Length);
      var chain := slots[slot];
      var j := FindInChain(chain, key, h);
      ScanResult(slots[..], contents, hashOf, key, j);
      if j < |chain| {
        e := Some(chain[j]);
        log := log + [Access(key, GET)];
      } else {
        e := None;
      }
    }

    /** `get(key)`: the value of `getEntry(key)`. */
    method Get(key: K) returns (v: Option<V>)
      requires Valid()
      modifies this`log
      ensures Valid()
      ensures v.Some? <==> key in contents
      ensures v.Some? ==> v.value == contents[key]
      ensures log == old(log) + (if v.Some? then [Access(key, GET)] else [])
    {
      var e := GetEntry(key);
      v := if e.Some? then Some(e.value.value) else None;
    }

    /** `containsKey(key)`: whether `getEntry(key)` found an entry. */
    method ContainsKey(key: K) returns (b: bool)
      requires Valid()
      modifies this`log
      ensures Valid()
      ensures b <==> key in contents
      ensures log == old(log) + (if b then [Access(key, GET)] else [])
    {
      var e := GetEntry(key);
      b := e.Some?;
    }

    /** `removeEntry(key)`: unlink the key's entry, head or mid-chain, and
        report it as REMOVE; an absent key changes nothing. */
    method RemoveEntry(key: K) returns (e: Option<HashEntry<K, V>>)
      requires Valid()
      modifies this, slots
      ensures Valid() && slots == old(slots)
      ensures e.Some? <==> key in old(contents)
      ensures e.Some? ==> e.value == HashEntry(key, old(contents)[key], hashOf(key))
      ensures contents == old(contents) - {key}
      ensures size == |contents|
      ensures log == old(log) + (if e.Some? then [Access(key, REMOVE)] else [])
    {
      var h := hashOf(key);
      var slot := GetSlot(h, slots.Length);
      var chain := slots[slot];
      var j := FindInChain(chain, key, h);
      ScanResult(slots[..], contents, hashOf, key, j);
      if j == |chain| {
        e := None;
        assert contents == old(contents) - {key};
        assert log == old(log) + [];
        return;
      }
      e := Some(chain[j]);
      Unlink(slot, j);
    }

    /** `remove(key)`: the removed entry's value. */
    method Remove(key: K) returns (v: Option<V>)
      requires Valid()
      modifies this, slots
      ensures Valid() && slots == old(slots)
      ensures v.Some? <==> key in old(contents)
      ensures v.Some? ==> v.value == old(contents)[key]
      ensures contents == old(contents) - {key}
      ensures log == old(log) + (if v.Some? then [Access(key, REMOVE)] else [])
    {
      var e := RemoveEntry(key);
      v := if e.Some? then Some(e.value.value) else None;
    }

    /** Unlink entry `j` of slot `slot` (`prev.next = e.next`, or the slot
        head moving on), count it out and report it as REMOVE. */
    method Unlink(slot: int, j: int)
      requires Valid() && 0 <= slot < slots.Length && 0 <= j < |slots[slot]|
      modifies this, slots
      ensures Valid() && slots == old(slots)
      ensures slots[slot] == old(slots[slot][..j] + slots[slot][j + 1..])
      ensures contents == old(contents) - {old(slots[slot][j].key)}
      ensures size == old(size) - 1
      ensures log == old(log) + [Access(old(slots[slot][j].key), REMOVE)]
    {
      ghost var t := slots[..];
      var chain := slots[slot];
      RemoveAtPreserves(t, contents, hashOf, slot, j);
      slots[slot] := chain[..j] + chain[j + 1..];
      assert slots[..] == t[slot := chain[..j] + chain[j + 1..]];
      contents := contents - {chain[j].key};
      size := size - 1;
      log := log + [Access(chain[j].key, REMOVE)];
    }

    /** What the filter pass keeps between steps, with `orig` the map and
        `base` the access log before it, and `removed` the keys unlinked so
        far: each removal was reported in turn, and the keys removed are
        exactly those gone from the map. */
    ghost predicate FilterLog(orig: map<K, V>, base: seq<Access<K>>, removed: seq<K>)
      reads this
    {
      log == base + RemoveAccesses(removed)
      && contents.Keys <= orig.Keys
      && size + |removed| == |orig|
      && (forall k :: k in removed ==> k in orig && k !in contents)
      && (forall k :: k in orig && k !in contents ==> k in removed)
    }

    /** One step of the filter pass: the entry under the cursor `x` of slot
        `i` is unlinked when the predicate refuses its binding (the cursor
        then stays), and kept otherwise (the cursor moves on). */
    method FilterAt(i: int, x: int, p: (K, V) -> bool, ghost orig: map<K, V>, ghost base: seq<Access<K>>, ghost removed: seq<K>)
      returns (next: int, dropped: bool, ghost removed': seq<K>)
      requires Valid() && 0 <= i < slots.Length && 0 <= x < |slots[i]|
      requires Filtered(contents, orig, p, hashOf, slots.Length, i, slots[i][x..])
      requires FilterLog(orig, base, removed)
      modifies this, slots
      ensures Valid() && slots == old(slots) && 0 <= next <= |slots[i]|
      ensures Filtered(contents, orig, p, hashOf, slots.Length, i, slots[i][next..])
      ensures FilterLog(orig, base, removed')
      ensures dropped ==> next == x && |slots[i]| == old(|slots[i]|) - 1 && |removed'| == |removed| + 1
      ensures !dropped ==> next == x + 1 && |slots[i]| == old(|slots[i]|) && removed' == removed
    {
      var e := slots[i][x];
      assert ChainInv(slots[i], i, slots.Length, contents, hashOf);
      if !p(e.key, e.value) {
        FilterDrop(contents, orig, p, hashOf, slots.Length, i, slots[i], x);
        RemovedOneMore(removed, e.key, orig, contents, contents - {e.key});
        RemoveAccessesSnoc(removed, e.key);
        Unlink(i, x);
        return x, true, removed + [e.key];
      }
      FilterKeep(contents, orig, p, hashOf, slots.Length, i, slots[i], x);
      return x + 1, false, removed;
    }

    /** One slot of `filterEntries(predicate)`: walk the chain, unlinking
        every entry whose binding the predicate refuses. */
    method FilterSlot(i: int, p: (K, V) -> bool, ghost orig: map<K, V>, ghost base: seq<Access<K>>, ghost removed0: seq<K>)
      returns (count: nat, ghost removed: seq<K>)
      requires Valid() && 0 <= i < slots.Length
      requires Filtered(contents, orig, p, hashOf, slots.Length, i, slots[i])
      requires FilterLog(orig, base, removed0)
      modifies this, slots
      ensures Valid() && slots == old(slots)
      ensures Filtered(contents, orig, p, hashOf, slots.Length, i, [])
      ensures FilterLog(orig, base, removed)
      ensures |removed| == |removed0| + count
    {
      count := 0;
      removed := removed0;
      var x := 0;
      while x < |slots[i]|
        invariant Valid() && slots == old(slots)
        invariant 0 <= x <= |slots[i]|
        invariant Filtered(contents, orig, p, hashOf, slots.Length, i, slots[i][x..])
        invariant FilterLog(orig, base, removed)
        invariant |removed| == |removed0| + count
        decreases |slots[i]| - x
      {
        var dropped;
        x, dropped, removed := FilterAt(i, x, p, orig, base, removed);
        if dropped {
          count := count + 1;
        }
      }
      assert slots[i][x..] == [];
    }

    /** `filterEntries(predicate)`: unlink every entry whose binding the
        predicate refuses, reporting each as REMOVE, and return how many
        went. */
    method FilterEntries(p: (K, V) -> bool) returns (count: nat, ghost removed: seq<K>)
      requires Valid()
      modifies this, slots
      ensures Valid() && slots == old(slots)
      ensures contents == Restrict(old(contents), p)
      ensures count == old(size) - size && count == |removed|
      ensures log == old(log) + RemoveAccesses(removed)
      ensures forall k :: k in removed <==> k in old(contents) && k !in contents
    {
      ghost var orig := contents;
      count := 0;
      removed := [];
      var i := 0;
      while i < slots.Length
        invariant Valid() && slots == old(slots)
        invariant 0 <= i <= slots.Length
        invariant Filtered(contents, orig, p, hashOf, slots.Length, i - 1, [])
        invariant FilterLog(orig, old(log), removed)
        invariant count == |removed|
      {
        FilterEnter(slots[..], contents, orig, p, hashOf, i);
        var n;
        n, removed := FilterSlot(i, p, orig, old(log), removed);
        count := count + n;
        i := i + 1;
      }
      FilterDone(contents, orig, p, hashOf, slots.Length);
    }

    /** `filterKeys(predicate)`: `filterEntries` on the key alone. */
    method FilterKeys(p: K -> bool) returns (count: nat)
      requires Valid()
      modifies this, slots
      ensures Valid() && slots == old(slots)
      ensures contents == map k | k in old(contents) && p(k) :: old(contents)[k]
      ensures count == old(size) - size
    {
      ghost var removed;
      count, removed := FilterEntries((k, v) => p(k));
    }

    /** `filterValues(predicate)`: `filterEntries` on the value alone. */
    method FilterValues(p: V -> bool) returns (count: nat)
      requires Valid()
      modifies this, slots
      ensures Valid() && slots == old(slots)
      ensures contents == map k | k in old(contents) && p(old(contents)[k]) :: old(contents)[k]
      ensures count == old(size) - size
    {
      ghost var removed;
      count, removed := FilterEntries((k, v) => p(v));
    }

    /** `clear()`: every slot emptied, `_size` zero; the table keeps its
        length and nothing is reported to `recordAccess`. */
    method Clear()
      requires Valid()
      modifies this, slots
      ensures Valid() && slots == old(slots) && slots.Length == old(slots.Length)
      ensures contents == map[] && size == 0 && log == old(log)
    {
      var i := 0;
      while i < slots.Length
        modifies slots
        invariant 0 <= i <= slots.Length
        invariant forall x :: 0 <= x < i ==> slots[x] == []
      {
        slots[i] := [];
        i := i + 1;
      }
      size := 0;
      contents := map[];
      EmptyTable(slots[..], hashOf);
    }

    /** `entryGenerator()`: every entry, slot by slot and each chain from
        its head; by `FlattenRepresents` these are the bindings of the map,
        each once. Nothing is reported to `recordAccess`. */
    method Entries() returns (es: seq<HashEntry<K, V>>)
      requires Valid()
      ensures es == Flatten(slots[..])
      ensures |es| == size && Distinct(es) && Keys(es) == contents.Keys
      ensures forall a :: 0 <= a < |es| ==> es[a].key in contents && contents[es[a].key] == es[a].value
    {
      ghost var t := slots[..];
      es := [];
      var i := 0;
      while i < slots.Length
        invariant 0 <= i <= slots.Length
        invariant es == Flatten(t[..i])
      {
        var chain := slots[i];
        var j := 0;
        while j < |chain|
          invariant 0 <= j <= |chain|
          invariant es == Flatten(t[..i]) + chain[..j]
        {
          assert chain[..j + 1] == chain[..j] + [chain[j]];
          es := es + [chain[j]];
          j := j + 1;
        }
        assert t[..i + 1][..i] == t[..i];
        assert chain[..j] == chain;
        i := i + 1;
      }
      assert t[..i] == t;
      FlattenRepresents(t, contents, hashOf);
    }

    /** `containsValue(value)`: some entry, in iteration order, holds an
        equal value. */
    method ContainsValue(value: V) returns (b: bool)
      requires Valid()
      ensures b <==> exists k :: k in contents && contents[k] == value
    {
      var es := Entries();
      var a := 0;
      while a < |es|
        invariant 0 <= a <= |es|
        invariant forall a' :: 0 <= a' < a ==> es[a'].value != value
      {
        if es[a].value == value {
          assert es[a].key in contents && contents[es[a].key] == value;
          return true;
        }
        a := a + 1;
      }
      forall k | k in contents
        ensures contents[k] != value
      {
        assert k in Keys(es);
        var a' :| 0 <= a' < |es| && es[a'].key == k;
      }
      return false;
    }

    /** One step of `replaceValueIf`: the entry under the cursor `x` of
        slot `i` gets `mapper(e.value)` when the predicate accepts its
        binding. */
    method ReplaceAt(i: int, x: int, p: (K, V) -> bool, mapper: V -> V, ghost orig: map<K, V>)
      requires Valid() && 0 <= i < slots.Length && 0 <= x < |slots[i]|
      requires Replaced(contents, orig, p, mapper, hashOf, slots.Length, i, slots[i][x..])
      modifies this, slots
      ensures Valid() && slots == old(slots) && |slots[i]| == old(|slots[i]|)
      ensures Replaced(contents, orig, p, mapper, hashOf, slots.Length, i, slots[i][x + 1..])
      ensures size == old(size) && log == old(log)
    {
      var e := slots[i][x];
      assert ChainInv(slots[i], i, slots.Length, contents, hashOf);
      ReplaceStep(contents, orig, p, mapper, hashOf, slots.Length, i, slots[i], x);
      if p(e.key, e.value) {
        ghost var rest := slots[i][x + 1..];
        SetValueAt(i, x, mapper(e.value));
        assert slots[i][x + 1..] == rest;
      }
    }

    /** One slot of `replaceValueIf`. */
    method ReplaceSlot(i: int, p: (K, V) -> bool, mapper: V -> V, ghost orig: map<K, V>)
      requires Valid() && 0 <= i < slots.Length
      requires Replaced(contents, orig, p, mapper, hashOf, slots.Length, i, slots[i])
      modifies this, slots
      ensures Valid() && slots == old(slots)
      ensures Replaced(contents, orig, p, mapper, hashOf, slots.Length, i, [])
      ensures size == old(size) && log == old(log)
    {
      var x := 0;
      while x < |slots[i]|
        invariant Valid() && slots == old(slots)
        invariant 0 <= x <= |slots[i]|
        invariant Replaced(contents, orig, p, mapper, hashOf, slots.Length, i, slots[i][x..])
        invariant size == old(size) && log == old(log)
      {
        ReplaceAt(i, x, p, mapper, orig);
        x := x + 1;
      }
      assert slots[i][x..] == [];
    }

    /** `replaceValueIf(predicate, mapper)`: every entry whose binding the
        predicate accepts gets its value mapped, in place; keys, size and
        the access log are untouched. */
    method ReplaceValueIf(p: (K, V) -> bool, mapper: V -> V)
      requires Valid()
      modifies this, slots
      ensures Valid() && slots == old(slots)
      ensures contents == Replacement(old(contents), p, mapper)
      ensures size == old(size) && log == old(log)
    {
      ghost var orig := contents;
      var i := 0;
      while i < slots.Length
        invariant Valid() && slots == old(slots)
        invariant 0 <= i <= slots.Length
        invariant Replaced(contents, orig, p, mapper, hashOf, slots.Length, i - 1, [])
        invariant size == old(size) && log == old(log)
      {
        ReplaceEnter(slots[..], contents, orig, p, mapper, hashOf, i);
        ReplaceSlot(i, p, mapper, orig);
        i := i + 1;
      }
      ReplaceDone(contents, orig, p, mapper, hashOf, slots.Length);
    }

    /** `transformValues(mapper)`: every value mapped, in place. */
    method TransformValues(mapper: V -> V)
      requires Valid()
      modifies this, slots
      ensures Valid() && slots == old(slots)
      ensures contents.Keys == old(contents).Keys
      ensures forall k :: k in contents ==> contents[k] == mapper(old(contents)[k])
      ensures size == old(size) && log == old(log)
    {
      ReplaceValueIf((k, v) => true, mapper);
    }

    /** `handleOverflow(key, value)`: a map that is not full admits without
        asking the handler; otherwise the handler may discard the binding, and
        if the map is still full afterwards the insertion throws. */
    method HandleOverflow(key: K, value: V, handler: OverflowOutcome<K>) returns (r: Result<bool>)
      requires Valid()
      modifies this, slots
      ensures Valid() && slots == old(slots)
      ensures !old(IsFull()) ==> r == Ok(false) && contents == old(contents) && log == old(log)
      ensures old(IsFull()) && (handler.Discard? || handler.Decline?) ==>
                contents == old(contents) && log == old(log)
                && r == (if handler.Discard? then Ok(true) else Err(OverflowException))
      ensures old(IsFull()) && handler.Evict? ==>
                contents == old(contents) - {handler.victim}
                && log == old(log) + (if handler.victim in old(contents) then [Access(handler.victim, REMOVE)] else [])
                && r == (if handler.victim in old(contents) then Ok(false) else Err(OverflowException))
    {
      if !IsFull() {
        return Ok(false);
      }
      if handler.Discard? {
        return Ok(true);
      } else if handler.Evict? {
        var removed := RemoveEntry(handler.victim);
        if removed.Some? {
          RemoveOneMakesRoom(old(size), capacity);
        }
      }
      if IsFull() {
        return Err(OverflowException);
      }
      return Ok(false);
    }

    /** `rehash()`: move every entry, by its cached hash, into a fresh table of
        `NewLength` slots; the map represented does not change. */
    method Rehash()
      requires Valid()
      modifies this
      ensures Valid() && fresh(slots)
      ensures slots.Length == NewLength(old(slots.Length), largestPrime, nextPrime)
      ensures contents == old(contents) && size == old(size) && log == old(log)
    {
      var newLength := slots.Length * 2;
      if newLength < 0 || newLength >= largestPrime {
        newLength := largestPrime;
      } else {
        newLength := nextPrime(newLength);
      }
      var newSlots := Redistribute(slots, newLength, contents, hashOf);
      slots := newSlots;
    }

    /** Overwrite the value of entry `j` of slot `slot` in place
        (`e.value = value` in `put`). */
    method SetValueAt(slot: int, j: int, value: V)
      requires Valid() && 0 <= slot < slots.Length && 0 <= j < |slots[slot]|
      modifies this, slots
      ensures Valid() && slots == old(slots) && size == old(size) && log == old(log)
      ensures slots[slot] == old(slots[slot][j := slots[slot][j].(value := value)])
      ensures contents == old(contents)[old(slots[slot][j].key) := value]
    {
      ghost var t := slots[..];
      UpdatePreserves(t, contents, hashOf, slot, j, value);
      contents := contents[slots[slot][j].key := value];
      slots[slot] := slots[slot][j := slots[slot][j].(value := value)];
      assert slots[..] == t[slot := slots[slot]];
    }

    /** Append a new key's entry at the end of its chain and count it (the
        new-key branch of `put` once admitted). */
    method Link(e: HashEntry<K, V>)
      requires Valid() && e.key !in contents && e.hash == hashOf(e.key) && !IsFull()
      modifies this, slots
      ensures Valid() && slots == old(slots) && log == old(log)
      ensures contents == old(contents)[e.key := e.value] && size == old(size) + 1
    {
      var slot := GetSlot(e.hash, slots.Length);
      ghost var t := slots[..];
      AppendPreserves(t, contents, hashOf, e);
      AddOneWithinCapacity(size, capacity);
      slots[slot] := slots[slot] + [e];
      assert slots[..] == t[slot := t[slot] + [e]];
      contents := contents[e.key := e.value];
      size := size + 1;
    }

    /** Whether `put` must grow a table of `len` slots now holding `n`
        entries: `slots.length * loadFactor < _size`. With a positive load
        factor only a nonempty map grows. */
    predicate Overloading(len: nat, n: int): (grow: bool)
      requires loadFactor > 0.0
      ensures grow ==> n > 0
    {
      assert (len as real) * loadFactor >= 0.0;
      (len as real) * loadFactor < n as real
    }

    /** The tail of `put` for an admitted new key: link its entry, then
        grow the table exactly when the old length times the load factor is
        below the new size. */
    method LinkAndGrow(e: HashEntry<K, V>)
      requires Valid() && e.key !in contents && e.hash == hashOf(e.key) && !IsFull()
      modifies this, slots
      ensures Valid() && log == old(log)
      ensures contents == old(contents)[e.key := e.value] && size == old(size) + 1
      ensures var grow := Overloading(old(slots.Length), size);
              && (grow ==> fresh(slots) && slots.Length == NewLength(old(slots.Length), largestPrime, nextPrime))
              && (!grow ==> slots == old(slots))
    {
      Link(e);
      if Overloading(slots.Length, size) {
        Rehash();
      }
    }

    /** `put(key, value)`. An existing key is overwritten in place (MODIFY)
        without consulting capacity. A new key goes through
        `handleOverflow`; when admitted it is appended to its chain as the
        chain stands after the handler ran (INSERT), `_size` grows by one, and
        the table is replaced by one of the growth length exactly when the
        old length times the load factor is now below the size. Every other
        branch keeps the table. */
    method Put(key: K, value: V, handler: OverflowOutcome<K>) returns (r: Result<Option<V>>)
      requires Valid()
      modifies this, slots
      ensures Valid()
      ensures key in old(contents) ==>
                r == Ok(Some(old(contents)[key])) && contents == old(contents)[key := value]
                && size == old(size) && log == old(log) + [Access(key, MODIFY)]
      ensures key !in old(contents) && !old(IsFull()) ==>
                r == Ok(None) && contents == old(contents)[key := value] && size == old(size) + 1
                && log == old(log) + [Access(key, INSERT)]
      ensures key !in old(contents) && old(IsFull()) && (handler.Discard? || handler.Decline?) ==>
                contents == old(contents) && log == old(log)
                && r == (if handler.Discard? then Ok(None) else Err(OverflowException))
      ensures key !in old(contents) && old(IsFull()) && handler.Evict? && handler.victim !in old(contents) ==>
                r == Err(OverflowException) && contents == old(contents) && log == old(log)
      ensures key !in old(contents) && old(IsFull()) && handler.Evict? && handler.victim in old(contents) ==>
                r == Ok(None) && contents == (old(contents) - {handler.victim})[key := value]
                && size == old(size)
                && log == old(log) + [Access(handler.victim, REMOVE), Access(key, INSERT)]
      ensures key in old(contents) ==> slots == old(slots)
      ensures key !in old(contents) && old(IsFull()) && !(handler.Evict? && handler.victim in old(contents)) ==>
                slots == old(slots)
      ensures key !in old(contents) && (!old(IsFull()) || (handler.Evict? && handler.victim in old(contents))) ==>
                var grow := Overloading(old(slots.Length), size);
                && (grow ==> fresh(slots) && slots.Length == NewLength(old(slots.Length), largestPrime, nextPrime))
                && (!grow ==> slots == old(slots))
    {
      var h := hashOf(key);
      var slot := GetSlot(h, slots.Length);
      var chain := slots[slot];
      var j := FindInChain(chain, key, h);
      ScanResult(slots[..], contents, hashOf, key, j);
      if j < |chain| {
        var previous := chain[j].value;
        SetValueAt(slot, j, value);
        log := log + [Access(key, MODIFY)];
        return Ok(Some(previous));
      }
      r := PutNew(key, value, h, handler);
    }

    /** The new-key branch of `put`, after the search missed: consult
        `handleOverflow`, then link and grow unless it discarded the entry
        or threw. */
    method PutNew(key: K, value: V, h: int, handler: OverflowOutcome<K>) returns (r: Result<Option<V>>)
      requires Valid() && key !in contents && h == hashOf(key)
      modifies this, slots
      ensures Valid()
      ensures !old(IsFull()) ==>
                r == Ok(None) && contents == old(contents)[key := value] && size == old(size) + 1
                && log == old(log) + [Access(key, INSERT)]
      ensures old(IsFull()) && (handler.Discard? || handler.Decline?) ==>
                contents == old(contents) && log == old(log)
                && r == (if handler.Discard? then Ok(None) else Err(OverflowException))
      ensures old(IsFull()) && handler.Evict? && handler.victim !in old(contents) ==>
                r == Err(OverflowException) && contents == old(contents) && log == old(log)
      ensures old(IsFull()) && handler.Evict? && handler.victim in old(contents) ==>
                r == Ok(None) && contents == (old(contents) - {handler.victim})[key := value]
                && size == old(size)
                && log == old(log) + [Access(handler.victim, REMOVE), Access(key, INSERT)]
      ensures old(IsFull()) && !(handler.Evict? && handler.victim in old(contents)) ==> slots == old(slots)
      ensures !old(IsFull()) || (handler.Evict? && handler.victim in old(contents)) ==>
                var grow := Overloading(old(slots.Length), size);
                && (grow ==> fresh(slots) && slots.Length == NewLength(old(slots.Length), largestPrime, nextPrime))
                && (!grow ==> slots == old(slots))
    {
      ghost var len := slots.Length;
      var handled := HandleOverflow(key, value, handler);
      if handled.Err? {
        return Err(handled.error);
      }
      if handled.value {
        return Ok(None);
      }
      assert slots.Length == len;
      log := log + [Access(key, INSERT)];
      LinkAndGrow(HashEntry(key, value, h));
      r := Ok(None);
    }

    /** `offer(key, value)`: never throws. A full map writes nothing: it
        accepts a key it already holds, reporting the current value (read
        through `getEntry`, hence a GET), and refuses a new one. A map with
        room delegates to `put`, whose previous value is reported. */
    method Offer(key: K, value: V) returns (r: OfferResult<V>)
      requires Valid()
      modifies this, slots
      ensures Valid()
      ensures old(IsFull()) ==>
                contents == old(contents) && slots == old(slots)
                && r.accepted == (key in old(contents))
                && r.previous == (if key in old(contents) then Some(old(contents)[key]) else None)
                && log == old(log) + (if key in old(contents) then [Access(key, GET)] else [])
      ensures !old(IsFull()) ==>
                r.accepted && contents == old(contents)[key := value]
                && r.previous == (if key in old(contents) then Some(old(contents)[key]) else None)
                && log == old(log) + [Access(key, if key in old(contents) then MODIFY else INSERT)]
    {
      if IsFull() {
        var e := GetEntry(key);
        if e.Some? {
          return OfferResult(true, Some(e.value.value));
        }
        return OfferResult(false, None);
      }
      var previous := Put(key, value, Decline);
      return OfferResult(true, previous.value);
    }

    /** The access log grew from `before` by GET accesses only. */
    ghost predicate GetsSince(before: seq<Access<K>>)
      reads this
    {
      before <= log && forall a :: |before| <= a < |log| ==> log[a].kind == GET
    }

    /** The loop of `equals` seen from the other map: `get` each key of
        `es` in turn and stop at the first value that differs. */
    method LooksUpAll(es: seq<HashEntry<K, V>>) returns (b: bool)
      requires Valid()
      modifies this`log
      ensures Valid() && contents == old(contents) && GetsSince(old(log))
      ensures b <==> forall a :: 0 <= a < |es| ==> es[a].key in contents && contents[es[a].key] == es[a].value
    {
      var a := 0;
      while a < |es|
        invariant 0 <= a <= |es|
        invariant Valid() && contents == old(contents) && GetsSince(old(log))
        invariant forall a' :: 0 <= a' < a ==> es[a'].key in contents && contents[es[a'].key] == es[a'].value
      {
        var v := Get(es[a].key);
        if v != Some(es[a].value) {
          return false;
        }
        a := a + 1;
      }
      return true;
    }

    /** `equals(other)`: the same object, or a map of the same size whose
        `get` returns an equal value for every binding of this map; a value
        that is not a map (`None`) is never equal. Each lookup goes through
        `other.get`, so `other` records GET accesses. A lookup that misses
        counts as unequal here, so the result is equality of the bindings;
        `EqualsAsWritten` is the code as written, where a missed lookup
        matches a stored `undefined`. */
    method Equals(other: Option<HashMap<K, V>>) returns (b: bool)
      requires Valid()
      requires other.Some? ==> other.value.Valid()
      modifies if other.Some? then {other.value} else {}
      ensures b <==> other.Some? && other.value.contents == contents
      ensures contents == old(contents) && log == old(log)
      ensures other.Some? && other.value != this ==>
                other.value.Valid() && other.value.contents == old(other.value.contents)
                && other.value.GetsSince(old(other.value.log))
    {
      if other.None? {
        return false;
      }
      var o := other.value;
      if o == this {
        return true;
      }
      if o.size != size {
        return false;
      }
      var es := Entries();
      b := o.LooksUpAll(es);
      if b {
        forall k | k in contents
          ensures k in o.contents && o.contents[k] == contents[k]
        {
          assert k in Keys(es);
          var a' :| 0 <= a' < |es| && es[a'].key == k;
        }
        SubmapOfEqualSize(contents, o.contents);
      }
    }
  }
}
