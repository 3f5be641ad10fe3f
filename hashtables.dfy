/** The chained hash table of src/maps/hash_map.ts, as values: a table is a
    sequence of slots, each slot the chain of entries linked through `next`,
    head first. The invariant `TableInv` ties a table to the map it
    represents; the lemmas show that each relinking `HashMap` performs keeps
    it. */
module HashTables {

  /** A chain entry: the key, its (mutable) value and the hash cached when the
      entry was created. */
  datatype HashEntry<K, V> = HashEntry(key: K, value: V, hash: int)

  /** JavaScript's `%` on integers: the remainder takes the sign of the
      dividend. */
  function JsRemainder(a: int, n: int): (r: int)
    requires n > 0
    ensures -n < r < n
    ensures a >= 0 ==> r == a % n
    ensures a < 0 ==> r <= 0
  {
    if a >= 0 then a % n else -((-a) % n)
  }

  /** `getSlot(h, slots)`: a negative remainder is shifted back into range,
      so the slot is the mathematical (Euclidean) residue of the hash. */
  function GetSlot(h: int, n: int): (s: int)
    requires n > 0
    ensures 0 <= s < n
  {
    var r := JsRemainder(h, n);
    if r < 0 then r + n else r
  }

  /** The slot is the Euclidean residue of the hash, whatever its sign. */
  lemma GetSlotIsResidue(h: int, n: int)
    requires n > 0
    ensures GetSlot(h, n) == h % n
  {
    if h < 0 {
      SlotOfNegative(h, n);
    }
  }

  /** For a negative hash, JavaScript's remainder plus (when non-zero) one
      table length is the Euclidean residue. */
  lemma SlotOfNegative(h: int, n: int)
    requires n > 0 && h < 0
    ensures var r := (-h) % n;
            if r == 0 then h % n == 0 else h % n == n - r
  {
    var q := (-h) / n;
    var r := (-h) % n;
    assert -h == q * n + r;
    if r == 0 {
      assert h == (-q) * n;
      ModOfMultiple(-q, n);
    } else {
      assert h == (-q - 1) * n + (n - r);
      ModUnique(h, n, -q - 1, n - r);
    }
  }

  lemma ModOfMultiple(a: int, n: int)
    requires n > 0
    ensures (a * n) % n == 0
  {
    ModUnique(a * n, n, a, 0);
  }

  /** Euclidean division is unique: `h == a * n + b` with `0 <= b < n` fixes
      the residue. */
  lemma ModUnique(h: int, n: int, a: int, b: int)
    requires n > 0 && 0 <= b < n && h == a * n + b
    ensures h % n == b
  {
    var d := h / n;
    var r := h % n;
    assert (a - d) * n == r - b by {
      assert h == d * n + r;
      assert a * n - d * n == (a - d) * n;
    }
    if a - d > 0 {
      MulAtLeast(a - d, n);
    } else if a - d < 0 {
      MulAtLeast(d - a, n);
    }
  }

  lemma MulAtLeast(x: int, n: int)
    requires x >= 1 && n > 0
    ensures x * n >= n
  {
    assert x * n == (x - 1) * n + n;
  }

  /** The chain contains an entry for `k`. */
  ghost predicate HasKey<K, V>(c: seq<HashEntry<K, V>>, k: K)
  {
    exists j :: 0 <= j < |c| && c[j].key == k
  }

  /** No key occurs twice in a chain. */
  ghost predicate ChainUnique<K, V>(c: seq<HashEntry<K, V>>)
  {
    forall j1, j2 :: 0 <= j1 < j2 < |c| ==> c[j1].key != c[j2].key
  }

  /** Every entry of chain `i` caches its key's hash and hashes to slot `i`. */
  ghost predicate ChainPlaced<K, V>(c: seq<HashEntry<K, V>>, i: int, n: int, hashOf: K -> int)
    requires n > 0
  {
    forall j :: 0 <= j < |c| ==> c[j].hash == hashOf(c[j].key) && GetSlot(c[j].hash, n) == i
  }

  /** Every entry of the chain is a binding of `m`. */
  ghost predicate ChainAgrees<K, V>(c: seq<HashEntry<K, V>>, m: map<K, V>)
  {
    forall j :: 0 <= j < |c| ==> c[j].key in m && m[c[j].key] == c[j].value
  }

  ghost predicate ChainInv<K, V>(c: seq<HashEntry<K, V>>, i: int, n: int, m: map<K, V>, hashOf: K -> int)
    requires n > 0
  {
    ChainPlaced(c, i, n, hashOf) && ChainUnique(c) && ChainAgrees(c, m)
  }

  /** The table represents `m`: every chain is placed, key-unique and agrees
      with `m`, and the table holds as many entries as `m` has keys, so that
      (`KeyInSlot`) every key of `m` is found in the slot its hash selects. */
  ghost predicate TableInv<K, V>(t: seq<seq<HashEntry<K, V>>>, m: map<K, V>, hashOf: K -> int)
  {
    |t| > 0
    && (forall i :: 0 <= i < |t| ==> ChainInv(t[i], i, |t|, m, hashOf))
    && |Flatten(t)| == |m|
  }

  /** Looking in the slot a key hashes to decides membership and finds the
      key's value. */
  lemma {:induction false} LookupInSlot<K, V>(t: seq<seq<HashEntry<K, V>>>, m: map<K, V>, hashOf: K -> int, k: K, j: int)
    requires TableInv(t, m, hashOf)
    requires var s := GetSlot(hashOf(k), |t|); 0 <= j < |t[s]| && t[s][j].key == k
    ensures k in m && m[k] == t[GetSlot(hashOf(k), |t|)][j].value
  {
    var s := GetSlot(hashOf(k), |t|);
    assert ChainInv(t[s], s, |t|, m, hashOf);
  }

  /** Appending a new key's entry to the end of its chain (what `put` does)
      represents the map extended with that binding. */
  lemma {:induction false} AppendPreserves<K, V>(t: seq<seq<HashEntry<K, V>>>, m: map<K, V>, hashOf: K -> int, e: HashEntry<K, V>)
    requires TableInv(t, m, hashOf)
    requires e.key !in m && e.hash == hashOf(e.key)
    ensures var s := GetSlot(e.hash, |t|);
            TableInv(t[s := t[s] + [e]], m[e.key := e.value], hashOf)
  {
    var s := GetSlot(e.hash, |t|);
    var c := t[s] + [e];
    var t' := t[s := c];
    var m' := m[e.key := e.value];
    assert ChainInv(t[s], s, |t|, m, hashOf);
    assert ChainInv(c, s, |t|, m', hashOf);
    forall i | 0 <= i < |t'|
      ensures ChainInv(t'[i], i, |t'|, m', hashOf)
    {
      if i != s {
        assert ChainInv(t[i], i, |t|, m, hashOf);
      }
    }
    FlattenUpdate(t, s, c);
  }

  /** Pushing a new key's entry onto the front of its chain (what `rehash`
      does) represents the map extended with that binding. */
  lemma {:induction false} PrependPreserves<K, V>(t: seq<seq<HashEntry<K, V>>>, m: map<K, V>, hashOf: K -> int, e: HashEntry<K, V>)
    requires TableInv(t, m, hashOf)
    requires e.key !in m && e.hash == hashOf(e.key)
    ensures var s := GetSlot(e.hash, |t|);
            TableInv(t[s := [e] + t[s]], m[e.key := e.value], hashOf)
  {
    var s := GetSlot(e.hash, |t|);
    var c := [e] + t[s];
    var t' := t[s := c];
    var m' := m[e.key := e.value];
    assert ChainInv(t[s], s, |t|, m, hashOf);
    assert ChainInv(c, s, |t|, m', hashOf);
    forall i | 0 <= i < |t'|
      ensures ChainInv(t'[i], i, |t'|, m', hashOf)
    {
      if i != s {
        assert ChainInv(t[i], i, |t|, m, hashOf);
      }
    }
    FlattenUpdate(t, s, c);
  }

  /** Overwriting the value of entry `j` of slot `s` in place (what `put` on
      an existing key and `replaceValueIf` do) represents the map with that
      key rebound. */
  lemma {:induction false} UpdatePreserves<K, V>(t: seq<seq<HashEntry<K, V>>>, m: map<K, V>, hashOf: K -> int, s: int, j: int, v: V)
    requires TableInv(t, m, hashOf)
    requires 0 <= s < |t| && 0 <= j < |t[s]|
    ensures TableInv(t[s := t[s][j := t[s][j].(value := v)]], m[t[s][j].key := v], hashOf)
  {
    var k := t[s][j].key;
    var c := t[s][j := t[s][j].(value := v)];
    var t' := t[s := c];
    var m' := m[k := v];
    assert ChainInv(t[s], s, |t|, m, hashOf);
    assert ChainInv(c, s, |t|, m', hashOf);
    forall i | 0 <= i < |t'|
      ensures ChainInv(t'[i], i, |t'|, m', hashOf)
    {
      if i != s {
        assert ChainInv(t[i], i, |t|, m, hashOf);
        forall j' | 0 <= j' < |t[i]|
          ensures t[i][j'].key != k
        {
          assert GetSlot(hashOf(t[i][j'].key), |t|) == i;
        }
      }
    }
    assert m'.Keys == m.Keys;
    FlattenUpdate(t, s, c);
  }

  /** Unlinking entry `j` of slot `s` (`prev.next = e.next`, or the slot head
      moving on) represents the map without that key. */
  lemma {:induction false} RemoveAtPreserves<K, V>(t: seq<seq<HashEntry<K, V>>>, m: map<K, V>, hashOf: K -> int, s: int, j: int)
    requires TableInv(t, m, hashOf)
    requires 0 <= s < |t| && 0 <= j < |t[s]|
    ensures TableInv(t[s := t[s][..j] + t[s][j + 1..]], m - {t[s][j].key}, hashOf)
  {
    var k := t[s][j].key;
    var c := t[s][..j] + t[s][j + 1..];
    var t' := t[s := c];
    var m' := m - {k};
    assert ChainInv(t[s], s, |t|, m, hashOf);
    forall j' | 0 <= j' < |c|
      ensures c[j'].key != k
    {
      if j' < j {
        assert c[j'] == t[s][j'];
      } else {
        assert c[j'] == t[s][j' + 1];
      }
    }
    assert ChainInv(c, s, |t|, m', hashOf);
    forall i | 0 <= i < |t'|
      ensures ChainInv(t'[i], i, |t'|, m', hashOf)
    {
      if i != s {
        assert ChainInv(t[i], i, |t|, m, hashOf);
        forall j' | 0 <= j' < |t[i]|
          ensures t[i][j'].key != k
        {
          assert GetSlot(hashOf(t[i][j'].key), |t|) == i;
        }
      }
    }
    assert m'.Keys == m.Keys - {k};
    FlattenUpdate(t, s, c);
  }

  /** Replacing one slot changes the number of entries by the difference in
      that chain's length. */
  lemma {:induction false} FlattenUpdate<K, V>(t: seq<seq<HashEntry<K, V>>>, s: int, c: seq<HashEntry<K, V>>)
    requires 0 <= s < |t|
    ensures |Flatten(t[s := c])| == |Flatten(t)| - |t[s]| + |c|
    decreases |t|
  {
    var n := |t|;
    var t' := t[s := c];
    if s == n - 1 {
      assert t'[..n - 1] == t[..n - 1];
    } else {
      assert t'[..n - 1] == t[..n - 1][s := c];
      FlattenUpdate(t[..n - 1], s, c);
    }
  }

  /** A table of empty slots holds no entries. */
  lemma {:induction false} FlattenEmpty<K, V>(t: seq<seq<HashEntry<K, V>>>)
    requires forall i :: 0 <= i < |t| ==> t[i] == []
    ensures Flatten(t) == []
    decreases |t|
  {
    if t != [] {
      FlattenEmpty(t[..|t| - 1]);
    }
  }

  /** A table of empty slots represents the empty map. */
  lemma EmptyTable<K, V>(t: seq<seq<HashEntry<K, V>>>, hashOf: K -> int)
    requires |t| > 0
    requires forall i :: 0 <= i < |t| ==> t[i] == []
    ensures TableInv(t, map[], hashOf)
  {
    FlattenEmpty(t);
  }

  /** Searching a placed chain for a key by hash and key equality (the scan
      loop of `getEntry`, `put` and `removeEntry`) finds it exactly when the
      chain holds it. */
  lemma {:induction false} ScanFindsKey<K, V>(c: seq<HashEntry<K, V>>, i: int, n: int, hashOf: K -> int, k: K, j: int)
    requires n > 0 && ChainPlaced(c, i, n, hashOf)
    requires 0 <= j <= |c|
    requires forall j' :: 0 <= j' < j ==> c[j'].hash != hashOf(k) || c[j'].key != k
    requires j < |c| ==> c[j].hash == hashOf(k) && c[j].key == k
    ensures j < |c| <==> HasKey(c, k)
  {
    if j == |c| {
      forall j' | 0 <= j' < |c|
        ensures c[j'].key != k
      {
        assert c[j'].hash == hashOf(c[j'].key);
      }
    }
  }

  /** What the scan of a key's slot finds in a table that represents `m`:
      it stops inside the chain exactly when the key is bound, and then at the
      key's entry. */
  lemma ScanResult<K, V>(t: seq<seq<HashEntry<K, V>>>, m: map<K, V>, hashOf: K -> int, key: K, j: int)
    requires TableInv(t, m, hashOf)
    requires var c := t[GetSlot(hashOf(key), |t|)];
             0 <= j <= |c|
             && (forall i :: 0 <= i < j ==> c[i].hash != hashOf(key) || c[i].key != key)
             && (j < |c| ==> c[j].hash == hashOf(key) && c[j].key == key)
    ensures var c := t[GetSlot(hashOf(key), |t|)];
            (j < |c| <==> key in m) && (j < |c| ==> c[j] == HashEntry(key, m[key], hashOf(key)))
  {
    var s := GetSlot(hashOf(key), |t|);
    assert ChainInv(t[s], s, |t|, m, hashOf);
    ScanFindsKey(t[s], s, |t|, hashOf, key, j);
    if key in m {
      KeyInSlot(t, m, hashOf, key);
    }
  }

  /** Every key of the represented map is held by the chain its hash
      selects. */
  lemma KeyInSlot<K, V>(t: seq<seq<HashEntry<K, V>>>, m: map<K, V>, hashOf: K -> int, k: K)
    requires TableInv(t, m, hashOf)
    requires k in m
    ensures HasKey(t[GetSlot(hashOf(k), |t|)], k)
  {
    FlattenRepresents(t, m, hashOf);
    PrefixAgrees(t, m, hashOf, |t|);
    assert t[..|t|] == t;
    var es := Flatten(t);
    var a :| 0 <= a < |es| && es[a].key == k;
  }

  /** Entries of a table in bucket order: slot by slot, each chain from its
      head (the order `entryGenerator` yields them in). */
  function Flatten<K, V>(t: seq<seq<HashEntry<K, V>>>): (es: seq<HashEntry<K, V>>)
  {
    if t == [] then [] else Flatten(t[..|t| - 1]) + t[|t| - 1]
  }

  /** The entry occurs in the sequence. */
  ghost predicate Occurs<K, V>(es: seq<HashEntry<K, V>>, e: HashEntry<K, V>)
  {
    exists a :: 0 <= a < |es| && es[a] == e
  }

  /** No key occurs twice in a sequence of entries. */
  ghost predicate Distinct<K, V>(es: seq<HashEntry<K, V>>)
  {
    forall a, b :: 0 <= a < b < |es| ==> es[a].key != es[b].key
  }

  function Keys<K, V>(es: seq<HashEntry<K, V>>): set<K>
  {
    set a | 0 <= a < |es| :: es[a].key
  }

  /** A sequence of entries with distinct keys has as many keys as entries. */
  lemma {:induction false} DistinctKeysCount<K, V>(es: seq<HashEntry<K, V>>)
    requires Distinct(es)
    ensures |Keys(es)| == |es|
    decreases |es|
  {
    if es != [] {
      var es' := es[..|es| - 1];
      var last := es[|es| - 1];
      DistinctKeysCount(es');
      assert Keys(es) == Keys(es') + {last.key} by {
        forall k | k in Keys(es)
          ensures k in Keys(es') + {last.key}
        {
          var a :| 0 <= a < |es| && es[a].key == k;
          if a < |es| - 1 {
            assert es'[a].key == k;
          }
        }
      }
      forall a | 0 <= a < |es'|
        ensures es'[a].key != last.key
      {
        assert es'[a] == es[a];
      }
    }
  }

  /** The entries of a table that represents `m` are exactly the bindings of
      `m`, each once. */
  lemma {:induction false} FlattenRepresents<K, V>(t: seq<seq<HashEntry<K, V>>>, m: map<K, V>, hashOf: K -> int)
    requires TableInv(t, m, hashOf)
    ensures Distinct(Flatten(t))
    ensures forall a :: 0 <= a < |Flatten(t)| ==> Flatten(t)[a].key in m && m[Flatten(t)[a].key] == Flatten(t)[a].value
    ensures Keys(Flatten(t)) == m.Keys
    ensures |Flatten(t)| == |m|
  {
    var n := |t|;
    PrefixFlatten(t, m, hashOf, n);
    assert t[..n] == t;
    var es := Flatten(t);
    DistinctKeysCount(es);
    SubsetOfEqualSize(Keys(es), m.Keys);
  }

  /** A subset as large as its superset is the superset. */
  lemma SubsetOfEqualSize<T>(a: set<T>, b: set<T>)
    requires a <= b && |a| == |b|
    ensures a == b
  {
    assert b == a + (b - a);
    assert a * (b - a) == {};
    assert |b - a| == 0;
  }

  /** A map whose bindings all belong to `m` and which has as many keys as
      `m` is `m`. */
  lemma SubmapOfEqualSize<K, V>(d: map<K, V>, m: map<K, V>)
    requires forall k :: k in d ==> k in m && d[k] == m[k]
    requires |d| == |m|
    ensures d == m
  {
    SubsetOfEqualSize(d.Keys, m.Keys);
  }

  /** The bucket-order prefix of the first `p` slots: distinct keys, each a
      binding of `m`, each from a slot below `p`, and every entry of those
      slots among them. */
  lemma PrefixFlatten<K, V>(t: seq<seq<HashEntry<K, V>>>, m: map<K, V>, hashOf: K -> int, p: int)
    requires TableInv(t, m, hashOf)
    requires 0 <= p <= |t|
    ensures Distinct(Flatten(t[..p]))
    ensures forall a :: 0 <= a < |Flatten(t[..p])| ==>
              var e := Flatten(t[..p])[a];
              e.key in m && m[e.key] == e.value && GetSlot(hashOf(e.key), |t|) < p
              && HasKey(t[GetSlot(hashOf(e.key), |t|)], e.key)
    ensures forall i, j :: 0 <= i < p && 0 <= j < |t[i]| ==> Occurs(Flatten(t[..p]), t[i][j])
  {
    PrefixAgrees(t, m, hashOf, p);
    PrefixDistinct(t, m, hashOf, p);
    PrefixComplete(t, p);
  }

  lemma {:induction false} PrefixAgrees<K, V>(t: seq<seq<HashEntry<K, V>>>, m: map<K, V>, hashOf: K -> int, p: int)
    requires TableInv(t, m, hashOf)
    requires 0 <= p <= |t|
    ensures forall a :: 0 <= a < |Flatten(t[..p])| ==>
              var e := Flatten(t[..p])[a];
              e.key in m && m[e.key] == e.value && GetSlot(hashOf(e.key), |t|) < p
              && HasKey(t[GetSlot(hashOf(e.key), |t|)], e.key)
    decreases p
  {
    if p > 0 {
      PrefixAgrees(t, m, hashOf, p - 1);
      assert t[..p][..p - 1] == t[..p - 1];
      var pre := Flatten(t[..p - 1]);
      var c := t[p - 1];
      var es := pre + c;
      assert Flatten(t[..p]) == es;
      assert ChainInv(c, p - 1, |t|, m, hashOf);
      forall a | 0 <= a < |es|
        ensures es[a].key in m && m[es[a].key] == es[a].value && GetSlot(hashOf(es[a].key), |t|) < p
                && HasKey(t[GetSlot(hashOf(es[a].key), |t|)], es[a].key)
      {
        if a >= |pre| {
          assert es[a] == c[a - |pre|];
          assert c[a - |pre|].key == es[a].key;
        } else {
          assert es[a] == pre[a];
        }
      }
    }
  }

  lemma {:induction false} PrefixDistinct<K, V>(t: seq<seq<HashEntry<K, V>>>, m: map<K, V>, hashOf: K -> int, p: int)
    requires TableInv(t, m, hashOf)
    requires 0 <= p <= |t|
    ensures Distinct(Flatten(t[..p]))
    decreases p
  {
    if p > 0 {
      PrefixDistinct(t, m, hashOf, p - 1);
      PrefixAgrees(t, m, hashOf, p - 1);
      assert t[..p][..p - 1] == t[..p - 1];
      var pre := Flatten(t[..p - 1]);
      var c := t[p - 1];
      var es := pre + c;
      assert Flatten(t[..p]) == es;
      assert ChainInv(c, p - 1, |t|, m, hashOf);
      forall a, b | 0 <= a < b < |es|
        ensures es[a].key != es[b].key
      {
        if a < |pre| && b >= |pre| {
          assert es[a] == pre[a];
          assert es[b] == c[b - |pre|];
        } else if a >= |pre| {
          assert es[a] == c[a - |pre|] && es[b] == c[b - |pre|];
        } else {
          assert es[a] == pre[a] && es[b] == pre[b];
        }
      }
    }
  }

  lemma {:induction false} PrefixComplete<K, V>(t: seq<seq<HashEntry<K, V>>>, p: int)
    requires 0 <= p <= |t|
    ensures forall i, j :: 0 <= i < p && 0 <= j < |t[i]| ==> Occurs(Flatten(t[..p]), t[i][j])
    decreases p
  {
    if p > 0 {
      PrefixComplete(t, p - 1);
      assert t[..p][..p - 1] == t[..p - 1];
      var pre := Flatten(t[..p - 1]);
      var es := pre + t[p - 1];
      assert Flatten(t[..p]) == es;
      forall i, j | 0 <= i < p && 0 <= j < |t[i]|
        ensures Occurs(es, t[i][j])
      {
        if i == p - 1 {
          assert es[|pre| + j] == t[i][j];
        } else {
          assert Occurs(pre, t[i][j]);
          var a :| 0 <= a < |pre| && pre[a] == t[i][j];
          assert es[a] == t[i][j];
        }
      }
    }
  }
}
