# ts-data-collections, modelled in Dafny

This project models the core of the TypeScript collections library
ts-data-collections and proves properties of that model.

- **The hash map engine.** `HashMap` keeps a prime-sized slot array of singly linked chains. Each entry caches its key's hash. Slot selection normalises negative remainders. `put` appends new keys to the chain end and grows the table by a load factor. `removeEntry` and `filterEntries` unlink entries in place. Every access is reported to a `recordAccess` hook.
- **The `IMap` contract around it.** This covers `get`, `containsKey` and `containsValue`, the `offer` / `handleOverflow` admission protocol of a capacity-bound map, the filter, replace and transform passes, and `equals`.
- **Capacity.** `CapacityMixin` and the capacity queries of `AbstractCollection` (`isEmpty`, `isFull`, `remaining`), with the bulk `add*`/`offer*` protocols built on them.
- **`PriorityQueue`.** A binary min-heap in an array prefix: `heapifyUp`, `heapifyDown`, `heapify`, `poll`, `removeMatchingItem` and `filter`. It also has the queue protocol of `AbstractQueue`.
- **`Stack`.** `push`, `pop`, `trySwap` and `swap`.
- **Lists.** The array-backed list `BaseArrayList`, including its `filter` / `compact` pass, and the sentinel-headed `LinkedList` with its bidirectional list iterator.
- **Utilities.** `bsearch`, the iterator helpers `take`, `seedToIterator` and `arrayLikeToIterator`, and the FNV-1a and cyrb53 streaming hashers.

One module per component, one file each:

| file | module | models |
|---|---|---|
| common.dfy | Common | `Option`, `Result`, the library's exceptions, `Keep` (what a filter leaves), `FirstMatch` (what a predicate scan finds) |
| capacity.dfy | Capacity | src/utils/capacity_mixin.ts, capacity queries of src/collections/abstract_collection.ts |
| comparators.dfy | Comparators | the comparator laws the ordered code relies on, the default comparator |
| bsearch.dfy | BinarySearch | src/utils/bsearch.ts |
| hasher.dfy | Hashing | src/utils/hash/hasher.ts |
| hashtables.dfy | HashTables | the chained table of src/maps/hash_map.ts as a value, with its representation invariant |
| hashmaps.dfy | HashMaps | src/maps/hash_map.ts and src/maps/map.ts |
| priorityqueue.dfy | PriorityQueues | src/queues/priority_queue.ts, src/abstract_queue.ts |
| collections.dfy | Collections | src/collections/abstract_collection.ts |
| stacks.dfy | Stacks | src/stacks/stack.ts over src/abstract_queue.ts |
| iterators.dfy | Iterators | src/utils/iterators.ts |
| arraylists.dfy | ArrayLists | src/lists/base_array_list.ts |
| linkedlists.dfy | LinkedLists | src/lists/linked_list.ts |

State that the source updates in place lives in classes with `modifies` clauses:

- **The hash map.** An `array` of chains, its size, and two ghost fields: the map it represents and the log of `recordAccess` calls.
- **The heap.** The live prefix of the buffer.
- **The lists and the stack.** Their element sequences.
- **The linked-list iterator.** Its cursor, last result and remaining count.
- **A hasher.** Its state words.

Each method is proved against a specification:

- `contents` for the map, with the table invariant `TableInv`;
- `IsHeap` and the multiset of the heap;
- `Keep` for the filters;
- `Yields` for the iterator;
- `Feed` / `Digest` for the hashers.

## Model

| member | source | states |
|---|---|---|
| Common.FirstMatch | src/queues/priority_queue.ts:117-119 | the index of the first element a predicate accepts, or the length: every earlier element is refused |
| Common.KeepShorter | src/queues/priority_queue.ts:130-146 | a filter drops something exactly when some element fails the predicate, and drops nothing otherwise |
| Capacity.InitCapacity | src/utils/capacity_mixin.ts:13-14 | a numeric argument or a `capacity` option is floored; no argument or no option gives an unbounded capacity, and only then |
| Capacity.BuildOptions | src/utils/capacity_mixin.ts:21-28 | the options record the capacity exactly when it is finite, and pass the subclass's entries through |
| Capacity.BuildOptionsRoundTrip | src/utils/capacity_mixin.ts:13-28 | a container built from another's options gets the same capacity |
| Capacity.Remaining | src/collections/abstract_collection.ts:20-22 | `remaining` is capacity minus size, unbounded when the capacity is |
| Capacity.IsEmpty | src/collections/abstract_collection.ts:12-14 | an empty container has its whole capacity remaining |
| Capacity.IsFull | src/collections/abstract_collection.ts:16-18 | a full container has a finite capacity and cannot take one more item within it |
| Capacity.FullIffNothingRemains | src/collections/abstract_collection.ts:16-22 | `isFull` holds exactly when fewer than one slot remains |
| Capacity.AddOneWithinCapacity | src/collections/abstract_collection.ts:16-18 | adding to a container that is not full stays within its capacity |
| Capacity.RemoveOneMakesRoom | src/collections/abstract_collection.ts:16-18 | a non-empty full container within its capacity is no longer full after one removal |
| Capacity.Admits | src/abstract_queue.ts:21-28 | how many of `k` items a one-at-a-time offer loop takes: all of them when they fit or the capacity is unbounded, and otherwise as many as make the container full |
| Comparators.DefaultCompareIsComparator | src/queues/priority_queue.ts:28 | the default `(a, b) => a < b ? -1 : a > b ? 1 : 0` obeys the comparator laws |
| Comparators.LessThenAtMost | src/queues/priority_queue.ts:61-99 | under the comparator laws, a < b and b <= c give a < c |
| Comparators.AtMostThenLess | src/utils/bsearch.ts:7-17 | under the comparator laws, a <= b and b < c give a < c |
| BinarySearch.ComplementInvolutive | src/utils/bsearch.ts:18 | `~~m == m`, so a negative result decodes to the insertion point |
| BinarySearch.Complement | src/utils/bsearch.ts:18 | `~x` swaps the non-negative numbers with the negative ones |
| BinarySearch.BSearch | src/utils/bsearch.ts:3-19 | a non-negative result indexes an element comparing equal; a negative one is `~m` with `0 <= m <= length`; on a sorted array with a lawful comparator, everything before `m` sorts before the sought element and everything from `m` on after it, and an equal element exists exactly when the result is non-negative |
| Hashing.FeedAppend | src/utils/hash/hasher.ts:72-101 | hashing is incremental: feeding `a` then `b` is feeding `a + b` |
| Hashing.FeedKeepsAlgorithm | src/utils/hash/hasher.ts:111-152 | updates never switch a hasher's algorithm |
| Hashing.Step | src/utils/hash/hasher.ts:121-124 | one `update` keeps the algorithm: FNV-1a stays FNV-1a, cyrb53 stays cyrb53 |
| Hashing.BytesFeed | src/utils/hash/hasher.ts:72-77 | `putBytes` feeds one number per byte, in order, each the byte's value |
| Hashing.BooleanFeed | src/utils/hash/hasher.ts:79-82 | `putBoolean` feeds exactly one number, 1 for true and 0 for false |
| Hashing.StringFeed | src/utils/hash/hasher.ts:84-89 | `putString` feeds one number per UTF-16 code unit, in order |
| Hashing.ToInt32 | src/utils/hash/hasher.ts:26-29 | or-ing with zero gives the signed 32-bit value congruent to `x` modulo 2^32 |
| Hashing.ToInt32Identity | src/utils/hash/hasher.ts:26-29 | or-ing with zero leaves an int32 unchanged |
| Hashing.Int32BE | src/utils/hash/hasher.ts:93-95 | `writeInt32BE` produces four bytes |
| Hashing.Int32BERoundTrip | src/utils/hash/hasher.ts:93-95 | reading back the four bytes `putNumber` writes for an int32 gives the number |
| Hashing.NumberFeed | src/utils/hash/hasher.ts:91-101 | `putNumber` on an int32 feeds its four big-endian bytes |
| Hashing.Unsigned | src/utils/hash/hasher.ts:132 | `w >>> 0` is below 2^32 |
| Hashing.Low21 | src/utils/hash/hasher.ts:132 | `2097151 & w` is below 2^21 |
| Hashing.Cyrb53Value | src/utils/hash/hasher.ts:132 | the cyrb53 result is a non-negative integer below 2^53 |
| Hashing.Digest | src/utils/hash/hasher.ts:126-151 | FNV-1a yields a 32-bit code whose value is the state reinterpreted as signed; cyrb53 yields a 53-bit code in [0, 2^53) |
| Hashing.Hasher.Fnv1a32 | src/utils/hash/hasher.ts:139-142 | the FNV offset basis 2166136261 is the initial state |
| Hashing.Hasher.Cyrb53 | src/utils/hash/hasher.ts:115-119 | the state words are the two seeds xor the given seed |
| Hashing.Hasher.Update | src/utils/hash/hasher.ts:121-124 | one step of the algorithm's update |
| Hashing.Hasher.PutBytes | src/utils/hash/hasher.ts:72-77 | the state is fed the bytes, in order |
| Hashing.Hasher.PutBoolean | src/utils/hash/hasher.ts:79-82 | the state is fed 1 or 0 |
| Hashing.Hasher.PutString | src/utils/hash/hasher.ts:84-89 | the state is fed the code units, in order |
| Hashing.Hasher.PutNumber | src/utils/hash/hasher.ts:91-101 | the state is fed the int32's big-endian bytes |
| Hashing.Hasher.Hash | src/utils/hash/hasher.ts:126-151 | the digest of the state, with the width and range of each algorithm |
| Hashing.StringsConcatenate | src/utils/hash/hasher.ts:84-89 | two `putString` calls hash like one on the concatenation |
| Hashing.StringFeedAppend | src/utils/hash/hasher.ts:84-89 | the code units of a concatenation are those of each part |
| Hashing.FnvTestVectors | src/utils/hash/hasher.ts:139-147 | the published FNV-1a vectors for "" (0x811c9dc5) and "a" (0xe40c292c) |
| HashTables.JsRemainder | src/maps/hash_map.ts:50 | JavaScript `%`: the result lies strictly between -n and n, equals the Euclidean residue for a non-negative dividend, and is never positive for a negative one |
| HashTables.GetSlot | src/maps/hash_map.ts:49-53 | the slot is always a valid index |
| HashTables.GetSlotIsResidue | src/maps/hash_map.ts:49-53 | the slot is the mathematical residue of the hash, whatever its sign |
| HashTables.SlotOfNegative | src/maps/hash_map.ts:50-51 | a negative remainder plus the table length is the residue |
| HashTables.LookupInSlot | src/maps/hash_map.ts:55-62 | an entry found in the key's slot is a binding of the map, with its value |
| HashTables.AppendPreserves | src/maps/hash_map.ts:73-83 | appending a new key's entry to the end of its chain represents the map extended by that binding |
| HashTables.PrependPreserves | src/maps/hash_map.ts:102-110 | pushing an entry onto the front of its slot (as `rehash` does) represents the extended map |
| HashTables.UpdatePreserves | src/maps/hash_map.ts:86-91 | overwriting an entry's value in place represents the map with that key rebound |
| HashTables.RemoveAtPreserves | src/maps/hash_map.ts:124-129 | unlinking an entry, at the head or mid-chain, represents the map without that key |
| HashTables.FlattenUpdate | src/maps/hash_map.ts:125-129 | replacing one chain changes the entry count by the difference in its length |
| HashTables.FlattenEmpty | src/maps/hash_map.ts:164-168 | a table of empty slots has no entries |
| HashTables.EmptyTable | src/maps/hash_map.ts:32-39 | a table of empty slots represents the empty map |
| HashTables.ScanFindsKey | src/maps/hash_map.ts:59 | the chain scan stops inside the chain exactly when the chain holds the key |
| HashTables.ScanResult | src/maps/hash_map.ts:55-62 | the scan of a key's slot stops inside the chain exactly when the key is bound, and then at its entry |
| HashTables.KeyInSlot | src/maps/hash_map.ts:49-62 | every bound key sits in the chain its hash selects |
| HashTables.DistinctKeysCount | src/maps/hash_map.ts:170-178 | entries with distinct keys have as many keys as entries |
| HashTables.FlattenRepresents | src/maps/hash_map.ts:170-178 | iterating the table yields exactly the bindings of the map, each once |
| HashTables.SubsetOfEqualSize | src/maps/map.ts:154 | a subset of equal size is the whole set |
| HashTables.SubmapOfEqualSize | src/maps/map.ts:151-159 | a map of equal size all of whose bindings belong to `m` is `m` |
| HashTables.PrefixFlatten | src/maps/hash_map.ts:170-178 | the entries of the first `p` slots are distinct bindings of the map, from those slots, and include all of theirs |
| HashTables.PrefixAgrees | src/maps/hash_map.ts:170-178 | each entry of the first `p` slots is a binding of the map whose key hashes below `p` |
| HashTables.PrefixDistinct | src/maps/hash_map.ts:170-178 | the entries of the first `p` slots have distinct keys |
| HashTables.PrefixComplete | src/maps/hash_map.ts:170-178 | every entry of the first `p` slots is yielded |
| HashMaps.CheckLoadFactor | src/maps/hash_map.ts:37-38 | a missing option gives the default 0.75; a factor at or below zero is refused with `InvalidLoadFactor`, and only such a factor |
| HashMaps.NewLength | src/maps/hash_map.ts:95-100 | the grown length is the largest prime once doubling reaches it, and otherwise at least double |
| HashMaps.FindInChain | src/maps/hash_map.ts:59 | the scan stops at the first entry with the key's hash and an equal key, or at the chain's end |
| HashMaps.MoveOne | src/maps/hash_map.ts:104-110 | moving one entry during `rehash` adds a key not moved before, from the slot being emptied |
| HashMaps.MovedChain | src/maps/hash_map.ts:102-111 | once a whole chain is moved, the moved keys come from slots up to it |
| HashMaps.MoveChain | src/maps/hash_map.ts:103-110 | pushing every entry of one old chain onto its new slot keeps the new table a representation of the keys moved so far, one more per entry |
| HashMaps.Redistribute | src/maps/hash_map.ts:101-112 | the fresh table of the new length represents the same map |
| HashMaps.FilterEnter | src/maps/hash_map.ts:142-144 | entering a slot of the filter pass leaves its whole chain pending |
| HashMaps.FilterKeep | src/maps/hash_map.ts:155-157 | keeping an accepted entry moves the cursor on and keeps the pass's invariant |
| HashMaps.FilterDrop | src/maps/hash_map.ts:146-154 | unlinking a refused entry removes exactly its key and keeps the pass's invariant |
| HashMaps.FilterDone | src/maps/hash_map.ts:140-162 | after the last slot, exactly the accepted bindings remain |
| HashMaps.RemoveAccesses | src/maps/hash_map.ts:152 | one REMOVE access per removed key, in order |
| HashMaps.RemovedOneMore | src/maps/hash_map.ts:146-154 | the keys reported removed are exactly those gone from the map |
| HashMaps.RemoveAccessesSnoc | src/maps/hash_map.ts:152 | one more removal appends one REMOVE access |
| HashMaps.RemoveAccessesAppend | src/maps/hash_map.ts:142-160 | the REMOVE accesses of consecutive slots concatenate |
| HashMaps.ReplaceEnter | src/maps/map.ts:111-114 | entering a slot of the replacement pass leaves its whole chain pending |
| HashMaps.ReplaceStep | src/maps/map.ts:113-114 | the entry under the cursor still holds its original value, and afterwards holds its new one |
| HashMaps.ReplaceDone | src/maps/map.ts:111-116 | after the last slot, every accepted binding holds its mapped value and the rest are unchanged |
| HashMaps.KeyIndex | src/maps/hash_map.ts:67-72 | the position of a key's entry in a chain, absent exactly when the chain lacks the key |
| HashMaps.LinkAsWritten | src/maps/hash_map.ts:66-83 | with no `prev` the entry becomes the chain; with `prev` gone from the current chain the link writes nowhere and the chain is unchanged; otherwise the entry is hung right after `prev` |
| HashMaps.LinkAsWrittenAppends | src/maps/hash_map.ts:79-83 | when the overflow handler evicted no chain tail, `prev.next = e` appends to the current chain |
| HashMaps.EvictedTailLosesEntry | src/maps/hash_map.ts:67-83 | when the handler evicted the last entry of the new key's own chain (of any length, keys distinct), the entry linked as written is lost: the chain stays as it was after eviction and lacks the key, while appending would hold it |
| HashMaps.HashMap.constructor | src/maps/hash_map.ts:32-39 | an empty map of `nextPrime(5)` slots, with the given load factor and the capacity the mixin fixes |
| HashMaps.HashMap.Create | src/maps/hash_map.ts:32-43 | construction fails with `InvalidLoadFactor` exactly when the load factor is refused, and otherwise yields an empty map |
| HashMaps.HashMap.IsFull | src/maps/map.ts:31-34 | a full map cannot take one more entry within its capacity |
| HashMaps.HashMap.GetEntry | src/maps/hash_map.ts:55-62 | an entry is found exactly when the key is bound, and carries its value and cached hash; a hit logs one GET |
| HashMaps.HashMap.Get | src/maps/map.ts:23-25 | the bound value, if any; a hit logs one GET |
| HashMaps.HashMap.ContainsKey | src/maps/map.ts:56-58 | true exactly when the key is bound |
| HashMaps.HashMap.RemoveEntry | src/maps/hash_map.ts:115-134 | the key is unbound and its entry returned exactly when it was bound; size follows; one REMOVE is logged |
| HashMaps.HashMap.Remove | src/maps/hash_map.ts:136-138 | the removed value, and the map without the key |
| HashMaps.HashMap.Unlink | src/maps/hash_map.ts:124-131 | one entry unlinked, counted out and reported as REMOVE |
| HashMaps.HashMap.FilterAt | src/maps/hash_map.ts:145-158 | one step of the filter pass keeps its invariant and reports what it unlinked |
| HashMaps.HashMap.FilterSlot | src/maps/hash_map.ts:143-159 | one slot of the filter pass |
| HashMaps.HashMap.FilterEntries | src/maps/hash_map.ts:140-162 | the map is restricted to the accepted bindings; the count is the number removed; each removed key is logged as REMOVE |
| HashMaps.HashMap.FilterKeys | src/maps/map.ts:69-71 | exactly the bindings whose key is accepted remain |
| HashMaps.HashMap.FilterValues | src/maps/map.ts:73-75 | exactly the bindings whose value is accepted remain |
| HashMaps.HashMap.Clear | src/maps/hash_map.ts:164-168 | the map is empty, the table keeps its length, nothing is logged |
| HashMaps.HashMap.Entries | src/maps/hash_map.ts:170-178 | the entries in bucket order: as many as the size, distinct keys, exactly the bindings of the map |
| HashMaps.HashMap.ContainsValue | src/maps/map.ts:60-65 | true exactly when some key is bound to the value |
| HashMaps.HashMap.ReplaceAt | src/maps/map.ts:113-114 | one step of the replacement pass keeps its invariant |
| HashMaps.HashMap.ReplaceSlot | src/maps/map.ts:112-114 | one slot of the replacement pass |
| HashMaps.HashMap.ReplaceValueIf | src/maps/map.ts:111-116 | accepted bindings get their value mapped; keys, size and the log are unchanged |
| HashMaps.HashMap.TransformValues | src/maps/map.ts:118-121 | every value is mapped; keys, size and the log are unchanged |
| HashMaps.HashMap.HandleOverflow | src/maps/map.ts:31-36 | a map with room admits without asking; a full map lets the handler discard the binding, and throws `OverflowException` if it is still full afterwards |
| HashMaps.HashMap.Rehash | src/maps/hash_map.ts:94-113 | a fresh table of the grown length represents the same map, with the same size and log |
| HashMaps.HashMap.SetValueAt | src/maps/hash_map.ts:87-88 | the entry's value is overwritten in place and the key rebound |
| HashMaps.HashMap.Link | src/maps/hash_map.ts:76-83 | a new key's entry is appended to its chain and counted |
| HashMaps.HashMap.Put | src/maps/hash_map.ts:64-92 | an existing key is rebound in place, returning the old value and logging MODIFY, with the table kept; a new key goes through the overflow protocol: it is inserted with INSERT logged, discarded, refused with `OverflowException`, or inserted after an eviction; a branch that inserts replaces the table by one of the growth length exactly when the old length times the load factor is below the new size, and every other branch keeps the table |
| HashMaps.HashMap.PutNew | src/maps/hash_map.ts:73-85 | the new-key branch: the overflow outcome decides between inserting, discarding, refusing and evicting, and the table grows only after an insertion that overloads it |
| HashMaps.HashMap.LinkAndGrow | src/maps/hash_map.ts:75-84 | the new entry is bound and counted, and the table is replaced by one of the growth length exactly when the old length times the load factor is below the new size, and kept otherwise |
| HashMaps.HashMap.Overloading | src/maps/hash_map.ts:84 | with a positive load factor, only a nonempty map is ever grown |
| HashMaps.HashMap.Offer | src/maps/map.ts:38-52 | a full map writes nothing, accepting a key it holds (reporting its value) and refusing a new one; a map with room puts and reports the previous value |
| HashMaps.HashMap.LooksUpAll | src/maps/map.ts:155-157 | true exactly when every given binding is a binding of this map; only GETs are logged |
| HashMaps.HashMap.Equals | src/maps/map.ts:151-159 | true exactly when the other value is a map with the same bindings (a symmetric relation, unlike the code as written on maps storing `undefined`); this map is unchanged |
| HashMaps.GetOrUndefined | src/maps/map.ts:23-25 | `get` yields the stored value for a bound key and `undefined` for an absent one |
| HashMaps.EqualsAsWritten | src/maps/map.ts:151-159 | `equals` as written, on maps that may store `undefined`: every map equals itself |
| HashMaps.EqualsAsWrittenWithoutUndefined | src/maps/map.ts:154-158 | while this map stores no `undefined`, the size check plus the per-binding `get` test is exactly equality of the two maps |
| HashMaps.EqualsAsWrittenAsymmetric | src/maps/map.ts:154-158 | `{a: undefined}` equals `{b: w}` as written, `{b: w}` does not equal `{a: undefined}`, and the two maps differ |
| PriorityQueues.ChildrenOfParent | src/queues/priority_queue.ts:47-53 | both children of `i` have `i` as parent, and only they do |
| PriorityQueues.Parent | src/queues/priority_queue.ts:47-49 | the root has parent -1; any other index is the left or right child of its parent |
| PriorityQueues.LeftChild | src/queues/priority_queue.ts:51-53 | a left child is odd and comes after its parent |
| PriorityQueues.ParentBefore | src/queues/priority_queue.ts:47-49 | a parent index is a valid index before its child |
| PriorityQueues.Swap | src/queues/priority_queue.ts:55-59 | exchanging two slots is a permutation that changes only those slots |
| PriorityQueues.Reflexive | src/queues/priority_queue.ts:61-99 | a lawful comparator compares a value equal to itself |
| PriorityQueues.RootIsMin | src/queues/priority_queue.ts:101-104 | in a heap the root sorts no later than any slot |
| PriorityQueues.RootIsMinimum | src/queues/priority_queue.ts:101-104 | the root of a heap is a minimum of its elements |
| PriorityQueues.UpStep | src/queues/priority_queue.ts:61-73 | one swap of `heapifyUp` moves the disorder one level up |
| PriorityQueues.UpDone | src/queues/priority_queue.ts:61-73 | `heapifyUp` stops with a heap |
| PriorityQueues.UpToDown | src/queues/priority_queue.ts:125 | when `heapifyUp` moves nothing, only `heapifyDown`'s repair is left |
| PriorityQueues.DownStep | src/queues/priority_queue.ts:75-99 | one swap of `heapifyDown` with the smallest child moves the disorder down |
| PriorityQueues.SmallestIsMin | src/queues/priority_queue.ts:77-92 | the index `heapifyDown` selects sorts no later than the node and its children |
| PriorityQueues.Smallest | src/queues/priority_queue.ts:76-92 | the pick is the node or one of its children; the left child is picked only when it sorts strictly before the node, the right only when it sorts strictly before the node or before a left child that does |
| PriorityQueues.DownDone | src/queues/priority_queue.ts:75-99 | `heapifyDown` stops with its subtree in order |
| PriorityQueues.ReplaceByLast | src/queues/priority_queue.ts:120-126 | moving the last element into a removed slot leaves only `heapifyUp`'s repair at that slot |
| PriorityQueues.DropLast | src/queues/priority_queue.ts:106-114 | dropping the last slot keeps a heap |
| PriorityQueues.DropAtMultiset | src/queues/priority_queue.ts:106-128 | dropping a slot removes exactly its element |
| PriorityQueues.DropAt | src/queues/priority_queue.ts:121-124 | after the drop, the slots before it are unchanged and the dropped slot holds the former last element |
| PriorityQueues.FilterDropStep | src/queues/priority_queue.ts:137-141 | dropping a rejected element leaves the same multiset still to keep |
| PriorityQueues.FilterKeepStep | src/queues/priority_queue.ts:135-136 | keeping an accepted element moves it from the pending part to the kept part |
| PriorityQueues.EmptyIsHeap | src/queues/priority_queue.ts:16-29 | an empty buffer is a heap |
| PriorityQueues.PriorityQueue.constructor | src/queues/priority_queue.ts:16-29 | an empty queue with the given comparator and capacity |
| PriorityQueues.PriorityQueue.HeapifyUp | src/queues/priority_queue.ts:61-73 | a permutation that restores the heap; when it reports nothing moved, the buffer is unchanged and the element sorts no earlier than its parent |
| PriorityQueues.PriorityQueue.HeapifyDown | src/queues/priority_queue.ts:75-99 | a permutation that leaves every edge of the subtree in order |
| PriorityQueues.PriorityQueue.Heapify | src/queues/priority_queue.ts:173-175 | any buffer becomes a heap with the same elements |
| PriorityQueues.PriorityQueue.Offer | src/queues/priority_queue.ts:39-45 | accepted exactly when not full, and then the heap holds one more element, the item |
| PriorityQueues.PriorityQueue.Peek | src/queues/priority_queue.ts:101-104 | nothing exactly when empty, else an element sorting no later than any other |
| PriorityQueues.PriorityQueue.Poll | src/queues/priority_queue.ts:106-114 | nothing exactly when empty, else removes one minimum element |
| PriorityQueues.PriorityQueue.RemoveMatchingItem | src/queues/priority_queue.ts:116-128 | removes exactly the first element in buffer order the predicate accepts, or nothing when none does |
| PriorityQueues.PriorityQueue.DropRejected | src/queues/priority_queue.ts:131-143 | leaves exactly the accepted elements, reporting whether any went |
| PriorityQueues.PriorityQueue.Filter | src/queues/priority_queue.ts:130-146 | leaves exactly the accepted elements, as a heap, and reports true exactly when some element was rejected |
| PriorityQueues.PriorityQueue.Clear | src/queues/priority_queue.ts:148-151 | the queue is empty |
| PriorityQueues.PriorityQueue.Add | src/abstract_queue.ts:10-12 | `OverflowException` exactly when full, else the item joins |
| PriorityQueues.PriorityQueue.OfferFully | src/abstract_queue.ts:14-19 | nothing when the items do not fit, else all of them, and their count |
| PriorityQueues.PriorityQueue.OfferPartially | src/abstract_queue.ts:21-28 | the first `Admits` items join and their count is returned |
| PriorityQueues.PriorityQueue.Remove | src/abstract_queue.ts:32-35 | `UnderflowException` exactly when empty, else removes one minimum |
| PriorityQueues.PriorityQueue.Element | src/abstract_queue.ts:40-43 | `UnderflowException` exactly when empty, else a minimum |
| Collections.FirstEqualFound | src/collections/abstract_collection.ts:41-43 | an `===` scan finds an item exactly when it is an element |
| Collections.BoundedCollection.constructor | src/collections/abstract_collection.ts:125 | an empty collection with the capacity the mixin fixes |
| Collections.BoundedCollection.Offer | src/collections/abstract_collection.ts:37 | the bounded-list `offer`: true exactly when not full, and then the item is appended |
| Collections.BoundedCollection.RemoveMatchingItem | src/collections/abstract_collection.ts:39 | the bounded-list `removeMatchingItem`: nothing exactly when no element is accepted, else the first accepted element is removed and returned |
| Collections.BoundedCollection.Add | src/collections/abstract_collection.ts:32-35 | `OverflowException` exactly when full, else appended and true |
| Collections.BoundedCollection.RemoveItem | src/collections/abstract_collection.ts:41-43 | true exactly when the item was an element, and then its first occurrence is gone |
| Collections.BoundedCollection.AddFully | src/collections/abstract_collection.ts:71-75 | `OverflowException`, with nothing added, exactly when the items do not fit; else all are added |
| Collections.BoundedCollection.AddPartially | src/collections/abstract_collection.ts:77-87 | the first `Admits` items are added; it succeeds exactly when they all were, and otherwise throws `OverflowException` keeping what was added |
| Collections.BoundedCollection.OfferFully | src/collections/abstract_collection.ts:89-93 | nothing when the items do not fit, else all of them |
| Collections.BoundedCollection.OfferPartially | src/collections/abstract_collection.ts:95-104 | the first `Admits` items are appended and counted |
| Stacks.Stack.Offer | src/stacks/array_stack.ts:39-41 | true exactly when not full, and then the item is the new top |
| Stacks.Stack.Poll | src/stacks/array_stack.ts:43-45 | nothing exactly when empty, else the top is removed and returned |
| Stacks.Stack.Peek | src/stacks/array_stack.ts:47-49 | nothing exactly when empty, else the top |
| Stacks.Stack.Push | src/stacks/stack.ts:9-11 | `OverflowException` exactly when full, else the item is the new top |
| Stacks.Stack.TryPush | src/stacks/stack.ts:13-15 | true exactly when not full, and then the item is the new top |
| Stacks.Stack.Pop | src/stacks/stack.ts:17-19 | `UnderflowException` exactly when empty, else the top is removed and returned |
| Stacks.Stack.Element | src/abstract_queue.ts:40-43 | `UnderflowException` exactly when empty, else the top |
| Stacks.Stack.TrySwap | src/stacks/stack.ts:21-30 | true exactly when there are two elements or more, and then the top two are exchanged; otherwise nothing changes |
| Stacks.Stack.Swap | src/stacks/stack.ts:32-34 | `UnderflowException` exactly when fewer than two elements, else the top two are exchanged |
| Stacks.SwapTop | src/stacks/stack.ts:21-30 | the top two exchanged, everything below untouched |
| Stacks.SwapTwiceRestores | src/stacks/stack.ts:21-30 | swapping twice restores the stack |
| Iterators.Take | src/utils/iterators.ts:3-8 | `take(n)` yields a prefix of the source, of length `min(max(n, 0), available)` |
| Iterators.TakeTake | src/utils/iterators.ts:3-8 | taking `m` of the first `n` is taking the first `min(m, n)` |
| Iterators.Source.Next | src/utils/iterators.ts:5 | the next item, or done once the source is exhausted |
| Iterators.TakeFrom | src/utils/iterators.ts:3-8 | the items taken are `Take(n, …)` of the source, and the source is left at the first item not taken |
| Iterators.SeedToIterator | src/utils/iterators.ts:11-15 | `max(n, 0)` items, the `i`-th being `seed(i)` |
| Iterators.TakeSeeded | src/utils/iterators.ts:3-15 | truncating a seeded sequence is seeding fewer items |
| Iterators.ArrayLikeToIterator | src/utils/iterators.ts:17-28 | a function seed is called for each index, an iterator or iterable seed is cut to `length`, and anything else is an error, and only that |
| ArrayLists.Compact | src/lists/base_array_list.ts:123-137 | exactly the present slots survive, in order, and the shift is the number dropped |
| ArrayLists.Wrap | src/lists/base_array_list.ts:109-121 | every element as a present slot |
| ArrayLists.Unwrap | src/lists/base_array_list.ts:109-121 | the values of all-present slots, inverse to `Wrap` |
| ArrayLists.Mark | src/lists/base_array_list.ts:112-118 | the marking pass keeps the list's length |
| ArrayLists.CompactMarked | src/lists/base_array_list.ts:109-137 | compacting the marked slots leaves exactly the accepted elements |
| ArrayLists.FilterAsWritten | src/lists/base_array_list.ts:109-137 | as written: with nothing rejected the list is unchanged, and once anything is rejected no `undefined` slot survives, including the user's own |
| ArrayLists.FilterAsWrittenDropsUndefined | src/lists/base_array_list.ts:109-137 | `[undefined, x]` filtered by "is not x" reports one removal but leaves `[]`, where the accepted elements are `[undefined]` |
| ArrayLists.ArrayList.OfferAt | src/lists/base_array_list.ts:17-22 | false when full, checked before the index; `IndexOutOfBounds` outside `[0, size]`; else the item is inserted at the index |
| ArrayLists.ArrayList.RemoveAt | src/lists/base_array_list.ts:24-27 | `IndexOutOfBounds` outside `[0, size)`, else the element is removed and returned, the rest keeping their order |
| ArrayLists.ArrayList.OfferLast | src/lists/base_array_list.ts:29-35 | true exactly when not full, and then the item is appended |
| ArrayLists.ArrayList.RemoveFirst | src/lists/base_array_list.ts:37-40 | `UnderflowException` exactly when empty, else the first element is removed and returned |
| ArrayLists.ArrayList.RemoveLast | src/lists/base_array_list.ts:42-45 | `UnderflowException` exactly when empty, else the last element is removed and returned |
| ArrayLists.ArrayList.GetAt | src/lists/base_array_list.ts:47-50 | the element at the index, and `IndexOutOfBounds` exactly outside the list |
| ArrayLists.ArrayList.SetAt | src/lists/base_array_list.ts:52-57 | returns what `GetAt` returned before; only that position changes |
| ArrayLists.ArrayList.RemoveRange | src/lists/base_array_list.ts:90-95 | exactly `[start, end)` is deleted, with `end` defaulting to the size; a range outside the list is `IndexOutOfBounds` |
| ArrayLists.ArrayList.Clear | src/lists/base_array_list.ts:97-100 | the list is empty |
| ArrayLists.ArrayList.Filter | src/lists/base_array_list.ts:109-121 | exactly the accepted elements remain, in order, and the count is the number removed |
| LinkedLists.After | src/lists/linked_list.ts:33 | the successor of a ring node is a ring node |
| LinkedLists.Before | src/lists/linked_list.ts:35 | the predecessor of a ring node is a ring node |
| LinkedLists.AfterBefore | src/lists/linked_list.ts:29-38 | `after` and `before` are inverse on the ring |
| LinkedLists.YieldsForward | src/lists/linked_list.ts:113-122 | a forward iterator yields the next `count` entries in list order, or those up to the end |
| LinkedLists.YieldsBackward | src/lists/linked_list.ts:113-122 | a backward iterator yields the entries from the cursor down to the first, at most `count` of them |
| LinkedLists.YieldsAfterRemove | src/lists/linked_list.ts:123-130 | unlinking the entry last returned does not change what the iterator still yields |
| LinkedLists.YieldsAfterSet | src/lists/linked_list.ts:131-136 | changing the value last returned does not change what the iterator still yields |
| LinkedLists.LinkedList.GetEntryAt | src/lists/linked_list.ts:29-38 | either walk reaches the entry at the index (the header at the size), in `min(idx + 1, size - idx)` steps |
| LinkedLists.LinkedList.GetAt | src/lists/linked_list.ts:40-44 | the value at the index, and `IndexOutOfBounds` exactly outside the list |
| LinkedLists.LinkedList.GetFirst | src/lists/linked_list.ts:46-49 | `UnderflowException` exactly when empty, else the first value |
| LinkedLists.LinkedList.GetLast | src/lists/linked_list.ts:51-54 | `UnderflowException` exactly when empty, else the last value |
| LinkedLists.LinkedList.OfferAt | src/lists/linked_list.ts:56-64 | false when full, checked first; `IndexOutOfBounds` outside `[0, size]`; else the item is inserted at the index and the size grows |
| LinkedLists.LinkedList.SetAt | src/lists/linked_list.ts:66-72 | returns the old value; only that position changes |
| LinkedLists.LinkedList.RemoveAt | src/lists/linked_list.ts:74-80 | the entry at the index is unlinked and its value returned; the others keep their order and the size shrinks |
| LinkedLists.LinkedList.OfferLast | src/lists/linked_list.ts:82-88 | true exactly when not full, and then the item is the new tail |
| LinkedLists.LinkedList.Clear | src/lists/linked_list.ts:90-94 | the list is empty, with size zero |
| LinkedLists.ListIter.constructor | src/lists/linked_list.ts:102-112 | the iterator starts at the entry at `start`, with no last result, and will yield `Yields(values, start, count, forward)` |
| LinkedLists.ListIter.Next | src/lists/linked_list.ts:113-122 | done exactly when nothing is pending, and then changes nothing; otherwise returns the first pending value, which becomes the last result |
| LinkedLists.ListIter.Remove | src/lists/linked_list.ts:123-130 | `NoLastResult` exactly when there is no last result; else that entry is unlinked and returned, the last result is cleared, and what is pending is unchanged |
| LinkedLists.ListIter.SetValue | src/lists/linked_list.ts:131-136 | `NoLastResult` exactly when there is no last result; else its value is replaced and the old one returned, and what is pending is unchanged |

## Left out

- Floating point is not modelled: load factors and capacities are reals or integers, and `putNumber` is modelled only for safe integers in the int32 range. The 8-byte `writeDoubleBE` branch is left out.
- `hashAny`, `equalsAny`, `nextPrime` and `LARGEST_PRIME` are not part of this model. They are parameters of the map: a hash function, Dafny equality, a function assumed never to return less than its argument, and a positive constant.
- The `overflowHandler` of subclasses (the LinkedHashMap eviction order) is not part of this model. Each call takes an outcome parameter: decline, discard, or evict one key.
- `recordAccess` is a ghost log of (key, kind) pairs. The entry objects it receives are not modelled.
- HashMaps.HashMap.FilterEntries: the REMOVE accesses are stated per removed key, in the order removed. The slot order of that sequence is not stated.
- HashMaps.HashMap.Offer: `previous != null` is modelled as "a previous value exists". A stored `null` or `undefined` value is not distinguished.
- `putAll`, `clone`, `mapValues`, `toMap`, `hashCode`, `toJSON` and `buildMap` / `buildCollection` are left out. They are construction plumbing and formatting over the modelled operations.
- The constructor of `HashMap` is split in two: `HashMap.Create` checks the load factor, and the constructor assumes it positive.
- Chains are sequences of entry values, not linked node objects, so aliasing of entries outside the map is not modelled. `HashMaps.LinkAsWritten` models the one place where node identity matters.
- PriorityQueues.Parent, PriorityQueues.LeftChild: the 32-bit `>>` and `<<` are modelled as exact division and multiplication. They agree for every index below 2^30.
- BinarySearch.BSearch: the comparator is a required parameter; the default `Comparators.defaultComparator` that `compare ??=` supplies is modelled by `Comparators.DefaultCompare`, to be passed explicitly. The 32-bit `(n + m) >> 1` is modelled as exact halving; the two agree while `n + m < 2^31`.
- Hashing.Hasher.Cyrb53: the seed is a required parameter; the source's default `seed = 0` is the call with seed 0.
- ArrayLists.Compact: `compact(cursor?)` is modelled for its one use, from `filter`, which passes no cursor, so the scan starts at 0; a nonzero starting cursor is not modelled.
- The comparator is assumed to obey the comparator laws (`IsComparator`). With an inconsistent comparator the heap properties are not claimed.
- `PriorityQueue` has its `capacity` as a constructor parameter. The mixin that would supply it is not among the modelled files.
- `AbstractCollection.offer` and `removeMatchingItem` are abstract. `BoundedCollection` instantiates them as a bounded list: `offer` appends and the first match is removed.
- Collections.BoundedCollection.RemoveItem: elements that are `null` or `undefined` are not modelled. For such an element the source tests `!= null` on the removed value, so it reports false even when it removed one.
- `Stack.offer`, `poll` and `peek` are abstract. They are instantiated as in `ArrayStack`: the top is the last element.
- Iterators.Steps: a non-integer `n` in `take` and `seedToIterator` is not modelled. Only integer counts are.
- Generators are modelled by the finite sequence they would yield. Infinite iterators and laziness are not modelled.
- `toIterator` is left out.
- The list bound checkers `checkListBound`, `checkListBoundForAdd` and `checkListBounds` are not part of this model. They are taken to throw `IndexOutOfBounds` exactly outside an element index, an insertion index, or a range inside the list.
- `sort`, `bsearch`, `insertSorted` and `shuffle` of `BaseArrayList` delegate to utilities outside this model and are left out. `toArray` is left out too.
- LinkedLists: nodes are named by their position on the ring, with the header after the last entry. Node objects, `DoubleLinkedList` and aliasing are not modelled.
- LinkedLists.ListIter: an iterator stays meaningful only while the list changes through it. A change made directly on the list while an iterator is open is not modelled.
- `listIterator` and `reverseListIterator` compute their bounds with helpers outside this model. The iterator is modelled from `getLinkedListIterator` with a given start, count and direction.
- The library throws a generic `Error` for an iterator without a last result and for a non-iterable seed. These are modelled as the `NoLastResult` and `NotIterable` errors.

Where the code and the library's description disagree, the model follows the code:

- **`clear` on a `HashMap`.** It empties every slot but keeps the table's length; it does not shrink the table back to its initial size.
- **`offer` on a full map whose key is already bound.** It does not write the new value; it reports the value already bound.

## Findings

| source | as written | input that shows it | evidently intended | confidence | as-written member | corrected member |
|---|---|---|---|---|---|---|
| src/maps/hash_map.ts:67-83 | `put` remembers `prev`, the last entry of the chain it scanned, before calling `handleOverflow`, and then links the new entry with `prev.next = e` | a full capacity-bound map whose overflow handler evicts entry `x`, where `x` is the last entry of the chain the new key hashes to (its only entry, say) | the new entry is appended to the chain as it stands after the handler ran, so it is reachable and `_size` counts it correctly | not executed | HashMaps.EvictedTailLosesEntry | HashMaps.HashMap.Put |
| src/lists/base_array_list.ts:109-137 | `filter` marks rejected slots with `undefined`, and `compact` drops every `undefined` slot | elements `[undefined, 1]` with predicate `x => x !== 1`: it returns 1 and leaves `[]` | it leaves the accepted `undefined` in place, so the result is `[undefined]` | not executed | ArrayLists.FilterAsWrittenDropsUndefined | ArrayLists.ArrayList.Filter |
| src/maps/map.ts:151-159 | `equals` tests each binding `k -> v` of this map with `equalsAny(v, other.get(k))`, and `get` returns `undefined` for an absent key | `{a: undefined}.equals({b: 1})`: same size, and `other.get('a')` is `undefined`, so it returns true, while `{b: 1}.equals({a: undefined})` returns false | two maps are equal exactly when they hold the same bindings, a symmetric relation | not executed | HashMaps.EqualsAsWrittenAsymmetric | HashMaps.HashMap.Equals |
