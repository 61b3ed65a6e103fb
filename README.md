# A verified model of the cse373-17au container library and search analyzers

This project models the sequential core of a small search engine written
over a hand-built container library. The model is written in Dafny and
every contract is proved.

**The containers**
- The two linear-scan array dictionaries: project1's with mutable pairs, and project2's with immutable `KVPair`s.
- The chained hash dictionary, whose buckets are project2 array dictionaries, and the hash set built on it.
- The doubly linked list.
- The 4-ary array min-heap.

**The client code**
- `Searcher.topKSort`.
- `PageRankAnalyzer.makeGraph`.
- The counting parts of `TfIdfAnalyzer`:
  - the document-frequency loop of `computeIdfScores`;
  - `computeTfScores`;
  - `computeAllDocumentTfIdfVectors`;
  - the default-to-zero lookups and the numerator of `computeRelevance`.

Each Java class whose fields change becomes a Dafny `class`:
- it keeps the same fields: arrays, `size` counters, and `prev`/`next` pointers;
- it has a ghost abstraction: a map, a sequence, a multiset or a set;
- a `Valid()` predicate holds its invariant;
- each method states its result and its new state in terms of that abstraction.

A Java exception becomes an `Err` or `Failed` outcome, so every error case is part of a contract.

Where several source operations work on one value, the model uses pure functions and lemmas. Examples:
- the bucket array's contents, a sequence of maps;
- the live prefix of a pair array;
- the term frequencies.

Module by module:

| module | models |
|---|---|
| `Outcomes` | the exceptions of the library as `Result`/`Status` outcomes, and Java `null` as `Option` where the source checks for it |
| `PairSeqs` | the live pairs of an array dictionary as a sequence with distinct keys, and the map it stands for |
| `KVPairDictionary` | project2 `ArrayDictionary` (immutable pairs, overwrite stores a new pair) |
| `MutablePairDictionary` | project1 `ArrayDictionary` (mutable `Pair` objects updated in place, `grow` copies every pair) |
| `HashCodes` | `hashValue`: `Math.abs(3 * hashCode % length)` with 32-bit wrap-around and Java's truncating `%` |
| `BucketMaps`, `ChainTables` | the bucket array as a sequence of maps: its union, its pair count, and the placement of each key in the bucket its hash selects |
| `ChainedHash` | `ChainedHashDictionary`: lazy buckets, the size counter, `putPairIn`, the rehash of `grow` |
| `ChainedHashSets` | `ChainedHashSet` over a `ChainedHashDictionary<T, bool>` |
| `DoubleLinkedLists` | `DoubleLinkedList` with its `Node` objects and a ghost sequence of nodes |
| `ArrayHeaps` | `ArrayHeap`: 4-ary heap order, sift-up and sift-down, capacity doubling and halving |
| `TopK`, `Searcher` | `topKSort`: the bounded heap pass and the drain, with the "largest `k`" selection as a predicate on multisets |
| `Webpages`, `WebGraph` | pages as records keyed by URI; `makeGraph` |
| `TfIdf` | document counts, term frequencies, TF-IDF vectors, query weights and the cosine numerator |

**Invariants proved** (each kept by every operation of its class):
- the array dictionaries:
  - keys are distinct in the live prefix;
- the chained hash dictionary:
  - every key sits in the bucket `hashValue` selects;
  - the buckets are distinct objects;
  - `size` is the total number of stored pairs;
  - a rehash keeps the map and `size`;
- the heap:
  - every element is at least its parent;
  - the capacity is 21 times a power of two;
  - `size <= length`;
- the list:
  - `front`, `back`, `prev` and `next` agree with the ghost sequence of nodes;
  - `size` is that sequence's length.

**Details of the code the model keeps**
- The bucket index is `|(3 * h) % length|` (ChainedHashDictionary.java:66). The product wraps to 32 bits, and the abs is taken after Java's truncating remainder.
- `removeMin` copies the last element to the root (ArrayHeap.java:49).
- `computeRelevance` recomputes both vector norms on every query (TfIdfAnalyzer.java:163); that part is floating point and left out.

The hash function a key's `hashCode()` would give is a parameter of the dictionary (`hashCode: K -> int32`). Web pages are records `(uri, links, words)` whose URIs are unique in the corpus. IDF values are an input `map<string, real>`.

## Model

| member | source | states |
|---|---|---|
| PairSeqs.ToMapAt | project2/src/main/java/datastructures/concrete/dictionaries/ArrayDictionary.java:94-106 | with distinct keys, a key is in the map of the live pairs exactly when some pair carries it, and then the map gives that pair's value |
| PairSeqs.ToMapSize | project2/src/main/java/datastructures/concrete/dictionaries/ArrayDictionary.java:135-138 | with distinct keys the map has exactly as many entries as there are live pairs, so `size` is the number of keys |
| PairSeqs.AppendNew | project2/src/main/java/datastructures/concrete/dictionaries/ArrayDictionary.java:65-69 | appending a pair with a new key keeps keys distinct and adds exactly that key with its value to the map |
| PairSeqs.Overwrite | project2/src/main/java/datastructures/concrete/dictionaries/ArrayDictionary.java:70-73 | replacing the value of the pair at an index keeps keys distinct and updates only that key's entry of the map |
| PairSeqs.RemoveAtDistinct | project2/src/main/java/datastructures/concrete/dictionaries/ArrayDictionary.java:113-125 | cutting one pair out of a sequence with distinct keys leaves the keys distinct |
| PairSeqs.RemoveAt | project2/src/main/java/datastructures/concrete/dictionaries/ArrayDictionary.java:113-125 | cutting out the pair at an index removes exactly its key from the map |
| KVPairDictionary.ArrayDictionary.constructor | project2/src/main/java/datastructures/concrete/dictionaries/ArrayDictionary.java:23-25 | a new dictionary is empty and its pair array has 10 slots |
| KVPairDictionary.ArrayDictionary.GetIndexOf | project2/src/main/java/datastructures/concrete/dictionaries/ArrayDictionary.java:94-106 | returns -1 exactly when the key is absent, otherwise an index below `size` whose pair has that key |
| KVPairDictionary.ArrayDictionary.Get | project2/src/main/java/datastructures/concrete/dictionaries/ArrayDictionary.java:48-56 | returns the stored value of a present key; NoSuchKeyException exactly when the key is absent |
| KVPairDictionary.ArrayDictionary.Put | project2/src/main/java/datastructures/concrete/dictionaries/ArrayDictionary.java:58-74 | the map gets `key := value`; a new key is appended after the old pairs, an existing key's pair is replaced in its slot and nothing else changes; the array doubles exactly when it was full; keys stay distinct |
| KVPairDictionary.ArrayDictionary.AppendPair | project2/src/main/java/datastructures/concrete/dictionaries/ArrayDictionary.java:67-69 | a pair with a new key goes to index `size` and the map gains exactly that key |
| KVPairDictionary.ArrayDictionary.SetValue | project2/src/main/java/datastructures/concrete/dictionaries/ArrayDictionary.java:70-73 | the slot of an existing key gets a new pair with the same key and the new value; no other pair changes |
| KVPairDictionary.ArrayDictionary.Grow | project2/src/main/java/datastructures/concrete/dictionaries/ArrayDictionary.java:79-85 | the new array is twice as long and the live pairs, `size` and the map are unchanged |
| KVPairDictionary.ArrayDictionary.Remove | project2/src/main/java/datastructures/concrete/dictionaries/ArrayDictionary.java:108-118 | NoSuchKeyException and no change for an absent key; otherwise returns its value, removes it from the map and closes the gap keeping the order of the other pairs |
| KVPairDictionary.ArrayDictionary.RemoveIndex | project2/src/main/java/datastructures/concrete/dictionaries/ArrayDictionary.java:114-117 | shift then `size--` drop exactly the pair at the index and keep the rest in order |
| KVPairDictionary.ArrayDictionary.Shift | project2/src/main/java/datastructures/concrete/dictionaries/ArrayDictionary.java:120-125 | slots before the index are kept, slots from the index to `size - 2` get their right neighbour, later slots are kept |
| KVPairDictionary.ArrayDictionary.ContainsKey | project2/src/main/java/datastructures/concrete/dictionaries/ArrayDictionary.java:127-133 | true exactly when the key is stored |
| KVPairDictionary.ArrayDictionary.Size | project2/src/main/java/datastructures/concrete/dictionaries/ArrayDictionary.java:135-138 | returns the number of stored keys |
| MutablePairDictionary.Pair.constructor | project1/src/main/java/datastructures/concrete/dictionaries/ArrayDictionary.java:144-147 | the new pair holds the given key and value |
| MutablePairDictionary.Pair.Copy | project1/src/main/java/datastructures/concrete/dictionaries/ArrayDictionary.java:155-158 | the copy holds the key and value of the original |
| MutablePairDictionary.ArrayDictionary.constructor | project1/src/main/java/datastructures/concrete/dictionaries/ArrayDictionary.java:19-21 | a new dictionary is empty and its pair array has 10 slots |
| MutablePairDictionary.ArrayDictionary.GetIndexOf | project1/src/main/java/datastructures/concrete/dictionaries/ArrayDictionary.java:93-105 | returns -1 exactly when the key is absent, otherwise an index below `size` whose pair has that key |
| MutablePairDictionary.ArrayDictionary.Get | project1/src/main/java/datastructures/concrete/dictionaries/ArrayDictionary.java:45-53 | returns the stored value of a present key; NoSuchKeyException exactly when the key is absent |
| MutablePairDictionary.ArrayDictionary.Put | project1/src/main/java/datastructures/concrete/dictionaries/ArrayDictionary.java:55-70 | the map gets `key := value`; a new key is appended, an existing key's pair is updated in its slot; the array doubles exactly when it was full |
| MutablePairDictionary.ArrayDictionary.AppendPair | project1/src/main/java/datastructures/concrete/dictionaries/ArrayDictionary.java:64-66 | a new pair object with a new key goes to index `size` and the map gains exactly that key |
| MutablePairDictionary.ArrayDictionary.SetValue | project1/src/main/java/datastructures/concrete/dictionaries/ArrayDictionary.java:67-69 | the pair object at the index gets the new value in place; the array and the other pairs are unchanged |
| MutablePairDictionary.ArrayDictionary.Grow | project1/src/main/java/datastructures/concrete/dictionaries/ArrayDictionary.java:75-83 | a full array is replaced by one twice as long holding a fresh copy of every pair at the same index; the pairs and `size` are unchanged |
| MutablePairDictionary.ArrayDictionary.Remove | project1/src/main/java/datastructures/concrete/dictionaries/ArrayDictionary.java:107-117 | NoSuchKeyException and no change for an absent key; otherwise returns its value, removes it and keeps the order of the other pairs |
| MutablePairDictionary.ArrayDictionary.DeleteAt | project1/src/main/java/datastructures/concrete/dictionaries/ArrayDictionary.java:113-116 | shift then `size--` drop exactly the pair at the index, removing its key from the map |
| MutablePairDictionary.ArrayDictionary.Shift | project1/src/main/java/datastructures/concrete/dictionaries/ArrayDictionary.java:119-124 | slots before the index are kept, slots from the index to `size - 2` get their right neighbour, later slots are kept |
| MutablePairDictionary.ArrayDictionary.ContainsKey | project1/src/main/java/datastructures/concrete/dictionaries/ArrayDictionary.java:126-132 | true exactly when the key is stored |
| MutablePairDictionary.ArrayDictionary.Size | project1/src/main/java/datastructures/concrete/dictionaries/ArrayDictionary.java:134-137 | returns the number of stored keys |
| HashCodes.Wrap32 | project2/src/main/java/datastructures/concrete/dictionaries/ChainedHashDictionary.java:66 | the product `3 * hashCode` wrapped to a 32-bit int: equal to the exact product when it fits, and congruent to it modulo 2^32 |
| HashCodes.JavaRem | project2/src/main/java/datastructures/concrete/dictionaries/ChainedHashDictionary.java:66 | Java's `%`: smaller in magnitude than the divisor, with the sign of the dividend; `a % b` for a non-negative dividend and `-((-a) % b)` for a negative one |
| HashCodes.Abs | project2/src/main/java/datastructures/concrete/dictionaries/ChainedHashDictionary.java:66 | `Math.abs`: the argument or its negation, never negative |
| HashCodes.HashValue | project2/src/main/java/datastructures/concrete/dictionaries/ChainedHashDictionary.java:64-67 | the bucket index is always in `[0, length)`, and is `3 * hashCode % length` when the product is non-negative and fits in an int |
| BucketMaps.FlattenKeys | project2/src/main/java/datastructures/concrete/dictionaries/ChainedHashDictionary.java:69-76 | a key is in the union of the buckets exactly when some bucket holds it |
| BucketMaps.FlattenValue | project2/src/main/java/datastructures/concrete/dictionaries/ChainedHashDictionary.java:69-76 | with disjoint buckets, the union gives a key the value its bucket holds |
| BucketMaps.FlattenSize | project2/src/main/java/datastructures/concrete/dictionaries/ChainedHashDictionary.java:20-21 | with disjoint buckets, the number of stored keys is the sum of the bucket sizes |
| BucketMaps.FlattenEmpty | project2/src/main/java/datastructures/concrete/dictionaries/ChainedHashDictionary.java:27-29 | an array of empty buckets stands for the empty map and holds 0 pairs |
| BucketMaps.FlattenPut | project2/src/main/java/datastructures/concrete/dictionaries/ChainedHashDictionary.java:94-113 | storing a pair in the only bucket that may hold its key stores it in the union |
| BucketMaps.FlattenRemove | project2/src/main/java/datastructures/concrete/dictionaries/ChainedHashDictionary.java:135-142 | removing a key from the only bucket that may hold it removes it from the union |
| BucketMaps.TotalSizeUpdate | project2/src/main/java/datastructures/concrete/dictionaries/ChainedHashDictionary.java:104-112 | replacing one bucket changes the pair count by the difference of that bucket's sizes |
| BucketMaps.FlattenPrefix | project2/src/main/java/datastructures/concrete/dictionaries/ChainedHashDictionary.java:122-129 | the union of the first `i + 1` buckets is the union of the first `i` plus bucket `i` |
| ChainTables.PlacedDisjoint | project2/src/main/java/datastructures/concrete/dictionaries/ChainedHashDictionary.java:94-96 | when every key sits in the bucket its hash selects, no key is in two buckets |
| ChainTables.Placed | project2/src/main/java/datastructures/concrete/dictionaries/ChainedHashDictionary.java:69-76 | a key is stored exactly when its own bucket holds it, with that bucket's value |
| ChainTables.RemovePlaced | project2/src/main/java/datastructures/concrete/dictionaries/ChainedHashDictionary.java:139-141 | removing a stored key from its own bucket removes it from the map and lowers the pair count by one |
| ChainTables.ShrinkPlaced | project2/src/main/java/datastructures/concrete/dictionaries/ChainedHashDictionary.java:139-141 | a bucket that loses keys leaves every key in the bucket its hash selects |
| ChainTables.PutPlaced | project2/src/main/java/datastructures/concrete/dictionaries/ChainedHashDictionary.java:94-96 | storing a key in the bucket its hash selects leaves every key well placed |
| ChainTables.SameTotal | project2/src/main/java/datastructures/concrete/dictionaries/ChainedHashDictionary.java:119-131 | two well-placed bucket arrays standing for the same map hold the same number of pairs, so a rehash leaves `size` right |
| ChainedHash.ChainedHashDictionary.constructor | project2/src/main/java/datastructures/concrete/dictionaries/ChainedHashDictionary.java:27-29 | a new dictionary is empty, has `size` 0 and 11 buckets |
| ChainedHash.ChainedHashDictionary.EmptyTable | project2/src/main/java/datastructures/concrete/dictionaries/ChainedHashDictionary.java:37-42 | a fresh bucket array of the given length, every slot null, standing for the empty map |
| ChainedHash.ChainedHashDictionary.Get | project2/src/main/java/datastructures/concrete/dictionaries/ChainedHashDictionary.java:69-76 | returns the stored value of a present key; NoSuchKeyException exactly when the key is absent, whether its bucket is null or lacks it |
| ChainedHash.ChainedHashDictionary.Put | project2/src/main/java/datastructures/concrete/dictionaries/ChainedHashDictionary.java:78-82 | when `size / length > 0.75` the table first grows to `2 * length + 1` buckets, otherwise keeps its length; the map gets `key := value`; `size` grows by one exactly when the key was new; the bucket invariant and `size == total pairs` are kept |
| ChainedHash.ChainedHashDictionary.PutPair | project2/src/main/java/datastructures/concrete/dictionaries/ChainedHashDictionary.java:81 | `putPairIn(key, value, this.chains)` with its size maintenance: the map gets `key := value`, `size` counts a new key, and the bucket array stays the same |
| ChainedHash.ChainedHashDictionary.Install | project2/src/main/java/datastructures/concrete/dictionaries/ChainedHashDictionary.java:130 | a valid bucket array becomes the dictionary's table, with `size` equal to its total number of pairs, and the dictionary is valid again |
| ChainedHash.ChainedHashDictionary.SetState | project2/src/main/java/datastructures/concrete/dictionaries/ChainedHashDictionary.java:130 | the fields take the new bucket array and count |
| ChainedHash.ChainedHashDictionary.PutPairIn | project2/src/main/java/datastructures/concrete/dictionaries/ChainedHashDictionary.java:94-113 | stores the pair in the bucket its hash selects in `table`, keeping the table valid; the map gets `key := value` and the pair count grows exactly when the key was new |
| ChainedHash.ChainedHashDictionary.NewBucket | project2/src/main/java/datastructures/concrete/dictionaries/ChainedHashDictionary.java:99-105 | a null slot gets a new bucket holding only the pair; the other buckets are untouched |
| ChainedHash.ChainedHashDictionary.SingletonBucket | project2/src/main/java/datastructures/concrete/dictionaries/ChainedHashDictionary.java:100-101 | a new `ArrayDictionary` with one `put` holds exactly that pair |
| ChainedHash.ChainedHashDictionary.PutInBucket | project2/src/main/java/datastructures/concrete/dictionaries/ChainedHashDictionary.java:106-113 | `put` into the existing bucket; reports a new key exactly when the bucket lacked it; the other buckets are untouched |
| ChainedHash.ChainedHashDictionary.BucketPut | project2/src/main/java/datastructures/concrete/dictionaries/ChainedHashDictionary.java:107-110 | the bucket's size grows exactly when the key is new to it, and its map gets `key := value` |
| ChainedHash.ChainedHashDictionary.Grow | project2/src/main/java/datastructures/concrete/dictionaries/ChainedHashDictionary.java:119-132 | when `size / length > 0.75` the table gets `2 * length + 1` buckets, otherwise it keeps its length; the map and `size` are unchanged |
| ChainedHash.ChainedHashDictionary.Rehashed | project2/src/main/java/datastructures/concrete/dictionaries/ChainedHashDictionary.java:121-129 | a fresh array of the new length whose buckets hold every pair of the old ones, well placed for the new length, with the same total |
| ChainedHash.ChainedHashDictionary.MoveChains | project2/src/main/java/datastructures/concrete/dictionaries/ChainedHashDictionary.java:122-129 | after the loop over all old buckets, the new table stands for the union of the old buckets |
| ChainedHash.ChainedHashDictionary.MoveChain | project2/src/main/java/datastructures/concrete/dictionaries/ChainedHashDictionary.java:123-128 | one old bucket, unless null, is moved: the new table stands for the union of the old buckets so far |
| ChainedHash.ChainedHashDictionary.MoveBucket | project2/src/main/java/datastructures/concrete/dictionaries/ChainedHashDictionary.java:125-127 | each pair of an old bucket is re-inserted: the new table gains exactly that bucket's map |
| ChainedHash.ChainedHashDictionary.MovePair | project2/src/main/java/datastructures/concrete/dictionaries/ChainedHashDictionary.java:126 | `putPairIn` of one old pair into the new table adds that pair |
| ChainedHash.ChainedHashDictionary.Remove | project2/src/main/java/datastructures/concrete/dictionaries/ChainedHashDictionary.java:134-142 | NoSuchKeyException and no change for an absent key; otherwise returns its value, removes it from the map and lowers `size` by one |
| ChainedHash.ChainedHashDictionary.RemovePresent | project2/src/main/java/datastructures/concrete/dictionaries/ChainedHashDictionary.java:139-141 | for a stored key: `size` goes down by one and the bucket removal returns the key's value |
| ChainedHash.ChainedHashDictionary.RemovePairFrom | project2/src/main/java/datastructures/concrete/dictionaries/ChainedHashDictionary.java:139-141 | removal from the key's own bucket in `table` removes it from the map and lowers the pair count by one |
| ChainedHash.ChainedHashDictionary.RemoveFromBucket | project2/src/main/java/datastructures/concrete/dictionaries/ChainedHashDictionary.java:141 | `remove` on the bucket holding the key changes only that bucket |
| ChainedHash.ChainedHashDictionary.BucketRemove | project2/src/main/java/datastructures/concrete/dictionaries/ChainedHashDictionary.java:141 | the bucket loses exactly the key and returns its value |
| ChainedHash.ChainedHashDictionary.ContainsKey | project2/src/main/java/datastructures/concrete/dictionaries/ChainedHashDictionary.java:144-152 | true exactly when the key is stored (false at `size` 0, else the answer of its own bucket) |
| ChainedHash.ChainedHashDictionary.Size | project2/src/main/java/datastructures/concrete/dictionaries/ChainedHashDictionary.java:154-157 | returns the number of stored keys |
| ChainedHashSets.ChainedHashSet.constructor | project2/src/main/java/datastructures/concrete/ChainedHashSet.java:18-20 | a new set is empty |
| ChainedHashSets.ChainedHashSet.Add | project2/src/main/java/datastructures/concrete/ChainedHashSet.java:22-25 | the item becomes an element; nothing else changes |
| ChainedHashSets.ChainedHashSet.Remove | project2/src/main/java/datastructures/concrete/ChainedHashSet.java:27-34 | NoSuchElementException exactly when the item is absent; afterwards the item is not an element and nothing else changes |
| ChainedHashSets.ChainedHashSet.Contains | project2/src/main/java/datastructures/concrete/ChainedHashSet.java:36-39 | true exactly when the item is an element |
| ChainedHashSets.ChainedHashSet.Size | project2/src/main/java/datastructures/concrete/ChainedHashSet.java:41-44 | returns the number of distinct elements |
| DoubleLinkedLists.Node.constructor | project2/src/main/java/datastructures/concrete/DoubleLinkedList.java:233-237 | the node holds the given links and data |
| DoubleLinkedLists.ValuesInsert | project2/src/main/java/datastructures/concrete/DoubleLinkedList.java:127-149 | splicing a node in at a position splices its data in at that position |
| DoubleLinkedLists.ValuesDelete | project2/src/main/java/datastructures/concrete/DoubleLinkedList.java:151-179 | cutting a node out cuts its data out, keeping the order of the rest |
| DoubleLinkedLists.ValuesUpdate | project2/src/main/java/datastructures/concrete/DoubleLinkedList.java:66-95 | replacing the node at a position replaces only the data at that position |
| DoubleLinkedLists.DoubleLinkedList.Successor | project2/src/main/java/datastructures/concrete/DoubleLinkedList.java:271-277 | following `next` from node `i` reaches node `i + 1`, and gives null exactly at the last node |
| DoubleLinkedLists.DoubleLinkedList.constructor | project2/src/main/java/datastructures/concrete/DoubleLinkedList.java:23-27 | a new list is empty |
| DoubleLinkedLists.DoubleLinkedList.Add | project2/src/main/java/datastructures/concrete/DoubleLinkedList.java:29-39 | the item is appended at the back |
| DoubleLinkedLists.DoubleLinkedList.Remove | project2/src/main/java/datastructures/concrete/DoubleLinkedList.java:41-58 | EmptyContainerException and no change on an empty list; otherwise returns the last element and drops it |
| DoubleLinkedLists.DoubleLinkedList.IndexBoundCheck | project2/src/main/java/datastructures/concrete/DoubleLinkedList.java:212-216 | IndexOutOfBoundsException exactly when the index is outside `[0, size)` |
| DoubleLinkedLists.DoubleLinkedList.Get | project2/src/main/java/datastructures/concrete/DoubleLinkedList.java:60-64 | returns the element at the index; IndexOutOfBoundsException exactly outside `[0, size)` |
| DoubleLinkedLists.DoubleLinkedList.Set | project2/src/main/java/datastructures/concrete/DoubleLinkedList.java:66-95 | replaces only the element at the index; IndexOutOfBoundsException and no change outside `[0, size)` |
| DoubleLinkedLists.DoubleLinkedList.SetFront | project2/src/main/java/datastructures/concrete/DoubleLinkedList.java:71-81 | a new front node with the item replaces the old front; the links stay consistent |
| DoubleLinkedLists.DoubleLinkedList.SetInner | project2/src/main/java/datastructures/concrete/DoubleLinkedList.java:82-94 | a new node with the item replaces the node at the index between its neighbours |
| DoubleLinkedLists.DoubleLinkedList.Insert | project2/src/main/java/datastructures/concrete/DoubleLinkedList.java:127-149 | for `0 <= index <= size` the item is put at the index and later elements move right; IndexOutOfBoundsException and no change otherwise |
| DoubleLinkedLists.DoubleLinkedList.InsertFront | project2/src/main/java/datastructures/concrete/DoubleLinkedList.java:135-139 | a new node with the item goes in front of the old first node |
| DoubleLinkedLists.DoubleLinkedList.InsertInner | project2/src/main/java/datastructures/concrete/DoubleLinkedList.java:140-148 | a new node with the item goes just before the node at the index |
| DoubleLinkedLists.DoubleLinkedList.Delete | project2/src/main/java/datastructures/concrete/DoubleLinkedList.java:151-179 | returns the element at the index and removes it, keeping the order of the rest; IndexOutOfBoundsException and no change outside `[0, size)` |
| DoubleLinkedLists.DoubleLinkedList.DeleteFront | project2/src/main/java/datastructures/concrete/DoubleLinkedList.java:160-163 | on two or more elements, the first node is unlinked and its element returned |
| DoubleLinkedLists.DoubleLinkedList.DeleteInner | project2/src/main/java/datastructures/concrete/DoubleLinkedList.java:164-176 | the node at the index is unlinked (its neighbours are joined, or its predecessor becomes the back) and its element returned |
| DoubleLinkedLists.DoubleLinkedList.GetNode | project2/src/main/java/datastructures/concrete/DoubleLinkedList.java:105-125 | returns the node at the index, whether it walks from the front or from the back |
| DoubleLinkedLists.DoubleLinkedList.IndexOf | project2/src/main/java/datastructures/concrete/DoubleLinkedList.java:181-193 | returns the first index holding the item, or -1 exactly when the item is absent |
| DoubleLinkedLists.DoubleLinkedList.Contains | project2/src/main/java/datastructures/concrete/DoubleLinkedList.java:200-206 | true exactly when the item occurs |
| DoubleLinkedLists.DoubleLinkedList.Size | project2/src/main/java/datastructures/concrete/DoubleLinkedList.java:195-198 | returns the number of elements |
| ArrayHeaps.Parent | project3/src/main/java/datastructures/concrete/ArrayHeap.java:142 | `(i - 1) / 4` is below `i`, and `i` is one of its four children `4p+1 .. 4p+4` |
| ArrayHeaps.RootIsMin | project3/src/main/java/datastructures/concrete/ArrayHeap.java:111-117 | in a heap-ordered array the root is at most every element |
| ArrayHeaps.RootIsLeast | project3/src/main/java/datastructures/concrete/ArrayHeap.java:111-117 | the root of a non-empty heap is an element and a least one |
| ArrayHeaps.LastToRoot | project3/src/main/java/datastructures/concrete/ArrayHeap.java:48-49 | moving the last element to the root and dropping the last slot removes exactly one copy of the root, and leaves the array ordered below the root |
| ArrayHeaps.SwapPrefix | project3/src/main/java/datastructures/concrete/ArrayHeap.java:105-109 | exchanging two slots inside a prefix exchanges them in the prefix and keeps its multiset |
| ArrayHeaps.Swapped | project3/src/main/java/datastructures/concrete/ArrayHeap.java:105-109 | the two slots are exchanged and every other slot is kept |
| ArrayHeaps.SiftUpStep | project3/src/main/java/datastructures/concrete/ArrayHeap.java:143-146 | swapping an element with a greater parent moves the only possible order violation up to the parent |
| ArrayHeaps.AppendOrderedAbove | project3/src/main/java/datastructures/concrete/ArrayHeap.java:138 | a heap with one element put after its end is ordered except possibly at that element |
| ArrayHeaps.SiftUpDone | project3/src/main/java/datastructures/concrete/ArrayHeap.java:141-151 | sift-up that stops at the root or below a parent that is not greater leaves the array heap-ordered |
| ArrayHeaps.SiftDownStep | project3/src/main/java/datastructures/concrete/ArrayHeap.java:95-98 | swapping an element with its least child when that child is smaller moves the only possible violation down to the child |
| ArrayHeaps.SiftDownDone | project3/src/main/java/datastructures/concrete/ArrayHeap.java:97-101 | sift-down that stops where no child is smaller (or at a leaf) leaves the array heap-ordered |
| ArrayHeaps.ArrayHeap.constructor | project3/src/main/java/datastructures/concrete/ArrayHeap.java:23-26 | a new heap is empty with capacity 21 |
| ArrayHeaps.ArrayHeap.PeekMin | project3/src/main/java/datastructures/concrete/ArrayHeap.java:111-117 | returns a least element; EmptyContainerException exactly when empty; changes nothing |
| ArrayHeaps.ArrayHeap.Insert | project3/src/main/java/datastructures/concrete/ArrayHeap.java:119-127 | null (None) is an IllegalArgumentException and changes nothing; otherwise the multiset gains exactly the item, `size` grows by one, the capacity doubles exactly when full, and heap order holds |
| ArrayHeaps.ArrayHeap.Grow | project3/src/main/java/datastructures/concrete/ArrayHeap.java:129-135 | when `size >= length` the array doubles keeping the first `size` slots; afterwards there is room for one more |
| ArrayHeaps.ArrayHeap.PercolateUp | project3/src/main/java/datastructures/concrete/ArrayHeap.java:137-152 | the item put at slot `size` and sifted up: the first `size + 1` slots are heap-ordered and hold the old elements plus the item |
| ArrayHeaps.ArrayHeap.SiftUp | project3/src/main/java/datastructures/concrete/ArrayHeap.java:141-151 | the sift-up loop restores heap order and keeps the multiset |
| ArrayHeaps.ArrayHeap.SwapUp | project3/src/main/java/datastructures/concrete/ArrayHeap.java:143-146 | one swap with a greater parent keeps the multiset and moves the violation to the parent |
| ArrayHeaps.ArrayHeap.Swap | project3/src/main/java/datastructures/concrete/ArrayHeap.java:105-109 | exchanges two slots and keeps the multiset of the prefix |
| ArrayHeaps.ArrayHeap.RemoveMin | project3/src/main/java/datastructures/concrete/ArrayHeap.java:43-53 | EmptyContainerException exactly when empty; otherwise returns a least element, removes exactly one copy of it, `size` drops by one, and the array halves exactly when past 21 and under a third full |
| ArrayHeaps.ArrayHeap.TakeRoot | project3/src/main/java/datastructures/concrete/ArrayHeap.java:48-50 | the root is returned, the last element moved to the root and sifted down: one copy of the minimum leaves and heap order holds |
| ArrayHeaps.ArrayHeap.PercolateDown | project3/src/main/java/datastructures/concrete/ArrayHeap.java:64-103 | drops the last slot and sifts the root down: the remaining slots are heap-ordered and hold the same multiset |
| ArrayHeaps.ArrayHeap.MinChild | project3/src/main/java/datastructures/concrete/ArrayHeap.java:81-93 | returns a least child among the up-to-four children of slot `i`, and every earlier child is strictly greater (the strict compare keeps the first least one) |
| ArrayHeaps.ArrayHeap.Shrink | project3/src/main/java/datastructures/concrete/ArrayHeap.java:55-62 | halves the array exactly when it is longer than 21 and less than a third full, keeping the first `size` slots |
| ArrayHeaps.ArrayHeap.Size | project3/src/main/java/datastructures/concrete/ArrayHeap.java:154-157 | returns the number of elements |
| TopK.KeepNext | project3/src/main/java/misc/Searcher.java:51-53 | while fewer than `k` elements were seen the heap holds all of them, which are trivially a largest selection |
| TopK.ReplaceLeast | project3/src/main/java/misc/Searcher.java:55-59 | replacing the least kept element by a strictly greater new one keeps the kept elements a largest selection of those seen |
| TopK.SkipNext | project3/src/main/java/misc/Searcher.java:55-56 | a new element no greater than the least kept one can be left out |
| TopK.SelectionDone | project3/src/main/java/misc/Searcher.java:47-62 | after the whole input the heap holds `k` elements none of which is exceeded by an element left out |
| Searcher.TopKSort | project3/src/main/java/misc/Searcher.java:23-68 | a list for every `k >= 0`, IllegalArgumentException exactly when `k < 0` and no other error; the list is fresh, of length `min(k, size)`, sorted ascending, holding a largest `k` of the input as a multiset; the input is not changed |
| Searcher.Largest | project3/src/main/java/misc/Searcher.java:44-67 | with `k` at most the input's length, the output holds `k` elements, sorted, a largest `k` of the input |
| Searcher.Select | project3/src/main/java/misc/Searcher.java:47-62 | after the pass the heap holds `k` elements, a largest `k` of the input |
| Searcher.SelectStep | project3/src/main/java/misc/Searcher.java:48-61 | one element is visited and the walk moves to the next node; the heap stays a largest selection of the prefix seen |
| Searcher.Visit | project3/src/main/java/misc/Searcher.java:51-60 | the first `k` elements are inserted; later ones replace the minimum only when strictly greater; the heap stays a largest selection and never exceeds `k` |
| Searcher.Evict | project3/src/main/java/misc/Searcher.java:57-58 | `removeMin` then `insert(ele)` keeps the heap size and a largest selection |
| Searcher.DrainStep | project3/src/main/java/misc/Searcher.java:64-66 | appending the least remaining element keeps the output sorted and below every remaining element |
| Searcher.Drain | project3/src/main/java/misc/Searcher.java:64-66 | the heap is emptied into the list, which ends sorted and holds exactly the heap's old multiset |
| Searcher.MoveLeast | project3/src/main/java/misc/Searcher.java:65 | `list.add(minHeap.removeMin())` keeps the drain invariant |
| Webpages.EnterPage | project3/src/main/java/search/analyzers/PageRankAnalyzer.java:75 | entering a page under its URI keeps the entries of the pages already entered, since no other page has that URI |
| WebGraph.MakeGraph | project3/src/main/java/search/analyzers/PageRankAnalyzer.java:62-78 | one entry per page, keyed by its URI; an edge is a link of the page, not its own URI, naming a page of the corpus; every such link is an edge (once, however often it repeats) |
| WebGraph.PageGraph | project3/src/main/java/search/analyzers/PageRankAnalyzer.java:66-76 | every page is entered under its URI with exactly its edges into the corpus |
| WebGraph.AddPage | project3/src/main/java/search/analyzers/PageRankAnalyzer.java:67-75 | one page's edge set is entered under its URI; earlier entries are kept |
| WebGraph.PageEdges | project3/src/main/java/search/analyzers/PageRankAnalyzer.java:67-74 | the edge set is exactly the links other than the page's own URI that name a page of the corpus |
| TfIdf.DocumentCountStep | project3/src/main/java/search/analyzers/TfIdfAnalyzer.java:64-78 | adding one page raises a word's document count by 1 when the page contains it and by 0 otherwise, however often it repeats |
| TfIdf.CountDocuments | project3/src/main/java/search/analyzers/TfIdfAnalyzer.java:62-78 | the counts are keyed by exactly the words of some page, and each count is the number of pages containing the word |
| TfIdf.CountPage | project3/src/main/java/search/analyzers/TfIdfAnalyzer.java:65-77 | the `visited` loop over one page adds 1 to the count of each distinct word of the page, and only to those |
| TfIdf.RepeatedIsProduct | project3/src/main/java/search/analyzers/TfIdfAnalyzer.java:94-101 | adding an increment `c` times gives `c` times the increment |
| TfIdf.AccumulatedCount | project3/src/main/java/search/analyzers/TfIdfAnalyzer.java:95-101 | adding the increment at every occurrence of a word adds it as often as the word occurs |
| TfIdf.TfByIncrements | project3/src/main/java/search/analyzers/TfIdfAnalyzer.java:94-101 | adding `1 / |words|` at every occurrence of a word gives its term frequency |
| TfIdf.ComputeTfScores | project3/src/main/java/search/analyzers/TfIdfAnalyzer.java:92-104 | the keys are exactly the distinct words, each with its occurrence count divided by the list length |
| TfIdf.TfBounds | project3/src/main/java/search/analyzers/TfIdfAnalyzer.java:92-104 | a word of the list has a term frequency above 0 and at most 1 |
| TfIdf.OccurrencesBound | project3/src/main/java/search/analyzers/TfIdfAnalyzer.java:95-101 | a word occurs at most as often as the list is long, and at least once when it is in the list |
| TfIdf.DocumentVectors | project3/src/main/java/search/analyzers/TfIdfAnalyzer.java:109-123 | one vector per page, keyed by its URI, each the page's TF-IDF vector |
| TfIdf.AddVector | project3/src/main/java/search/analyzers/TfIdfAnalyzer.java:113-121 | one page's vector is entered under its URI; earlier entries are kept |
| TfIdf.VectorEntries | project3/src/main/java/search/analyzers/TfIdfAnalyzer.java:112-122 | a page's vector has exactly its distinct words as keys, each with `tf(word) * idf(word)` |
| TfIdf.PageVector | project3/src/main/java/search/analyzers/TfIdfAnalyzer.java:114-119 | the vector of one page is its TF-IDF vector |
| TfIdf.ScoreWords | project3/src/main/java/search/analyzers/TfIdfAnalyzer.java:117-119 | every distinct word of the page gets its term frequency times its IDF |
| TfIdf.VectorFromScores | project3/src/main/java/search/analyzers/TfIdfAnalyzer.java:115-119 | a table over the distinct words giving each its term frequency times its IDF is the TF-IDF vector |
| TfIdf.QueryWeights | project3/src/main/java/search/analyzers/TfIdfAnalyzer.java:143-152 | the query vector is the TF-IDF vector of the query words, and a word missing from the IDF table gets weight 0 |
| TfIdf.QueryScores | project3/src/main/java/search/analyzers/TfIdfAnalyzer.java:145-152 | every distinct query word gets its term frequency times its IDF, or times 0 when it has no IDF |
| TfIdf.AbsentWordsAddNothing | project3/src/main/java/search/analyzers/TfIdfAnalyzer.java:154-162 | query words the document lacks contribute 0: the numerator equals the sum over the present words only |
| TfIdf.Numerator | project3/src/main/java/search/analyzers/TfIdfAnalyzer.java:154-162 | the loop computes the sum over the query's positions of the document weight (0 when absent) times the query weight |

## Left out

- Iterators are not modelled: `DictionaryIterator`, `ChainedIterator`, `SetIterator` and the list iterator. The dictionaries, the set and `makeGraph` read contents through the ghost abstractions instead.
- `ChainedHash.ChainedHashDictionary.Grow`: the rehash iterates over each old bucket's pairs as they are stored.
  - In this snapshot the Java loop at project2/src/main/java/datastructures/concrete/dictionaries/ChainedHashDictionary.java:125 iterates over an `ArrayDictionary`.
  - That class's iterator constructor throws `NoSuchElementException` (project2/src/main/java/datastructures/concrete/dictionaries/ArrayDictionary.java:148-150).
  - So the Java `grow` throws once a non-empty table first exceeds the load factor. The model gives the intended rehash instead.
- Null keys, null elements and null list data are not modelled: generic parameters in Dafny have no `null`.
  - The NPEs that Java's null handling can raise are therefore not modelled either: `getIndexOf` with a stored null key, and `indexOf` on null data.
  - The one null check with its own exception, `ArrayHeap.insert(null)`, is modelled with `Option`.
- `int` overflow of the `size` counters and of array lengths is not modelled: they are unbounded `nat`s. Only the hash computation wraps to 32 bits.
- `ArrayHeaps.ArrayHeap`, `Searcher.TopKSort`: elements are `int` with its order, not an arbitrary `Comparable<T>`.
- `ArrayHeaps.ArrayHeap.PercolateDown`: the vacated slot keeps its old value instead of being set to `null`. The contents and the heap order only concern slots below `size`.
- `MutablePairDictionary.ArrayDictionary.Grow` requires a full array. The only caller, `put`, calls it only then; on any other array the Java copy loop would dereference a `null` slot.
- `DoubleLinkedLists.DoubleLinkedList.GetNode` requires `index < size`. Its Java callers check the bounds first; the walk's `temp != null` guard then never fires.
- `TfIdf.DocumentVectors` requires every word of every page to have an IDF value. The Java computes the IDF table from the same pages, so `idfScores.get(word)` always finds one.
- `TfIdf.Numerator` takes the document vector itself. The Java looks it up with `documentTfIdfVectors.get(pageUri)`, whose precondition requires the page to be in the corpus.
- The floating-point parts of `TfIdfAnalyzer` are not modelled:
  - `Math.log` in the IDF rewrite, including rewriting the table while iterating over it (lines 79-82);
  - `norm` with `Math.sqrt`;
  - the cosine quotient and its 0.0 fallback.
  - Term frequencies and weights are exact `real`s, not `double`s.
  - `1.0 / words.size()` on an empty list (`Infinity` in Java) is never used, because the loop does not run; the model's result is the empty table.
- `WebGraph.MakeGraph` and `TfIdf` build Dafny `map`/`set` values instead of `ChainedHashDictionary`/`ChainedHashSet` objects. The hash classes are verified on their own.
- The PageRank iteration (`makePageRanks`, `computePageRank`) is floating point and not modelled.
- `ExpressionManipulators` (double arithmetic and drawing) is not modelled.
- `AvlTreeDictionary` is an unfinished stub and is not modelled.
- `ChainedHashSets.ChainedHashSet` keeps its footprint as a function of the dictionary's footprint rather than as a ghost field. Its contracts are otherwise those of the Java class.
