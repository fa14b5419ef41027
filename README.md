# GeeCache consistent-hash ring, modelled in Dafny

GeeCache picks the peer responsible for a cache key with a consistent-hash
ring, the `ConsistentHash` type of `consistentHash.go`. Each real node is
placed on the ring `virtualNodes` times. Replica `i` of node `n` sits at
position `hash(itoa(i) + n)`. The ring keeps every position in a sorted slice
`nodes`, and a map `nodesMap` from position to node name. `Get(key)` hashes the
key and binary-searches `nodes` for the first position at or above that hash.
Past the last position it wraps around to the first one. It then returns the
name mapped there, or `""` when the ring is empty.

The project has six modules:

- `Wrappers`: an `Option` type, used for the optional hash parameter and for `Atoi`.
- `Strconv`: `Itoa`, which names the replicas, and `Atoi`, which the repository's
  test uses as its stub hash, with a round-trip lemma between the two.
- `Sort`: `Ints` (sort.Ints) and `Search` (sort.Search) as verified methods,
  specified by `Sorted`, the reference sort `SortSeq` and `FirstAtLeast`.
- `Ring`: the ring as a value (`RingState`). It has the functions that say what
  `AddNode`, `AddNodes` and `Get` compute, and the lemmas about them: the ring
  stays well formed, lookups follow the clockwise rule, adding a node moves keys
  only onto that node, and `Get` only returns names that were added.
- `Geecache`: the class `ConsistentHash`. It has the Go fields `hash`,
  `virtualNodes`, `nodes` and `nodesMap`, a constructor for `NewConsistent`, the
  mutating methods `AddNode` and `AddNodes`, and the read-only method `Get`.
  Each method is proved against the `Ring` functions.
- `GeecacheTest`: the repository's test `TestConsistentHash`. It uses 3
  replicas, the decimal stub hash, nodes "2", "4", "6" and then "8", and its
  lookups are proved.

The code differs from an idealised consistent-hash ring in four places. The
model follows the code in each:

- Positions are not deduplicated. `AddNode` appends every replica position, so
  re-adding a node or a hash collision leaves repeated positions in `nodes`.
  Repeated positions never change which position `Get` selects, because the
  choice depends only on the set of positions (`Ring.LookupOwner`). Re-adding a
  node whose positions still map to it therefore leaves every lookup unchanged
  (`Ring.AddNodeAgainKeepsLookups`). If another node has overwritten one of
  those positions in the meantime, re-adding takes that position back.
- A non-positive replica count is not rejected. `AddNode` then adds no positions.
- On a collision the later write wins for that position. The earlier position
  entry stays in `nodes` and now maps to the later node.
- On a non-empty ring `Get` returns one of the names that were added. It does
  not return some other "valid node": a node added under the name `""` is
  returned as `""`.

The hash function is a parameter of type `string -> U32`, where `U32` is the
range of Go's `uint32`. The default hash (`crc32.ChecksumIEEE`) is passed to
the constructor as `defaultHash`. `Get` requires the class invariant `Valid()`.
Every state that the constructor, `AddNode` and `AddNodes` produce satisfies it,
so this does not restrict any call the Go program can make.

## Model

| member | source | states |
|---|---|---|
| `Geecache.ConsistentHash.constructor` | consistentHash.go:24-33 | the new ring is empty (no positions, empty map) and well formed; the replica count is stored exactly as given, and the hash is the given one, or the default one when none is given |
| `Geecache.ConsistentHash.AddNode` | consistentHash.go:35-43 | the new state is `AfterAddNode` of the old state: the old positions plus one per replica, sorted, with the map updated; the ring stays well formed |
| `Geecache.ConsistentHash.AddNodes` | consistentHash.go:45-49 | the new state is `AfterAddNodes` of the old state, which is AddNode applied to each name in order; the ring stays well formed |
| `Geecache.ConsistentHash.Get` | consistentHash.go:51-61 | the result is `Lookup` of the current state at the key's hash, and nothing changes; an empty ring gives `""`; otherwise the result is the name mapped at the clockwise owner of the key's hash |
| `Ring.AfterAddNode` | consistentHash.go:37-42 | after AddNode the positions are sorted ascending and, as a multiset, equal the old positions plus `hash(itoa(i) + node)` for each replica `i`; there is no deduplication, so the length grows by exactly `max(virtualNodes, 0)`; each replica position maps to `node`, and every other key keeps its old value |
| `Ring.Replicas` | consistentHash.go:37-38 | a node has exactly `max(virtualNodes, 0)` replica positions, and replica `i` sits at `hash(itoa(i) + node)` |
| `Ring.Assign` | consistentHash.go:37-41 | writing `m[p] = node` for each replica position in turn gives exactly the old keys plus the replica positions; each replica position maps to `node`, and other keys keep their values |
| `Ring.AfterAddNodes` | consistentHash.go:45-49 | AddNodes applies AddNode to each name in order; it only adds: every old position stays (as a multiset), every old key stays mapped, and the positions are sorted once a name was added |
| `Ring.AfterAddNodesLength` | consistentHash.go:45-49 | AddNodes adds `virtualNodes` positions per name (none when the count is not positive), so the ring grows by the number of names times `max(virtualNodes, 0)` |
| `Ring.AfterAddNodeWellFormed` | consistentHash.go:39-42 | AddNode keeps the invariant: positions sorted, and the set of positions equal to the key set of `nodesMap` |
| `Ring.AfterAddNodesWellFormed` | consistentHash.go:45-49 | AddNodes keeps the same invariant |
| `Ring.AfterAddNodesConcat` | consistentHash.go:45-49 | adding the names `a` and then the names `b` gives the same ring as adding `a + b` in one AddNodes call |
| `Ring.AfterAddNodesOwners` | consistentHash.go:40 | after AddNodes, every mapped name is one of the names added, or the value that position already had |
| `Ring.Successor` | consistentHash.go:57-60 | the position at `idx % len(nodes)` is one of the ring's positions, and it is at or above the key's hash unless every position lies below the hash (the wrap-around to `nodes[0]`) |
| `Ring.Lookup` | consistentHash.go:52-60 | Get's result: `""` on an empty ring, and otherwise either `""` or one of the names stored in `nodesMap` |
| `Ring.LookupClockwise` | consistentHash.go:55-60 | on a non-empty well-formed ring, Get selects the least position at or above the key's hash, or the least position of all when every position is below the hash, and returns the name mapped there |
| `Ring.LookupOwner` | consistentHash.go:55-60 | any position that satisfies the clockwise-owner rule is the one whose name Get returns |
| `Ring.LookupWraps` | consistentHash.go:57-60 | when every position is below the key's hash, Get returns the name at `nodes[0]`, the smallest position |
| `Ring.AddNodeMovesKeysOnlyToNewNode` | consistentHash.go:35-60 | after AddNode(node), every key maps either to `node` or to the name it mapped to before |
| `Ring.AddNodeKeepsKeysOffNewArcs` | consistentHash.go:35-60 | if none of the new replica positions lies on the arc from a key's hash clockwise to its old owner position, that key's lookup does not change |
| `Ring.AddNodeAgainKeepsLookups` | consistentHash.go:37-42 | re-adding a node whose replica positions already map to it appends `max(virtualNodes, 0)` repeated positions, yet leaves every lookup unchanged |
| `Ring.GetReturnsAddedName` | consistentHash.go:52-60 | starting from the empty ring, the ring is non-empty exactly when at least one name was added with a positive replica count; Get then returns one of the added names |
| `Sort.Ints` | consistentHash.go:42 | sort.Ints returns the input's elements as a sorted permutation, which is the same sequence as the reference sort `SortSeq` |
| `Sort.SortSeq` | consistentHash.go:42 | the reference sort returns a sorted permutation of its input |
| `Sort.SortedUnique` | consistentHash.go:42 | two sorted sequences with the same elements (as multisets) are equal, so the sorted slice is determined by its contents |
| `Sort.Search` | consistentHash.go:57-59 | for a predicate monotone on `[0, n)`, sort.Search returns the index `i <= n` below which the predicate is false and from which it is true |
| `Sort.FirstAtLeast` | consistentHash.go:57-59 | the index Get's search finds: no position before it reaches the target, and the position at it does, unless it equals the length |
| `Strconv.Itoa` | consistentHash.go:38 | the replica prefix `strconv.Itoa(i)` is a non-empty string of decimal digits with no leading zero |
| `Strconv.AtoiItoa` | consistentHash.go:38 | Atoi reads back what Itoa prints, so distinct replica indices give distinct prefixes |
| `Strconv.Atoi` | consistentHash_test.go:10 | Atoi accepts exactly an optional sign followed by one or more decimal digits; on a digit string it returns that string's value, and with a sign it returns the digits' value, negated for `-` |
| `GeecacheTest.StubHash` | consistentHash_test.go:9-12 | the test's hash: a decimal key hashes to its value modulo 2^32 (the `uint32(i)` conversion), and a key Atoi rejects hashes to 0 |
| `GeecacheTest.GetTestKeys` | consistentHash_test.go:23-27 | the lookups of the four test keys, which the loop at lines 33-37 repeats, are Get on the current ring at the hashes 2, 11, 23 and 27 |
| `GeecacheTest.TestConsistentHash` | consistentHash_test.go:9-37 | with 3 replicas and the decimal stub hash, after AddNodes("2", "4", "6") Get gives "2", "2", "4", "2" for keys "2", "11", "23", "27"; after AddNode("8") it gives "2", "2", "4", "8" |
| `GeecacheTest.Ring246Lookups` | consistentHash_test.go:14-27 | on the ring after AddNodes("2", "4", "6"), hashes 2, 11, 23 and 27 look up "2", "2", "4" and "2"; 27 gets its node by wrap-around |
| `GeecacheTest.Ring2468Lookups` | consistentHash_test.go:29-37 | after AddNode("8"), hash 27 moves to "8", and hashes 2, 11 and 23 keep their nodes |

## Left out

- The embedded `sync.RWMutex` (consistentHash.go:21) is left out. `AddNode` and `Get` never lock it, and the model is single-threaded.
- The default hash `crc32.ChecksumIEEE` is left out. It is a foreign library, so it enters only as the constructor's `defaultHash` parameter.
- The `[]byte(...)` conversion is left out: the hash parameter takes the string directly.
- The in-place sort: `sort.Ints` is modelled as a method that returns the sorted sequence, which is assigned back to `nodes`. It is an insertion sort, not Go's in-place pattern-defeating quicksort. Only the result, a sorted permutation, is specified. The in-place update of a shared backing array is not modelled, and no other code aliases it.
- Strconv.Atoi: the range error for values outside 64 bits is not modelled. Atoi is used only by the test's stub hash, on one- and two-digit keys.
- Go's `int` is unbounded in the model. The loop counter and slice lengths cannot overflow. Positions come from `uint32`, so on 64-bit platforms `int(hashValue)` (consistentHash.go:39-40 and 55) keeps their value. Where Go's `int` is 32 bits that conversion turns positions at or above 2^31 negative, so `nodes` and the map keys are ordered differently from the model. The model does not capture that case. The conversion maps the key's hash the same way, so it rotates the ring and keeps its cyclic order, and Get's answers do not change.
- `http.go` is not part of this model. It is the HTTP handler, and it depends on cache-group code that is not shown.
- `main/main.go` is not part of this model. It is process startup and network I/O.
- `geecache_test.go` is not part of this model. It tests the cache-group layer, which is not shown.
