# Consistent-hash ring, modelled in Dafny

This project models the consistent-hashing ring of the Go package
`ConsistentHash` (`consistentHash.go`). A `ConsistentHash` object holds:

- `ring`: a map from 32-bit ring positions to node ids.
- `members`: the set of node ids.
- `sortedHashes`: the sorted index of the ring's positions.
- `numberOfVNodes`: the number of virtual nodes per node, 20 by default.
- `count`: an `int32` counter.

A node `ip` gets one position per virtual node `i`. The position is the hash of
the key `ip + "#" + i`. A lookup hashes the name and binary-searches the index
for the first position strictly above that hash, wrapping to the first
position. It returns the node that owns that position.

Files and modules:

- `keys.dfy` (module `Keys`): the `uint32` position type, the decimal rendering
  of `strconv.Itoa` and `generateKey`. The key is proved to determine both the
  node id and the index.
- `sorted_index.dfy` (module `SortedIndex`): what it means for a sequence to be
  the sorted index of a key set. It holds the in-place sort that replaces
  `sort.Sort`, and the clockwise successor as a definition on sets, which the
  binary search is proved to find.
- `placement.dfy` (module `Placement`): the placement and removal loops as
  functions on the ring map (`Place`, `Unplace`, `PlaceAll`). It proves closed
  forms of them, the add/remove round trip, idempotent removal, and the
  consistency invariant that ties every ring entry to a member.
- `consistent_hash.dfy` (module `ConsistentHashing`): the `ConsistentHash`
  class. Its fields are the Go struct's data fields, plus the hash, which the
  constructor takes as a parameter. Its methods are `SetVNodeNumber`,
  `AddNode`, `AddNodes`, `RemoveNode`, `GetNode`, `UpdateSortedConsistentHash`
  and `Search`. The object invariant `Valid()` has three parts:
  - the virtual-node count is positive;
  - `sortedHashes` is exactly the strictly ascending list of the ring's keys;
  - every ring entry is a virtual-node position of its owner, and the owner is a
    member.
- `scenarios.dfy` (module `Scenarios`): client methods that replay the
  repository's tests and a few fixed lookups. They are proved only from the
  operations' contracts.

The hash (CRC-32 with the IEEE polynomial, over the key's bytes) is a
parameter of the ring: the constructor takes any total function
`string -> uint32`, so every property here holds for any deterministic hash.

Where behaviour is fixed by the code:

- `count` is incremented by every `AddNode`, also for an id that is already a
  member.
- `AddNodes` and `RemoveNode` leave `count` unchanged, so `count` is not the
  number of members.

## Model

| member | source | states |
|---|---|---|
| `Keys.DecimalString` | consistentHash.go:62 | the rendering of an index is one or more decimal digits, and it is a single digit exactly when the index is below ten |
| `Keys.DecimalStringInjective` | consistentHash.go:62 | distinct indices are rendered as distinct strings |
| `Keys.GenerateKey` | consistentHash.go:61-63 | the key of a virtual node is the node id, a `#` and the decimal index; its contract states that the key starts with the id, that the `#` after the id is the key's last `#`, and that at least one character follows it; `GenerateKeyInjective` builds on this |
| `Keys.GenerateKeyInjective` | consistentHash.go:61-63 | a key `ip + "#" + index` determines both the node id and the index, so distinct virtual nodes always hash distinct keys |
| `SortedIndex.IndexLength` | consistentHash.go:137-144 | the sorted index of a key set has exactly as many entries as the set has keys |
| `SortedIndex.IndexUnique` | consistentHash.go:137-144 | a key set has exactly one sorted index, so the index is determined by the ring alone |
| `SortedIndex.SortedPermutationIsIndex` | consistentHash.go:139-143 | sorting the collected map keys (each collected once) gives a strictly ascending sequence whose elements are exactly the keys |
| `SortedIndex.Swap` | consistentHash.go:26-28 | exchanges two entries and leaves the rest, and the multiset of entries, unchanged |
| `SortedIndex.Sort` | consistentHash.go:142 | the array ends ascending under `Less` (`<`) and is a permutation of what it held |
| `SortedIndex.SearchFindsSuccessor` | consistentHash.go:146-155 | the index the search returns holds the clockwise successor of the hash: the least position strictly above it, or the least position of all when none is above |
| `Placement.Place` | consistentHash.go:88-90 | a definition of the placement loop, writing `ip` at the position of each virtual node in index order; it has no contract of its own, and its properties are proved by `PlaceEffect`, `PlaceCount` and `PlaceConsistent` |
| `Placement.Unplace` | consistentHash.go:115-117 | a definition of the removal loop, deleting the position of each virtual node of `ip`; it has no contract of its own, and its properties are proved by `UnplaceEffect`, `RemoveUndoesAdd`, `RemoveIdempotent` and `UnplaceConsistent` |
| `Placement.PlaceAll` | consistentHash.go:101-106 | a definition of the batch placement loop, running the placement loop for each listed id in order; it has no contract of its own, and its properties are proved by `PlaceAllCovers`, `PlaceAllElsewhere` and `PlaceAllLastWins` |
| `Placement.PlaceEffect` | consistentHash.go:88-90 | after the placement loop every position of `ip` maps to `ip`, the keys are the old keys plus those positions, and every other entry is unchanged |
| `Placement.UnplaceEffect` | consistentHash.go:115-117 | the removal loop deletes exactly the positions of `ip` and nothing else |
| `Placement.RemoveUndoesAdd` | consistentHash.go:84-120 | removing a node after adding it removes only its positions; a ring that held none of them, such as the empty ring, is restored exactly |
| `Placement.RemoveIdempotent` | consistentHash.go:111-120 | removing a node a second time leaves the ring map as the first removal left it |
| `Placement.PlaceCount` | consistentHash_test.go:16-21 | with pairwise distinct positions, placing `n` virtual nodes on an empty ring gives exactly `n` entries |
| `Placement.PlaceAllCovers` | consistentHash.go:101-106 | after a batch placement every position of every listed id is on the ring |
| `Placement.PlaceAllElsewhere` | consistentHash.go:101-106 | a position that no listed id has keeps its old entry, or stays absent |
| `Placement.PlaceAllLastWins` | consistentHash.go:101-106 | a position shared by several listed ids belongs to the last of them, as one `AddNode` after another would leave it |
| `Placement.PlaceConsistent` | consistentHash.go:88-92 | placing a node and adding it to the members keeps every entry a virtual-node position of a member |
| `Placement.UnplaceConsistent` | consistentHash.go:115-118 | removing a node keeps the ring consistent and leaves no entry owned by that node |
| `ConsistentHashing.WrappingIncrement` | consistentHash.go:94 | `count++` on an `int32` gives a value congruent to `count + 1` modulo 2^32 |
| `ConsistentHashing.ConsistentHash.constructor` | consistentHash.go:42-52 | a new ring has no positions, no members, an empty index, 20 virtual nodes per node and a zero counter |
| `ConsistentHashing.ConsistentHash.SetVNodeNumber` | consistentHash.go:70-82 | the change fails while there are members (checked first), then fails for a count below one; it succeeds otherwise; the count changes only on success |
| `ConsistentHashing.ConsistentHash.AddNode` | consistentHash.go:84-95 | every position `hash(ip + "#" + i)` with `i < numberOfVNodes` maps to `ip`; other entries are unchanged; `ip` is a member; the index is rebuilt; `count` goes up by one (with wrap-around), even for an existing member |
| `ConsistentHashing.ConsistentHash.AddNodes` | consistentHash.go:97-109 | the ring is that of placing each id in order as `AddNode` does; all ids become members; the index is rebuilt once; `count` is unchanged |
| `ConsistentHashing.ConsistentHash.RemoveNode` | consistentHash.go:111-120 | exactly the positions of `ip` are deleted; `ip` leaves the members; no entry is owned by `ip` afterwards; `count` is unchanged; on a ring with no trace of `ip` nothing changes, so a second removal is a no-op |
| `ConsistentHashing.ConsistentHash.GetNode` | consistentHash.go:122-135 | it fails with "ring nil" exactly when the ring is empty; otherwise it returns the owner of the clockwise successor of the name's hash, which is a member; it changes nothing, and its result is a function of the ring and the name |
| `ConsistentHashing.ConsistentHash.UpdateSortedConsistentHash` | consistentHash.go:137-144 | the rebuilt index is strictly ascending and holds exactly the keys of the ring |
| `ConsistentHashing.ConsistentHash.Search` | consistentHash.go:146-155 | on a non-empty index it returns an in-range index `i`: either every earlier entry is at most the key and entry `i` is above it, or no entry is above the key and `i` is 0; on an empty index it returns 0 |
| `Scenarios.AddNodeOnNewRing` | consistentHash_test.go:16-25 | one node on a new ring with distinct hashes gives 20 ring entries and 20 index entries, sorted |
| `Scenarios.AddNodesOnNewRing` | consistentHash_test.go:27-39 | the batch test's ids (five empty ids, then five addresses) all become members and the index is sorted |
| `Scenarios.AddThenRemoveOnNewRing` | consistentHash_test.go:41-48 | adding and then removing one node on a new ring leaves the ring, the index and the members empty |
| `Scenarios.ResizeAfterAdd` | consistentHash.go:70-74 | once a node is added, changing the virtual-node count fails and the count stays 20 |
| `Scenarios.LookupOnNewRing` | consistentHash.go:126-128 | a lookup on a new ring fails with "ring nil" |
| `Scenarios.LookupSingleNode` | consistentHash.go:122-135 | on a ring with one node, every name is owned by that node |

## Left out

- The `sync.RWMutex` and its `Lock`/`RLock` calls: every method is modelled as one atomic step.
- The process-wide `GConsistentHash` and its lazy getter `GetGConsistentHash` are global-state plumbing. The constructor models `NewConsistentHash` without assigning any global.
- ConsistentHashing.ConsistentHash.SetVNodeNumber checks the ring's own members. `consistentHash.go:71` reads the members of the global `GConsistentHash`. The two agree when the ring is the one that `NewConsistentHash` created last. With the ring's own members, the invariant "every entry is a position of a member under the current count" holds.
- CRC-32 (`crc32.ChecksumIEEE`) and the conversion of the key to bytes form a library call. They are a parameter: any total function from strings to `uint32`.
- `sort.Sort` and `sort.Search` are library code. An insertion sort over an array and a binary search replace them. `Len` and `Less` of `uint32Type` are the sequence length and `<` on positions.
- Go's map iteration order is unspecified. The key-collecting loop picks keys in an arbitrary order (`:|`).
- `strconv.Itoa` on negative numbers is not modelled: the index passed to it is never negative.
- No invariant relates `count` to `members`: the code does not keep one.
- The model does not state that each member owns exactly `numberOfVNodes` entries. A hash collision between two nodes breaks that claim: the last write wins.
- No lookup in `consistentHash.go` returns two or N distinct owners, so none is modelled.
