# basic-hash in Dafny

A model of `src/lib.rs` of the `basic-hash` crate: a hash map made of a
growable array of collision chains (`Vec<Vec<(K, V)>>`) and an item counter.
`insert` grows the array before it places a key when there are no buckets
yet or the counter exceeds 3/4 of the bucket count. It then overwrites the
value of an existing key in place, or pushes the pair onto the key's chain.
`remove` swap-removes the pair from its chain. `get`, `len`, `is_empty` and
`contains_key` are queries.

The model has four modules:

- `Chains` (chains.dfy) holds one collision chain as a sequence of pairs and
  the operations on it: the linear scans `Position` and `Lookup`, `Upsert`
  (overwrite or append), and `SwapRemove` (`Vec::swap_remove`).
- `Table` (table.dfy) holds the bucket array as a value. It defines the
  invariant the map keeps (`TableInv`) and the effect of each state change
  as a function of the old array: `Resized`/`Grown` for `resize`,
  `InsertInto` for `insert`'s chain update, and `RemoveFrom` for `remove`.
  It also holds the lemmas that these preserve the invariant and change the
  stored pairs (`Entries`, a multiset) exactly as intended.
- `BasicHash` (hashmap.dfy) holds the class `HashMap`, whose fields
  `buckets` and `items` are updated in place by `Insert`, `Resize` and
  `Remove`. Each method is proved against the `Table` function for its new
  state and against the lookup behaviour the map promises. `Resize` keeps
  the source's loop: the old chains are drained in order into the new array.
  `DrainInto` is the body of that loop for one chain.
- `Scenarios` (scenarios.dfy) holds the crate's unit tests as client
  methods, plus three multi-step examples. Their outcomes follow from the
  contracts of `HashMap` alone.

The hasher (`DefaultHasher`) becomes a deterministic function
`hash: K -> nat`, fixed when the map is created. The slot of a key is
`hash(key) % |buckets|`.

Where the code differs from the behaviour a hash map is meant to have, the
model follows the code:

- `insert` runs `items += 1` before it scans the chain, so an update of an
  existing key is counted too. A hash map's length is meant to be the number
  of stored entries, so inserting one key twice should give `len() == 1`.
  In the code, and in the model, `len()` is 2 there (`UpdateIsCounted`).
  After a later `remove` of that key nothing is stored, yet `len()` is 1 and
  `is_empty()` is false (`UpdateThenRemove`). The invariant the model proves
  is therefore `EntryCount(buckets) <= items`, not equality.
- `get`, `remove` and `contains_key` on a map with no buckets compute
  `hash % 0` and panic. A lookup in a new map is meant to find nothing. The
  model requires at least one bucket for these calls.
- The growth trigger keeps the load at most 3/4 before each insertion, but
  the code counts the insertion after the check, so the counter can reach
  `3 * n / 4 + 1`. `TableInv` states that bound.

## Model

| member | source | states |
|---|---|---|
| Chains.Position | src/lib.rs:84 | the result is the index of the first pair whose key equals `key`, or none when no key in the chain equals it |
| Chains.Lookup | src/lib.rs:56-59 | a found value is paired with `key` in the chain; nothing is found exactly when no key in the chain equals `key` |
| Chains.LookupUnique | src/lib.rs:54-60 | in a chain with distinct keys, the lookup returns `v` if and only if `(key, v)` is stored |
| Chains.Upsert | src/lib.rs:44-50 | the chain keeps every key in its place and grows by at most one pair, which is `(key, value)` at the end |
| Chains.UpsertLookup | src/lib.rs:44-50 | after the update `key` maps to the new value and every other key to what it mapped to before |
| Chains.UpsertEntries | src/lib.rs:44-50 | the pairs change by replacing the old pair of `key` (if any) with `(key, value)` |
| Chains.UpsertKeepsUnique | src/lib.rs:44-50 | distinct keys stay distinct |
| Chains.SwapRemove | src/lib.rs:86 | one shorter; the removed pair goes and all others stay (multiset); position `i` now holds the former last pair |
| Chains.SwapRemoveKeepsUnique | src/lib.rs:86 | distinct keys stay distinct after the removal |
| Chains.SwapRemoveLookup | src/lib.rs:84-86 | after removing the pair at `i`, its key is absent and every other key maps as before |
| Table.Slot | src/lib.rs:32 | the slot of a key is an index below the bucket count |
| Table.EntryCount | src/lib.rs:10 | the summed chain lengths equal the number of stored pairs |
| Table.NextSize | src/lib.rs:63-66 | the new bucket count exceeds the old one and stays a power of two |
| Table.EmptyBuckets | src/lib.rs:68-69 | `n` empty chains |
| Table.Place | src/lib.rs:72-75 | pushing one pair keeps the bucket count |
| Table.Rehash | src/lib.rs:71-76 | pushing a sequence of pairs into `n` chains yields `n` chains |
| Table.ResizeNeeded | src/lib.rs:36 | the trigger fires exactly when there are no buckets or four times the counter exceeds three times the bucket count, that is, when the load is above 3/4 |
| Table.FlattenPrefix | src/lib.rs:71 | the drain visits the chains in index order: draining the first `i + 1` chains yields the drain of the first `i` followed by chain `i` in its own order |
| Table.Resized | src/lib.rs:62-79 | the grown array has `NextSize` of the old count of chains |
| Table.Grown | src/lib.rs:36-38 | after the growth check there is at least one bucket |
| Table.InsertInto | src/lib.rs:40-51 | the chain update of `insert` keeps the bucket count |
| Table.RemoveFrom | src/lib.rs:82-86 | the chain update of `remove` keeps the bucket count |
| Table.FlattenMember | src/lib.rs:71 | a pair is in the concatenation of the chains exactly when some chain holds it |
| Table.EntriesUpdate | src/lib.rs:41 | replacing one chain swaps that chain's pairs for the new ones in the stored multiset |
| Table.EntryInSlot | src/lib.rs:29-33 | when every pair sits at its key's slot, a stored pair is in the chain of its key's slot |
| Table.TableLookup | src/lib.rs:54-60 | in a valid array, the lookup in a key's slot returns `v` exactly when `(key, v)` is stored |
| Table.UniqueFlatten | src/lib.rs:71 | a valid array's pairs, drained in order, have distinct keys |
| Table.RehashStep | src/lib.rs:71-76 | draining one more pair pushes it onto its slot's chain |
| Table.RehashPlaced | src/lib.rs:72-75 | after rehashing, every pair sits at its key's slot for the new count |
| Table.RehashEntries | src/lib.rs:71-76 | rehashing stores exactly the drained pairs |
| Table.RehashUnique | src/lib.rs:71-76 | pairs with distinct keys give chains with distinct keys |
| Table.ResizeKeepsInv | src/lib.rs:62-79 | `resize` keeps the map invariant and exactly the stored pairs |
| Table.GrowthMakesRoom | src/lib.rs:36-38 | after the growth check the invariant and the pairs are kept and the trigger no longer holds |
| Table.InsertIntoLookup | src/lib.rs:40-51 | after the chain update `key` maps to the new value and every other key to its old value |
| Table.InsertIntoEntries | src/lib.rs:44-50 | the stored pairs change by replacing the old pair of `key` (if any) with `(key, value)` |
| Table.InsertIntoKeepsInv | src/lib.rs:40-51 | with room in the table, the update keeps the invariant with the counter one higher |
| Table.RemoveFromLookup | src/lib.rs:81-87 | after the removal `key` is absent and every other key maps as before |
| Table.RemoveFromEntries | src/lib.rs:84-86 | the stored pairs lose exactly the pair of `key`, or stay the same when it is absent |
| Table.RemoveFromKeepsInv | src/lib.rs:84-86 | the invariant holds with the counter one lower when the key was found (so the decrement cannot underflow) and unchanged otherwise |
| BasicHash.HashMap.constructor | src/lib.rs:16-21 | no buckets, counter zero, invariant established |
| BasicHash.HashMap.Bucket | src/lib.rs:29-33 | the index is below the bucket count, and every stored pair of the key is in that chain |
| BasicHash.HashMap.Insert | src/lib.rs:35-52 | the new array is the chain update applied after the growth check; the counter is one higher; the invariant holds; the previous value is returned; the pairs change by that replacement; `get` then finds the new value |
| BasicHash.HashMap.Get | src/lib.rs:54-60 | returns `v` exactly when `(key, v)` is stored |
| BasicHash.HashMap.Resize | src/lib.rs:62-79 | the new array is the old pairs drained in order into `NextSize` chains; the counter, the invariant and the stored pairs are kept |
| BasicHash.DrainInto | src/lib.rs:71-76 | pushing one drained chain's pairs extends the rehash of the pairs drained so far |
| BasicHash.HashMap.Remove | src/lib.rs:81-87 | the new array is the swap-removal; the counter drops by one exactly when a value is returned; the value returned is the stored one; `get` then finds nothing |
| BasicHash.HashMap.Len | src/lib.rs:89-91 | the counter, at least the number of stored pairs and at most one above 3/4 of the bucket count |
| BasicHash.HashMap.IsEmpty | src/lib.rs:93-95 | true exactly when the counter is zero, and then nothing is stored |
| BasicHash.HashMap.ContainsKey | src/lib.rs:97-99 | true exactly when some value is stored for the key |
| Scenarios.InsertThenGet | src/lib.rs:107-113 | after inserting `(key, value)` into a new map, `get(key)` is `Some(value)` |
| Scenarios.InsertThenRemove | src/lib.rs:115-121 | removing the only key returns its value; then `get` is absent and the map is empty |
| Scenarios.NewIsEmpty | src/lib.rs:123-127 | a new map is empty with length 0 |
| Scenarios.LenAfterInsert | src/lib.rs:129-134 | one insertion into a new map gives length 1 |
| Scenarios.ContainsAfterInsert | src/lib.rs:136-141 | an inserted key is contained |
| Scenarios.UpdateIsCounted | src/lib.rs:43-47 | inserting one key twice returns none then the first value and `get` sees the second, but `len` is 2 while one pair is stored |
| Scenarios.UpdateThenRemove | src/lib.rs:43-47 | inserting one key twice and removing it returns the second value and leaves nothing stored, but `len` is 1 and `is_empty` is false |
| Scenarios.InsertTwice | src/lib.rs:35-52 | in any valid map, a second insertion of a key returns the first value and stores the second; the counter rises by two, while the stored pairs grow by one when the key was absent and keep their number otherwise |
| Scenarios.Put | src/lib.rs:35-52 | an insertion stores its pair, keeps every pair of other keys and returns the previous value of the key |
| Scenarios.ThreeKeys | src/lib.rs:35-87 | three distinct keys give length 3 and are all found; removing the second returns its value, after which it is absent, the third is found and the length is 2 |
| Scenarios.InsertThree | src/lib.rs:35-60 | three insertions of distinct keys raise the counter by three, and each pair is then stored |

## Left out

- `DefaultHasher` and the `Hash` trait: the hash is a function parameter `hash: K -> nat`, and any deterministic hasher is an instance of it.
- Integer widths: `u64` hashes, `usize` indices and the `usize` counter are unbounded naturals. A counter overflow after `usize::MAX` calls, and an overflow of `3 * len`, are not modelled.
- `Vec::with_capacity`, growth of the vectors, and allocation failure: sequences have no capacity.
- References and borrows: `get` returns the value instead of `&V`, and `mem::replace` is a sequence update.
- BasicHash.HashMap.Get: requires at least one bucket, because the code computes `hash % 0` and panics on a map that has never been inserted into. The panic is a precondition, not a modelled error.
- BasicHash.HashMap.Remove: requires at least one bucket, for the same reason.
- BasicHash.HashMap.ContainsKey: requires at least one bucket, because it calls `get`.
- `resize`'s inner loop is factored into the method `DrainInto`. The drain order (chains in index order, each chain front to back) is the code's.
- Iteration over the map: `src/lib.rs` has no iterator, and no other file is part of this model.
- Concurrency: the map is single-owner in the source.
