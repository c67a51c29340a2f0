# Key-generating trees over a typed sled store

This project models, in Dafny, the key-generating layer of `typed_sled`
(`src/key_generating.rs`): a `Counter` that mints `u64` keys, and the
`KeyGeneratingTree` that pairs one counter with one sled tree so that every
write path (plain insert, insert through a value constructor, a batch built
from the tree, and an insert inside a transaction) first mints a key from that
one counter and then forwards the write to the store.

Three modules, one file each:

- `Wrappers` (`wrappers.dfy`): `Option` and `Result`.
- `Sled` (`sled.dfy`): the store the layer consumes, abstracted as a map from
  `u64` to values. `Tree` holds the entries; `last()` yields the entry with the
  numerically greatest key (`LastEntry`); a batch is a sequence of `Insert` /
  `Remove` ops carried out in order (`ApplyOps`); a transaction attempt
  (`TransactionalTree`) queues writes that reach the tree only when committed.
  I/O failures are a `fault` parameter of each store write and of `last()`.
- `KeyGenerating` (`key_generating.dfy`): the counter, the tree wrapper, the
  batch and the transactional view, as classes. The counter is one object
  referenced by the tree, by every batch and by every transactional view, as the
  source shares it by reference. Its ghost fields record the seed and every key
  handed out (`issued`); `Valid()` says `issued` is exactly the run of keys a
  counter started at the seed hands out. The `u64` wrap-around of `fetch_add`
  is modelled (`WrappingIncrement`), and the properties that hold only until a
  wrap say so in their preconditions.

A panic of the source (`expect` on a failed `last()`) is a `Failure(Panic(..))`
result, never a fallback to key 0.

## Model

| member | source | states |
|---|---|---|
| `Sled.LastEntry` | src/key_generating.rs:174-176 | `last()` yields nothing exactly when the tree is empty; otherwise an entry of the tree whose key is at least every key in the tree |
| `Sled.ApplyOpsAppend` | src/key_generating.rs:211-216 | replaying a batch after earlier writes equals applying the batch's ops, in order, to the state those writes produced |
| `KeyGenerating.WrappingIncrement` | src/key_generating.rs:184-186 | the counter's step is `(x + 1) mod 2^64`, the wrap-around of `fetch_add` |
| `KeyGenerating.SuccessorsConsecutive` | src/key_generating.rs:184-186 | until the counter wraps, the i-th key a counter started at `s` hands out is `s + i`, and after `n` calls the counter holds `s + n` |
| `KeyGenerating.SuccessorsStrictlyIncrease` | src/key_generating.rs:77-79 | until the counter wraps, successive `next_key` results strictly increase, so no two are equal |
| `KeyGenerating.SuccessorsRange` | src/key_generating.rs:184-186 | until the counter wraps, the keys handed out by `n` calls are exactly `s .. s + n - 1`: no gaps, no repeats |
| `KeyGenerating.SeedAboveExisting` | src/key_generating.rs:173-181 | the seed is 0 for an empty tree and otherwise the greatest key plus one: above every key in the tree, and the least such value |
| `KeyGenerating.SeedWrapsAtMax` | src/key_generating.rs:178 | when the tree holds `u64::MAX`, `key + 1` wraps and the counter restarts at 0 |
| `KeyGenerating.MintedAboveInitial` | src/key_generating.rs:173-186 | every key minted after initialisation is strictly greater than every key the tree held at initialisation, absent a wrap |
| `KeyGenerating.MintedBatchKeys` | src/key_generating.rs:157-159 | applying inserts under consecutively minted keys `s, s + 1, ...` adds exactly those keys to the tree, and no others |
| `KeyGenerating.MintedBatchValues` | src/key_generating.rs:157-159 | applying such a batch stores the i-th queued value at key `s + i` |
| `KeyGenerating.MintedBatchKeepsOthers` | src/key_generating.rs:157-159 | applying such a batch leaves every entry under any other key unchanged |
| `KeyGenerating.MintedPairStored` | src/key_generating.rs:114-116 | a batch of two minted inserts, once applied, sets the first value at `s` and the second at `s + 1`, and nothing else |
| `KeyGenerating.IssuedAboveInitial` | src/key_generating.rs:51-58 | for a tree handle, every key its generator has handed out lies above every key present at `open`, and the keys strictly increase, absent a wrap |
| `KeyGenerating.Counter.Initialize` | src/key_generating.rs:173-182 | seeds from `last()`: greatest key plus one, or 0 for an empty tree; a failed `last()` is a panic, never a seed of 0 |
| `KeyGenerating.Counter.NextKey` | src/key_generating.rs:184-186 | returns the current value, advances the counter by one (wrapping) and records the key as issued |
| `KeyGenerating.KeyGeneratingTree.Open` | src/key_generating.rs:51-59 | pairs the tree with a fresh, valid generator seeded from the tree's contents; fails only when the generator's initialisation does |
| `KeyGenerating.KeyGeneratingTree.Insert` | src/key_generating.rs:62-66 | mints one key `k`, sets `map[k] := v`, returns `(k, old map[k])`, changes no other entry; the key is consumed even when the write fails, which then changes nothing |
| `KeyGenerating.KeyGeneratingTree.InsertWithKey` | src/key_generating.rs:73-75 | writes at the given key and returns the previous value; the generator is left untouched |
| `KeyGenerating.KeyGeneratingTree.NextKey` | src/key_generating.rs:77-79 | mints and returns one key without touching the tree |
| `KeyGenerating.KeyGeneratingTree.InsertFn` | src/key_generating.rs:84-89 | mints one key `k`, stores `f(k)` at `k` and returns that same `k` with the previous value; consumes exactly one key |
| `KeyGenerating.KeyGeneratingTree.Transaction` | src/key_generating.rs:91-101 | the view for one attempt writes through a fresh, empty attempt on this tree and mints from this tree's own generator |
| `KeyGenerating.KeyGeneratingTree.KeyGenerator` | src/key_generating.rs:103-105 | hands out the generator object itself, not a copy |
| `KeyGenerating.KeyGeneratingTree.NewBatch` | src/key_generating.rs:107-112 | a fresh, empty batch bound to this tree's generator |
| `KeyGenerating.KeyGeneratingTree.ApplyBatch` | src/key_generating.rs:114-116 | on success the tree becomes the queued ops applied in order; on failure the tree is unchanged; the generator is untouched |
| `KeyGenerating.KeyGeneratingBatch.Insert` | src/key_generating.rs:157-159 | consumes one key and appends `Insert(k, v)`; the tree is outside its frame, so the store is unchanged |
| `KeyGenerating.KeyGeneratingBatch.Remove` | src/key_generating.rs:161-163 | appends `Remove(k)`; neither the counter nor the store changes |
| `KeyGenerating.KeyGeneratingTransactionalTree.Insert` | src/key_generating.rs:204-209 | mints one key from the shared counter and writes within the attempt, returning the value it replaced; the key is consumed even when the write fails |
| `KeyGenerating.KeyGeneratingTransactionalTree.ApplyBatch` | src/key_generating.rs:211-216 | appends the batch's ops to the attempt's writes, so the attempt's view is the batch applied in order; mints nothing |
| `KeyGenerating.FirstInsertsOnEmptyTree` | src/key_generating.rs:12-19 | on a new empty tree the first two inserts return keys 0 and 1, and `get(0)`, `get(1)` yield the inserted values |
| `KeyGenerating.RetryAfterConflict` | src/key_generating.rs:95-100 | an attempt that inserts and is discarded still consumes its key; the committed retry writes under the next key only |
| `KeyGenerating.BatchOfTwo` | src/key_generating.rs:107-116 | two batch inserts take consecutive keys and reach the tree only when the batch is applied; a failed apply changes nothing, yet both keys are spent |

## Left out

- The store itself (sled's `Tree`, `Batch`, `TransactionalTree`, `Db`) is an abstract map with an op list; byte ordering of serialised keys is not modelled, and `last()` is taken to return the numerically greatest key.
- `Tree::open(db, id)` is not part of this model: `KeyGeneratingTree.Open` takes the already-opened tree.
- A failed store write is taken to leave the store unchanged.
- `Tree.Get` and `Tree.Commit` are infallible here: read errors and a failing commit are not modelled.
- `apply_batch` takes the batch by value, so an applied batch can no longer be used; in the model the batch object stays usable after `KeyGeneratingTree.ApplyBatch` (no stated property depends on this).
- `AtomicU64`, `Ordering::Relaxed`, `Arc` and the derived `Clone` (whose clones share one counter) serve concurrency; the counter is a plain field of one shared object, and concurrent interleavings are not modelled.
- The `KeyGenerating` trait's genericity: only the `Counter` strategy exists, and it is modelled directly.
- `transaction`'s closure, sled's retry loop on conflict and the `TransactionResult` / `ConflictableTransactionResult` plumbing belong to sled: `Transaction` returns the view one attempt hands to the closure, and committing an attempt is the store's `Commit`.
- The `Deref` impls of the tree and the transactional view are pure forwarding to the store's reads.
- `Counter.Initialize` follows release-build arithmetic, where `key + 1` wraps when the last key is `u64::MAX`; a debug build panics there instead.
- `KeyGenerating.SuccessorsStrictlyIncrease`: distinctness and increase are proved only while the counter has not wrapped past `u64::MAX`; after a wrap the counter repeats keys.
- `KeyGenerating.MintedAboveInitial`: proved only when the tree did not hold `u64::MAX` at initialisation and the counter has not wrapped since.
