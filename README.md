# CornerStore storage engine, modelled in Dafny

CornerStore is an in-memory key/value store with optional per-entry expiry.
Its engine has three parts:

- The hidden key. A key's bytes are hashed once to a 64-bit identifier. Inside a shard, records are filed under that identifier, not under the raw key.
- The shard table. It holds SHARDS = 128 maps from hidden key to record (raw key, value, optional expiry instant). Bits 13 to 19 of the identifier choose a record's shard.
- The expiry index. It is an ordered map from an instant to the hidden keys registered at that instant. `evict` scans it from the store's creation instant up to `now`.

The model has five files:

- `keys.dfy` (module `Keys`): byte strings, `Option`, `HiddenKey`, `Hidden` (the hashed key) and `Shard` (the shard selector).
- `store_spec.dfy` (module `StoreSpec`): the whole store as a value (`StoreState`). It has one function per operation, as the code performs it, and the lemmas that state what the operations promise.
- `store.dfy` (module `Store`): class `CornerStore`. Its fields are `data: array<ShardMap>` (the shard table), `expiryTimes` (the index) and `createdAt`. The constructor is proved to establish the object invariant `Valid()` with `State()` equal to `StoreSpec.Empty`. `Set`, `Update`, `Remove` and `Evict` change these fields in place; each is proved to keep `Valid()` and to leave `State()` equal to the matching `StoreSpec` function of the old state. The four reads change nothing and return the matching `StoreSpec` read of the current state. `CollectDue` and `RemoveItems`, the two phases of `Evict`, state which instants and keys are collected and which entries leave which shard.
- `corrected.dfy` (module `Corrected`): the departures from evident intent listed under "## Findings". Each comes with a concrete store that shows it and a corrected definition. The module proves that, with the corrections, the index stays exact and eviction removes exactly the records `get` hides.
- `scenarios.dfy` (module `Scenarios`): the three unit tests of lib.rs, restated as clients of the class.

The hasher (`DefaultHasher`) is a parameter: any total function `Bytes -> bv64`, passed to the constructor and fixed for the store's life. Time is an integer: `Instant::now()` becomes a `now` parameter of the constructor, `get` and `evict`.

The model follows the code, including these behaviours, which the code's own comments contradict or leave implicit:

- `set` creates a bucket only when none exists at that instant (src/lib.rs:161-166). It never appends to an existing bucket, although the index is documented to map an instant to "1 or more keys" (src/lib.rs:67). It also never unregisters the key's previous expiry.
- `get_key_value` does not check expiry (src/lib.rs:108-117), although its comment says it returns the pair "only if they have not expired" (src/lib.rs:107).
- `remove` leaves an emptied bucket in place (src/lib.rs:200-204).
- `evict` scans the half-open range `createdAt..now` (src/lib.rs:216), so it skips expired records whose expiry lies before the store's creation or exactly at `now`. Its comment says it removes "any expired perishable items" (src/lib.rs:209).

## Model

| member | source | states |
|---|---|---|
| `Keys.Hidden` | src/lib.rs:36-44 | the hidden key is the key's 64-bit hash and nothing else of its bytes |
| `Keys.HiddenKeysCollide` | src/lib.rs:36-44 | two raw keys get the same hidden key exactly when their hashes agree |
| `Keys.Shard` | src/lib.rs:46-53 | the shard is bits 13 to 19 of the identifier, so it is always below SHARDS (128) and indexing the shard table is in bounds |
| `Keys.ShardIgnoresOtherBits` | src/lib.rs:47-52 | identifiers that agree on bits 13 to 19 select the same shard, whatever their low and high bits |
| `StoreSpec.Empty` | src/lib.rs:78-88 | a new store has SHARDS shards, all empty, an empty index and the given creation instant, and every record is in its own shard |
| `StoreSpec.EmptyStoresNothing` | src/lib.rs:78-88 | no read finds anything in a new store |
| `StoreSpec.Get` | src/lib.rs:91-105 | `get` returns a value exactly when `get_unchecked` does and the record has not expired at `now` (expiry at or before `now` hides it), and then the same value |
| `StoreSpec.GetUnchecked` | src/lib.rs:120-129 | `get_unchecked` returns a value exactly when a record is stored under the key, expired or not, and it is the value `get_key_value` pairs with the key |
| `StoreSpec.GetKeyValue` | src/lib.rs:108-117 | `get_key_value` and `get_key_value_unchecked` look only in the shard the hidden key selects, and return that record's raw key and value exactly when it holds one, without any expiry check |
| `StoreSpec.RegisterIfAbsent` | src/lib.rs:161-166 | `or_insert_with`: the instant always ends up in the index; an existing bucket is left exactly as it was, so a key not yet in it is not added; a missing bucket becomes `[hk]`; no other instant changes |
| `StoreSpec.Set` | src/lib.rs:148-174 | after `set`, the hidden key holds exactly the new record; every other key and every other shard is unchanged; every existing bucket is unchanged; the only bucket that can appear is `t ↦ [hk]` for the new expiry `t`, and only when none existed at `t` |
| `StoreSpec.SetThenGet` | src/lib.rs:91-105 | after `set`, `get` returns the value unless the new expiry is at or before `now`; `get_unchecked` and `get_key_value` always return it |
| `StoreSpec.SetOverwrites` | src/lib.rs:168-171 | a second `set` of the same key replaces the first record wholesale |
| `StoreSpec.ExpiryHidesWithoutErasing` | src/lib.rs:96-101 | a record expired at `now` is hidden by `get` while `get_unchecked` and `get_key_value` still return it; an unexpired record is returned by `get` |
| `StoreSpec.CollidingKeysShareEntry` | src/lib.rs:36-44 | two raw keys with the same hash are one entry: after `set` under one, reading the other returns that value and the first key's bytes |
| `StoreSpec.SetKeepsKeysHashed` | src/lib.rs:155-170 | `set` files each record under the hash of its own raw key, so that invariant is kept |
| `StoreSpec.KeyValueKeyCollides` | src/lib.rs:108-117 | the raw key `get_key_value` returns hashes to the same hidden key as the key asked for |
| `StoreSpec.Retain` | src/lib.rs:202 | retaining drops every occurrence of the removed key and keeps every other key with its multiplicity |
| `StoreSpec.Unregister` | src/lib.rs:200-204 | only the bucket of the old expiry changes; it loses every occurrence of the key and stays in the index even when emptied |
| `StoreSpec.Remove` | src/lib.rs:187-207 | after `remove` there is no record for the key; other keys and shards are unchanged; the index keeps all its instants; only the bucket of the removed record's expiry loses the key |
| `StoreSpec.RemoveIdempotent` | src/lib.rs:187-207 | removing twice is the same as removing once |
| `StoreSpec.SetThenRemoveUnlists` | src/lib.rs:161-203 | after `set` with expiry `t` and then `remove`, the record is gone and bucket `t` still exists but no longer lists the key |
| `StoreSpec.DueTimes` | src/lib.rs:216 | the instants `evict` scans are exactly the index's instants from `createdAt` up to but excluding `now`; neither `now` nor anything before creation is among them |
| `StoreSpec.EvictTimes` | src/lib.rs:222-227 | consuming the buckets at the due instants removes every key they list from its shard, leaves every other key's record as it was, deletes exactly those buckets and leaves the rest unchanged |
| `StoreSpec.Evict` | src/lib.rs:210-230 | for `now` not before creation, as the monotonic clock guarantees: a key listed under a scanned instant has no record afterwards, every other record is unchanged, exactly the scanned buckets are deleted and the rest are kept unchanged |
| `StoreSpec.EvictEffectiveAndScoped` | src/lib.rs:210-230 | `evict(now)` removes a key listed at an instant in `createdAt..now`; it leaves a key listed at no such instant untouched; it deletes exactly the buckets in that range |
| `StoreSpec.EvictScenario` | src/lib.rs:210-230 | from a new store: a record due in `createdAt..now` is physically gone after `evict(now)`, while another key's record with a later expiry is still returned by `get` |
| `Store.CornerStore.constructor` | src/lib.rs:78-88 | the push loop leaves SHARDS empty shards; the index is empty and the creation instant is `now` |
| `Store.CornerStore.Get` | src/lib.rs:91-105 | returns the value under the key's hidden key, or None when there is no record or its expiry is at or before `now` |
| `Store.CornerStore.GetKeyValue` | src/lib.rs:108-117 | returns the stored raw key and value without checking expiry (the same result as `get_key_value_unchecked`); the returned key hashes like the key asked for |
| `Store.CornerStore.GetUnchecked` | src/lib.rs:120-129 | returns the stored value whether or not it has expired |
| `Store.CornerStore.GetKeyValueUnchecked` | src/lib.rs:132-144 | returns the stored raw key and value whether or not they have expired |
| `Store.CornerStore.Set` | src/lib.rs:148-174 | the new state is `StoreSpec.Set` of the old one, and the object invariant is kept |
| `Store.CornerStore.Update` | src/lib.rs:176-184 | the same new state as `set` |
| `Store.CornerStore.Remove` | src/lib.rs:187-207 | the expiry is read out before the record is removed; the new state is `StoreSpec.Remove` of the old one |
| `Store.CornerStore.CollectDue` | src/lib.rs:213-220 | for `now` not before creation, the instants collected are exactly those of the index in `createdAt..now`; the keys collected are exactly those listed under them |
| `Store.CornerStore.RemoveItems` | src/lib.rs:222-224 | each collected key leaves the shard it selects; nothing else in any shard changes |
| `Store.CornerStore.Evict` | src/lib.rs:210-230 | for `now` not before creation, the new state is `StoreSpec.Evict` of the old one: due keys gone, due buckets deleted, all else unchanged |
| `Corrected.GetKeyValueLive` | src/lib.rs:107-117 | with the expiry check: returns a pair exactly when `get` returns a value, and then the same value |
| `Corrected.GetKeyValueReturnsExpired` | src/lib.rs:107-117 | as written, `get_key_value` returns a pair that `get` hides as expired |
| `Corrected.Register` | src/lib.rs:161-166 | appending: the bucket at `t` gains one occurrence of the key and keeps what it had; no other bucket changes |
| `Corrected.SetRegistering` | src/lib.rs:148-174 | the corrected `set` stores the record as `set` does and lists the key in the bucket of its new expiry |
| `Corrected.EvictExpired` | src/lib.rs:209-230 | the corrected `evict(now)` deletes every bucket at or before `now` and keeps every later bucket unchanged |
| `Corrected.EmptyIndexExact` | src/lib.rs:78-88 | a new store's index is exact |
| `Corrected.RemoveKeepsIndexExact` | src/lib.rs:187-207 | `remove` keeps the index exact, and afterwards no bucket lists the removed key |
| `Corrected.SetRegisteringKeepsIndexExact` | src/lib.rs:161-170 | the corrected `set` keeps the index exact: every record with an expiry is listed at that instant, and every listed key has a record expiring there |
| `Corrected.SetRegisteringKeepsListed` | src/lib.rs:161-170 | when the index is exact after the key's old record is removed, the corrected `set` lists every record with an expiry at that instant |
| `Corrected.SetRegisteringKeepsCurrent` | src/lib.rs:161-170 | when the index is exact after the removal and no bucket lists the key, every key the corrected `set` leaves listed has a record expiring at that bucket's instant |
| `Corrected.EvictTimesRemovesExactlyDue` | src/lib.rs:213-227 | on an exact index, consuming the buckets at the due instants removes exactly the records that expire at one of them, and the index stays exact |
| `Corrected.EvictExpiredRemovesExactlyExpired` | src/lib.rs:209-230 | on an exact index, the corrected `evict(now)` removes exactly the records expired at `now`: afterwards `get_unchecked` returns what `get` returned before |
| `Corrected.SharedInstantEscapesEviction` | src/lib.rs:161-166 | as written, a second key set to expire at an instant that already has a bucket is never listed; `evict` past that instant keeps its record and empties the index, and every later `evict` leaves the store as it is, so the record stays forever |
| `Corrected.StaleRegistrationEvictsPermanentEntry` | src/lib.rs:161-170 | as written, re-setting a key without expiry leaves its old registration behind, and `evict` then deletes the permanent record |
| `Corrected.ReSetKeepsPermanentEntry` | src/lib.rs:148-174 | with the corrections, the same two writes keep the permanent record through eviction |
| `Corrected.PreCreationExpiryEscapesEviction` | src/lib.rs:216 | as written, a record whose expiry precedes the store's creation is hidden by `get` but survives `evict` at every instant from the store's creation on, although the index lists it |
| `Corrected.ExpiryAtNowEscapesEviction` | src/lib.rs:216 | as written, a record expiring exactly at `now` is hidden by `get` at `now` but kept by `evict` at `now` |
| `Scenarios.CanStoreData` | src/lib.rs:285-295 | a value set without expiry is returned by `get` |
| `Scenarios.ExpiredDataIsNotReturned` | src/lib.rs:297-320 | a value set with an expiry before the store's creation is hidden by `get` and returned by `get_unchecked`; after `evict` at an instant later than creation, `get` still hides it, and `get_unchecked` still returns it because its expiry lies before the range `evict` scans |
| `Scenarios.FreshDataIsReturned` | src/lib.rs:322-335 | a value set with a later expiry is returned by `get` |

## Left out

- Locking: the per-shard `RwLock`s, the index lock, lock ordering and the copy-out-of-lock pattern. Each operation is modelled as one sequential step, because these exist only for concurrency.
- Poisoned-lock errors, which reach the caller through `?` as `Box<dyn Error>`. They arise only from concurrency. Every modelled operation succeeds, and reads return their `Option` directly.
- The internals of `DefaultHasher`. It is a foreign hash, so the model takes it as a deterministic function parameter.
- `Instant::now()` and `Instant` arithmetic. Instants are integers passed in as `now`.
- Clock monotonicity: the model does not require successive calls to pass non-decreasing instants. `StoreSpec.Evict`, `StoreSpec.EvictEffectiveAndScoped`, `Store.CornerStore.Evict` and `Store.CornerStore.CollectDue` require `createdAt <= now`, and `Corrected.PreCreationExpiryEscapesEviction` requires `now` to be at or after its store's creation instant 100; the monotonic clock guarantees this in the Rust code. The panic `BTreeMap::range` would raise if `now` were before creation is not modelled; those members exclude that case instead.
- The jemalloc global allocator and the commented-out C interface. The first has no behaviour to model; the second is dead code.
- `HashMap`, `BTreeMap` and `Vec` internals, cloning and allocation. Dafny maps, sequences and values stand in for them.
- Store.CornerStore.CollectDue: it does not visit the due instants in ascending order as the `BTreeMap` range does. Because the removals that follow do not depend on order, the contract states only which instants and keys are collected.
- StoreSpec.Retain: it does not state that the kept keys keep their relative order; it states which keys remain and how often. No operation observes the order inside a bucket: `evict` only gathers the keys of the scanned buckets and removes each from its shard, and its outcome does not depend on their order.

## Findings

| source | as written | input that shows it | evidently intended | confidence | as-written member | corrected member |
|---|---|---|---|---|---|---|
| src/lib.rs:161-166 | `entry(time).or_insert_with(\|\| vec![hidden_key])` only creates a bucket; a key whose expiry instant already has a bucket is not added to it | `set(k0, v0, Some(5)); set(k1, v1, Some(5)); evict(10)` keeps `k1`'s record forever | the key is appended to the bucket (the index maps one instant to one or more keys, line 67), so eviction finds it | high (not executed) | `Corrected.SharedInstantEscapesEviction` | `Corrected.SetRegistering` |
| src/lib.rs:161-170 | `set` never unregisters the expiry of the record it overwrites | `set(k, v1, Some(5)); set(k, v2, None); evict(10)` deletes the permanent record `v2` | the old registration is removed before the new one is added, so only the current expiry is listed | high (not executed) | `Corrected.StaleRegistrationEvictsPermanentEntry` | `Corrected.SetRegistering` |
| src/lib.rs:216 | `evict` scans `created_at..now` only, so expiries before creation or exactly at `now` are skipped | the expiry test's own `set(k, v, Some(now - 1s))` on a fresh store; after `evict`, `get_unchecked(k)` still returns `v` | every record that `get` treats as expired (expiry at or before `now`) is removed | medium (not executed) | `Corrected.PreCreationExpiryEscapesEviction` | `Corrected.EvictExpired` |
| src/lib.rs:107-117 | `get_key_value` is documented "only if they have not expired" but does not check expiry | `set(k, v, Some(5)); get_key_value(k)` at instant 5 returns `(k, v)` while `get(k)` returns None | the same expiry check as `get` | high (not executed) | `Corrected.GetKeyValueReturnsExpired` | `Corrected.GetKeyValueLive` |

With both corrections, `Corrected.SetRegisteringKeepsIndexExact`, `Corrected.RemoveKeepsIndexExact` and `Corrected.EmptyIndexExact` show that the index stays exact. `Corrected.EvictExpiredRemovesExactlyExpired` then shows that `Corrected.EvictExpired` removes exactly the records `get` hides.
