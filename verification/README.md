# KVStorage: a Dafny model of a key-value storage with time-to-live

The modelled component is the class template `KVStorage` of
`main/include/key_value_storage.h`. It is an in-memory key-value storage.
Every entry has a time-to-live (ttl); ttl 0 means "never expires". The
storage keeps two indices:

- the expiration index `_timestampToKey`, a multimap from a 32-bit
  expiration time to a key;
- the value index `_keyToValue`, an ordered map from a key to its value and
  an iterator to the key's slot in the expiration index.

The model has four main modules.

- `LexOrder` is the key order of the ordered map: lexicographic comparison of
  strings, where a proper prefix sorts first. It proves that this is a strict
  total order.
- `FixedWidth` holds the unsigned widths and the expiration computation. The
  64-bit time `now + ttl`, or `UINT64_MAX` for ttl 0, is narrowed to the
  `uint32_t` key of the expiration index.
- `StorageSpec` holds the abstract meaning. A `Table` maps each key to its
  value and stored expiration. It defines what the constructor builds
  (`Loaded`), what a write does (`Store`) and when an entry is visible
  (`Live`). `IsScanResult` states what a range scan returns, and lemmas show
  that this determines the scan result completely.
- `KeyValueStorage` holds the class `KVStorage`. Its fields `values` and
  `slots` are updated in place, as the C++ fields are. Multimap iterators
  become stable slot handles (`SlotId`), drawn from a counter `nextSlot`.
  `Valid()` is the back-reference invariant. `Contents()` is the abstract
  table. The constructor, `Set`, `AddWithTimestamp`, `Remove`, `Get` and
  `GetManySorted` are proved against `Contents()`, and each keeps `Valid()`.
  `Seek` is stated over the keys of the value index. `RemoveOneExpiredEntry`
  only promises `None`.

A fifth module, `Scenario`, replays the tests of
`test/src/test_key_value_storage.cpp` through these contracts. Each test
loads the same five entries at time 0. The replays cover:

- the reads of lines 31-64;
- the writes of a new key and of an existing key, at lines 66-144;
- the removals of lines 146-159;
- the range scan of lines 161-177, down to every element.

Two more scans are added as examples: the same scan at time 4, and a scan
from "c" for 2 entries at time 0. The tests do not contain them.

The clock is injected in the source. In the model, each operation that reads
it takes the one clock sample as a `now: u64` argument. The constructor,
`set`, `get`, `getManySorted` and `removeOneExpiredEntry` each read the clock
once. `remove` never reads it.

## Behaviour as written

In three places the code does something other than its interface suggests.
The model follows the code.

- Expirations are 32-bit (`key_value_storage.h:39`, `:130`). The clock and
  the computed expiration are `uint64_t`, and ttl 0 means "never". But the
  expiration index is keyed by `uint32_t`, and the 64-bit time is narrowed
  when it is inserted. So "never" is stored as 4294967295. An entry with
  ttl 0 therefore becomes invisible once the clock reaches 4294967295
  (`NeverExpiresOnlyBelowSentinel`). A write whose `now + ttl` reaches 2^32
  is already expired when it is written (`WrappedWriteIsExpired`).
- An overwrite leaves an orphan slot (`key_value_storage.h:130-131`).
  `addWithTimestamp` inserts a new slot and re-points the key's entry at it.
  It does not erase the key's previous slot. That slot stays in the
  expiration index with nothing referring to it. `Set` states this through
  `Orphans()`. Each constructor entry and each `set` adds exactly one slot,
  and `remove` erases exactly one. So a key can own several slots, and a
  slot's key may be absent from the value index. Only the direction from the
  value index to the slots holds, and that is the invariant `Valid()`.
- `removeOneExpiredEntry` is a stub (`key_value_storage.h:116-120`). Its
  name and result type suggest that it evicts an expired entry. The code
  always returns `nullopt` and changes nothing.

Duplicate keys in the constructor's batch are handled like `set`: the last
occurrence wins, and all entries use one clock sample.

## Model

| member | source | states |
|---|---|---|
| `LexOrder.Trichotomy` | main/include/key_value_storage.h:41-42 | any two keys are equal or ordered one way, never both ways: the key order of the ordered map is total and asymmetric |
| `LexOrder.LessTransitive` | main/include/key_value_storage.h:41-42 | the key order is transitive |
| `LexOrder.LessIrreflexive` | main/include/key_value_storage.h:41-42 | no key sorts before itself |
| `FixedWidth.ExpirationForValue` | main/include/key_value_storage.h:127-130 | the stored expiration is 4294967295 for ttl 0, otherwise `(now + ttl) mod 2^32`: the 64-bit sum and the "never" value are narrowed to the `uint32_t` key |
| `FixedWidth.ExpirationWithoutWrap` | main/include/key_value_storage.h:127-130 | while `now + ttl` stays below 2^32, the stored expiration is exactly `now + ttl` |
| `FixedWidth.ExpirationWraps` | main/include/key_value_storage.h:127-130 | with a clock below 2^32, a sum `now + ttl` that reaches 2^32 stores `now + ttl - 2^32`, which is below both `ttl` and `now` |
| `StorageSpec.StoredLiveness` | main/include/key_value_storage.h:87-94 | a freshly written key is visible at time `t` iff `t` is strictly below its stored expiration (the sentinel, or `now + ttl` mod 2^32) |
| `StorageSpec.TtlBoundary` | main/include/key_value_storage.h:87-94 | without wrap-around (`w + d < 2^32`), an entry written at `w` with ttl `d` is visible at `t` iff `t < w + d`; at `t == w + d` it is expired |
| `StorageSpec.NeverExpiresOnlyBelowSentinel` | main/include/key_value_storage.h:127-130 | an entry written with ttl 0 is visible at `t` iff `t < 4294967295` |
| `StorageSpec.WrappedWriteIsExpired` | main/include/key_value_storage.h:127-130 | a write whose `now + ttl` wraps past 2^32 is not visible at its own clock sample |
| `StorageSpec.LoadedKeys` | main/include/key_value_storage.h:56-60 | the constructor stores exactly the keys named by its entries |
| `StorageSpec.LoadedLastWriteWins` | main/include/key_value_storage.h:56-60 | a key's last occurrence in the constructor batch decides its value and its expiration, computed from the one clock sample |
| `StorageSpec.ScanResultUnique` | main/include/key_value_storage.h:99-111 | any two sequences that meet the scan conditions are equal, so `IsScanResult` determines the result of `getManySorted` completely |
| `StorageSpec.ScanLength` | main/include/key_value_storage.h:102-110 | a scan returns `min(count, n)` entries, where `n` is the number of live keys at or after the start key; when fewer than `count` come back, they are all of those keys |
| `KeyValueStorage.KVStorage.constructor` | main/include/key_value_storage.h:51-61 | the built storage is valid, its contents are `Loaded(entries, now)` (one clock sample, last write wins), and it has one slot per entry, duplicates included |
| `KeyValueStorage.KVStorage.Set` | main/include/key_value_storage.h:66-71 | `key` now maps to `value` with the expiration computed from `ttl` and `now`; every other key is unchanged; one fresh slot is added; an overwritten key's old slot becomes an orphan |
| `KeyValueStorage.KVStorage.AddWithTimestamp` | main/include/key_value_storage.h:122-132 | inserts a fresh slot `(expiration, key)` and points the key's entry at it; both index maps change at that one key only; validity is kept; the previous slot of the key is not erased |
| `KeyValueStorage.KVStorage.Remove` | main/include/key_value_storage.h:73-82 | returns whether the key was in the value index; the key is then absent; exactly the slot it referred to is erased; nothing else changes, and an absent key changes nothing |
| `KeyValueStorage.KVStorage.Get` | main/include/key_value_storage.h:84-95 | returns a value iff the key is present and its stored expiration is strictly greater than `now`; the value returned is the stored one |
| `KeyValueStorage.KVStorage.Seek` | main/include/key_value_storage.h:102-109 | returns the least key of the value index at or after the bound (`lower_bound`), or strictly after it (the iterator increment), or `None` for `end()` when there is none |
| `KeyValueStorage.KVStorage.GetManySorted` | main/include/key_value_storage.h:97-112 | the result meets `IsScanResult`: strictly ascending keys, each at or after `start`, each live at `now` with its stored value, at most `count` of them, and no live key skipped; the storage is not changed |
| `KeyValueStorage.KVStorage.RemoveOneExpiredEntry` | main/include/key_value_storage.h:114-120 | always returns `None`, and nothing changes |
| `KeyValueStorage.ReferencedAfterInsert` | main/include/key_value_storage.h:130-131 | re-pointing a key's entry at a fresh slot removes only the key's old slot from the referenced slots and adds the fresh one |
| `KeyValueStorage.ReferencedAfterErase` | main/include/key_value_storage.h:76-78 | erasing a key's entry removes exactly that key's slot from the referenced slots, because no other key refers to it |
| `Scenario.FixtureLoaded` | test/src/test_key_value_storage.cpp:15-24 | the fixture's five entries, loaded at time 0, give expirations 1, 5, 4, 6 and the stored sentinel 4294967295 for the ttl-0 key |
| `Scenario.ScanAllAtZero` | test/src/test_key_value_storage.cpp:161-177 | a scan from "a" for 5 entries at time 0 is exactly the five fixture pairs in key order |
| `Scenario.ScanAtFour` | main/include/key_value_storage.h:104-109 | an example beyond the tests: at time 4 the scan from "a" skips "a" (expired at 1) and "c" (expired at 4, since equality means expired) and returns b, d, e |
| `Scenario.ScanFromCAtZero` | main/include/key_value_storage.h:102-110 | an example beyond the tests: a scan from "c" with count 2 starts at "c" and stops after two entries |
| `KeyValueStorage.AdvanceVisited` | main/include/key_value_storage.h:104-109 | stepping the scan iterator from a key to its successor adds exactly that key to the keys already visited |

## Left out

- The clock object and the `TimeGetter` concept: each operation takes the
  clock sample as its `now` argument instead.
- The `std::string_view` keys of the value index. They point into
  caller-owned strings, which is a C++ lifetime matter. Keys are owned
  strings here.
- The order of the expiration index: the multimap's ordering by expiration
  time and its insertion-order tie-breaking are not modelled. Slots are a map
  from handle to `(expiration, key)`. The only reader of that order is the
  stub's unused `begin()`.
- `KeyValueStorage.KVStorage.RemoveOneExpiredEntry`: the unused read of
  `_timestampToKey.begin()` is not modelled. That the method changes nothing
  is stated by its empty frame (it has no `modifies` clause), not by an
  `ensures`.
- The destructor, `std::span`, memory allocation and the complexity of the
  operations.
- Character order: keys compare by Dafny `char` code, which agrees with the
  unsigned-byte comparison of `std::char_traits<char>` for byte strings.
