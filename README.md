# Fully-associative LRU cache simulator, modelled in Dafny

This project models the cache engine of a small C++ cache simulator. The cache is
fully associative and has `numBlocks` slots. Each slot (a `CacheBlock`) records
four things: whether it is valid, whether it is dirty, its tag, and the logical
time of its last access.

The one operation is `access(memoryAddress, write)`. It works in these steps:

1. It advances the logical clock and the search counter.
2. It takes the address shifted right by 4 bits as the tag.
3. It scans the slots in order and stops at the first valid slot with that tag.
4. On a hit, it refreshes that slot's time and sets its dirty bit if `write`.
5. On a miss, it counts a read or a write miss. A single left-to-right pass then
   picks the victim: a slot becomes the candidate when it is invalid, or when its
   time is strictly below the running minimum. The victim then gets the new tag
   and the current time, and its dirty bit is set if `write`.

Files:

- `cache_model.dfy`, module `CacheModel`: the value model. It holds the slot
  record `Block`, the whole object state `State`, the search (`FirstMatchFrom`),
  the replacement pass (`LruScan`, `Victim`), one access (`Step`) and a sequence
  of accesses (`Run`). Its lemmas cover the replacement rule, the counters, the
  hit and miss cases, and the invariants every reachable state keeps.
- `cache.dfy`, module `CacheSim`: the `Cache` class. Its slots live in an
  `array<Block>`, and its clock and counters are mutable fields. `Access` updates
  them in place. Its two loops are the methods `Search` and `FindVictim`, each
  proved equal to its model function. `Access` is proved to perform exactly
  `CacheModel.Step` and to keep the object invariant `Valid()`.
- `scenarios.dfy`, module `Scenarios`: consequences over whole access sequences.
  Two kinds come straight from `main`:
  - sweeps of consecutive addresses, where every access inside a 16-address
    span hits, so a sweep that starts on a span boundary misses at most once
    per span;
  - read-then-write pairs on one address, where the write always hits.

  The rest are short access sequences that show the replacement rule, the fixed
  4-bit offset and the dirty bit:
  - the cold-start miss and the repeat-hit law;
  - filling from the end;
  - one-slot thrashing;
  - the LRU eviction order;
  - the dirty bit kept across a read miss.

The invariant of a reachable state, `CacheModel.Valid`, says:

- `cacheMisses == readMisses + writeMisses`;
- `cacheMisses <= cacheSearches == currentTime`;
- an invalid slot is exactly as the `CacheBlock` constructor left it (clean, tag
  -1, time 0);
- a valid slot has a non-negative tag and a time in `1..currentTime`;
- no two valid slots share a tag or a time;
- the invalid slots form a prefix, because the cache fills from its last slot.

Two behaviours of the code that a reader might not expect, and that the model
keeps as written:

- The tag always drops exactly 4 offset bits. No `log2(blockSize)` is derived.
  `blockSize` only sizes the unused `data` vector; it never affects the tag.
- On a read miss the victim keeps its previous dirty bit. It is not reset to
  clean (`Scenarios.ReadMissKeepsDirtyBit`).

Negative addresses and `numBlocks == 0` are not rejected by the code. The model
excludes both with preconditions (see "Left out").

One structural difference: the source refreshes a hit slot's time inside the
search loop, just before it breaks. The model's `Search` only finds the slot,
and `Access` then writes the new time and dirty bit together through
`TouchSlot`. The array ends in the same state. Likewise, the victim load is
the method `LoadSlot`.

## Model

| member | source | states |
|---|---|---|
| `CacheModel.Tag` | simulator.cpp:44-48 | the tag of a non-negative address is the index of its 16-address span: `t*16 <= address < t*16 + 16` |
| `CacheModel.Matches` | simulator.cpp:64 | the hit test: an invalid slot never matches, whatever its tag (so the sentinel -1 never hits). A matching slot holds exactly the searched tag |
| `CacheModel.FirstMatchFrom` | simulator.cpp:62-70 | the result is -1 exactly when no slot from `i` on is valid with the tag; otherwise it is such a slot and no earlier one from `i` matches |
| `CacheModel.LruScan` | simulator.cpp:81-90 | the replacement loop's running `(lruIndex, minTime)` after `n` slots. The index is -1 or below `n`. A chosen index's `minTime` is that slot's time; while none is chosen, `minTime` is still the starting `currentTime`. Its lemmas are `LruScanUnset`, `LruScanAfterInvalid` and `LruScanAllValid` |
| `CacheModel.LruScanUnset` | simulator.cpp:81-90 | the scan is still at -1 exactly when every slot it has passed is valid and no older than the starting time |
| `CacheModel.LruScanAfterInvalid` | simulator.cpp:85-90 | once the pass has met an invalid slot, its candidate is the last invalid slot met, with running minimum 0 |
| `CacheModel.LruScanAllValid` | simulator.cpp:85-90 | over valid slots only, the candidate is in range and holds the smallest time seen; every earlier slot is strictly newer |
| `CacheModel.Victim` | simulator.cpp:81-92 | `blockIndex = lruIndex` after the full pass: -1 or a slot index. `VictimIsLru` and `LruVictimUnique` state which slot it is |
| `CacheModel.VictimIsLru` | simulator.cpp:81-92 | in a reachable state with at least one slot, the pass never ends at -1. It picks the highest-indexed invalid slot if one exists, and otherwise the lowest-indexed slot with the smallest time |
| `CacheModel.LruVictimUnique` | simulator.cpp:85-90 | the replacement rule names at most one slot |
| `CacheModel.Touch` | simulator.cpp:62-108 | the hit update: the slot keeps its validity and tag and takes the new time (line 67), and is dirty iff it was or `write` (lines 106-108). `TouchKeepsInvariant` and `StepHit` place it in a whole access |
| `CacheModel.Load` | simulator.cpp:94-104 | the victim load: the slot then matches the new tag, carries the new time, and is dirty iff it was or `write`, so a read keeps an old dirty bit. `LoadKeepsInvariant` and `StepMiss` place it in a whole access |
| `CacheModel.TouchKeepsInvariant` | simulator.cpp:64-67 | giving a valid slot the new time keeps the slot invariants (times remain distinct and in range) |
| `CacheModel.LoadKeepsInvariant` | simulator.cpp:92-104 | on a miss the victim is in range; loading it keeps tags unique, times distinct and the invalid slots a prefix |
| `CacheModel.Init` | simulator.cpp:13-37 | a fresh cache has `numBlocks` invalid slots, zero clock and zero counters, and satisfies the invariant |
| `CacheModel.Step` | simulator.cpp:39-110 | one access preserves the whole invariant (counter consistency, tag uniqueness, distinct times, fill order) and the slot count |
| `CacheModel.StepCounters` | simulator.cpp:40-78 | clock and searches each grow by exactly 1. Misses grow by 1 exactly when no valid slot holds the tag; the write-miss counter grows exactly when `write`, the read-miss counter otherwise, and a hit changes no miss counter |
| `CacheModel.StepHit` | simulator.cpp:62-108 | on a hit the first matching slot is the only one; it keeps its tag, gets the new time, and becomes dirty iff it was or `write`; every other slot is unchanged |
| `CacheModel.StepMiss` | simulator.cpp:72-104 | on a miss the slot chosen by the replacement rule becomes valid with the tag and the new time. Its dirty bit becomes `old dirty || write`, so a read miss keeps a true dirty bit. Every other slot is unchanged |
| `CacheModel.StepTouchesOneSlot` | simulator.cpp:62-108 | after any access exactly one slot differs: it is valid, holds the tag, has the new time, and is dirty iff it was or `write`. Valid slots never become invalid, and dirty bits are never cleared |
| `CacheModel.Run` | simulator.cpp:39-110 | the caller-side composition of `access` calls in order. A run keeps the invariant, searches grow by its length, and misses grow by at most its length |
| `CacheSim.Cache.constructor` | simulator.cpp:34-37 | the object starts in the state `Init(numBlocks)` and is valid. It requires `blockSize >= 0`, because the source throws while sizing the `data` vectors otherwise |
| `CacheSim.Cache.Search` | simulator.cpp:62-70 | the search loop returns `FirstMatchFrom(cache[..], tag, 0)` |
| `CacheSim.Cache.FindVictim` | simulator.cpp:81-90 | the replacement loop returns `LruScan`'s candidate over all slots, started from the current time |
| `CacheSim.Cache.TouchSlot` | simulator.cpp:105-108 | writing the hit update into the array: slot `i` becomes `Touch` of its old value, and every other slot is unchanged. The time refresh of line 67 is written here too |
| `CacheSim.Cache.LoadSlot` | simulator.cpp:94-104 | writing the victim load into the array: slot `i` becomes `Load` of its old value, and every other slot is unchanged |
| `CacheSim.Cache.Access` | simulator.cpp:39-110 | the new fields are exactly `Step` of the old ones, and the object stays valid |
| `Scenarios.ColdStartMisses` | simulator.cpp:62-73 | the first access to a fresh cache misses |
| `Scenarios.FirstLoadUsesLastSlot` | simulator.cpp:85-95 | in an empty cache the first load goes into the last slot, and all other slots stay invalid (with three slots, slot 2) |
| `Scenarios.SecondAccessHits` | simulator.cpp:62-70 | accessing an address right after accessing it hits and changes no miss counter |
| `Scenarios.ReadThenWriteHits` | simulator.cpp:62-108 | the read-then-write pair of `main` (simulator.cpp:255-268): the write after a read of the same address hits, counts no miss, and leaves the slot dirty |
| `Scenarios.RunAppend` | simulator.cpp:39-110 | one more access after a run acts on the run's final state |
| `Scenarios.RunPrefixStep` | simulator.cpp:39-110 | the run of the first `k` requests is the run of the first `k - 1` followed by request `k - 1` |
| `Scenarios.SameTagAsPredecessorHits` | simulator.cpp:62-70 | an access whose tag equals its predecessor's hits, and counts no miss |
| `Scenarios.Sweep` | simulator.cpp:146-148 | the sweep `lo, lo + 1, ..., lo + n - 1` of `main`'s loops: `n` requests, the `k`-th at address `lo + k` |
| `Scenarios.SpanInterior` | simulator.cpp:44-48 | an address that is not a multiple of 16 has its predecessor's tag |
| `Scenarios.SweepHitsWithinSpan` | simulator.cpp:44-70 | in a sweep, every access that does not open a new 16-address span hits, and counts no miss |
| `Scenarios.SweepPrefixMisses` | simulator.cpp:44-78 | the first `k` accesses of a sweep from a span boundary miss at most `ceil(k / 16)` times |
| `Scenarios.SweepMissesAtMostOncePerSpan` | simulator.cpp:44-78 | a sweep of `n` consecutive addresses from a span boundary (as `main`'s loops from 0 and 2000) misses at most once per 16-address span: at most `ceil(n / 16)` misses |
| `Scenarios.RepeatedAccessMissesAtMostOnce` | simulator.cpp:62-78 | `n` accesses to one address add one miss if the address was not resident and `n > 0`, and none otherwise |
| `Scenarios.ColdRepeatOneMiss` | simulator.cpp:62-78 | from a fresh cache, `n >= 1` accesses to one address give 1 miss and `n - 1` hits |
| `Scenarios.OneBlockThrashes` | simulator.cpp:85-95 | in a one-slot cache, a request sequence whose consecutive tags differ (the first not resident) misses on every access |
| `Scenarios.AlternatingThrashes` | simulator.cpp:44-48 | with one slot not holding tag 0, alternating addresses 0 and 16 miss every time |
| `Scenarios.AlternatingThrashesFromCold` | simulator.cpp:85-95 | from a fresh one-slot cache, misses equal searches for the alternation 0, 16, 0, ... |
| `Scenarios.TwoBlockLru` | simulator.cpp:81-104 | with two slots, reading A, B, A, C evicts B and keeps A and C, with 3 misses |
| `Scenarios.ReadMissKeepsDirtyBit` | simulator.cpp:100-102 | in one slot, a write to `a` followed by a read miss on `b` leaves the slot holding `b`'s tag and still dirty |

## Left out

- `printStats` and `printCacheState` (simulator.cpp:112-127): console output only. The hit rate is a floating-point quotient that divides by zero before the first access; the integer counters are public fields instead.
- `main` (simulator.cpp:130-277): a demonstration driver of fixed loops and printing. Its two access shapes are stated for any start state in `Scenarios`: the sweep (`SweepMissesAtMostOncePerSpan`) and the read-then-write pair (`ReadThenWriteHits`). The exact counter values its printouts would show are not derived.
- The `data` vector of `CacheBlock`: nothing reads or writes it, so the model has no data payload.
- `blockSize`: stored as a constant only. The source never uses it to derive the tag.
- Negative `blockSize`: the constructor requires `blockSize >= 0`. In the source, each `CacheBlock` sizes its unused `data` vector with `data.resize(blockSize)` (simulator.cpp:18, 36). A negative value becomes a huge `size_t`, so `std::length_error` is thrown and construction fails. The model has no exceptions, so that error path is excluded rather than modelled.
- 32-bit `int` overflow of the clock and counters: they are unbounded `nat`s.
- Negative addresses: `Access` requires `memoryAddress >= 0`. The source would shift a negative value arithmetically; that path is not modelled.
- `numBlocks == 0`: the constructor requires `numBlocks >= 1`. With no slots the source writes to `cache[-1]`, which is undefined behaviour.
