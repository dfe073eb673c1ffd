# ConstantSizeCache, modelled in Dafny

`ConstantSizeCache` is a fixed-size, 3-way set-associative cache. Its keys
and values have fixed widths and live in one flat region of `size` bytes of
off-heap memory.

- **Slots.** The region is divided into `slotCount = size / slotSz` slots of
  `slotSz = 3 * (keySz + valueSz)` bytes. Each slot holds three key/value
  pairs, most recently inserted first.
- **Lookup.** A key's slot is `|hash(key)| % slotCount`.
- **`put`.** It copies the slot out and scans its three pairs for the key.
  - If the key is present, it overwrites that pair's value in place.
  - Otherwise it shifts pairs 0 and 1 one pair to the right, dropping pair 2,
    and writes the new pair in front.
  - Finally it writes the slot back.
- **`get`.** It does the same lookup and returns a copy of the value of the
  first matching pair, or null.
- **Constructor.** It checks its arguments, allocates the region and
  intends to zero-fill it in 4096-byte chunks. As written, the loop clears
  only the first chunk (see Findings).

The project is split into these modules:

- `Bytes` (`bytes.dfy`): byte sequences. `Splice` is the buffer after a range
  is copied over it. `Copy` and `CopyRange` model `System.arraycopy` and
  `Unsafe.copyMemory` on an `array<bv8>`.
- `JavaLong` (`java_long.dfy`): Java's `long`, `Math.abs` on it (which leaves
  `Long.MIN_VALUE` negative), and Java's truncating `%`.
- `SlotLayout` (`slot_layout.dfy`): the logical view of one slot as three
  `Pair`s. It holds the put rule (`PutEntries`) and the get rule
  (`GetEntries`) on that view. It proves that the source's byte moves produce
  exactly those rules. It also proves the recency guarantee: the three most
  recent distinct keys survive and older ones are evicted.
- `RegionModel` (`region_model.dfy`): the whole region as a byte sequence.
  It covers slot geometry and addressing, the effect of a put and a get on
  the region (`PutRegion`, `GetRegion`), the isolation of slots, and the
  constructor's zero-fill loop as written.
- `OffHeapCache` (`constant_size_cache.dfy`): the imperative cache.
  - The class `ConstantSizeCache` has the source's fields, with the region
    as an `array<bv8>`.
  - Its constructor zero-fills the region with a loop.
  - `ContainsKey` is the source's nested loop with its early exit.
  - `Put` copies the slot out, rewrites it in place and copies it back.
  - `Get` copies the value out.
  - Every method is proved against the specification functions of
    `SlotLayout` and `RegionModel`.
  - `New` adds the argument checks and their exceptions.

The hash function is a parameter of the constructor, of type
`seq<bv8> -> int64`. What the allocator leaves in fresh memory is a
parameter too (`uninitialized`). Keys and values that callers pass in are
read only, so they are modelled as `seq<bv8>`.

## Model

| member | source | states |
|---|---|---|
| OffHeapCache.CheckArguments | src/com/elegantscale/util/cache/offheap/ConstantSizeCache.java:58-60 | It rejects keySize < 1 or valueSize < 1 first, then size < 3*(keySize+valueSize), then a missing hash, each case iff its condition holds. It accepts exactly the valid configurations. |
| OffHeapCache.New | src/com/elegantscale/util/cache/offheap/ConstantSizeCache.java:57-77 | Invalid arguments give the exception that CheckArguments names. Valid ones give a fresh cache with the requested geometry and hash, whose region is all zero bytes. |
| OffHeapCache.ConstantSizeCache.constructor | src/com/elegantscale/util/cache/offheap/ConstantSizeCache.java:62-76 | The cache is Valid: slotSz = 3*(k+v) and slotCount = size/slotSz. Its region is a fresh array of `size` bytes, every one zero, whatever the allocator left there. |
| OffHeapCache.ZeroFill | src/com/elegantscale/util/cache/offheap/ConstantSizeCache.java:66-72 | The chunked fill loop, corrected to copy each chunk to offset i, clears every byte of the region. |
| OffHeapCache.ZeroFillAsWritten | src/com/elegantscale/util/cache/offheap/ConstantSizeCache.java:67-72 | The fill loop as written, always copying to the start, leaves the region as FillAsWritten of its old contents. |
| RegionModel.FillAsWritten | src/com/elegantscale/util/cache/offheap/ConstantSizeCache.java:67-72 | After the fill as written, only bytes below 4096 are zero; every later byte keeps its allocation garbage. |
| RegionModel.FillAsWrittenLeavesGarbage | src/com/elegantscale/util/cache/offheap/ConstantSizeCache.java:67-72 | In an 8192-byte region of 0xFF garbage, byte 4096 is still 0xFF after the fill as written. |
| RegionModel.GarbageSlot | src/com/elegantscale/util/cache/offheap/ConstantSizeCache.java:67-75 | With 1-byte keys and values, slot 1000 of that region still holds three (0xFF, 0xFF) pairs after the fill as written. |
| RegionModel.Slot1000 | src/com/elegantscale/util/cache/offheap/ConstantSizeCache.java:84-85 | A hash answering 1000 sends the all-zero key to slot 1000 of 1365. |
| RegionModel.GarbageGet | src/com/elegantscale/util/cache/offheap/ConstantSizeCache.java:124-140 | A get of the all-zero key in that region answers null. |
| RegionModel.FillAsWrittenBreaksZeroDefault | src/com/elegantscale/util/cache/offheap/ConstantSizeCache.java:66-72 | For the same configuration, a truly zeroed region answers the all-zero key with [0], while the region as the fill leaves it answers null. |
| RegionModel.ZeroRegionGet | test/com/elegantscale/util/cache/offheap/ConstantSizeCacheTest.java:45-50 | In any valid configuration, a zero-filled region answers a get of the all-zero key with the all-zero value. |
| SlotLayout.ZeroSlotGet | test/com/elegantscale/util/cache/offheap/ConstantSizeCacheTest.java:45-50 | A slot of zero bytes answers the all-zero key with the all-zero value. |
| RegionModel.SlotSize | src/com/elegantscale/util/cache/offheap/ConstantSizeCache.java:74 | slotSz holds exactly three pairs: the third pair ends where the slot ends. |
| RegionModel.SlotCount | src/com/elegantscale/util/cache/offheap/ConstantSizeCache.java:75 | slotCount is the number of whole slots that fit: slotCount*slotSz <= size < (slotCount+1)*slotSz. |
| RegionModel.SlotBytes | src/com/elegantscale/util/cache/offheap/ConstantSizeCache.java:85-87 | The bytes of slot idx are slotSz bytes lying inside the region. |
| SlotLayout.PairOffset | src/com/elegantscale/util/cache/offheap/ConstantSizeCache.java:106 | Each of the three pairs starting at PairOffset(i) fits inside the slot. |
| RegionModel.SlotCountPositive | src/com/elegantscale/util/cache/offheap/ConstantSizeCache.java:59-75 | Because the constructor demands size >= slotSz, there is at least one slot. |
| RegionModel.SlotWithinRegion | src/com/elegantscale/util/cache/offheap/ConstantSizeCache.java:74-75 | For every idx < slotCount, the byte range of slot idx ends within the region. |
| RegionModel.SlotsDisjoint | src/com/elegantscale/util/cache/offheap/ConstantSizeCache.java:74-75 | Distinct slot indices occupy disjoint byte ranges. |
| RegionModel.SlotIndex | src/com/elegantscale/util/cache/offheap/ConstantSizeCache.java:84-85 | The corrected slot index, \|h\| mod slotCount, always lies in [0, slotCount). |
| RegionModel.SlotIndexMatchesSource | src/com/elegantscale/util/cache/offheap/ConstantSizeCache.java:84-85 | For every hash except Long.MIN_VALUE, the source's `Math.abs(h) % slotCount` picks the same slot as SlotIndex. |
| RegionModel.SlotIndexAsWrittenNegative | src/com/elegantscale/util/cache/offheap/ConstantSizeCache.java:84-85 | For h = Long.MIN_VALUE and three slots, the source's formula gives slot -2, outside the region. |
| RegionModel.SlotIndexAsWrittenPowerOfTwo | src/com/elegantscale/util/cache/offheap/ConstantSizeCache.java:84-85 | For Long.MIN_VALUE with one or four slots, the source's formula gives slot 0, so the bad index appears only for slot counts that are not powers of two. |
| JavaLong.Abs | src/com/elegantscale/util/cache/offheap/ConstantSizeCache.java:84 | `Math.abs(long)` is non-negative and equals x or -x, except for Long.MIN_VALUE, which it returns unchanged and negative. |
| JavaLong.Rem | src/com/elegantscale/util/cache/offheap/ConstantSizeCache.java:85 | Java's `%` agrees with the mathematical remainder for a non-negative dividend and lies in (-b, 0] for a negative one. In both cases a - r is a multiple of b, which pins r down. |
| JavaLong.MultipleRem | src/com/elegantscale/util/cache/offheap/ConstantSizeCache.java:85 | A multiple of b leaves remainder 0. |
| RegionModel.SlotIndexAsWritten | src/com/elegantscale/util/cache/offheap/ConstantSizeCache.java:84-85 | The source's `Math.abs(h) % slotCount` lies strictly between -slotCount and slotCount, and is non-negative for every hash except Long.MIN_VALUE. |
| RegionModel.SlotOf | src/com/elegantscale/util/cache/offheap/ConstantSizeCache.java:84-85 | The slot chosen for a key is always a valid slot index. |
| RegionModel.SlotAddress | src/com/elegantscale/util/cache/offheap/ConstantSizeCache.java:84-85 | The slot pointer that put and get compute is SlotOf(key) * slotSz, and the whole slot lies inside the region. |
| OffHeapCache.ConstantSizeCache.ReadSlot | src/com/elegantscale/util/cache/offheap/ConstantSizeCache.java:84-87 | It returns the key's slot pointer and a fresh copy holding exactly that slot's bytes. |
| Bytes.Copy | src/com/elegantscale/util/cache/offheap/ConstantSizeCache.java:93-98 | `System.arraycopy` or `copyMemory` into `dst` leaves `dst` with the source bytes inside the target range and its old bytes everywhere else. The source is read as a snapshot. |
| Bytes.CopyRange | src/com/elegantscale/util/cache/offheap/ConstantSizeCache.java:136-137 | A new array of `length` bytes holds exactly `src[srcPos .. srcPos+length)`. |
| Bytes.SpliceParts | src/com/elegantscale/util/cache/offheap/ConstantSizeCache.java:93-98 | A copied buffer is the prefix before the target range, then the copied bytes, then the old suffix. |
| Bytes.SpliceElsewhere | src/com/elegantscale/util/cache/offheap/ConstantSizeCache.java:101 | A copy into one range leaves every disjoint range unchanged. |
| SlotLayout.Entries | src/com/elegantscale/util/cache/offheap/ConstantSizeCache.java:104-121 | A slot's bytes read as exactly three pairs, each with a key of keySz bytes and a value of valueSz bytes. |
| SlotLayout.EncodeEntries | src/com/elegantscale/util/cache/offheap/ConstantSizeCache.java:86-101 | Reading a slot as pairs and writing them back gives the same bytes. |
| SlotLayout.EntriesEncode | src/com/elegantscale/util/cache/offheap/ConstantSizeCache.java:86-101 | Pairs of the configured widths, written as bytes and read back, give the same pairs. |
| SlotLayout.PairOffsetIsProduct | src/com/elegantscale/util/cache/offheap/ConstantSizeCache.java:106 | Pair i starts at i*(keySz+valueSz), the source's keyOffset. |
| SlotLayout.EntryAt | src/com/elegantscale/util/cache/offheap/ConstantSizeCache.java:106-112 | The key of pair i is the keySz bytes at PairOffset(i), and its value is the valueSz bytes right after them. |
| SlotLayout.FindKey | src/com/elegantscale/util/cache/offheap/ConstantSizeCache.java:104-121 | It finds the first pair whose key equals the key, or none when no pair matches. |
| SlotLayout.FindKeyFirst | src/com/elegantscale/util/cache/offheap/ConstantSizeCache.java:104-121 | A position whose key matches, with no earlier match, is exactly what FindKey returns. |
| OffHeapCache.ConstantSizeCache.ContainsKey | src/com/elegantscale/util/cache/offheap/ConstantSizeCache.java:104-121 | The nested loop returns i*(k+v) for the smallest i whose key bytes equal the key, and -1 when no pair matches. |
| SlotLayout.GetEntries | src/com/elegantscale/util/cache/offheap/ConstantSizeCache.java:132-139 | It returns null iff no pair has the key. Otherwise it returns the value of the first pair that has it. |
| SlotLayout.PutEntries | src/com/elegantscale/util/cache/offheap/ConstantSizeCache.java:89-99 | A put keeps the slot at exactly three pairs. |
| SlotLayout.PutEntriesFits | src/com/elegantscale/util/cache/offheap/ConstantSizeCache.java:81-82 | A put of a key and value of the configured widths keeps every pair at the configured widths. |
| SlotLayout.PutAbsentShifts | src/com/elegantscale/util/cache/offheap/ConstantSizeCache.java:91-95 | A put of a key no pair holds gives [(key,value), old pair 0, old pair 1], dropping old pair 2. |
| SlotLayout.PutPresentUpdatesInPlace | src/com/elegantscale/util/cache/offheap/ConstantSizeCache.java:96-99 | A put of a key held first by pair p sets pair p to (key,value). Every key keeps its position and every other pair is unchanged. |
| SlotLayout.ShiftInsertBytes | src/com/elegantscale/util/cache/offheap/ConstantSizeCache.java:93-95 | The three arraycopy calls of the insert branch produce the encoding of [(key,value), pair 0, pair 1]. |
| SlotLayout.FrontPairs | src/com/elegantscale/util/cache/offheap/ConstantSizeCache.java:93-95 | That encoding is the key, then the value, then the first two pairs' old bytes. |
| SlotLayout.PutAbsentBytes | src/com/elegantscale/util/cache/offheap/ConstantSizeCache.java:91-95 | For an absent key, the bytes that the insert branch's copies produce are the encoding of PutEntries. |
| SlotLayout.UpdateValueBytes | src/com/elegantscale/util/cache/offheap/ConstantSizeCache.java:98 | Copying a value over the value bytes of pair p gives the encoding of the pairs with only pair p's value replaced. |
| SlotLayout.ValueRewrite | src/com/elegantscale/util/cache/offheap/ConstantSizeCache.java:98 | The same fact as concatenated bytes, for each of p = 0, 1 and 2. |
| SlotLayout.PutPresentBytes | src/com/elegantscale/util/cache/offheap/ConstantSizeCache.java:96-99 | For a key held first by pair p, the bytes produced by the update branch's single copy at keyOffset+keySz is the encoding of PutEntries. |
| SlotLayout.GetPresentBytes | src/com/elegantscale/util/cache/offheap/ConstantSizeCache.java:132-139 | For a key held first by pair p, get's answer is the valueSz bytes at PairOffset(p)+keySz. |
| OffHeapCache.ConstantSizeCache.InsertFront | src/com/elegantscale/util/cache/offheap/ConstantSizeCache.java:91-95 | For an absent key, the shift-and-insert copies leave the slot encoding PutEntries of its old pairs. |
| OffHeapCache.ConstantSizeCache.OverwriteValue | src/com/elegantscale/util/cache/offheap/ConstantSizeCache.java:96-99 | For a key found at keyOffset, the value overwrite leaves the slot encoding PutEntries of its old pairs. |
| OffHeapCache.ConstantSizeCache.RewriteSlot | src/com/elegantscale/util/cache/offheap/ConstantSizeCache.java:89-99 | Either branch leaves the slot copy encoding PutEntries of its old pairs. |
| RegionModel.PutIntoSlot | src/com/elegantscale/util/cache/offheap/ConstantSizeCache.java:84-101 | Writing the rewritten slot copy back at the slot pointer yields exactly PutRegion. |
| RegionModel.SlotEntries | src/com/elegantscale/util/cache/offheap/ConstantSizeCache.java:86-87 | Every slot of the region reads as three pairs of the configured widths. |
| RegionModel.PutRegion | src/com/elegantscale/util/cache/offheap/ConstantSizeCache.java:80-102 | A put keeps the region's size. |
| OffHeapCache.ConstantSizeCache.Put | src/com/elegantscale/util/cache/offheap/ConstantSizeCache.java:80-102 | It passes exactly when the key and value lengths are right. A wrong key length, then a wrong value length, raises IllegalArgumentException with no state change. On a pass the region becomes PutRegion of its old contents. |
| RegionModel.PutRegionSlot | src/com/elegantscale/util/cache/offheap/ConstantSizeCache.java:84-101 | After a put, the key's slot holds PutEntries of its old pairs. |
| RegionModel.PutRegionOtherSlot | src/com/elegantscale/util/cache/offheap/ConstantSizeCache.java:85-101 | A put leaves the bytes of every other slot unchanged. |
| RegionModel.SlotBytesElsewhere | src/com/elegantscale/util/cache/offheap/ConstantSizeCache.java:101 | Writing one slot's worth of bytes at another slot's start leaves this slot unchanged. |
| RegionModel.GetRegion | src/com/elegantscale/util/cache/offheap/ConstantSizeCache.java:124-140 | get on the region answers null exactly when no pair of the key's slot holds the key. Otherwise it answers a value of valueSz bytes. |
| RegionModel.GetFromSlot | src/com/elegantscale/util/cache/offheap/ConstantSizeCache.java:127-139 | A get answers from the pairs of the slot copied out at the slot pointer. |
| OffHeapCache.ConstantSizeCache.FindValue | src/com/elegantscale/util/cache/offheap/ConstantSizeCache.java:132-139 | The value copied out of the slot, or null, is exactly GetEntries of the slot's pairs. |
| OffHeapCache.ConstantSizeCache.Get | src/com/elegantscale/util/cache/offheap/ConstantSizeCache.java:124-140 | A wrong key length raises IllegalArgumentException. Otherwise the answer is GetRegion of the current region. The method modifies nothing. |
| SlotLayout.GetAfterPutEntries | src/com/elegantscale/util/cache/offheap/ConstantSizeCache.java:89-139 | On one slot, a get straight after a put of the same key returns the value just put. |
| RegionModel.GetAfterPut | src/com/elegantscale/util/cache/offheap/ConstantSizeCache.java:80-140 | On the region, a get straight after a put of the same key returns the value just put. |
| RegionModel.GetOtherSlotAfterPut | src/com/elegantscale/util/cache/offheap/ConstantSizeCache.java:85-140 | A put does not change the answer of a get for a key in another slot. |
| SlotLayout.InsertAll | test/com/elegantscale/util/cache/offheap/ConstantSizeCacheTest.java:89-111 | A sequence of puts keeps the slot at three pairs. |
| SlotLayout.InsertAllWindow | test/com/elegantscale/util/cache/offheap/ConstantSizeCacheTest.java:89-111 | After puts of distinct new keys, pair i is the i-th most recent put, or an old pair moved back when fewer than three puts were made. |
| SlotLayout.RecencyGuarantee | test/com/elegantscale/util/cache/offheap/ConstantSizeCacheTest.java:93-103 | After puts of distinct new keys into one slot, key j is found with its value iff it is among the last three puts; otherwise get answers null. |
| SlotLayout.RecentKeyFound | test/com/elegantscale/util/cache/offheap/ConstantSizeCacheTest.java:99-103 | Each of the three most recent keys is found with its value. |
| SlotLayout.OldKeyGone | test/com/elegantscale/util/cache/offheap/ConstantSizeCacheTest.java:93-97 | Every key older than the three most recent answers null. |
| SlotLayout.UninsertedKeyAbsent | test/com/elegantscale/util/cache/offheap/ConstantSizeCacheTest.java:105-108 | A key that was never put, and that the slot did not hold, answers null. |
| RegionModel.PutAll | test/com/elegantscale/util/cache/offheap/ConstantSizeCacheTest.java:89-111 | A sequence of puts keeps the region's size. |
| RegionModel.PutAllSameSlot | test/com/elegantscale/util/cache/offheap/ConstantSizeCacheTest.java:75-111 | Puts whose keys all hash to one slot act on that slot's pairs exactly as the slot-level put rule applied in order. |
| RegionModel.SameSlotRecency | test/com/elegantscale/util/cache/offheap/ConstantSizeCacheTest.java:75-111 | With a hash sending every key to one slot, after puts of distinct new keys a get on the region returns each of the last three keys' values and null for every older key. |
| SlotLayout.UpdateThenInsertEvictsOldest | test/com/elegantscale/util/cache/offheap/ConstantSizeCacheTest.java:114-135 | An update does not promote its pair: the next new key goes in front and pushes out the pair that was last, even if it was the updated one. |

## Left out

- The reflective acquisition of `sun.misc.Unsafe` (ConstantSizeCache.java:35-43) is JVM plumbing. `allocateMemory` becomes a fresh `array<bv8>` filled by the `uninitialized` parameter. `copyMemory` becomes `Bytes.Copy` or `Bytes.CopyRange`.
- `finalize` and `freeMemory` (ConstantSizeCache.java:142-146) depend on garbage-collector finalization. They hold no state that the model speaks about.
- Concurrency: the lost updates of concurrent writes to one slot (ConstantSizeCache.java:26-29) are not modelled. `put` and `get` are atomic sequential methods.
- The default constructor (ConstantSizeCache.java:53-55) builds a `NonLinearLookupTableHash`, whose source is not part of this model. Every hash is an arbitrary function parameter, so every property holds for any hash, including that one.
- The `Map` interface is not part of this model. Nor is the tests' random generation of values.
- Java `int` and `long` overflow for huge sizes is not modelled. Examples are `(keySize + valueSize) * 3` at line 59 and `int i` against `long sz` at line 68. Sizes are unbounded integers.
- Null keys and values: `put` and `get` dereference their arguments, so a null argument raises NullPointerException in the source. The model's `seq<bv8>` arguments cannot be null.
- OffHeapCache.ConstantSizeCache.constructor: it requires arguments that pass `CheckArguments`. Rejected arguments and the NullPointerException for a missing hash are handled by `OffHeapCache.New`, which returns the exception as a `Result`.
- OffHeapCache.ConstantSizeCache.ContainsKey: it addresses pair `i` through `PairOffset(i)` rather than the source's `i * (keySz + valueSz)` at line 106. `SlotLayout.PairOffsetIsProduct` proves the two equal.
- OffHeapCache.ConstantSizeCache.Put and Get: the hash is computed with the corrected `SlotIndex`, not the source's `Math.abs(h) % slotCount`. They differ only for `Long.MIN_VALUE` (see Findings).
- OffHeapCache.ConstantSizeCache.constructor: it uses the corrected `ZeroFill`. The source's loop is `ZeroFillAsWritten` (see Findings).
- OffHeapCache.New: its promise that the region is all zero bytes comes from the corrected `ZeroFill` in the constructor. The source leaves every byte from 4096 on as allocated (see Findings).
- `allocateMemory` can fail with OutOfMemoryError when the region cannot be allocated. The model's allocation always succeeds, because memory exhaustion is outside what it speaks about.

## Findings

| source | as written | input that shows it | evidently intended | confidence | as-written member | corrected member |
|---|---|---|---|---|---|---|
| src/com/elegantscale/util/cache/offheap/ConstantSizeCache.java:67-72 | Every chunk of the zero-fill loop is copied to `startPtr`, never `startPtr + i`. So only the first min(size, 4096) bytes are cleared, and the rest keep what `allocateMemory` left there. | size 8192, 1-byte keys and values, allocation garbage 0xFF, a hash sending key [0] to slot 1000 (bytes 6000..6005): `get([0])` answers null instead of [0] | Clear the whole region, so that every slot reads as zero keys with zero values | not executed | RegionModel.FillAsWrittenBreaksZeroDefault | OffHeapCache.ZeroFill |
| src/com/elegantscale/util/cache/offheap/ConstantSizeCache.java:84-85 | `Math.abs(Long.MIN_VALUE)` is `Long.MIN_VALUE`, and Java's `%` keeps the dividend's sign. So for a hash of Long.MIN_VALUE the slot index is negative whenever slotCount is not a power of two. For a power of two it is 0. | a hash returning Long.MIN_VALUE with 3 slots: index -2, so the slot pointer is 2*slotSz bytes before `startPtr` | A slot index in [0, slotCount) | not executed | RegionModel.SlotIndexAsWrittenNegative | RegionModel.SlotIndex |
