/** The whole off-heap region as a byte sequence: slot geometry, slot
    addressing, and the effect of put and get on the region. */
module RegionModel {
  import opened Wrappers
  import opened Bytes
  import opened JavaLong
  import opened SlotLayout

  /** The sizes a cache is built with: `size` bytes of region, fixed key and value widths. */
  datatype Config = Config(size: nat, keySz: nat, valueSz: nat)

  /** The sizes the constructor accepts. */
  predicate ValidConfig(c: Config) {
    c.keySz >= 1 && c.valueSz >= 1 && c.size >= SlotSize(c)
  }

  /** slotSz: three pairs of key and value bytes; the last pair ends where the slot does. */
  function SlotSize(c: Config): (sz: nat)
    ensures PairOffset(Associativity - 1, c.keySz, c.valueSz) + c.keySz + c.valueSz == sz
  {
    Associativity * (c.keySz + c.valueSz)
  }

  /** slotCount: how many whole slots fit in the region. */
  function SlotCount(c: Config): (n: nat)
    requires ValidConfig(c)
    ensures n * SlotSize(c) <= c.size < n * SlotSize(c) + SlotSize(c)
  {
    var ss := SlotSize(c);
    assert c.size == (c.size / ss) * ss + c.size % ss;
    c.size / ss
  }

  /** A valid configuration has at least one slot. */
  lemma SlotCountPositive(c: Config)
    requires ValidConfig(c)
    ensures SlotCount(c) >= 1
  {
    var ss := SlotSize(c);
    assert c.size == (c.size / ss) * ss + c.size % ss;
  }

  /** Slot `idx` for every `idx < slotCount` lies inside the region. */
  lemma SlotWithinRegion(c: Config, idx: nat)
    requires ValidConfig(c) && idx < SlotCount(c)
    ensures idx * SlotSize(c) + SlotSize(c) <= c.size
  {
    var ss, n := SlotSize(c), SlotCount(c);
    assert c.size == n * ss + c.size % ss;
    MulMonotone(idx + 1, n, ss);
    assert (idx + 1) * ss == idx * ss + ss;
  }

  /** Distinct slots occupy disjoint byte ranges. */
  lemma SlotsDisjoint(c: Config, i: nat, j: nat)
    requires ValidConfig(c) && i < j
    ensures i * SlotSize(c) + SlotSize(c) <= j * SlotSize(c)
  {
    var ss := SlotSize(c);
    MulMonotone(i + 1, j, ss);
    assert (i + 1) * ss == i * ss + ss;
  }

  lemma MulMonotone(a: nat, b: nat, m: nat)
    requires a <= b
    ensures a * m <= b * m
  {
    assert b * m == a * m + (b - a) * m;
  }

  /** The slot a key hashes to, as the source computes it:
      `Math.abs(hash) % slotCount` with Java's `abs` and `%` on `long`. */
  function SlotIndexAsWritten(h: int64, slotCount: nat): (idx: int)
    requires slotCount >= 1
    ensures -(slotCount as int) < idx < slotCount
    ensures h as int != MinLong ==> 0 <= idx
  {
    Rem(Abs(h) as int, slotCount)
  }

  /** The slot a key hashes to: the magnitude of the hash modulo the slot count. */
  function SlotIndex(h: int64, slotCount: nat): (idx: nat)
    requires slotCount >= 1
    ensures idx < slotCount
  {
    (if h < 0 then -(h as int) else h as int) % slotCount
  }

  /** For every hash except `Long.MIN_VALUE` the source's formula picks the same slot. */
  lemma SlotIndexMatchesSource(h: int64, slotCount: nat)
    requires slotCount >= 1 && h as int != MinLong
    ensures SlotIndexAsWritten(h, slotCount) == SlotIndex(h, slotCount)
  {
  }

  /** For `Long.MIN_VALUE` and three slots the source's formula gives slot -2,
      two slots before the start of the region. */
  lemma SlotIndexAsWrittenNegative()
    ensures SlotIndexAsWritten(MinLong as int64, 3) == -2
  {
    assert 0x8000_0000_0000_0000 % 3 == 2;
  }

  /** For `Long.MIN_VALUE` and a power-of-two slot count, such as one or four
      slots, the source's formula happens to give slot 0. */
  lemma SlotIndexAsWrittenPowerOfTwo()
    ensures SlotIndexAsWritten(MinLong as int64, 1) == 0
    ensures SlotIndexAsWritten(MinLong as int64, 4) == 0
  {
    assert 0x8000_0000_0000_0000 % 4 == 0;
  }

  /** The bytes of slot `idx`. */
  function SlotBytes(mem: seq<bv8>, c: Config, idx: nat): (slot: seq<bv8>)
    requires ValidConfig(c) && |mem| == c.size && idx < SlotCount(c)
    ensures |slot| == SlotSize(c)
    ensures idx * SlotSize(c) + |slot| <= |mem|
  {
    SlotWithinRegion(c, idx);
    mem[idx * SlotSize(c)..][..SlotSize(c)]
  }

  /** The slot of `key` under `hash`. */
  function SlotOf(c: Config, hash: seq<bv8> -> int64, key: seq<bv8>): (idx: nat)
    requires ValidConfig(c)
    ensures idx < SlotCount(c)
  {
    SlotCountPositive(c);
    SlotIndex(hash(key), SlotCount(c))
  }

  /** The slot `put` and `get` compute for `key`, and where its bytes start, lie inside the region. */
  lemma SlotAddress(c: Config, hash: seq<bv8> -> int64, key: seq<bv8>, slotCount: nat, idx: nat, ptr: nat)
    requires ValidConfig(c) && slotCount == SlotCount(c) && slotCount >= 1
    requires idx == SlotIndex(hash(key), slotCount) && ptr == idx * SlotSize(c)
    ensures idx == SlotOf(c, hash, key)
    ensures ptr + SlotSize(c) <= c.size
  {
    SlotWithinRegion(c, idx);
  }

  /** A get reads the pairs of the slot at `ptr`. */
  lemma GetFromSlot(mem: seq<bv8>, c: Config, hash: seq<bv8> -> int64, key: seq<bv8>, ptr: nat, slot: seq<bv8>)
    requires ValidConfig(c) && |mem| == c.size
    requires ptr == SlotOf(c, hash, key) * SlotSize(c) && ptr + SlotSize(c) <= |mem|
    requires slot == mem[ptr..][..SlotSize(c)]
    ensures GetRegion(mem, c, hash, key) == GetEntries(Entries(slot, c.keySz, c.valueSz), key)
  {
  }

  /** A put replaces the slot at `ptr` with the encoding of its pairs after the put. */
  lemma PutIntoSlot(mem: seq<bv8>, c: Config, hash: seq<bv8> -> int64, key: seq<bv8>, value: seq<bv8>, ptr: nat, slot: seq<bv8>)
    requires ValidConfig(c) && |mem| == c.size
    requires |key| == c.keySz && |value| == c.valueSz
    requires ptr == SlotOf(c, hash, key) * SlotSize(c) && ptr + SlotSize(c) <= |mem|
    requires slot == mem[ptr..][..SlotSize(c)]
    ensures var es := Entries(slot, c.keySz, c.valueSz);
            |Encode(PutEntries(es, key, value))| == SlotSize(c) &&
            PutRegion(mem, c, hash, key, value) == Splice(mem, ptr, Encode(PutEntries(es, key, value)))
  {
    var idx := SlotOf(c, hash, key);
    var es := Entries(mem[ptr..][..SlotSize(c)], c.keySz, c.valueSz);
    assert SlotEntries(mem, c, idx) == es by {
      assert SlotBytes(mem, c, idx) == mem[ptr..][..SlotSize(c)];
    }
    PutEntriesFits(es, key, value, c.keySz, c.valueSz);
    EntriesEncode(PutEntries(es, key, value), c.keySz, c.valueSz);
  }

  /** The pairs of slot `idx`. */
  function SlotEntries(mem: seq<bv8>, c: Config, idx: nat): (es: seq<Pair>)
    requires ValidConfig(c) && |mem| == c.size && idx < SlotCount(c)
    ensures |es| == Associativity && AllFit(es, c.keySz, c.valueSz)
  {
    Entries(SlotBytes(mem, c, idx), c.keySz, c.valueSz)
  }

  /** The region after `put(key, value)`: the key's slot is replaced by the
      encoding of its pairs after the put; no other byte changes. */
  function PutRegion(mem: seq<bv8>, c: Config, hash: seq<bv8> -> int64, key: seq<bv8>, value: seq<bv8>): (r: seq<bv8>)
    requires ValidConfig(c) && |mem| == c.size
    requires |key| == c.keySz && |value| == c.valueSz
    ensures |r| == |mem|
  {
    var idx := SlotOf(c, hash, key);
    var es := SlotEntries(mem, c, idx);
    PutEntriesFits(es, key, value, c.keySz, c.valueSz);
    EntriesEncode(PutEntries(es, key, value), c.keySz, c.valueSz);
    SlotWithinRegion(c, idx);
    Splice(mem, idx * SlotSize(c), Encode(PutEntries(es, key, value)))
  }

  /** What `get(key)` answers for the region `mem`: the value of the first pair
      in the key's slot whose key matches, or null. */
  function GetRegion(mem: seq<bv8>, c: Config, hash: seq<bv8> -> int64, key: seq<bv8>): (r: Option<seq<bv8>>)
    requires ValidConfig(c) && |mem| == c.size
    ensures r.None? <==> forall i :: 0 <= i < Associativity ==> SlotEntries(mem, c, SlotOf(c, hash, key))[i].key != key
    ensures r.Some? ==> |r.value| == c.valueSz
  {
    GetEntries(SlotEntries(mem, c, SlotOf(c, hash, key)), key)
  }

  /** A put rewrites its own slot to the pairs the put rule gives. */
  lemma PutRegionSlot(mem: seq<bv8>, c: Config, hash: seq<bv8> -> int64, key: seq<bv8>, value: seq<bv8>)
    requires ValidConfig(c) && |mem| == c.size
    requires |key| == c.keySz && |value| == c.valueSz
    ensures SlotEntries(PutRegion(mem, c, hash, key, value), c, SlotOf(c, hash, key))
         == PutEntries(SlotEntries(mem, c, SlotOf(c, hash, key)), key, value)
  {
    var idx := SlotOf(c, hash, key);
    var es := SlotEntries(mem, c, idx);
    var enc := Encode(PutEntries(es, key, value));
    PutEntriesFits(es, key, value, c.keySz, c.valueSz);
    EntriesEncode(PutEntries(es, key, value), c.keySz, c.valueSz);
    SlotWithinRegion(c, idx);
    var r := PutRegion(mem, c, hash, key, value);
    SpliceInside(mem, idx * SlotSize(c), enc);
    assert SlotBytes(r, c, idx) == enc;
  }

  /** A put leaves every other slot's bytes as they were. */
  lemma PutRegionOtherSlot(mem: seq<bv8>, c: Config, hash: seq<bv8> -> int64, key: seq<bv8>, value: seq<bv8>, idx: nat)
    requires ValidConfig(c) && |mem| == c.size
    requires |key| == c.keySz && |value| == c.valueSz
    requires idx < SlotCount(c) && idx != SlotOf(c, hash, key)
    ensures SlotBytes(PutRegion(mem, c, hash, key, value), c, idx) == SlotBytes(mem, c, idx)
  {
    var own := SlotOf(c, hash, key);
    var es := SlotEntries(mem, c, own);
    var enc := Encode(PutEntries(es, key, value));
    PutEntriesFits(es, key, value, c.keySz, c.valueSz);
    EntriesEncode(PutEntries(es, key, value), c.keySz, c.valueSz);
    SlotWithinRegion(c, own);
    assert PutRegion(mem, c, hash, key, value) == Splice(mem, own * SlotSize(c), enc);
    SlotBytesElsewhere(mem, c, idx, own, enc);
  }

  /** Writing a whole slot's worth of bytes into slot `own` leaves slot `idx` alone. */
  lemma SlotBytesElsewhere(mem: seq<bv8>, c: Config, idx: nat, own: nat, enc: seq<bv8>)
    requires ValidConfig(c) && |mem| == c.size
    requires idx < SlotCount(c) && own < SlotCount(c) && idx != own
    requires |enc| == SlotSize(c)
    ensures own * SlotSize(c) + |enc| <= |mem|
    ensures SlotBytes(Splice(mem, own * SlotSize(c), enc), c, idx) == SlotBytes(mem, c, idx)
  {
    var ss := SlotSize(c);
    SlotWithinRegion(c, idx);
    SlotWithinRegion(c, own);
    if idx < own { SlotsDisjoint(c, idx, own); } else { SlotsDisjoint(c, own, idx); }
    SpliceElsewhere(mem, own * ss, enc, idx * ss, ss);
  }

  /** A get straight after a put of the same key returns the value just put. */
  lemma GetAfterPut(mem: seq<bv8>, c: Config, hash: seq<bv8> -> int64, key: seq<bv8>, value: seq<bv8>)
    requires ValidConfig(c) && |mem| == c.size
    requires |key| == c.keySz && |value| == c.valueSz
    ensures GetRegion(PutRegion(mem, c, hash, key, value), c, hash, key) == Some(value)
  {
    PutRegionSlot(mem, c, hash, key, value);
    GetAfterPutEntries(SlotEntries(mem, c, SlotOf(c, hash, key)), key, value);
  }

  /** A put does not change what a get of a key in another slot answers. */
  lemma GetOtherSlotAfterPut(mem: seq<bv8>, c: Config, hash: seq<bv8> -> int64, key: seq<bv8>, value: seq<bv8>,
                             other: seq<bv8>)
    requires ValidConfig(c) && |mem| == c.size
    requires |key| == c.keySz && |value| == c.valueSz
    requires SlotOf(c, hash, other) != SlotOf(c, hash, key)
    ensures GetRegion(PutRegion(mem, c, hash, key, value), c, hash, other) == GetRegion(mem, c, hash, other)
  {
    PutRegionOtherSlot(mem, c, hash, key, value, SlotOf(c, hash, other));
  }

  /** A zero-filled region answers a get of the all-zero key with an all-zero value. */
  lemma ZeroRegionGet(c: Config, hash: seq<bv8> -> int64)
    requires ValidConfig(c)
    ensures GetRegion(Zeros(c.size), c, hash, Zeros(c.keySz)) == Some(Zeros(c.valueSz))
  {
    var idx := SlotOf(c, hash, Zeros(c.keySz));
    var ss := SlotSize(c);
    var lo := idx * ss;
    SlotWithinRegion(c, idx);
    var z := Zeros(c.size);
    assert SlotBytes(z, c, idx) == z[lo..][..ss];
    assert z[lo..][..ss] == Zeros(ss);
    ZeroSlotGet(c.keySz, c.valueSz);
  }

  /** The region after putting the pairs of `kvs` in order. */
  function PutAll(mem: seq<bv8>, c: Config, hash: seq<bv8> -> int64, kvs: seq<Pair>): (r: seq<bv8>)
    requires ValidConfig(c) && |mem| == c.size && AllFit(kvs, c.keySz, c.valueSz)
    ensures |r| == |mem|
    decreases |kvs|
  {
    if kvs == [] then mem
    else
      var last := kvs[|kvs| - 1];
      PutRegion(PutAll(mem, c, hash, kvs[..|kvs| - 1]), c, hash, last.key, last.value)
  }

  /** Puts whose keys all hash to slot `idx` act on that slot exactly as the
      slot-level put rule applied in order. */
  lemma {:induction false} PutAllSameSlot(mem: seq<bv8>, c: Config, hash: seq<bv8> -> int64, kvs: seq<Pair>, idx: nat)
    requires ValidConfig(c) && |mem| == c.size && AllFit(kvs, c.keySz, c.valueSz)
    requires idx < SlotCount(c)
    requires forall i :: 0 <= i < |kvs| ==> SlotOf(c, hash, kvs[i].key) == idx
    ensures SlotEntries(PutAll(mem, c, hash, kvs), c, idx) == InsertAll(SlotEntries(mem, c, idx), kvs)
  {
    if kvs != [] {
      var init := kvs[..|kvs| - 1];
      var last := kvs[|kvs| - 1];
      assert Fits(last, c.keySz, c.valueSz);
      PutAllSameSlot(mem, c, hash, init, idx);
      PutRegionSlot(PutAll(mem, c, hash, init), c, hash, last.key, last.value);
    }
  }

  /** The recency guarantee on the region: after puts of distinct keys that all
      hash to one slot and that the slot did not hold, a get finds each of the
      three most recent keys with its value and none of the older ones. */
  lemma SameSlotRecency(mem: seq<bv8>, c: Config, hash: seq<bv8> -> int64, kvs: seq<Pair>, j: nat)
    requires ValidConfig(c) && |mem| == c.size && AllFit(kvs, c.keySz, c.valueSz)
    requires |kvs| > 0 && forall i :: 0 <= i < |kvs| ==> SlotOf(c, hash, kvs[i].key) == SlotOf(c, hash, kvs[0].key)
    requires DistinctKeys(kvs) && FreshKeys(SlotEntries(mem, c, SlotOf(c, hash, kvs[0].key)), kvs)
    requires j < |kvs|
    ensures GetRegion(PutAll(mem, c, hash, kvs), c, hash, kvs[j].key)
         == if j + Associativity >= |kvs| then Some(kvs[j].value) else None
  {
    var idx := SlotOf(c, hash, kvs[0].key);
    PutAllSameSlot(mem, c, hash, kvs, idx);
    RecencyGuarantee(SlotEntries(mem, c, idx), kvs, j);
  }

  /** FILL_CHUNK: the constructor zero-fills the region from a 4096-byte buffer. */
  const FillChunk: nat := 4096

  /** The region after the constructor's zero-fill loop as written: every chunk
      is copied to the start of the region, so only the first
      `min(size, 4096)` bytes are cleared and the rest keep whatever the
      allocator left there. */
  function FillAsWritten(mem: seq<bv8>): (r: seq<bv8>)
    ensures |r| == |mem|
    ensures forall i :: 0 <= i < |mem| ==> r[i] == if i < FillChunk then 0 else mem[i]
  {
    var n := if |mem| < FillChunk then |mem| else FillChunk;
    Zeros(n) + mem[n..]
  }

  /** With an 8192-byte region whose allocation held 0xFF bytes, the fill as
      written leaves byte 4096 at 0xFF. */
  lemma FillAsWrittenLeavesGarbage()
    ensures FillAsWritten(seq(8192, _ => 0xFF as bv8))[4096] == 0xFF
  {
  }

  /** In an 8192-byte region whose allocation held 0xFF bytes, after the fill
      as written, slot 1000 of 1-byte keys and values (bytes 6000..6005) still
      holds three pairs of key 0xFF and value 0xFF. */
  lemma GarbageSlot(garbage: seq<bv8>)
    requires |garbage| == 8192 && forall i :: 0 <= i < |garbage| ==> garbage[i] == 0xFF
    ensures var c := Config(8192, 1, 1);
            && ValidConfig(c) && 1000 < SlotCount(c)
            && SlotEntries(FillAsWritten(garbage), c, 1000)
               == [Pair([0xFF], [0xFF]), Pair([0xFF], [0xFF]), Pair([0xFF], [0xFF])]
  {
    var c := Config(8192, 1, 1);
    assert SlotCount(c) == 1365;
    var mem := FillAsWritten(garbage);
    var sb := SlotBytes(mem, c, 1000);
    assert sb == [0xFF, 0xFF, 0xFF, 0xFF, 0xFF, 0xFF] by {
      assert forall i :: 0 <= i < 6 ==> sb[i] == mem[6000 + i];
    }
    var ff: seq<bv8> := [0xFF];
    assert sb[..1] == sb[1..][..1] == sb[2..][..1] == sb[3..][..1] == sb[4..][..1] == sb[5..] == ff;
  }

  /** With 1-byte keys and values in 8192 bytes, a hash answering 1000 for
      every key sends the all-zero key to slot 1000. */
  lemma Slot1000(hash: seq<bv8> -> int64)
    requires forall k :: hash(k) == 1000
    ensures ValidConfig(Config(8192, 1, 1)) && SlotOf(Config(8192, 1, 1), hash, [0]) == 1000
  {
    assert SlotCount(Config(8192, 1, 1)) == 1365;
    assert hash([0]) == 1000;
  }

  /** Through a get with that hash: the garbage left in slot 1000 hides the
      all-zero key, so it answers null. */
  lemma GarbageGet(hash: seq<bv8> -> int64, garbage: seq<bv8>)
    requires forall k :: hash(k) == 1000
    requires |garbage| == 8192 && forall i :: 0 <= i < |garbage| ==> garbage[i] == 0xFF
    ensures ValidConfig(Config(8192, 1, 1))
    ensures GetRegion(FillAsWritten(garbage), Config(8192, 1, 1), hash, [0]) == None
  {
    Slot1000(hash);
    GarbageSlot(garbage);
    var ff: seq<bv8> := [0xFF];
    assert ff != [0] by {
      assert ff[0] != 0;
    }
  }

  /** The same region seen through a get: a hash that sends the all-zero key
      to slot 1000. A region the constructor really zeroed answers the
      all-zero key with the all-zero value; the region as the fill loop
      leaves it answers null. */
  lemma FillAsWrittenBreaksZeroDefault(hash: seq<bv8> -> int64, garbage: seq<bv8>)
    requires forall k :: hash(k) == 1000
    requires |garbage| == 8192 && forall i :: 0 <= i < |garbage| ==> garbage[i] == 0xFF
    ensures var c := Config(8192, 1, 1);
            && ValidConfig(c)
            && GetRegion(Zeros(8192), c, hash, [0]) == Some([0])
            && GetRegion(FillAsWritten(garbage), c, hash, [0]) == None
  {
    ZeroRegionGet(Config(8192, 1, 1), hash);
    assert Zeros(1) == [0];
    GarbageGet(hash, garbage);
  }
}
