/** ConstantSizeCache: a 3-way set-associative cache of fixed-width keys and
    values kept in one flat byte region. */
module OffHeapCache {
  import opened Wrappers
  import opened Bytes
  import opened JavaLong
  import opened SlotLayout
  import opened RegionModel

  /** The exceptions the cache throws. */
  datatype Error =
    | NonPositiveEntrySize                          // IllegalArgumentException: key or value size below 1
    | SizeTooSmall                                  // IllegalArgumentException: region smaller than one slot
    | MissingHash                                   // NullPointerException: no hash function
    | InvalidKeyLength(actual: nat, expected: nat)  // IllegalArgumentException from put or get
    | InvalidValueLength(actual: nat, expected: nat)  // IllegalArgumentException from put

  /** The constructor's argument checks, in the order the source makes them. */
  function CheckArguments(size: int, keySize: int, valueSize: int, hasHash: bool): (r: Option<Error>)
    ensures r == Some(NonPositiveEntrySize) <==> keySize < 1 || valueSize < 1
    ensures r == Some(SizeTooSmall)
        <==> keySize >= 1 && valueSize >= 1 && size < Associativity * (keySize + valueSize)
    ensures r == Some(MissingHash)
        <==> keySize >= 1 && valueSize >= 1 && size >= Associativity * (keySize + valueSize) && !hasHash
    ensures r.None? <==> keySize >= 1 && valueSize >= 1 && size >= Associativity * (keySize + valueSize) && hasHash
    ensures r.None? ==> ValidConfig(Config(size, keySize, valueSize))
  {
    if keySize < 1 || valueSize < 1 then Some(NonPositiveEntrySize)
    else if size < (keySize + valueSize) * Associativity then Some(SizeTooSmall)
    else if !hasHash then Some(MissingHash)
    else None
  }

  /** The constructor's zero-fill loop with the copy aimed at offset `i`:
      every byte of the region is cleared. */
  method ZeroFill(region: array<bv8>)
    modifies region
    ensures region[..] == Zeros(region.Length)
  {
    var sz := region.Length;
    var fourkb := new bv8[FillChunk](_ => 0);
    var i := 0;
    while i < sz
      invariant 0 <= i
      invariant fourkb[..] == Zeros(FillChunk)
      invariant forall j :: 0 <= j < i && j < sz ==> region[j] == 0
    {
      var copySz := if i + fourkb.Length > sz then sz - i else fourkb.Length;
      ghost var before := region[..];
      Copy(fourkb[..copySz], region, i);
      SpliceAt(before, i, fourkb[..copySz]);
      i := i + fourkb.Length;
    }
  }

  /** The constructor's zero-fill loop as written: every chunk is copied to
      the start of the region. */
  method ZeroFillAsWritten(region: array<bv8>)
    modifies region
    ensures region[..] == FillAsWritten(old(region[..]))
  {
    var sz := region.Length;
    var fourkb := new bv8[FillChunk](_ => 0);
    var i := 0;
    while i < sz
      invariant i == 0 || FillChunk <= i
      invariant fourkb[..] == Zeros(FillChunk)
      invariant region[..] == if i == 0 then old(region[..]) else FillAsWritten(old(region[..]))
    {
      var copySz := if i + fourkb.Length > sz then sz - i else fourkb.Length;
      ghost var before := region[..];
      Copy(fourkb[..copySz], region, 0);
      SpliceAt(before, 0, fourkb[..copySz]);
      i := i + fourkb.Length;
    }
  }

  /** `new ConstantSizeCache(size, keySize, valueSize, hash)`: the argument
      checks, then a cache over a freshly allocated, zero-filled region.
      `uninitialized` is what the allocator left in the memory it hands out. */
  method New(size: int, keySize: int, valueSize: int, hash: Option<seq<bv8> -> int64>, uninitialized: nat -> bv8)
    returns (r: Result<ConstantSizeCache, Error>)
    ensures CheckArguments(size, keySize, valueSize, hash.Some?).Some?
        ==> r == Failure(CheckArguments(size, keySize, valueSize, hash.Some?).value)
    ensures CheckArguments(size, keySize, valueSize, hash.Some?).None?
        ==> && r.Success? && fresh(r.value) && fresh(r.value.region) && r.value.Valid()
            && r.value.Geometry() == Config(size, keySize, valueSize)
            && r.value.hashFunction == hash.value
            && r.value.region[..] == Zeros(size)
  {
    var err := CheckArguments(size, keySize, valueSize, hash.Some?);
    if err.Some? {
      return Failure(err.value);
    }
    var cache := new ConstantSizeCache(size, keySize, valueSize, hash.value, uninitialized);
    return Success(cache);
  }

  class ConstantSizeCache {
    const keySz: nat
    const valueSz: nat
    const sz: nat
    /** slotSz: the bytes of one slot, three pairs. */
    const slotSz: nat
    const slotCount: nat
    const hashFunction: seq<bv8> -> int64
    /** The off-heap region: `sz` bytes, offset 0 being `startPtr`. */
    const region: array<bv8>

    function Geometry(): Config {
      Config(sz, keySz, valueSz)
    }

    /** The geometry the constructor sets up and every method relies on. */
    predicate Valid() {
      && ValidConfig(Geometry())
      && slotSz == SlotSize(Geometry())
      && slotCount == SlotCount(Geometry())
      && region.Length == sz
    }

    /** The constructor once its argument checks have passed: allocate, zero-fill,
        derive the slot geometry. */
    constructor (size: nat, keySize: nat, valueSize: nat, hash: seq<bv8> -> int64, uninitialized: nat -> bv8)
      requires CheckArguments(size, keySize, valueSize, true).None?
      ensures Valid() && fresh(region)
      ensures Geometry() == Config(size, keySize, valueSize) && hashFunction == hash
      ensures region[..] == Zeros(size)
    {
      keySz := keySize;
      valueSz := valueSize;
      sz := size;
      region := new bv8[size](uninitialized);
      slotSz := Associativity * (keySize + valueSize);
      slotCount := size / (Associativity * (keySize + valueSize));
      hashFunction := hash;
      new;
      ZeroFill(region);
    }

    /** `containsKey`: the offset in `slot` of the first pair whose key bytes
        equal `key`, or -1 when none does. */
    method ContainsKey(key: seq<bv8>, slot: array<bv8>) returns (keyOffset: int)
      requires |key| == keySz && slot.Length == Associativity * (keySz + valueSz)
      ensures FindKey(Entries(slot[..], keySz, valueSz), key).None? ==> keyOffset == -1
      ensures FindKey(Entries(slot[..], keySz, valueSz), key).Some?
          ==> keyOffset == PairOffset(FindKey(Entries(slot[..], keySz, valueSz), key).value, keySz, valueSz)
    {
      ghost var bytes := slot[..];
      ghost var es := Entries(bytes, keySz, valueSz);
      var i := 0;
      while i < Associativity
        invariant 0 <= i <= Associativity
        invariant forall q :: 0 <= q < i ==> es[q].key != key
      {
        var offset := PairOffset(i, keySz, valueSz);
        var matches := true;
        var j := 0;
        while j < |key|
          invariant 0 <= j <= |key|
          invariant matches
          invariant forall t :: 0 <= t < j ==> slot[offset + t] == key[t]
        {
          if slot[j + offset] != key[j] {
            matches := false;
            break;
          }
          j := j + 1;
        }
        EntryAt(bytes, keySz, valueSz, i);
        if matches {
          assert bytes[offset..][..keySz] == key;
          FindKeyFirst(es, key, i);
          return offset;
        }
        assert bytes[offset..][..keySz][j] != key[j];
        i := i + 1;
      }
      return -1;
    }

    /** The start of the key's slot, and a copy of its bytes taken out of the region. */
    method ReadSlot(key: seq<bv8>) returns (slotPtr: nat, copy: array<bv8>)
      requires Valid()
      ensures slotPtr == SlotOf(Geometry(), hashFunction, key) * slotSz
      ensures slotPtr + slotSz <= region.Length
      ensures fresh(copy) && copy[..] == region[slotPtr..][..slotSz]
    {
      SlotCountPositive(Geometry());
      var slotIndex := SlotIndex(hashFunction(key), slotCount);
      slotPtr := slotIndex * slotSz;
      SlotAddress(Geometry(), hashFunction, key, slotCount, slotIndex, slotPtr);
      copy := CopyRange(region[..], slotPtr, slotSz);
    }

    /** `put(key, value)`: validates the lengths, then rewrites the key's slot
        by the put rule; no other byte of the region changes. */
    method Put(key: seq<bv8>, value: seq<bv8>) returns (r: Outcome<Error>)
      requires Valid()
      modifies region
      ensures r.Pass? <==> |key| == keySz && |value| == valueSz
      ensures |key| != keySz ==> r == Fail(InvalidKeyLength(|key|, keySz))
      ensures |key| == keySz && |value| != valueSz ==> r == Fail(InvalidValueLength(|value|, valueSz))
      ensures r.Fail? ==> region[..] == old(region[..])
      ensures r.Pass? ==> && |key| == keySz && |value| == valueSz
                          && region[..] == PutRegion(old(region[..]), Geometry(), hashFunction, key, value)
    {
      if |key| != keySz {
        return Fail(InvalidKeyLength(|key|, keySz));
      }
      if |value| != valueSz {
        return Fail(InvalidValueLength(|value|, valueSz));
      }
      var slotPtr, copy := ReadSlot(key);
      ghost var slot := copy[..];
      PutIntoSlot(region[..], Geometry(), hashFunction, key, value, slotPtr, slot);
      RewriteSlot(key, value, copy);
      ghost var updated := copy[..];
      ghost var before := region[..];
      assert before == old(region[..]);
      Copy(copy[..], region, slotPtr);
      assert region[..] == Splice(before, slotPtr, updated);
      return Pass;
    }

    /** The slot bytes after the put rule: a key already present has its value
        overwritten in place; otherwise the pairs move one position right, the
        last one is dropped, and the new pair goes first. */
    method RewriteSlot(key: seq<bv8>, value: seq<bv8>, slot: array<bv8>)
      requires |key| == keySz && |value| == valueSz && slot.Length == Associativity * (keySz + valueSz)
      modifies slot
      ensures slot[..] == Encode(PutEntries(Entries(old(slot[..]), keySz, valueSz), key, value))
    {
      var keyOffset := ContainsKey(key, slot);
      if keyOffset < 0 {
        InsertFront(key, value, slot);
      } else {
        OverwriteValue(key, value, keyOffset, slot, FindKey(Entries(slot[..], keySz, valueSz), key).value);
      }
    }

    /** The byte moves of a put of a new key: pairs 0 and 1 move one pair to
        the right, over pair 2, and the key and the value are written in front. */
    method InsertFront(key: seq<bv8>, value: seq<bv8>, slot: array<bv8>)
      requires |key| == keySz && |value| == valueSz && slot.Length == Associativity * (keySz + valueSz)
      requires FindKey(Entries(slot[..], keySz, valueSz), key).None?
      modifies slot
      ensures slot[..] == Encode(PutEntries(Entries(old(slot[..]), keySz, valueSz), key, value))
    {
      var w := keySz + valueSz;
      PutAbsentBytes(slot[..], key, value, keySz, valueSz);
      Copy(slot[..2 * w], slot, w);
      Copy(key, slot, 0);
      Copy(value, slot, keySz);
    }

    /** The byte move of a put of a key the slot already holds at
        `keyOffset`: the value after that key is overwritten. */
    method OverwriteValue(key: seq<bv8>, value: seq<bv8>, keyOffset: int, slot: array<bv8>, ghost p: nat)
      requires |value| == valueSz && slot.Length == Associativity * (keySz + valueSz)
      requires FindKey(Entries(slot[..], keySz, valueSz), key) == Some(p)
      requires keyOffset == PairOffset(p, keySz, valueSz)
      modifies slot
      ensures slot[..] == Encode(PutEntries(Entries(old(slot[..]), keySz, valueSz), key, value))
    {
      PutPresentBytes(slot[..], key, value, keySz, valueSz, p);
      Copy(value, slot, keyOffset + keySz);
    }

    /** `get(key)`: validates the key length, then returns a copy of the value
        of the first pair in the key's slot whose key matches, or null. */
    method Get(key: seq<bv8>) returns (r: Result<Option<seq<bv8>>, Error>)
      requires Valid()
      ensures |key| != keySz <==> r.Failure?
      ensures r.Failure? ==> r.error == InvalidKeyLength(|key|, keySz)
      ensures r.Success? ==> r.value == GetRegion(region[..], Geometry(), hashFunction, key)
    {
      if |key| != keySz {
        return Failure(InvalidKeyLength(|key|, keySz));
      }
      var slotPtr, copy := ReadSlot(key);
      GetFromSlot(region[..], Geometry(), hashFunction, key, slotPtr, copy[..]);
      var value := FindValue(key, copy);
      return Success(value);
    }

    /** The value of the first pair in `slot` whose key is `key`, copied out, or null. */
    method FindValue(key: seq<bv8>, slot: array<bv8>) returns (value: Option<seq<bv8>>)
      requires |key| == keySz && slot.Length == Associativity * (keySz + valueSz)
      ensures value == GetEntries(Entries(slot[..], keySz, valueSz), key)
    {
      var keyOffset := ContainsKey(key, slot);
      if keyOffset < 0 {
        return None;
      }
      ghost var bytes := slot[..];
      GetPresentBytes(bytes, key, keySz, valueSz, FindKey(Entries(bytes, keySz, valueSz), key).value);
      var copy := CopyRange(slot[..], keyOffset + keySz, valueSz);
      assert slot[..] == bytes;
      return Some(copy[..]);
    }
  }
}
