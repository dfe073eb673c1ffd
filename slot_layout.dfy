/** The logical view of one slot: the bytes of a slot read as three key/value
    pairs, most recently inserted first, and the put/get rules on that view.

    Here and in RegionModel, the `n` bytes of `s` from offset `a` are written
    `s[a..][..n]` (drop, then take) rather than `s[a..a + n]`: the verifier
    relates every pair of takes of one array snapshot to each other, and the
    drop-then-take form keeps that reasoning small. */
module SlotLayout {
  import opened Wrappers
  import opened Bytes

  /** ELEMENTS_PER_SLOT: how many key/value pairs one slot holds. */
  const Associativity: nat := 3

  /** One key/value pair; in memory the key bytes come first, then the value bytes. */
  datatype Pair = Pair(key: seq<bv8>, value: seq<bv8>)

  predicate Fits(p: Pair, keySz: nat, valueSz: nat) {
    |p.key| == keySz && |p.value| == valueSz
  }

  predicate AllFit(es: seq<Pair>, keySz: nat, valueSz: nat) {
    forall i :: 0 <= i < |es| ==> Fits(es[i], keySz, valueSz)
  }

  /** The pairs stored in the bytes of a slot: pair `i` starts at `i * (keySz + valueSz)`. */
  function Entries(slot: seq<bv8>, keySz: nat, valueSz: nat): (es: seq<Pair>)
    requires |slot| == Associativity * (keySz + valueSz)
    ensures |es| == Associativity && AllFit(es, keySz, valueSz)
  {
    var w := keySz + valueSz;
    [Pair(slot[..keySz], slot[keySz..][..valueSz]),
     Pair(slot[w..][..keySz], slot[w + keySz..][..valueSz]),
     Pair(slot[2 * w..][..keySz], slot[2 * w + keySz..])]
  }

  /** The bytes of a slot holding the pairs `es`. */
  function Encode(es: seq<Pair>): seq<bv8>
    requires |es| == Associativity
  {
    es[0].key + es[0].value + es[1].key + es[1].value + es[2].key + es[2].value
  }

  /** Reading a slot as pairs loses nothing: encoding the pairs gives the bytes back. */
  lemma EncodeEntries(slot: seq<bv8>, keySz: nat, valueSz: nat)
    requires |slot| == Associativity * (keySz + valueSz)
    ensures Encode(Entries(slot, keySz, valueSz)) == slot
  {
    var w := keySz + valueSz;
    assert slot == slot[..keySz] + slot[keySz..][..valueSz] + slot[w..][..keySz] + slot[w + keySz..][..valueSz]
                 + slot[2 * w..][..keySz] + slot[2 * w + keySz..];
  }

  /** Pairs of the configured sizes survive being written to a slot and read back. */
  lemma EntriesEncode(es: seq<Pair>, keySz: nat, valueSz: nat)
    requires |es| == Associativity && AllFit(es, keySz, valueSz)
    ensures |Encode(es)| == Associativity * (keySz + valueSz)
    ensures Entries(Encode(es), keySz, valueSz) == es
  {
    assert Fits(es[0], keySz, valueSz) && Fits(es[1], keySz, valueSz) && Fits(es[2], keySz, valueSz);
    var s := Encode(es);
    var w := keySz + valueSz;
    assert s[..keySz] == es[0].key;
    assert s[keySz..][..valueSz] == es[0].value;
    assert s[w..][..keySz] == es[1].key;
    assert s[w + keySz..][..valueSz] == es[1].value;
    assert s[2 * w..][..keySz] == es[2].key;
    assert s[2 * w + keySz..] == es[2].value;
  }

  /** Where pair `i` starts in a slot, written out for the three positions. */
  function PairOffset(i: nat, keySz: nat, valueSz: nat): (offset: nat)
    requires i < Associativity
    ensures offset + keySz + valueSz <= 3 * (keySz + valueSz)
  {
    if i == 0 then 0 else if i == 1 then keySz + valueSz else 2 * (keySz + valueSz)
  }

  /** Pair `i` starts `i` pair widths into the slot. */
  lemma PairOffsetIsProduct(i: nat, keySz: nat, valueSz: nat)
    requires i < Associativity
    ensures PairOffset(i, keySz, valueSz) == i * (keySz + valueSz)
  {
  }

  /** Pair `i` of a slot is the key bytes at `PairOffset(i)` followed by the value bytes. */
  lemma EntryAt(slot: seq<bv8>, keySz: nat, valueSz: nat, i: nat)
    requires |slot| == Associativity * (keySz + valueSz) && i < Associativity
    ensures PairOffset(i, keySz, valueSz) + keySz + valueSz <= |slot|
    ensures var offset := PairOffset(i, keySz, valueSz);
            && Entries(slot, keySz, valueSz)[i].key == slot[offset..][..keySz]
            && Entries(slot, keySz, valueSz)[i].value == slot[offset + keySz..][..valueSz]
  {
  }

  /** The byte moves of a put of a new key (pairs 0 and 1 copied one pair to
      the right, then the key and the value written at the front) produce the
      slot that holds the new pair followed by the old pairs 0 and 1. */
  lemma ShiftInsertBytes(slot: seq<bv8>, key: seq<bv8>, value: seq<bv8>, keySz: nat, valueSz: nat)
    requires |slot| == Associativity * (keySz + valueSz)
    requires |key| == keySz && |value| == valueSz
    ensures var w := keySz + valueSz;
            var es := Entries(slot, keySz, valueSz);
            Splice(Splice(Splice(slot, w, slot[..2 * w]), 0, key), keySz, value)
              == Encode([Pair(key, value), es[0], es[1]])
  {
    var w := keySz + valueSz;
    var s1 := Splice(slot, w, slot[..2 * w]);
    SpliceParts(slot, w, slot[..2 * w]);
    assert s1 == slot[..w] + slot[..2 * w];
    var s2 := Splice(s1, 0, key);
    SpliceParts(s1, 0, key);
    assert s1[keySz..] == slot[keySz..w] + slot[..2 * w];
    assert s2 == key + slot[keySz..w] + slot[..2 * w];
    var s3 := Splice(s2, keySz, value);
    SpliceParts(s2, keySz, value);
    assert s2[..keySz] == key;
    assert s2[w..] == slot[..2 * w];
    assert s3 == key + value + slot[..2 * w];
    FrontPairs(slot, key, value, keySz, valueSz);
  }

  /** The bytes of a put of an absent key are the slot after the shift and
      the writes of the key and the value in front. */
  lemma PutAbsentBytes(slot: seq<bv8>, key: seq<bv8>, value: seq<bv8>, keySz: nat, valueSz: nat)
    requires |slot| == Associativity * (keySz + valueSz)
    requires |key| == keySz && |value| == valueSz
    requires FindKey(Entries(slot, keySz, valueSz), key).None?
    ensures var w := keySz + valueSz;
            Encode(PutEntries(Entries(slot, keySz, valueSz), key, value))
              == Splice(Splice(Splice(slot, w, slot[..2 * w]), 0, key), keySz, value)
  {
    ShiftInsertBytes(slot, key, value, keySz, valueSz);
  }

  /** The slot holding a new pair followed by the old pairs 0 and 1 is the
      new key and value followed by the first two pairs' bytes. */
  lemma FrontPairs(slot: seq<bv8>, key: seq<bv8>, value: seq<bv8>, keySz: nat, valueSz: nat)
    requires |slot| == Associativity * (keySz + valueSz)
    ensures var es := Entries(slot, keySz, valueSz);
            Encode([Pair(key, value), es[0], es[1]]) == key + value + slot[..2 * (keySz + valueSz)]
  {
    var w := keySz + valueSz;
    var es := Entries(slot, keySz, valueSz);
    assert slot[..2 * w] == es[0].key + es[0].value + es[1].key + es[1].value;
  }

  /** The bytes of a put of a key held by pair `p` are the slot with that
      pair's value overwritten. */
  lemma PutPresentBytes(slot: seq<bv8>, key: seq<bv8>, value: seq<bv8>, keySz: nat, valueSz: nat, p: nat)
    requires |slot| == Associativity * (keySz + valueSz)
    requires |value| == valueSz
    requires FindKey(Entries(slot, keySz, valueSz), key) == Some(p)
    ensures p < Associativity && PairOffset(p, keySz, valueSz) + keySz + valueSz <= |slot|
    ensures Encode(PutEntries(Entries(slot, keySz, valueSz), key, value))
              == Splice(slot, PairOffset(p, keySz, valueSz) + keySz, value)
  {
    UpdateValueBytes(slot, value, keySz, valueSz, p);
  }

  /** A get of a key held by pair `p` answers the value bytes that follow
      that pair's key in the slot. */
  lemma GetPresentBytes(slot: seq<bv8>, key: seq<bv8>, keySz: nat, valueSz: nat, p: nat)
    requires |slot| == Associativity * (keySz + valueSz)
    requires FindKey(Entries(slot, keySz, valueSz), key) == Some(p)
    ensures p < Associativity && PairOffset(p, keySz, valueSz) + keySz + valueSz <= |slot|
    ensures var at := PairOffset(p, keySz, valueSz) + keySz;
            GetEntries(Entries(slot, keySz, valueSz), key) == Some(slot[at..][..valueSz])
  {
    EntryAt(slot, keySz, valueSz, p);
  }

  /** The byte move of a put of a key held by pair `p` (the value written over
      that pair's value bytes) produces the slot with only that pair's value replaced. */
  lemma UpdateValueBytes(slot: seq<bv8>, value: seq<bv8>, keySz: nat, valueSz: nat, p: nat)
    requires |slot| == Associativity * (keySz + valueSz) && p < Associativity
    requires |value| == valueSz
    ensures PairOffset(p, keySz, valueSz) + keySz + valueSz <= |slot|
    ensures var es := Entries(slot, keySz, valueSz);
            Splice(slot, PairOffset(p, keySz, valueSz) + keySz, value) == Encode(es[p := Pair(es[p].key, value)])
  {
    SpliceParts(slot, PairOffset(p, keySz, valueSz) + keySz, value);
    ValueRewrite(slot, value, keySz, valueSz, p);
  }

  /** The slot with the value bytes of pair `p` replaced holds the pairs with
      that pair's value replaced. */
  lemma ValueRewrite(slot: seq<bv8>, value: seq<bv8>, keySz: nat, valueSz: nat, p: nat)
    requires |slot| == Associativity * (keySz + valueSz) && |value| == valueSz && p < Associativity
    ensures var es := Entries(slot, keySz, valueSz);
            var at := PairOffset(p, keySz, valueSz) + keySz;
            slot[..at] + value + slot[at + |value|..] == Encode(es[p := Pair(es[p].key, value)])
  {
    if p == 0 {
      ValueRewrite0(slot, value, keySz, valueSz);
    } else if p == 1 {
      ValueRewrite1(slot, value, keySz, valueSz);
    } else {
      ValueRewrite2(slot, value, keySz, valueSz);
    }
  }

  /** The value of pair 0 replaced, as bytes. */
  lemma ValueRewrite0(slot: seq<bv8>, value: seq<bv8>, keySz: nat, valueSz: nat)
    requires |slot| == Associativity * (keySz + valueSz) && |value| == valueSz
    ensures var es := Entries(slot, keySz, valueSz);
            var at := PairOffset(0, keySz, valueSz) + keySz;
            slot[..at] + value + slot[at + |value|..] == Encode(es[0 := Pair(es[0].key, value)])
  {
    var w := keySz + valueSz;
    var es := Entries(slot, keySz, valueSz);
    assert slot[w..] == es[1].key + es[1].value + es[2].key + es[2].value;
    assert Encode(es[0 := Pair(es[0].key, value)]) == es[0].key + value + (es[1].key + es[1].value + es[2].key + es[2].value);
  }

  /** The value of pair 1 replaced, as bytes. */
  lemma ValueRewrite1(slot: seq<bv8>, value: seq<bv8>, keySz: nat, valueSz: nat)
    requires |slot| == Associativity * (keySz + valueSz) && |value| == valueSz
    ensures var es := Entries(slot, keySz, valueSz);
            var at := PairOffset(1, keySz, valueSz) + keySz;
            slot[..at] + value + slot[at + |value|..] == Encode(es[1 := Pair(es[1].key, value)])
  {
    var w := keySz + valueSz;
    var es := Entries(slot, keySz, valueSz);
    assert slot[..w + keySz] == es[0].key + es[0].value + es[1].key;
    assert slot[2 * w..] == es[2].key + es[2].value;
    assert Encode(es[1 := Pair(es[1].key, value)]) == (es[0].key + es[0].value + es[1].key) + value + (es[2].key + es[2].value);
  }

  /** The value of pair 2 replaced, as bytes. */
  lemma ValueRewrite2(slot: seq<bv8>, value: seq<bv8>, keySz: nat, valueSz: nat)
    requires |slot| == Associativity * (keySz + valueSz) && |value| == valueSz
    ensures var es := Entries(slot, keySz, valueSz);
            var at := PairOffset(2, keySz, valueSz) + keySz;
            slot[..at] + value + slot[at + |value|..] == Encode(es[2 := Pair(es[2].key, value)])
  {
    var w := keySz + valueSz;
    var es := Entries(slot, keySz, valueSz);
    assert slot[..2 * w] == es[0].key + es[0].value + es[1].key + es[1].value;
    assert slot[..2 * w + keySz] == slot[..2 * w] + es[2].key;
    assert slot[2 * w + keySz + valueSz..] == [];
    assert Encode(es[2 := Pair(es[2].key, value)]) == (es[0].key + es[0].value + es[1].key + es[1].value + es[2].key) + value;
  }

  /** The position of the first pair whose key equals `key`, scanning from the
      most recent pair; `None` when no pair has that key. */
  function FindKey(es: seq<Pair>, key: seq<bv8>): (r: Option<nat>)
    ensures r.Some? ==> r.value < |es| && es[r.value].key == key
    ensures r.Some? ==> forall j :: 0 <= j < r.value ==> es[j].key != key
    ensures r.None? ==> forall j :: 0 <= j < |es| ==> es[j].key != key
  {
    if es == [] then None
    else if es[0].key == key then Some(0)
    else match FindKey(es[1..], key)
      case None => None
      case Some(i) => Some(i + 1)
  }

  /** The contract of FindKey pins its result down: the first matching position. */
  lemma FindKeyFirst(es: seq<Pair>, key: seq<bv8>, p: nat)
    requires p < |es| && es[p].key == key
    requires forall j :: 0 <= j < p ==> es[j].key != key
    ensures FindKey(es, key) == Some(p)
  {
  }

  /** What `get` answers for `key` from a slot holding `es`. */
  function GetEntries(es: seq<Pair>, key: seq<bv8>): (r: Option<seq<bv8>>)
    ensures r.None? <==> forall i :: 0 <= i < |es| ==> es[i].key != key
    ensures r.Some? ==> exists p :: 0 <= p < |es| && es[p].key == key && r.value == es[p].value
                                    && forall j :: 0 <= j < p ==> es[j].key != key
  {
    match FindKey(es, key)
    case None => None
    case Some(p) => Some(es[p].value)
  }

  /** The pairs of a slot after `put(key, value)`: a key already present keeps
      its position and gets the new value; a new key goes in front, the other
      pairs move back one place and the last one is dropped. */
  function PutEntries(es: seq<Pair>, key: seq<bv8>, value: seq<bv8>): (r: seq<Pair>)
    requires |es| == Associativity
    ensures |r| == Associativity
  {
    match FindKey(es, key)
    case Some(p) => es[p := Pair(es[p].key, value)]
    case None => [Pair(key, value), es[0], es[1]]
  }

  /** A put keeps every pair of the configured sizes. */
  lemma PutEntriesFits(es: seq<Pair>, key: seq<bv8>, value: seq<bv8>, keySz: nat, valueSz: nat)
    requires |es| == Associativity && AllFit(es, keySz, valueSz)
    requires |key| == keySz && |value| == valueSz
    ensures AllFit(PutEntries(es, key, value), keySz, valueSz)
  {
    var r := PutEntries(es, key, value);
    forall i | 0 <= i < Associativity ensures Fits(r[i], keySz, valueSz) {
      match FindKey(es, key)
      case Some(p) =>
      case None =>
    }
  }

  /** Putting a key that no pair holds shifts the slot right and drops the oldest pair. */
  lemma PutAbsentShifts(es: seq<Pair>, key: seq<bv8>, value: seq<bv8>)
    requires |es| == Associativity
    requires forall i :: 0 <= i < |es| ==> es[i].key != key
    ensures PutEntries(es, key, value) == [Pair(key, value), es[0], es[1]]
  {
    assert FindKey(es, key).None?;
  }

  /** Putting a key held by pair `p` changes only that pair's value: every key
      keeps its position and every other pair is untouched. */
  lemma PutPresentUpdatesInPlace(es: seq<Pair>, key: seq<bv8>, value: seq<bv8>, p: nat)
    requires |es| == Associativity && p < |es| && es[p].key == key
    requires forall j :: 0 <= j < p ==> es[j].key != key
    ensures PutEntries(es, key, value)[p] == Pair(key, value)
    ensures forall i :: 0 <= i < |es| ==> PutEntries(es, key, value)[i].key == es[i].key
    ensures forall i :: 0 <= i < |es| && i != p ==> PutEntries(es, key, value)[i] == es[i]
  {
    var f := FindKey(es, key);
    assert f.Some?;
    assert f.value == p;
  }

  /** A get straight after a put of the same key returns the value just put. */
  lemma GetAfterPutEntries(es: seq<Pair>, key: seq<bv8>, value: seq<bv8>)
    requires |es| == Associativity
    ensures GetEntries(PutEntries(es, key, value), key) == Some(value)
  {
    var r := PutEntries(es, key, value);
    match FindKey(es, key)
    case None =>
      assert FindKey(r, key) == Some(0);
    case Some(p) =>
      PutPresentUpdatesInPlace(es, key, value, p);
      var q := FindKey(r, key);
      assert q.Some?;
      assert q.value == p;
  }

  /** The slot after a sequence of puts, the first pair of `kvs` put first. */
  function InsertAll(es: seq<Pair>, kvs: seq<Pair>): (r: seq<Pair>)
    requires |es| == Associativity
    ensures |r| == Associativity
    decreases |kvs|
  {
    if kvs == [] then es
    else
      var last := kvs[|kvs| - 1];
      PutEntries(InsertAll(es, kvs[..|kvs| - 1]), last.key, last.value)
  }

  /** No two pairs of `kvs` have the same key. */
  predicate DistinctKeys(kvs: seq<Pair>) {
    forall i, j :: 0 <= i < j < |kvs| ==> kvs[i].key != kvs[j].key
  }

  /** No pair of `kvs` has a key that the slot `es` already holds. */
  predicate FreshKeys(es: seq<Pair>, kvs: seq<Pair>) {
    forall i, p :: 0 <= i < |kvs| && 0 <= p < |es| ==> kvs[i].key != es[p].key
  }

  /** After puts of distinct new keys the slot holds the most recent three,
      newest first, followed by whatever of the old slot has not been pushed out. */
  lemma {:induction false} InsertAllWindow(es: seq<Pair>, kvs: seq<Pair>)
    requires |es| == Associativity && DistinctKeys(kvs) && FreshKeys(es, kvs)
    ensures forall i :: 0 <= i < Associativity ==>
      InsertAll(es, kvs)[i] == if i < |kvs| then kvs[|kvs| - 1 - i] else es[i - |kvs|]
  {
    if kvs != [] {
      var init := kvs[..|kvs| - 1];
      var last := kvs[|kvs| - 1];
      assert DistinctKeys(init) && FreshKeys(es, init);
      InsertAllWindow(es, init);
      var prev := InsertAll(es, init);
      forall i | 0 <= i < Associativity ensures prev[i].key != last.key {
        if i < |init| {
          assert prev[i] == kvs[|init| - 1 - i];
        } else {
          assert prev[i] == es[i - |init|];
        }
      }
      PutAbsentShifts(prev, last.key, last.value);
    }
  }

  /** The recency guarantee: after puts of distinct new keys into one slot, each
      of the three most recently put keys is found with its value, and every
      older key is gone. */
  lemma RecencyGuarantee(es: seq<Pair>, kvs: seq<Pair>, j: nat)
    requires |es| == Associativity && DistinctKeys(kvs) && FreshKeys(es, kvs)
    requires j < |kvs|
    ensures GetEntries(InsertAll(es, kvs), kvs[j].key)
         == if j + Associativity >= |kvs| then Some(kvs[j].value) else None
  {
    if j + Associativity >= |kvs| {
      RecentKeyFound(es, kvs, j);
    } else {
      OldKeyGone(es, kvs, j);
    }
  }

  /** One of the three most recently put keys is found with its value. */
  lemma RecentKeyFound(es: seq<Pair>, kvs: seq<Pair>, j: nat)
    requires |es| == Associativity && DistinctKeys(kvs) && FreshKeys(es, kvs)
    requires j < |kvs| && j + Associativity >= |kvs|
    ensures GetEntries(InsertAll(es, kvs), kvs[j].key) == Some(kvs[j].value)
  {
    InsertAllWindow(es, kvs);
    var r := InsertAll(es, kvs);
    var n := |kvs|;
    var p := n - 1 - j;
    assert r[p] == kvs[j];
    assert forall q :: 0 <= q < p ==> r[q] == kvs[n - 1 - q];
    FindKeyFirst(r, kvs[j].key, p);
  }

  /** A key put before the three most recent ones is gone. */
  lemma OldKeyGone(es: seq<Pair>, kvs: seq<Pair>, j: nat)
    requires |es| == Associativity && DistinctKeys(kvs) && FreshKeys(es, kvs)
    requires j + Associativity < |kvs|
    ensures GetEntries(InsertAll(es, kvs), kvs[j].key) == None
  {
    InsertAllWindow(es, kvs);
    var r := InsertAll(es, kvs);
    var n := |kvs|;
    forall q | 0 <= q < Associativity ensures r[q].key != kvs[j].key {
      assert r[q] == kvs[n - 1 - q];
    }
  }

  /** A key that was never put and that the old slot did not hold is not found. */
  lemma UninsertedKeyAbsent(es: seq<Pair>, kvs: seq<Pair>, key: seq<bv8>)
    requires |es| == Associativity && DistinctKeys(kvs) && FreshKeys(es, kvs)
    requires forall i :: 0 <= i < |kvs| ==> kvs[i].key != key
    requires forall p :: 0 <= p < |es| ==> es[p].key != key
    ensures GetEntries(InsertAll(es, kvs), key) == None
  {
    InsertAllWindow(es, kvs);
    var r := InsertAll(es, kvs);
    forall q | 0 <= q < Associativity ensures r[q].key != key {
      if q < |kvs| {
        assert r[q] == kvs[|kvs| - 1 - q];
      } else {
        assert r[q] == es[q - |kvs|];
      }
    }
  }

  /** Updates do not promote recency: after updating a key held by pair `p`,
      the next new key pushes out the pair that was last before the update, and
      the updated pair survives unless it was that last pair. */
  lemma UpdateThenInsertEvictsOldest(es: seq<Pair>, key: seq<bv8>, value: seq<bv8>, p: nat,
                                     newKey: seq<bv8>, newValue: seq<bv8>)
    requires |es| == Associativity && p < |es| && es[p].key == key
    requires forall j :: 0 <= j < p ==> es[j].key != key
    requires forall i :: 0 <= i < |es| ==> es[i].key != newKey
    ensures PutEntries(PutEntries(es, key, value), newKey, newValue)
         == [Pair(newKey, newValue)] + es[p := Pair(key, value)][..Associativity - 1]
  {
    var u := PutEntries(es, key, value);
    PutPresentUpdatesInPlace(es, key, value, p);
    assert u == es[p := Pair(key, value)];
    PutAbsentShifts(u, newKey, newValue);
  }

  /** A slot of zero bytes answers a get of the all-zero key with an all-zero value. */
  lemma ZeroSlotGet(keySz: nat, valueSz: nat)
    ensures GetEntries(Entries(Zeros(Associativity * (keySz + valueSz)), keySz, valueSz), Zeros(keySz))
         == Some(Zeros(valueSz))
  {
    var es := Entries(Zeros(Associativity * (keySz + valueSz)), keySz, valueSz);
    assert es[0].key == Zeros(keySz);
    assert es[0].value == Zeros(valueSz);
    assert FindKey(es, Zeros(keySz)) == Some(0);
  }
}
