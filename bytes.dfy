/** Byte sequences and the bulk byte copy the cache is built from. */
module Bytes {

  /** `n` zero bytes: the contents of a fresh Java `new byte[n]`. */
  function Zeros(n: nat): (z: seq<bv8>)
    ensures |z| == n
    ensures forall i :: 0 <= i < n ==> z[i] == 0
  {
    seq(n, _ => 0 as bv8)
  }

  /** The buffer `d` after the bytes `s` are copied over it from offset `pos`:
      inside `[pos, pos + |s|)` it holds `s`, everywhere else it is still `d`. */
  function Splice(d: seq<bv8>, pos: nat, s: seq<bv8>): (r: seq<bv8>)
    requires pos + |s| <= |d|
    ensures |r| == |d|
    decreases |s|
  {
    if |s| == 0 then d else Splice(d[pos := s[0]], pos + 1, s[1..])
  }

  /** Byte by byte: the copied range holds `s`, the rest is `d`. */
  lemma {:induction false} SpliceAt(d: seq<bv8>, pos: nat, s: seq<bv8>)
    requires pos + |s| <= |d|
    ensures forall i :: 0 <= i < |d| ==> Splice(d, pos, s)[i] == if pos <= i < pos + |s| then s[i - pos] else d[i]
    decreases |s|
  {
    if |s| > 0 {
      SpliceAt(d[pos := s[0]], pos + 1, s[1..]);
    }
  }

  /** The spliced buffer is the bytes of `d` before `pos`, then `s`, then the rest of `d`. */
  lemma SpliceParts(d: seq<bv8>, pos: nat, s: seq<bv8>)
    requires pos + |s| <= |d|
    ensures Splice(d, pos, s) == d[..pos] + s + d[pos + |s|..]
  {
    var r := d[..pos] + s + d[pos + |s|..];
    SpliceAt(d, pos, s);
    assert forall i :: 0 <= i < |d| ==> Splice(d, pos, s)[i] == r[i];
  }

  /** The copied range holds exactly the copied bytes. */
  lemma SpliceInside(d: seq<bv8>, pos: nat, s: seq<bv8>)
    requires pos + |s| <= |d|
    ensures Splice(d, pos, s)[pos..][..|s|] == s
  {
    SpliceAt(d, pos, s);
  }

  /** Copying into one range leaves any disjoint range as it was. */
  lemma SpliceElsewhere(d: seq<bv8>, pos: nat, s: seq<bv8>, lo: nat, len: nat)
    requires pos + |s| <= |d| && lo + len <= |d|
    requires lo + len <= pos || pos + |s| <= lo
    ensures Splice(d, pos, s)[lo..][..len] == d[lo..][..len]
  {
    var r := Splice(d, pos, s);
    SpliceAt(d, pos, s);
    assert forall i :: lo <= i < lo + len ==> r[i] == d[i];
  }

  /** `System.arraycopy` and `Unsafe.copyMemory`: the bytes `src` (the range
      of the source being copied) are written into `dst` from `dstPos` on. The
      source is taken as a snapshot, which is how `System.arraycopy` behaves
      when source and destination are the same array and the ranges overlap. */
  method Copy(src: seq<bv8>, dst: array<bv8>, dstPos: nat)
    requires dstPos + |src| <= dst.Length
    modifies dst
    ensures dst[..] == Splice(old(dst[..]), dstPos, src)
  {
    var i := 0;
    while i < |src|
      invariant 0 <= i <= |src|
      invariant forall j :: 0 <= j < dst.Length ==>
        dst[j] == if dstPos <= j < dstPos + i then src[j - dstPos] else old(dst[j])
    {
      dst[dstPos + i] := src[i];
      i := i + 1;
    }
    SpliceAt(old(dst[..]), dstPos, src);
    assert dst[..] == Splice(old(dst[..]), dstPos, src);
  }

  /** `new byte[length]` followed by an `arraycopy` of `length` bytes of `src`
      from `srcPos` into it. */
  method CopyRange(src: seq<bv8>, srcPos: nat, length: nat) returns (dst: array<bv8>)
    requires srcPos + length <= |src|
    ensures fresh(dst) && dst[..] == src[srcPos..][..length]
  {
    dst := new bv8[length];
    ghost var blank := dst[..];
    Copy(src[srcPos..][..length], dst, 0);
    SpliceParts(blank, 0, src[srcPos..][..length]);
    assert blank[length..] == [];
  }
}
