/** Bytes, overwriting a stretch of a byte string, and the byte-by-byte copy
    loop that the drivers use between buffers. */
module ByteCopy {
  datatype Option<+T> = None | Some(value: T)

  type Byte = b: int | 0 <= b < 256

  /** `dst` with the bytes from `at` on replaced by `src`. */
  function Splice(dst: seq<Byte>, at: nat, src: seq<Byte>): (r: seq<Byte>)
    requires at + |src| <= |dst|
    ensures |r| == |dst|
    ensures forall i :: 0 <= i < |r| ==> r[i] == if at <= i < at + |src| then src[i - at] else dst[i]
  {
    dst[..at] + src + dst[at + |src|..]
  }

  /** Two adjacent overwrites are one overwrite by the concatenation. */
  lemma SpliceJoin(dst: seq<Byte>, at: nat, s: seq<Byte>, t: seq<Byte>)
    requires at + |s| + |t| <= |dst|
    ensures Splice(Splice(dst, at, s), at + |s|, t) == Splice(dst, at, s + t)
  {
  }

  /** Overwriting a stretch with a string that differs from what was there
      only inside `[lo, lo + |mid|)` overwrites only that part. */
  lemma SpliceOverlay(dst: seq<Byte>, at: nat, block: seq<Byte>, lo: nat, mid: seq<Byte>)
    requires at + |block| <= |dst| && lo + |mid| <= |block|
    requires block == Splice(dst[at..at + |block|], lo, mid)
    ensures Splice(dst, at, block) == Splice(dst, at + lo, mid)
  {
    var l, r := Splice(dst, at, block), Splice(dst, at + lo, mid);
    forall i | 0 <= i < |dst| ensures l[i] == r[i] {
      if at <= i < at + |block| {
        assert dst[at..at + |block|][i - at] == dst[i];
      }
    }
  }

  method Memcpy(dst: array<Byte>, dstAt: nat, src: array<Byte>, srcAt: nat, len: nat)
    requires dst != src
    requires dstAt + len <= dst.Length && srcAt + len <= src.Length
    modifies dst
    ensures dst[..] == Splice(old(dst[..]), dstAt, src[..][srcAt..srcAt + len])
  {
    var i := 0;
    while i < len
      invariant i <= len
      invariant forall j :: 0 <= j < dst.Length ==>
                  dst[j] == if dstAt <= j < dstAt + i then src[srcAt + j - dstAt] else old(dst[j])
    {
      dst[dstAt + i] := src[srcAt + i];
      i := i + 1;
    }
    ghost var want := Splice(old(dst[..]), dstAt, src[..][srcAt..srcAt + len]);
    assert forall j :: 0 <= j < dst.Length ==> dst[j] == want[j];
  }
}
