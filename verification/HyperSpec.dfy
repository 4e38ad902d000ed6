/** What a HyperRAM copy request means: a plain loop that moves one byte at a
    time. Nothing here knows about bursts or bounce buffers; `Direct` and `Overreach`
    say which bytes around a request must exist. */
module HyperSpec {
  import opened Arithmetic
  import opened ByteCopy

  datatype Memory = Memory(l2: seq<Byte>, hyper: seq<Byte>)

  /** One request. `id` names the task that is signalled at the end. A 2D
      request moves lines of `length` bytes whose starts are `stride` apart in
      the HyperRAM and adjacent in L2; `stride` and `length` mean nothing in 1D. */
  datatype Request = Request(
    id: nat, write: bool, addr: nat, hyperAddr: nat, size: nat,
    is2d: bool, stride: int, length: nat)

  /** Where byte `k` lies relative to the first one when every `length` bytes
      the place moves on by `stride` instead of by `length`. */
  function LineOffset(length: nat, stride: int, k: nat): int
    requires length > 0
    decreases k
  {
    if k < length then k else stride + LineOffset(length, stride, k - length)
  }

  /** The HyperRAM address of byte `k` of a request. */
  function HyperOffset(r: Request, k: nat): int
    requires r.is2d ==> r.length > 0
  {
    r.hyperAddr + if r.is2d then LineOffset(r.length, r.stride, k) else k
  }

  /** The closed form: byte `k` is byte `k % length` of line `k / length`. */
  lemma {:induction false} LineOffsetFormula(length: nat, stride: int, k: nat)
    requires length > 0
    ensures LineOffset(length, stride, k) == (k / length) * stride + k % length
    decreases k
  {
    if k >= length {
      LineOffsetFormula(length, stride, k - length);
      var rest: nat := k - length;
      var q: int := rest / length;
      DivModUnique(k, length, q + 1, rest % length);
      assert (q + 1) * stride == q * stride + stride;
    } else {
      DivModUnique(k, length, 0, k);
      assert 0 * stride == 0;
    }
  }

  /** Whether the hardware can take the request without emulation. */
  predicate Direct(r: Request) {
    !r.is2d && r.addr % 4 == 0 && r.hyperAddr % 2 == 0 &&
    (r.size % 4 == 0 || (r.write && r.size % 2 == 0))
  }

  /** Lines begin at these bytes of a request. */
  predicate LineAt(r: Request, k: nat) {
    k == 0 || (r.is2d && r.length > 0 && k % r.length == 0)
  }

  /** The bytes of the line that begins at byte `k`. */
  function LineLength(r: Request, k: nat): nat
    requires k <= r.size
  {
    if r.is2d && r.size - k > r.length then r.length else r.size - k
  }

  /** How many bytes behind `size` of them, at HyperRAM address `h` and L2 address
      `addr`, are accessed besides when they need emulation. Once the L2 address is a
      multiple of 4, whole pairs of 2 bytes are copied up to the last 4. */
  function Overreach(h: int, addr: nat, size: nat): int {
    if size < 4 then (if size == 0 then 0 else 4 - size - h % 2)
    else
      var skip := (4 - addr % 4) % 4;
      TailReach((h + skip) % 2, (size - skip) % 4)
  }

  /** The same for `rest` bytes behind the last 4-aligned L2 address, when the HyperRAM
      address there is odd or even. */
  function TailReach(odd: int, rest: int): int {
    if rest == 0 && odd == 0 then 0 else 4 - rest - odd
  }

  ghost predicate InBounds(r: Request, l2Size: nat, hyperSize: nat) {
    && r.addr + r.size <= l2Size && r.hyperAddr <= hyperSize
    && (r.is2d ==> r.size == 0 || r.length > 0)
    && (forall k: nat {:trigger HyperOffset(r, k)} :: k < r.size ==> 0 <= HyperOffset(r, k) < hyperSize)
    && (!Direct(r) ==> forall k: nat {:trigger LineAt(r, k)} :: k < r.size && LineAt(r, k) ==>
          LineReach(r, k) <= hyperSize)
  }

  /** Where the accesses for a line end. */
  function LineReach(r: Request, k: nat): int
    requires k <= r.size && (r.is2d ==> r.length > 0)
  {
    var h, n := HyperOffset(r, k), LineLength(r, k);
    h + n + Overreach(h, r.addr + k, n)
  }

  ghost predicate Fits(m: Memory, r: Request) {
    InBounds(r, |m.l2|, |m.hyper|)
  }

  ghost function CopyByte(m: Memory, r: Request, k: nat): (m': Memory)
    requires Fits(m, r) && k < r.size
    ensures |m'.l2| == |m.l2| && |m'.hyper| == |m.hyper|
  {
    var h := HyperOffset(r, k);
    if r.write then m.(hyper := m.hyper[h := m.l2[r.addr + k]])
    else m.(l2 := m.l2[r.addr + k := m.hyper[h]])
  }

  /** Bytes `lo` up to `hi` of the request, in order. */
  ghost function CopyBytes(m: Memory, r: Request, lo: nat, hi: nat): (m': Memory)
    requires Fits(m, r) && lo <= hi <= r.size
    ensures |m'.l2| == |m.l2| && |m'.hyper| == |m.hyper|
    decreases hi - lo
  {
    if lo == hi then m else CopyBytes(CopyByte(m, r, lo), r, lo + 1, hi)
  }

  ghost function Apply(m: Memory, r: Request): (m': Memory)
    requires Fits(m, r)
    ensures |m'.l2| == |m.l2| && |m'.hyper| == |m.hyper|
  {
    CopyBytes(m, r, 0, r.size)
  }

  ghost predicate AllFit(m: Memory, rs: seq<Request>) {
    forall i :: 0 <= i < |rs| ==> Fits(m, rs[i])
  }

  /** The requests one after the other. */
  ghost function ApplyAll(m: Memory, rs: seq<Request>): (m': Memory)
    requires AllFit(m, rs)
    ensures |m'.l2| == |m.l2| && |m'.hyper| == |m.hyper|
  {
    if rs == [] then m
    else Apply(ApplyAll(m, rs[..|rs| - 1]), rs[|rs| - 1])
  }

  function Ids(rs: seq<Request>): (ids: seq<nat>)
    ensures |ids| == |rs|
    ensures forall i :: 0 <= i < |rs| ==> ids[i] == rs[i].id
  {
    seq(|rs|, i requires 0 <= i < |rs| => rs[i].id)
  }

  // ----- the copy loop, split and collapsed

  lemma {:induction false} CopyBytesSplit(m: Memory, r: Request, a: nat, b: nat, c: nat)
    requires Fits(m, r) && a <= b <= c <= r.size
    ensures CopyBytes(m, r, a, c) == CopyBytes(CopyBytes(m, r, a, b), r, b, c)
    decreases b - a
  {
    if a < b {
      CopyBytesSplit(CopyByte(m, r, a), r, a + 1, b, c);
    }
  }

  ghost predicate Contiguous(r: Request, k: nat, n: nat, h: int)
    requires r.is2d ==> r.size == 0 || r.length > 0
    requires k + n <= r.size
  {
    forall j: nat {:trigger HyperOffset(r, j)} :: k <= j < k + n ==> HyperOffset(r, j) == h + j - k
  }

  /** `n` bytes from byte `k` on that lie side by side at HyperRAM address `h`,
      moved as one block. */
  ghost function CopyBlock(m: Memory, r: Request, k: nat, n: nat, h: nat): (m': Memory)
    requires r.addr + k + n <= |m.l2| && h + n <= |m.hyper|
  {
    if r.write then m.(hyper := Splice(m.hyper, h, m.l2[r.addr + k..r.addr + k + n]))
    else m.(l2 := Splice(m.l2, r.addr + k, m.hyper[h..h + n]))
  }

  lemma {:induction false} CopyRun(m: Memory, r: Request, k: nat, n: nat, h: nat)
    requires Fits(m, r) && k + n <= r.size
    requires h + n <= |m.hyper| && Contiguous(r, k, n, h)
    ensures CopyBytes(m, r, k, k + n) == CopyBlock(m, r, k, n, h)
    decreases n
  {
    hide HyperOffset, LineOffset, Splice;
    if n > 0 {
      assert HyperOffset(r, k) == h;
      var m1 := CopyByte(m, r, k);
      assert CopyBytes(m, r, k, k + n) == CopyBytes(m1, r, k + 1, k + n);
      assert CopyBytes(m1, r, k + 1, k + n) == CopyBlock(m1, r, k + 1, n - 1, h + 1) by {
        assert Contiguous(r, k + 1, n - 1, h + 1);
        CopyRun(m1, r, k + 1, n - 1, h + 1);
      }
      CopyBlockStep(m, m1, r, k, n, h);
    }
  }

  lemma CopyBlockStep(m: Memory, m1: Memory, r: Request, k: nat, n: nat, h: nat)
    requires n > 0 && r.addr + k + n <= |m.l2| && h + n <= |m.hyper|
    requires m1 == if r.write then m.(hyper := m.hyper[h := m.l2[r.addr + k]])
                   else m.(l2 := m.l2[r.addr + k := m.hyper[h]])
    ensures CopyBlock(m1, r, k + 1, n - 1, h + 1) == CopyBlock(m, r, k, n, h)
  {
    var l, c := CopyBlock(m1, r, k + 1, n - 1, h + 1), CopyBlock(m, r, k, n, h);
    assert l.hyper == c.hyper;
    assert l.l2 == c.l2;
  }

  // ----- what the copy loop does to each byte

  /** A request changes only the bytes it names, on the side it writes. */
  lemma {:induction false} CopyFrame(m: Memory, r: Request, lo: nat, hi: nat)
    requires Fits(m, r) && lo <= hi <= r.size
    ensures r.write ==> CopyBytes(m, r, lo, hi).l2 == m.l2
    ensures !r.write ==> CopyBytes(m, r, lo, hi).hyper == m.hyper
    ensures forall i :: 0 <= i < |m.l2| && !(r.addr + lo <= i < r.addr + hi)
              ==> CopyBytes(m, r, lo, hi).l2[i] == m.l2[i]
    ensures forall i :: 0 <= i < |m.hyper| && (forall k: nat :: lo <= k < hi ==> HyperOffset(r, k) != i)
              ==> CopyBytes(m, r, lo, hi).hyper[i] == m.hyper[i]
    decreases hi - lo
  {
    if lo < hi {
      CopyFrame(CopyByte(m, r, lo), r, lo + 1, hi);
    }
  }

  /** Memory after somebody else has written L2. */
  ghost function Overwrite(m: Memory, a: nat, bytes: seq<Byte>): (m': Memory)
    requires a + |bytes| <= |m.l2|
    ensures |m'.l2| == |m.l2| && m'.hyper == m.hyper
  {
    m.(l2 := Splice(m.l2, a, bytes))
  }

  /** `n` bytes of L2 that a request does not name. */
  predicate Apart(r: Request, a: nat, n: nat) {
    a + n <= r.addr || r.addr + r.size <= a
  }

  /** Writing such bytes before a request's copy or after any part of it comes to the
      same. */
  lemma {:induction false} CopyCommutes(m: Memory, r: Request, lo: nat, hi: nat, a: nat, bytes: seq<Byte>)
    requires Fits(m, r) && lo <= hi <= r.size && a + |bytes| <= |m.l2| && Apart(r, a, |bytes|)
    ensures CopyBytes(Overwrite(m, a, bytes), r, lo, hi) == Overwrite(CopyBytes(m, r, lo, hi), a, bytes)
    decreases hi - lo
  {
    if lo < hi {
      ByteCommutes(m, r, lo, a, bytes);
      CopyCommutes(CopyByte(m, r, lo), r, lo + 1, hi, a, bytes);
    }
  }

  lemma ByteCommutes(m: Memory, r: Request, k: nat, a: nat, bytes: seq<Byte>)
    requires Fits(m, r) && k < r.size && a + |bytes| <= |m.l2| && Apart(r, a, |bytes|)
    ensures CopyByte(Overwrite(m, a, bytes), r, k) == Overwrite(CopyByte(m, r, k), a, bytes)
  {
    assert CopyByte(Overwrite(m, a, bytes), r, k).l2 == Overwrite(CopyByte(m, r, k), a, bytes).l2;
  }

  /** A read leaves every requested byte in L2 exactly as the HyperRAM holds it. */
  lemma {:induction false} ReadDelivers(m: Memory, r: Request, lo: nat, hi: nat, k: nat)
    requires Fits(m, r) && lo <= k < hi <= r.size && !r.write
    ensures CopyBytes(m, r, lo, hi).l2[r.addr + k] == m.hyper[HyperOffset(r, k)]
    decreases hi - lo
  {
    var m1 := CopyByte(m, r, lo);
    if k == lo {
      CopyFrame(m1, r, lo + 1, hi);
    } else {
      ReadDelivers(m1, r, lo + 1, hi, k);
    }
  }

  /** A write leaves byte `k` in the HyperRAM unless a later byte of the same
      request lands on the same address (lines of a 2D write may overlap). */
  lemma {:induction false} WriteDelivers(m: Memory, r: Request, lo: nat, hi: nat, k: nat)
    requires Fits(m, r) && lo <= k < hi <= r.size && r.write
    requires forall j: nat :: k < j < hi ==> HyperOffset(r, j) != HyperOffset(r, k)
    ensures CopyBytes(m, r, lo, hi).hyper[HyperOffset(r, k)] == m.l2[r.addr + k]
    decreases hi - lo
  {
    var m1 := CopyByte(m, r, lo);
    if k == lo {
      CopyFrame(m1, r, lo + 1, hi);
    } else {
      WriteDelivers(m1, r, lo + 1, hi, k);
    }
  }

  /** Writing a buffer and reading the same place back, in the same shape,
      brings the buffer back, for every alignment. */
  lemma WriteThenRead(m: Memory, w: Request, r: Request)
    requires Fits(m, w) && Fits(m, r) && w.write && !r.write
    requires r.size == w.size && r.hyperAddr == w.hyperAddr && r.is2d == w.is2d
    requires r.stride == w.stride && r.length == w.length
    requires w.is2d ==> w.stride >= w.length
    ensures Apply(Apply(m, w), r).l2[r.addr..r.addr + r.size] == m.l2[w.addr..w.addr + w.size]
  {
    hide Apply, HyperOffset;
    var l2 := Apply(Apply(m, w), r).l2;
    var back, was := l2[r.addr..r.addr + r.size], m.l2[w.addr..w.addr + w.size];
    assert |back| == |was|;
    forall i | 0 <= i < |back| ensures back[i] == was[i] {
      WriteThenReadByte(m, w, r, i);
      assert back[i] == l2[r.addr + i] && was[i] == m.l2[w.addr + i];
    }
  }

  lemma WriteThenReadByte(m: Memory, w: Request, r: Request, k: nat)
    requires Fits(m, w) && Fits(m, r) && w.write && !r.write && k < w.size
    requires r.size == w.size && r.hyperAddr == w.hyperAddr && r.is2d == w.is2d
    requires r.stride == w.stride && r.length == w.length
    requires w.is2d ==> w.stride >= w.length
    ensures Apply(Apply(m, w), r).l2[r.addr + k] == m.l2[w.addr + k]
  {
    ReadDelivers(Apply(m, w), r, 0, r.size, k);
    forall j: nat {:trigger HyperOffset(w, j)} | k < j < w.size
      ensures HyperOffset(w, j) != HyperOffset(w, k) {
      if w.is2d { OffsetsIncrease(w.length, w.stride, k, j); }
    }
    WriteDelivers(m, w, 0, w.size, k);
    assert HyperOffset(w, k) == HyperOffset(r, k);
  }

  /** Lines that do not overlap are laid out in increasing order. */
  lemma {:induction false} OffsetsIncrease(length: nat, stride: int, k: nat, j: nat)
    requires 0 < length <= stride && k < j
    ensures 0 <= LineOffset(length, stride, k) < LineOffset(length, stride, j)
    decreases k
  {
    if length <= k {
      OffsetsIncrease(length, stride, k - length, j - length);
    } else if length <= j {
      OffsetNotNegative(length, stride, j - length);
    }
  }

  lemma {:induction false} OffsetNotNegative(length: nat, stride: int, k: nat)
    requires 0 < length <= stride
    ensures LineOffset(length, stride, k) >= 0
    decreases k
  {
    if length <= k {
      OffsetNotNegative(length, stride, k - length);
    }
  }

  // ----- what a request does, in its own words

  lemma LineOffsets(length: nat, stride: int, size: nat)
    requires length > 0
    ensures forall k: nat {:trigger LineOffset(length, stride, k)} :: k < size ==>
              LineOffset(length, stride, k) == k / length * stride + k % length
  {
    forall k: nat {:trigger LineOffset(length, stride, k)} | k < size
      ensures LineOffset(length, stride, k) == k / length * stride + k % length
    {
      LineOffsetFormula(length, stride, k);
    }
  }

  /** The HyperRAM addresses of the bytes of a request with these fields. */
  function Places(hyperAddr: nat, size: nat, is2d: bool, stride: int, length: nat): (at: seq<int>)
    ensures |at| == size
    ensures forall k :: 0 <= k < size ==>
              at[k] == hyperAddr + if is2d && length > 0 then k / length * stride + k % length else k
  {
    if is2d && length > 0 then
      LineOffsets(length, stride, size);
      seq(size, k requires 0 <= k < size => hyperAddr + LineOffset(length, stride, k))
    else
      seq(size, k requires 0 <= k < size => hyperAddr + k)
  }

  /** No later one of these places is the same as place `k`. */
  ghost predicate NoneAfter(at: seq<int>, k: int)
    requires 0 <= k < |at|
  {
    forall j :: k < j < |at| ==> at[j] != at[k]
  }

  lemma PlacesAre(r: Request)
    requires r.is2d ==> r.size == 0 || r.length > 0
    ensures forall k: nat {:trigger HyperOffset(r, k)} :: k < r.size ==>
              HyperOffset(r, k) == Places(r.hyperAddr, r.size, r.is2d, r.stride, r.length)[k]
  {
    if r.is2d && r.size > 0 {
      LineOffsets(r.length, r.stride, r.size);
    }
  }

  /** A read leaves in L2 what the HyperRAM holds at the requested places, and nothing else
      changes. */
  lemma ReadServed(m: Memory, r: Request)
    requires Fits(m, r) && !r.write
    ensures var at, now := Places(r.hyperAddr, r.size, r.is2d, r.stride, r.length), Apply(m, r);
      && now.hyper == m.hyper
      && (forall k :: 0 <= k < r.size ==> 0 <= at[k] < |m.hyper| && now.l2[r.addr + k] == m.hyper[at[k]])
      && (forall j :: 0 <= j < |m.l2| && !(r.addr <= j < r.addr + r.size) ==> now.l2[j] == m.l2[j])
  {
    var at, now := Places(r.hyperAddr, r.size, r.is2d, r.stride, r.length), Apply(m, r);
    PlacesAre(r);
    hide HyperOffset, Places;
    CopyFrame(m, r, 0, r.size);
    forall k | 0 <= k < r.size ensures 0 <= at[k] < |m.hyper| && now.l2[r.addr + k] == m.hyper[at[k]] {
      assert HyperOffset(r, k) == at[k];
      ReadDelivers(m, r, 0, r.size, k);
    }
  }

  /** A write leaves in the HyperRAM, at the places of its bytes, what L2 holds, unless a later
      byte has the same place, and nothing else changes. */
  lemma WriteServed(m: Memory, r: Request)
    requires Fits(m, r) && r.write
    ensures var at, now := Places(r.hyperAddr, r.size, r.is2d, r.stride, r.length), Apply(m, r);
      && now.l2 == m.l2
      && (forall k :: 0 <= k < r.size && NoneAfter(at, k) ==>
            0 <= at[k] < |m.hyper| && now.hyper[at[k]] == m.l2[r.addr + k])
      && (forall h :: 0 <= h < |m.hyper| && h !in at ==> now.hyper[h] == m.hyper[h])
  {
    var at, now := Places(r.hyperAddr, r.size, r.is2d, r.stride, r.length), Apply(m, r);
    PlacesAre(r);
    hide HyperOffset, Places;
    CopyFrame(m, r, 0, r.size);
    forall k | 0 <= k < r.size && NoneAfter(at, k)
      ensures 0 <= at[k] < |m.hyper| && now.hyper[at[k]] == m.l2[r.addr + k]
    {
      assert HyperOffset(r, k) == at[k];
      WriteDelivers(m, r, 0, r.size, k);
    }
    forall h | 0 <= h < |m.hyper| && h !in at ensures now.hyper[h] == m.hyper[h] {
      forall k: nat | k < r.size ensures HyperOffset(r, k) != h {
        assert at[k] in at;
      }
    }
  }

  /** All of that. */
  ghost predicate Served(r: Request, was: Memory, now: Memory) {
    var at := Places(r.hyperAddr, r.size, r.is2d, r.stride, r.length);
    && |now.l2| == |was.l2| && |now.hyper| == |was.hyper| && r.addr + r.size <= |was.l2|
    && if r.write then
         && now.l2 == was.l2
         && (forall k :: 0 <= k < r.size && NoneAfter(at, k) ==>
               0 <= at[k] < |was.hyper| && now.hyper[at[k]] == was.l2[r.addr + k])
         && (forall h :: 0 <= h < |was.hyper| && h !in at ==> now.hyper[h] == was.hyper[h])
       else
         && now.hyper == was.hyper
         && (forall k :: 0 <= k < r.size ==> 0 <= at[k] < |was.hyper| && now.l2[r.addr + k] == was.hyper[at[k]])
         && (forall j :: 0 <= j < |was.l2| && !(r.addr <= j < r.addr + r.size) ==> now.l2[j] == was.l2[j])
  }

  lemma ApplyServes(m: Memory, r: Request)
    requires Fits(m, r)
    ensures Served(r, m, Apply(m, r))
  {
    hide Apply, Places, NoneAfter;
    if r.write {
      WriteServed(m, r);
    } else {
      ReadServed(m, r);
    }
  }
}
