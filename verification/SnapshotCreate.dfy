/** Seeding a snapshot: every slot's value is stored and the wanted bits are set. */
module SnapshotCreate {
  import opened Bytes
  import opened Bitmap
  import opened ValueStore
  import opened Segments
  import opened Survivors
  import opened Windows
  import S = Snapshot

  predicate AllZero(v: seq<byte>)
  {
    forall i :: 0 <= i < |v| ==> v[i] == 0
  }

  /** An all-zero value is the integer 0, whatever its width. */
  lemma {:induction false} AllZeroIsZero(v: seq<byte>)
    ensures AllZero(v) <==> LeVal(v) == 0
  {
    if v != [] {
      AllZeroIsZero(v[1..]);
      assert v == [v[0]] + v[1..];
    }
  }

  /** The byte loop that looks for a non-zero byte. */
  method ZeroBytes(v: seq<byte>) returns (zero: bool)
    ensures zero <==> LeVal(v) == 0
  {
    AllZeroIsZero(v);
    var b := 0;
    while b < |v| && v[b] == 0
      invariant b <= |v| && forall k :: 0 <= k < b ==> v[k] == 0
    {
      b := b + 1;
    }
    zero := b == |v|;
  }

  predicate Wanted(v: seq<byte>, includeZeros: bool)
  {
    includeZeros || !AllZero(v)
  }

  /** The candidates a fresh snapshot stands for: one per slot, minus all-zero slots unless asked for. */
  function Seed(mem: Memory, addrs: seq<nat>, sh: Shape, includeZeros: bool): seq<Rec>
  {
    if addrs == [] then []
    else
      var a := addrs[|addrs| - 1];
      var v := Slice(mem, a, sh.vl);
      var rest := Seed(mem, addrs[..|addrs| - 1], sh, includeZeros);
      if Wanted(v, includeZeros) then rest + [Rec(a, v, v, if sh.keepFirst then v else [])] else rest
  }

  /** Is some byte of the value at `a` not zero? */
  ghost predicate NonZeroAt(mem: Memory, a: nat, vl: nat)
  {
    exists x: nat :: a <= x < a + vl && mem(x) != 0
  }

  ghost predicate HasCandidate(rs: seq<Rec>, a: nat)
  {
    exists r :: r in rs && r.addr == a
  }

  lemma NonZeroValue(mem: Memory, a: nat, vl: nat)
    ensures NonZeroAt(mem, a, vl) <==> !AllZero(Slice(mem, a, vl))
  {
    var v := Slice(mem, a, vl);
    if NonZeroAt(mem, a, vl) {
      var x: nat :| a <= x < a + vl && mem(x) != 0;
      assert v[x - a] != 0;
    }
    if !AllZero(v) {
      var i :| 0 <= i < |v| && v[i] != 0;
      assert mem(a + i) != 0;
    }
  }

  /** A slot's address is a candidate's exactly when zeros are wanted or memory is not all zero there. */
  lemma {:induction false} SeedMeans(mem: Memory, addrs: seq<nat>, sh: Shape, includeZeros: bool, a: nat)
    ensures HasCandidate(Seed(mem, addrs, sh, includeZeros), a)
            <==> a in addrs && (includeZeros || NonZeroAt(mem, a, sh.vl))
  {
    if addrs != [] {
      var p, last := addrs[..|addrs| - 1], addrs[|addrs| - 1];
      SeedMeans(mem, p, sh, includeZeros, a);
      var v, rest, all := Slice(mem, last, sh.vl), Seed(mem, p, sh, includeZeros), Seed(mem, addrs, sh, includeZeros);
      assert a in addrs <==> a in p || a == last;
      NonZeroValue(mem, last, sh.vl);
      if HasCandidate(rest, a) { var r :| r in rest && r.addr == a; assert r in all; }
      if Wanted(v, includeZeros) { assert all[|all| - 1].addr == last && all[|all| - 1] in all; }
      if HasCandidate(all, a) { var r :| r in all && r.addr == a; assert r in rest || r.addr == last; }
    }
  }

  ghost predicate Seeded(v: View, mem: Memory, sh: Shape, includeZeros: bool, k: nat)
    requires ViewOk(v, sh) && k < |v.bits|
  {
    var x := Slice(mem, v.addrs[k], sh.vl);
    && (v.bits[k] <==> Wanted(x, includeZeros))
    && v.cur[k] == x && (sh.keepPrev ==> v.prev[k] == x) && (sh.keepFirst ==> v.first[k] == x)
  }

  /** Seeding slot by slot yields exactly the specified candidates, in order. */
  lemma {:induction false} SeedRefines(v: View, mem: Memory, sh: Shape, includeZeros: bool, k: nat)
    requires ViewOk(v, sh) && k <= |v.bits|
    requires forall i :: 0 <= i < k ==> Seeded(v, mem, sh, includeZeros, i)
    ensures Kept(v, sh, k) == Seed(mem, v.addrs[..k], sh, includeZeros)
  {
    if k > 0 {
      SeedRefines(v, mem, sh, includeZeros, k - 1);
      assert v.addrs[..k][..k - 1] == v.addrs[..k - 1];
      assert Seeded(v, mem, sh, includeZeros, k - 1);
    }
  }

  /** Slots read per window. */
  function WindowSlots(chunk: nat, step: nat, left: nat): (w: nat)
    requires step > 0 && left > 0
    ensures 1 <= w <= left
    ensures w == 1 || w <= chunk / step
  {
    var w := if chunk / step == 0 then 1 else chunk / step;
    if w > left then left else w
  }

  /** Do the values of a full window, packed back to back, fit the chunk buffer? */
  predicate BuffersSuffice(vl: nat, step: nat, chunk: nat)
    requires step > 0
  {
    Off(chunk / step, vl) <= chunk
  }

  /** A window's bytes and its packed copy fit their chunk buffers. */
  predicate Fits(w: nat, vl: nat, step: nat, chunk: nat)
  {
    w >= 1 && Off(w - 1, step) + vl <= chunk && Off(w, vl) <= chunk
  }

  lemma WindowFits(w: nat, vl: nat, step: nat, chunk: nat)
    requires 0 < step && 0 < vl <= chunk && 1 <= w && (w == 1 || w <= chunk / step) && BuffersSuffice(vl, step, chunk)
    ensures Fits(w, vl, step, chunk)
  {
    hide Off;
    OffNext(w - 1, vl);
    if w == 1 {
      OffZero(step);
      OffZero(vl);
    } else {
      QuotientOff(chunk, step);
      OffMono(w, chunk / step, step);
      OffMono(w, chunk / step, vl);
      OffNext(w - 1, step);
      if vl > step { OffScale(w - 1, step, vl); }
    }
  }

  /** Every window of every segment fits its buffers exactly when a full window's packed values do. */
  lemma WindowFitsExactly(vl: nat, step: nat, chunk: nat)
    requires 0 < step && 0 < vl <= chunk
    ensures (forall left: nat :: left > 0 ==> Fits(WindowSlots(chunk, step, left), vl, step, chunk))
            <==> BuffersSuffice(vl, step, chunk)
  {
    hide Off;
    if BuffersSuffice(vl, step, chunk) {
      forall left: nat | left > 0
        ensures Fits(WindowSlots(chunk, step, left), vl, step, chunk)
      {
        WindowFits(WindowSlots(chunk, step, left), vl, step, chunk);
      }
    } else if chunk / step == 0 {
      OffZero(vl);
    } else {
      assert WindowSlots(chunk, step, chunk / step) == chunk / step;
    }
  }

  /** A stride of at least one value suffices. */
  lemma WideStrideSuffices(vl: nat, step: nat, chunk: nat)
    requires 0 < vl <= step
    ensures BuffersSuffice(vl, step, chunk)
  {
    hide Off;
    QuotientOff(chunk, step);
    OffScale(chunk / step, vl, step);
  }

  lemma {:induction false} OffScale(w: nat, vl: nat, step: nat)
    requires vl <= step
    ensures Off(w, vl) <= Off(w, step)
  {
    if w > 0 { OffScale(w - 1, vl, step); }
  }

  /** Read one window and pack its values back to back. */
  method ReadWindow(mem: Memory, waddr: nat, w: nat, vl: nat, step: nat, ghost chunk: nat) returns (packed: seq<byte>)
    requires 0 < vl && 0 < step && Fits(w, vl, step, chunk)
    ensures |packed| == Off(w, vl) <= chunk
    ensures forall k :: 0 <= k < w ==> Slot(packed, vl, k) == Slice(mem, waddr + Off(k, step), vl)
  {
    hide Off, Slice, Slot;
    var wbytes := Off(w - 1, step) + vl;
    assert wbytes <= chunk;
    var readBuf := Slice(mem, waddr, wbytes);
    if step == vl {
      OffNext(w - 1, vl);
      packed := readBuf;
      forall k | 0 <= k < w
        ensures Slot(packed, vl, k) == Slice(mem, waddr + Off(k, step), vl)
      {
        PackedValue(mem, waddr, w, vl, step, k);
      }
    } else {
      packed := [];
      OffZero(vl);
      for k := 0 to w
        invariant |packed| == Off(k, vl)
        invariant forall j :: 0 <= j < k ==> Slot(packed, vl, j) == Slice(mem, waddr + Off(j, step), vl)
      {
        OffMono(k, w - 1, step);
        var v := readBuf[Off(k, step)..Off(k, step) + vl];
        PackedValue(mem, waddr, w, vl, step, k);
        AppendSlot(packed, vl, k, v);
        packed := packed + v;
      }
    }
  }

  lemma PackedValue(mem: Memory, waddr: nat, w: nat, vl: nat, step: nat, k: nat)
    requires k < w
    ensures Off(k, step) <= Off(w - 1, step)
    ensures Slice(mem, waddr, Off(w - 1, step) + vl)[Off(k, step)..Off(k, step) + vl]
            == Slice(mem, waddr + Off(k, step), vl)
    ensures step == vl ==> Slot(Slice(mem, waddr, Off(w - 1, step) + vl), vl, k) == Slice(mem, waddr + Off(k, step), vl)
  {
    hide Off, Slice;
    OffMono(k, w - 1, step);
    SliceOfSlice(mem, waddr, Off(w - 1, step) + vl, waddr + Off(k, step), vl);
  }

  lemma AppendSlot(packed: seq<byte>, vl: nat, k: nat, v: seq<byte>)
    requires |packed| == Off(k, vl) && |v| == vl
    ensures |packed + v| == Off(k + 1, vl)
    ensures Slot(packed + v, vl, k) == v
    ensures forall j :: 0 <= j < k ==> Slot(packed + v, vl, j) == Slot(packed, vl, j)
  {
    hide Off;
    OffNext(k, vl);
    assert (packed + v)[Off(k, vl)..Off(k, vl) + vl] == v;
    forall j | 0 <= j < k
      ensures Slot(packed + v, vl, j) == Slot(packed, vl, j)
    {
      SlotLength(packed, vl, k, j);
      assert (packed + v)[Off(j, vl)..Off(j, vl) + vl] == packed[Off(j, vl)..Off(j, vl) + vl];
    }
  }

  /** Writing the next window at the end of the stored prefix. */
  lemma WriteNext(flat: seq<byte>, vl: nat, p: nat, src: seq<byte>, w: nat, k: nat)
    requires Off(p, vl) <= |flat| && |src| == Off(w, vl) && k < p + w && vl > 0
    ensures |WriteAt(flat, Off(p, vl), src)| == if |flat| <= Off(p + w, vl) then Off(p + w, vl) else |flat|
    ensures Slot(WriteAt(flat, Off(p, vl), src), vl, k)
         == if k < p then Slot(flat, vl, k) else Slot(src, vl, k - p)
  {
    hide Off;
    OffSum(p, w, vl);
    var r := WriteAt(flat, Off(p, vl), src);
    OffNext(k, vl);
    if k < p {
      OffMono(k + 1, p, vl);
      SliceKept(flat, Off(p, vl), src, Off(k, vl), vl);
    } else {
      OffSum(p, k - p, vl);
      OffNext(k - p, vl);
      OffMono(k - p + 1, w, vl);
      SliceWritten(flat, Off(p, vl), src, Off(k - p, vl), vl);
    }
  }

  lemma SliceKept(flat: seq<byte>, at: nat, src: seq<byte>, o: nat, len: nat)
    requires at <= |flat| && o + len <= at
    ensures o + len <= |WriteAt(flat, at, src)|
    ensures WriteAt(flat, at, src)[o..o + len] == flat[o..o + len]
  {
  }

  lemma SliceWritten(flat: seq<byte>, at: nat, src: seq<byte>, o: nat, len: nat)
    requires at <= |flat| && o + len <= |src| && len > 0
    ensures at + o + len <= |WriteAt(flat, at, src)|
    ensures WriteAt(flat, at, src)[at + o..at + o + len] == src[o..o + len]
  {
    var r := WriteAt(flat, at, src);
    assert r[at..at + |src|] == src;
    SliceSlice(r, at, |src|, o, len);
  }

  lemma {:induction false} AllSet(bs: seq<bool>, k: nat)
    requires k <= |bs| && forall i :: 0 <= i < k ==> bs[i]
    ensures CountSet(bs, k) == k
  {
    if k > 0 { AllSet(bs, k - 1); }
  }

  lemma FullByte(k: nat)
    requires k < 8
    ensures ByteBit(0xFF, k)
  {
  }

  /** memset(bitmap, 0xFF): every slot starts out as a survivor. */
  method FullBitmap(n: nat) returns (bm: array<bv8>)
    ensures fresh(bm) && n <= 8 * bm.Length
    ensures forall i :: 0 <= i < n ==> Bits(bm[..], n)[i]
    ensures CountSet(Bits(bm[..], n), n) == n
  {
    bm := new bv8[(n + 7) / 8](i => 0xFF);
    forall i | 0 <= i < n
      ensures Bits(bm[..], n)[i]
    {
      FullByte(i % 8);
    }
    AllSet(Bits(bm[..], n), n);
  }

  /** Clear the bits of the window's unwanted slots. */
  method DropZeros(bm: array<bv8>, n: nat, p: nat, w: nat, packed: seq<byte>, vl: nat, includeZeros: bool,
                   survivors: nat)
    returns (survivors': nat)
    requires n <= 8 * bm.Length && p + w <= n && |packed| == Off(w, vl)
    requires survivors == CountSet(Bits(bm[..], n), n)
    requires forall k :: p <= k < n ==> Bits(bm[..], n)[k]
    modifies bm
    ensures survivors' == CountSet(Bits(bm[..], n), n)
    ensures forall k :: 0 <= k < p ==> Bits(bm[..], n)[k] == old(Bits(bm[..], n))[k]
    ensures forall k :: p <= k < p + w ==> (Bits(bm[..], n)[k] <==> Wanted(Slot(packed, vl, k - p), includeZeros))
    ensures forall k :: p + w <= k < n ==> Bits(bm[..], n)[k]
  {
    hide Off, Slot, CountSet, AllZero, Bit, LeVal;
    survivors' := survivors;
    if includeZeros { return; }
    ghost var b0 := Bits(bm[..], n);
    for k := 0 to w
      invariant survivors' == CountSet(Bits(bm[..], n), n)
      invariant forall j :: 0 <= j < p ==> Bits(bm[..], n)[j] == b0[j]
      invariant forall j :: p <= j < p + k ==> (Bits(bm[..], n)[j] <==> !AllZero(Slot(packed, vl, j - p)))
      invariant forall j :: p + k <= j < n ==> Bits(bm[..], n)[j]
    {
      AllZeroIsZero(Slot(packed, vl, k));
      var zero := ZeroBytes(Slot(packed, vl, k));
      if zero {
        CountSetPositive(Bits(bm[..], n), p + k, n);
        ClearBit(bm, p + k);
        survivors' := survivors' - 1;
      }
    }
  }

  lemma CountSetPositive(bs: seq<bool>, i: nat, k: nat)
    requires i < k <= |bs| && bs[i]
    ensures CountSet(bs, k) > 0
  {
    CountSetMonotone(bs, i + 1, k);
  }

  // ----- filling the stores -----

  /** The first `p` slots of a store hold their values. */
  ghost predicate Filled(flat: seq<byte>, vl: nat, p: nat, vals: seq<seq<byte>>)
    requires p <= |vals|
  {
    && Off(p, vl) <= |flat|
    && forall k :: 0 <= k < p ==> Slot(flat, vl, k) == vals[k]
  }

  lemma FilledNext(flat: seq<byte>, vl: nat, p: nat, src: seq<byte>, w: nat, vals: seq<seq<byte>>)
    requires p + w <= |vals| && Filled(flat, vl, p, vals) && |src| == Off(w, vl) && vl > 0
    requires forall k :: 0 <= k < w ==> Slot(src, vl, k) == vals[p + k]
    ensures Filled(WriteAt(flat, Off(p, vl), src), vl, p + w, vals)
    ensures |WriteAt(flat, Off(p, vl), src)| == if |flat| <= Off(p + w, vl) then Off(p + w, vl) else |flat|
  {
    hide Off, Slot, WriteAt;
    forall k | 0 <= k < p + w
      ensures Slot(WriteAt(flat, Off(p, vl), src), vl, k) == vals[k]
    {
      WriteNext(flat, vl, p, src, w, k);
      if k >= p { assert vals[p + (k - p)] == vals[k]; }
    }
    if p + w > 0 { WriteNext(flat, vl, p, src, w, p + w - 1); } else { OffZero(vl); EmptyWrite(flat, src); }
  }

  lemma EmptyWrite(flat: seq<byte>, src: seq<byte>)
    requires src == []
    ensures WriteAt(flat, 0, src) == flat
  {
  }

  function Values(mem: Memory, addrs: seq<nat>, vl: nat): (vs: seq<seq<byte>>)
    ensures |vs| == |addrs|
    ensures forall k :: 0 <= k < |vs| ==> vs[k] == Slice(mem, addrs[k], vl)
  {
    seq(|addrs|, k requires 0 <= k < |addrs| => Slice(mem, addrs[k], vl))
  }

  /** A snapshot under construction. */
  class Builder {
    const vl: nat
    const n: nat
    const bm: array<bv8>
    const store: Store
    const useFile: bool
    const keepPrev: bool
    const keepFirst: bool
    const includeZeros: bool
    var prevFile: seq<byte>
    var firstFile: seq<byte>
    var survivors: nat

    /** Slots below `p` are stored and decided, the rest are untouched. */
    ghost predicate At(p: nat, vals: seq<seq<byte>>)
      reads this, bm, store, store.ram
    {
      && vl > 0 && p <= n == |vals| && n <= 8 * bm.Length && (store.ram as object) != bm
      && store.ram.Length <= Off(n, vl) && (!useFile ==> store.ram.Length == Off(n, vl))
      && Filled(store.Flat(), vl, p, vals)
      && |store.Flat()| == (if store.ram.Length <= Off(p, vl) then Off(p, vl) else store.ram.Length)
      && (keepPrev ==> Filled(prevFile, vl, p, vals) && |prevFile| == Off(p, vl))
      && (keepFirst ==> Filled(firstFile, vl, p, vals) && |firstFile| == Off(p, vl))
      && survivors == CountSet(Bits(bm[..], n), n)
      && (forall k :: 0 <= k < p ==> (Bits(bm[..], n)[k] <==> Wanted(vals[k], includeZeros)))
      && (forall k :: p <= k < n ==> Bits(bm[..], n)[k])
    }

    constructor (vl: nat, n: nat, ramBytes: nat, useFile: bool, keepPrev: bool, keepFirst: bool, includeZeros: bool,
                 ghost vals: seq<seq<byte>>)
      requires vl > 0 && n == |vals| && ramBytes <= Off(n, vl) && (!useFile ==> ramBytes == Off(n, vl))
      ensures At(0, vals) && fresh(bm) && fresh(store) && fresh(store.ram) && store.ram.Length == ramBytes
      ensures this.vl == vl && this.n == n && this.keepPrev == keepPrev && this.keepFirst == keepFirst
      ensures this.includeZeros == includeZeros
    {
      hide CountSet, Bits, Off;
      var b := FullBitmap(n);
      var st := new Store(ramBytes);
      this.vl, this.n, bm, store := vl, n, b, st;
      this.useFile, this.keepPrev, this.keepFirst, this.includeZeros := useFile, keepPrev, keepFirst, includeZeros;
      prevFile, firstFile, survivors := [], [], n;
      OffZero(vl);
    }

    /** Store one window of packed values in each store that is kept. */
    method StoreWindow(p: nat, w: nat, packed: seq<byte>, ghost vals: seq<seq<byte>>)
      requires At(p, vals) && p + w <= n && |packed| == Off(w, vl)
      requires forall k :: 0 <= k < w ==> Slot(packed, vl, k) == vals[p + k]
      modifies this`prevFile, this`firstFile, store`file, store.ram
      ensures Filled(store.Flat(), vl, p + w, vals)
      ensures |store.Flat()| == if store.ram.Length <= Off(p + w, vl) then Off(p + w, vl) else store.ram.Length
      ensures keepPrev ==> Filled(prevFile, vl, p + w, vals) && |prevFile| == Off(p + w, vl)
      ensures keepFirst ==> Filled(firstFile, vl, p + w, vals) && |firstFile| == Off(p + w, vl)
    {
      hide CountSet, Bits, Off, Filled, Slot, Wanted, WriteAt, Splice;
      OffSum(p, w, vl);
      OffMono(p + w, n, vl);
      ghost var flat0 := store.Flat();
      assert Off(p, vl) <= |flat0|;
      FilledNext(flat0, vl, p, packed, w, vals);
      if useFile {
        store.Write(packed, Off(p, vl));
      } else {
        RamWrite(store.ram[..], store.file, Off(p, vl), packed);
        Blit(store.ram, Off(p, vl), packed);
      }
      if keepPrev {
        FilledNext(prevFile, vl, p, packed, w, vals);
        prevFile := WriteAt(prevFile, Off(p, vl), packed);
      }
      if keepFirst {
        FilledNext(firstFile, vl, p, packed, w, vals);
        firstFile := WriteAt(firstFile, Off(p, vl), packed);
      }
    }

    /** Read, store and filter one window. */
    method Advance(mem: Memory, waddr: nat, p: nat, w: nat, step: nat, ghost chunk: nat, ghost vals: seq<seq<byte>>)
      requires At(p, vals) && p + w <= n && 0 < step && Fits(w, vl, step, chunk)
      requires forall k :: 0 <= k < w ==> vals[p + k] == Slice(mem, waddr + Off(k, step), vl)
      modifies this, bm, store`file, store.ram
      ensures At(p + w, vals)
    {
      hide CountSet, Bits, Off, Filled, Slot, Wanted, Slice;
      var packed := ReadWindow(mem, waddr, w, vl, step, chunk);
      StoreWindow(p, w, packed, vals);
      survivors := DropZeros(bm, n, p, w, packed, vl, includeZeros, survivors);
      forall k | 0 <= k < p + w
        ensures Bits(bm[..], n)[k] <==> Wanted(vals[k], includeZeros)
      {
        if k >= p { assert vals[p + (k - p)] == vals[k]; }
      }
    }
  }

  lemma RamWrite(ram: seq<byte>, file: seq<byte>, at: nat, src: seq<byte>)
    requires at + |src| <= |ram|
    ensures Splice(ram, at, src) + file == WriteAt(ram + file, at, src)
  {
  }

  // ----- the whole create -----

  const BITMAP_MAX: nat := 0x1C00_0000

  /** RAM part of the value store: everything, or as many whole slots as the threshold allows. */
  function RamPart(snapBytes: nat, vl: nat, cap: nat, mmapOk: bool): (r: nat)
    requires vl > 0
  {
    if !mmapOk then 0
    else if snapBytes <= cap then snapBytes
    else Off(cap / vl, vl)
  }

  lemma RamPartIsWholeSlots(n: nat, vl: nat, cap: nat, mmapOk: bool)
    requires vl > 0
    ensures RamPart(Off(n, vl), vl, cap, mmapOk) <= Off(n, vl)
    ensures RamPart(Off(n, vl), vl, cap, mmapOk) % vl == 0
  {
    hide Off;
    OffMod(n, vl);
    OffMod(cap / vl, vl);
    QuotientOff(cap, vl);
  }

  lemma {:induction false} OffMod(k: nat, vl: nat)
    requires vl > 0
    ensures Off(k, vl) % vl == 0
  {
    hide Off;
    OffIsProduct(k, vl);
    ModUnique(k * vl, vl, k, 0);
  }

  /** The window starting at slot `s0` of segment `g` covers exactly those slots' addresses. */
  lemma WindowAddresses(mem: Memory, segs: seq<Segment>, step: nat, vl: nat, g: nat, s0: nat, w: nat, k: nat)
    requires Numbered(segs, 0) && g < |segs| && s0 + w <= segs[g].nslots && k < w
    ensures segs[g].slotStart + s0 + k < Total(segs)
    ensures Values(mem, SlotAddrs(segs, step), vl)[segs[g].slotStart + s0 + k]
         == Slice(mem, segs[g].addr + Off(s0, step) + Off(k, step), vl)
  {
    hide Off, Slice, Numbered, Total, AddrOf;
    var i := segs[g].slotStart + s0 + k;
    WalkStopsAt(segs, 0, step, g, i);
    assert i - segs[g].slotStart == s0 + k;
    OffSum(s0, k, step);
    assert SlotAddrs(segs, step)[i] == segs[g].addr + Off(s0, step) + Off(k, step);
  }

  lemma TableStart(segs: seq<Segment>)
    requires Numbered(segs, 0)
    ensures if segs == [] then Total(segs) == 0 else segs[0].slotStart == 0
  {
  }

  /** Requested regions are ascending, disjoint and below 2^63. */
  ghost predicate GoodRegions(rs: seq<Region>)
  {
    Ascending(rs) && forall g :: 0 <= g < |rs| ==> rs[g].addr + rs[g].length <= ADDR_TOP
  }

  /** Slots of good regions are steady; with a stride of at least one value they are spaced. */
  lemma RegionsAreSteady(rs: seq<Region>, vl: nat, step: nat)
    requires 1 <= vl <= 8 && 0 < step && GoodRegions(rs)
    ensures AddrsOk(SlotAddrs(TableFrom(rs, vl, step, 0), step), vl)
    ensures Steady(SlotAddrs(TableFrom(rs, vl, step, 0), step), vl)
    ensures vl <= step ==> Spaced(SlotAddrs(TableFrom(rs, vl, step, 0), step), vl)
  {
    var segs := TableFrom(rs, vl, step, 0);
    forall i, j | 0 <= i < j < Total(segs)
      ensures AddrOf(segs, step, i) + (if vl <= step then vl else step) <= AddrOf(segs, step, j)
    {
      SlotsAscend(rs, vl, step, 0, i, j);
    }
    forall i | 0 <= i < Total(segs)
      ensures AddrOf(segs, step, i) + vl <= ADDR_TOP
    {
      var g, o := SlotInsideRegion(rs, vl, step, 0, i);
    }
  }

  lemma FilledSlots(flat: seq<byte>, vl: nat, vals: seq<seq<byte>>)
    requires Filled(flat, vl, |vals|, vals)
    ensures Slots(flat, vl, |vals|) == vals
  {
  }

  method SeedSegments(b: Builder, mem: Memory, segs: seq<Segment>, step: nat, chunk: nat)
    requires Numbered(segs, 0) && 0 < step && 0 < b.vl <= chunk && BuffersSuffice(b.vl, step, chunk)
             && b.n == Total(segs)
    requires b.At(0, Values(mem, SlotAddrs(segs, step), b.vl))
    modifies b, b.bm, b.store`file, b.store.ram
    ensures b.At(b.n, Values(mem, SlotAddrs(segs, step), b.vl))
  {
    hide Off, Slice, Numbered, Total, SlotAddrs, Values, Builder.At, WindowSlots, Fits, BuffersSuffice;
    ghost var vals := Values(mem, SlotAddrs(segs, step), b.vl);
    ghost var p := 0;
    TableStart(segs);
    for g := 0 to |segs|
      invariant if g < |segs| then p == segs[g].slotStart else p == b.n
      invariant b.At(p, vals)
    {
      NumberedAt(segs, 0, g);
      var s0 := 0;
      while s0 < segs[g].nslots
        invariant 0 <= s0 <= segs[g].nslots && p == segs[g].slotStart + s0
        invariant b.At(p, vals)
      {
        var w := WindowSlots(chunk, step, segs[g].nslots - s0);
        forall k | 0 <= k < w
          ensures vals[p + k] == Slice(mem, segs[g].addr + Off(s0, step) + Off(k, step), b.vl)
        {
          WindowAddresses(mem, segs, step, b.vl, g, s0, w, k);
        }
        WindowFits(w, b.vl, step, chunk);
        b.Advance(mem, segs[g].addr + Off(s0, step), segs[g].slotStart + s0, w, step, chunk, vals);
        s0 := s0 + w;
        p := p + w;
      }
    }
  }

  /** What the system grants: memory for the segment table, the bitmap, the values and the packing buffer, the three
      files, and their writes. */
  datatype Grants = Grants(table: bool, bitmap: bool, ram: bool, pack: bool, spill: bool, prev: bool, first: bool,
                           writes: bool)

  /** Can windows be packed? Values that lie side by side need no packing buffer. */
  predicate Packs(env: Grants, vl: nat, step: nat)
  {
    step == vl || env.pack
  }

  /** Slot addresses of the requested regions. */
  function Layout(rs: seq<Region>, vl: nat, step: nat): seq<nat>
    requires vl > 0 && step > 0
  {
    SlotAddrs(TableFrom(rs, vl, step, 0), step)
  }

  /** Seed a session for which memory and files were granted. */
  method SeedSession(mem: Memory, segs: seq<Segment>, n: nat, vl: nat, step: nat, chunk: nat, ramBytes: nat,
                     useFile: bool, keepPrev: bool, keepFirst: bool, includeZeros: bool)
    returns (s: S.Snapshot)
    requires 1 <= vl <= 8 && 0 < step && vl <= chunk && BuffersSuffice(vl, step, chunk) && Numbered(segs, 0)
    requires n == Total(segs) && ramBytes <= Off(n, vl) && ramBytes % vl == 0 && (!useFile ==> ramBytes == Off(n, vl))
    ensures fresh(s) && fresh(s.store) && fresh(s.store.ram) && fresh(s.bitmap)
    ensures s.sh == Shape(vl, keepPrev, keepFirst) && s.stride == step && s.segs == segs
    ensures Scannable(SlotAddrs(segs, step), vl) ==>
              s.Valid() && s.Survivors() == Seed(mem, SlotAddrs(segs, step), s.sh, includeZeros)
  {
    hide Off, Slice, Numbered, Total, SlotAddrs, Values, CountSet, Bits, Seed, Kept, Filled, Scannable, BuffersSuffice;
    ghost var addrs := SlotAddrs(segs, step);
    ghost var vals := Values(mem, addrs, vl);
    var b := new Builder(vl, n, ramBytes, useFile, keepPrev, keepFirst, includeZeros, vals);
    SeedSegments(b, mem, segs, step, chunk);
    s := new S.Snapshot(Shape(vl, keepPrev, keepFirst), step, segs, n, b.bm, b.store, b.prevFile, b.firstFile,
                        b.survivors);
    SeededView(s.TheView(), mem, s.sh, includeZeros, s.store.Flat(), s.prevFile, s.firstFile, vals, addrs);
  }

  lemma InLayout(rs: seq<Region>, vl: nat, step: nat, a: nat)
    requires vl > 0 && step > 0
    ensures a in Layout(rs, vl, step) <==> WholeSlot(rs, vl, step, a)
  {
    hide WholeSlot, AddrOf;
    SlotsAreWhole(rs, vl, step, 0, a);
    var addrs := Layout(rs, vl, step);
    if a in addrs { var i :| 0 <= i < |addrs| && addrs[i] == a; }
    if HasSlot(TableFrom(rs, vl, step, 0), step, a) {
      var i :| 0 <= i < Total(TableFrom(rs, vl, step, 0)) && AddrOf(TableFrom(rs, vl, step, 0), step, i) == a;
      assert addrs[i] == a;
    }
  }

  /** fs_snapshot_create: seed a session over the regions, or report failure. */
  method Create(mem: Memory, rs: seq<Region>, vl: nat, step: nat, chunk: nat, ramCap: nat,
                keepPrev: bool, keepFirst: bool, includeZeros: bool, env: Grants)
    returns (s: S.Snapshot?)
    requires 1 <= vl <= 8 && 0 < step && vl <= chunk && BuffersSuffice(vl, step, chunk) && GoodRegions(rs)
    ensures s == null <==>
              var n := |Layout(rs, vl, step)|;
              var useFile := !(env.ram && Off(n, vl) <= ramCap);
              var packs := Packs(env, vl, step);
              !env.table || (n > 0 && ((n + 7) / 8 > 0x1C00_0000 || !env.bitmap || (useFile && !(packs && env.spill))
                                       || (!env.writes && (useFile || (packs && keepPrev && env.prev)
                                                                   || (packs && keepFirst && env.first)))))
    ensures s != null ==>
              && fresh(s) && fresh(s.store) && fresh(s.store.ram) && fresh(s.bitmap)
              && s.sh.vl == vl
              && (s.sh.keepPrev <==> keepPrev && (Layout(rs, vl, step) == [] || (Packs(env, vl, step) && env.prev)))
              && (s.sh.keepFirst <==> keepFirst && (Layout(rs, vl, step) == [] || (Packs(env, vl, step) && env.first)))
              && s.stride == step && s.segs == TableFrom(rs, vl, step, 0)
              && (Dense(Layout(rs, vl, step), vl) ==>
                    && s.Valid() && s.Survivors() == Seed(mem, Layout(rs, vl, step), s.sh, includeZeros)
                    && forall a :: HasCandidate(s.Survivors(), a) <==>
                                     WholeSlot(rs, vl, step, a) && (includeZeros || NonZeroAt(mem, a, vl)))
    ensures vl <= step ==> Dense(Layout(rs, vl, step), vl)
  {
    hide Off, Slice, Numbered, TableFrom, SlotAddrs, Seed, RamPart, Dense, Steady, Spaced, BuffersSuffice,
      S.Snapshot.Valid;
    hide S.Snapshot.Survivors, HasCandidate, NonZeroAt, WholeSlot;
    ghost var addrs := Layout(rs, vl, step);
    RegionsAreSteady(rs, vl, step);
    if vl <= step { SpacedIsScannable(addrs, vl); }
    if !env.table { return null; }
    var segs, n := BuildTable(rs, vl, step);
    var snapBytes := Off(n, vl);
    if n > 0 && ((n + 7) / 8 > BITMAP_MAX || !env.bitmap) { return null; }
    var useFile := n > 0 && !(snapBytes <= ramCap && env.ram);
    var stuck := step != vl && !env.pack;
    if useFile && (stuck || !env.spill) { return null; }
    var first := keepFirst && (n == 0 || (!stuck && env.first));
    var prev := keepPrev && (n == 0 || (!stuck && env.prev));
    if n > 0 && !env.writes && (useFile || prev || first) { return null; }
    RamPartIsWholeSlots(n, vl, ramCap, env.ram);
    EmptyRam(n, vl, ramCap, env.ram, useFile);
    s := SeedSession(mem, segs, n, vl, step, chunk,
                     if n == 0 then 0 else RamPart(snapBytes, vl, ramCap, env.ram), useFile,
                     prev, first, includeZeros);
    forall a: nat
      ensures HasCandidate(Seed(mem, addrs, s.sh, includeZeros), a)
              <==> WholeSlot(rs, vl, step, a) && (includeZeros || NonZeroAt(mem, a, vl))
    {
      SeedMeans(mem, addrs, s.sh, includeZeros, a);
      InLayout(rs, vl, step, a);
    }
  }

  lemma EmptyRam(n: nat, vl: nat, cap: nat, mmapOk: bool, useFile: bool)
    requires vl > 0 && useFile == (n > 0 && !(Off(n, vl) <= cap && mmapOk))
    ensures Off(0, vl) == 0
    ensures !useFile && n > 0 ==> RamPart(Off(n, vl), vl, cap, mmapOk) == Off(n, vl)
  {
  }

  lemma SeededView(v: View, mem: Memory, sh: Shape, includeZeros: bool,
                   flat: seq<byte>, prev: seq<byte>, first: seq<byte>, vals: seq<seq<byte>>, addrs: seq<nat>)
    requires ViewOk(v, sh) && v.addrs == addrs && |v.bits| == |vals| == |addrs| && vals == Values(mem, addrs, sh.vl)
    requires v.cur == Slots(flat, sh.vl, |vals|) && Filled(flat, sh.vl, |vals|, vals)
    requires v.prev == Slots(prev, sh.vl, |vals|) && (sh.keepPrev ==> Filled(prev, sh.vl, |vals|, vals))
    requires v.first == Slots(first, sh.vl, |vals|) && (sh.keepFirst ==> Filled(first, sh.vl, |vals|, vals))
    requires forall k :: 0 <= k < |vals| ==> (v.bits[k] <==> Wanted(vals[k], includeZeros))
    ensures Kept(v, sh, |vals|) == Seed(mem, addrs, sh, includeZeros)
  {
    hide Slice, Off, Slot, Wanted;
    FilledSlots(flat, sh.vl, vals);
    if sh.keepPrev { FilledSlots(prev, sh.vl, vals); }
    if sh.keepFirst { FilledSlots(first, sh.vl, vals); }
    forall k | 0 <= k < |vals|
      ensures Seeded(v, mem, sh, includeZeros, k)
    {
    }
    SeedRefines(v, mem, sh, includeZeros, |vals|);
    assert v.addrs[..|vals|] == addrs;
  }
}
