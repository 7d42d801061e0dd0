/** Snapshot sessions: a bitmap over slots, a value store, and optional previous/first value files. */
module Snapshot {
  import opened Bytes
  import opened Bitmap
  import opened ValueStore
  import opened Segments
  import opened Survivors
  import opened Wire
  import opened Replies
  import opened Options
  import opened Windows

  /** Disjoint regions need not be steady: a lower region that touches its predecessor empties the first window,
      so the survivor it was opened for is read outside it. */
  lemma DisjointIsNotEnough()
    ensures var rs := [Region(8, 4), Region(4, 4)];
            var addrs := SlotAddrs(TableFrom(rs, 4, 4, 0), 4);
            && Disjoint(rs) && !Ascending(rs)
            && addrs == [8, 4]
            && WindowOf(addrs, [true, true], 4, 0) == (8, 1) && !Covers(addrs, [true, true], 4, 0)
  {
    hide WindowOf, Covers;
    var rs := [Region(8, 4), Region(4, 4)];
    assert rs[0].addr + rs[0].length > rs[1].addr;
    assert SlotsIn(4, 4, 4) == 1;
    assert rs[1..] == [Region(4, 4)];
    var segs := TableFrom(rs, 4, 4, 0);
    assert TableFrom(rs[1..], 4, 4, 1) == [Segment(4, 1, 1)] + TableFrom(rs[1..][1..], 4, 4, 2);
    assert segs == [Segment(8, 0, 1), Segment(4, 1, 1)];
    assert segs[1..] == [Segment(4, 1, 1)];
    assert Total(segs[1..]) == 1 && Total(segs) == 2;
    assert AddrOf(segs, 4, 0) == 8 && AddrOf(segs, 4, 1) == 4;
    var addrs := SlotAddrs(segs, 4);
    assert addrs == [8, 4];
    TouchingEscapes();
  }

  lemma TouchingEscapes()
    ensures WindowOf([8, 4], [true, true], 4, 0) == (8, 1) && !Covers([8, 4], [true, true], 4, 0)
  {
    assert Grow([8, 4], [true, true], 4, 8, 8, 1, 2) == (8, 1);
    assert [true, true][0];
  }

  /** Nor does it help when no regions touch: a region that lies between two earlier ones cuts the second one off. */
  lemma FallingBackIsNotEnough()
    ensures var addrs := [0x1000, 0x2000, 0x1800];
            && (forall i, j :: 0 <= i < j < 3 ==> addrs[i] + 4 < addrs[j] || addrs[j] + 4 < addrs[i])
            && WindowOf(addrs, [true, true, true], 4, 0) == (0x1804, 2) && !Covers(addrs, [true, true, true], 4, 0)
  {
    var addrs, bits := [0x1000, 0x2000, 0x1800], [true, true, true];
    assert Grow(addrs, bits, 4, 0x1000, 0x1804, 2, 3) == (0x1804, 2);
    assert Grow(addrs, bits, 4, 0x1000, 0x2004, 1, 2) == (0x1804, 2);
    assert bits[1];
  }

  /** Slots below `p` are narrowed, slots from `p` on keep their bit and baseline. */
  ghost predicate Upto(a: View, b: View, sh: Shape, mem: Memory, cmp: Comparator, p: nat)
    requires ViewOk(a, sh) && ViewOk(b, sh) && p <= |a.bits| == |b.bits|
  {
    && (forall k :: 0 <= k < p ==> SlotNarrowed(a, b, sh, mem, cmp, k))
    && (forall k :: p <= k < |a.bits| ==> b.bits[k] == a.bits[k] && b.cur[k] == a.cur[k])
  }

  /** Overwriting a piece of a buffer and then another inside it is one overwrite. */
  lemma SpliceInside<T>(s: seq<T>, at: nat, piece: seq<T>, o: nat, v: seq<T>)
    requires at + |piece| <= |s| && o + |v| <= |piece|
    ensures Splice(Splice(s, at, piece), at + o, v) == Splice(s, at, Splice(piece, o, v))
  {
  }

  lemma SpliceSelf<T>(s: seq<T>, at: nat, len: nat)
    requires at + len <= |s|
    ensures Splice(s, at, s[at..at + len]) == s
  {
  }

  /** What comparing a window does to its bits and to its piece of baselines. */
  ghost predicate WindowDone(addrs: seq<nat>, vl: nat, mem: Memory, cmp: Comparator, i: nat, cnt: nat,
                             b0: seq<bool>, b1: seq<bool>, p0: seq<seq<byte>>, p1: seq<seq<byte>>, upto: nat)
    requires |b0| == |b1| == |addrs| && i + cnt <= |b0| && |p0| == |p1| == cnt
  {
    && (forall k {:trigger b1[k]} :: 0 <= k < |b0| && !(i <= k < i + cnt && k < upto) ==> b1[k] == b0[k])
    && (forall k {:trigger b1[k]} {:trigger p1[k - i]} :: i <= k < i + cnt && k < upto ==>
          (b1[k] <==> b0[k] && cmp(Slice(mem, addrs[k], vl), p0[k - i])))
    && (forall m {:trigger p1[m]} :: 0 <= m < cnt ==>
          p1[m] == if i + m < upto && b1[i + m] then Slice(mem, addrs[i + m], vl) else p0[m])
  }

  /** A window over scannable slots covers its survivors, and both of its buffers suffice. */
  lemma ScannableWindow(addrs: seq<nat>, bits: seq<bool>, vl: nat, i: nat)
    requires |bits| == |addrs| && Scannable(addrs, vl) && i < |addrs| && bits[i]
    ensures var w := WindowOf(addrs, bits, vl, i);
            && i <= w.1 < |addrs| && addrs[i] < w.0 <= addrs[i] + WIN_CAP && Off(w.1 - i + 1, vl) <= WIN_CAP
            && forall k :: i <= k <= w.1 && bits[k] ==> addrs[i] <= addrs[k] && addrs[k] + vl <= w.0
  {
    hide Steady, Off, WindowOf;
    SteadyCovers(addrs, bits, vl, i);
  }

  class Snapshot {
    const sh: Shape
    const stride: nat
    const segs: seq<Segment>
    const slotCount: nat
    const bitmap: array<bv8>
    const store: Store
    var prevFile: seq<byte>
    var firstFile: seq<byte>
    var survivorCount: nat

    constructor (sh: Shape, stride: nat, segs: seq<Segment>, slotCount: nat, bitmap: array<bv8>, store: Store,
                 prevFile: seq<byte>, firstFile: seq<byte>, survivors: nat)
      ensures this.sh == sh && this.stride == stride && this.segs == segs && this.slotCount == slotCount
      ensures this.bitmap == bitmap && this.store == store
      ensures this.prevFile == prevFile && this.firstFile == firstFile && survivorCount == survivors
    {
      this.sh, this.stride, this.segs, this.slotCount := sh, stride, segs, slotCount;
      this.bitmap, this.store, this.prevFile, this.firstFile := bitmap, store, prevFile, firstFile;
      this.survivorCount := survivors;
    }

    ghost function Addrs(): seq<nat>
    {
      SlotAddrs(segs, stride)
    }

    /** Everything but the survivor count. */
    ghost predicate Shaped()
      reads this, store, store.ram, bitmap
    {
      && 1 <= sh.vl <= 8
      && Numbered(segs, 0) && slotCount == Total(segs) && Scannable(Addrs(), sh.vl)
      && slotCount <= 8 * bitmap.Length && (store.ram as object) != bitmap
      && store.ram.Length % sh.vl == 0
      && |store.Flat()| == Off(slotCount, sh.vl)
      && (sh.keepPrev ==> |prevFile| == Off(slotCount, sh.vl))
      && (sh.keepFirst ==> |firstFile| == Off(slotCount, sh.vl))
    }

    ghost predicate Valid()
      reads this, store, store.ram, bitmap
    {
      && Shaped()
      && survivorCount == CountSet(Bits(bitmap[..], slotCount), slotCount)
    }

    /** The session slot by slot. */
    ghost function TheView(): (v: View)
      requires slotCount == Total(segs) && slotCount <= 8 * bitmap.Length
      reads this, store, store.ram, bitmap
      ensures ViewOk(v, sh) && |v.bits| == slotCount
    {
      View(Addrs(), Bits(bitmap[..], slotCount), Slots(store.Flat(), sh.vl, slotCount),
           Slots(prevFile, sh.vl, slotCount), Slots(firstFile, sh.vl, slotCount))
    }

    /** The survivors this session stands for. */
    ghost function Survivors(): (s: seq<Rec>)
      requires Valid()
      reads this, store, store.ram, bitmap
      ensures |s| == survivorCount
    {
      Kept(TheView(), sh, slotCount)
    }

    /** Grow one read window from the survivor `i`: bridge gaps up to 32 KiB, stop at 1 MiB. */
    method Window(i: nat) returns (start: nat, end: nat, last: nat)
      requires Numbered(segs, 0) && slotCount == Total(segs) && slotCount <= 8 * bitmap.Length
      requires i < slotCount && Bit(bitmap[..], i)
      ensures start == Addrs()[i] && (end, last) == WindowOf(Addrs(), Bits(bitmap[..], slotCount), sh.vl, i)
      ensures i <= last < slotCount
      ensures Scannable(Addrs(), sh.vl) ==> start < end <= start + 0x10_0000 && Off(last - i + 1, sh.vl) <= 0x10_0000
      ensures Scannable(Addrs(), sh.vl) ==> forall k :: i <= k <= last && Bits(bitmap[..], slotCount)[k] ==>
                start <= Addrs()[k] && Addrs()[k] + sh.vl <= end
    {
      hide Scannable, Off, Numbered, Total, AddrOf, Bridge, Covers, Grow, Bits;
      hide Bit;
      ghost var bits := Bits(bitmap[..], slotCount);
      assert bits[i];
      start := SlotAddr(segs, stride, i);
      end, last := start + sh.vl, i;
      var j := NextSet(bitmap, i + 1, slotCount);
      GrowSkips(Addrs(), bits, sh.vl, start, end, i, i + 1, j);
      while j < slotCount
        invariant i <= last < j <= slotCount && (j < slotCount ==> bits[j])
        invariant WindowOf(Addrs(), bits, sh.vl, i) == Grow(Addrs(), bits, sh.vl, start, end, last, j)
        decreases slotCount - j
      {
        var na := SlotAddr(segs, stride, j);
        assert na == Addrs()[j];
        var grown := Bridge(start, end, na, sh.vl);
        GrowOver(Addrs(), bits, sh.vl, start, end, last, j);
        if !grown.0 { break; }
        end, last := grown.1, j;
        j := NextSet(bitmap, j + 1, slotCount);
        GrowSkips(Addrs(), bits, sh.vl, start, end, last, last + 1, j);
      }
      if j == slotCount { GrowEnds(Addrs(), bits, sh.vl, start, end, last); }
      if Scannable(Addrs(), sh.vl) { ScannableWindow(Addrs(), bits, sh.vl, i); }
    }

    /** Compare one survivor: refresh its baseline on a match, drop its bit otherwise. */
    method CompareOne(k: nat, m: seq<byte>, bl: array<byte>, bo: nat, j: nat, ghost cnt: nat, cmp: Comparator)
      returns (matched: bool, ghost piece: seq<byte>)
      requires slotCount <= 8 * bitmap.Length && k < slotCount
      requires (bl as object) != bitmap
      requires j < cnt && |m| == sh.vl && bo + Off(cnt, sh.vl) <= bl.Length
      modifies bitmap, bl
      ensures |piece| == Off(cnt, sh.vl) && bl[..] == Splice(old(bl[..]), bo, piece)
      ensures matched <==> cmp(m, Slot(old(bl[bo..bo + Off(cnt, sh.vl)]), sh.vl, j))
      ensures Slots(piece, sh.vl, cnt)
           == if matched then Slots(old(bl[bo..bo + Off(cnt, sh.vl)]), sh.vl, cnt)[j := m]
              else Slots(old(bl[bo..bo + Off(cnt, sh.vl)]), sh.vl, cnt)
      ensures !matched ==> bl[..] == old(bl[..])
      ensures Bits(bitmap[..], slotCount)
           == if matched then old(Bits(bitmap[..], slotCount)) else old(Bits(bitmap[..], slotCount))[k := false]
    {
      hide Off, Slot, Slots, Bit, Bits, Cleared, Splice;
      ghost var bm0, bl0 := bitmap[..], bl[..];
      SlotLength(bl[bo..bo + Off(cnt, sh.vl)], sh.vl, cnt, j);
      BaselineAt(bl[..], bo, sh.vl, cnt, j);
      var base := bl[bo + Off(j, sh.vl)..bo + Off(j, sh.vl) + sh.vl];
      matched := cmp(m, base);
      if matched {
        Blit(bl, bo + Off(j, sh.vl), m);
        piece := RefreshPiece(bl0, bo, sh.vl, cnt, j, m);
      } else {
        piece := bl[bo..bo + Off(cnt, sh.vl)];
        SpliceSelf(bl0, bo, Off(cnt, sh.vl));
        ClearBit(bitmap, k);
      }
    }

    /** Compare the survivors of one window; `bl` points at their baselines, in RAM or in a buffer. */
    method Compare(i: nat, last: nat, start: nat, win: seq<byte>, bl: array<byte>, bo: nat,
                   ghost mem: Memory, cmp: Comparator)
      returns (dirty: bool, survivors: nat, ghost piece: seq<byte>)
      requires Numbered(segs, 0) && slotCount == Total(segs) && slotCount <= 8 * bitmap.Length
      requires i <= last < slotCount && Bit(bitmap[..], i) && sh.vl > 0
      requires (bl as object) != bitmap && bo + Off(last - i + 1, sh.vl) <= bl.Length
      requires win == Slice(mem, start, |win|)
      requires forall k :: i <= k <= last && Bits(bitmap[..], slotCount)[k] ==>
                 start <= Addrs()[k] && Addrs()[k] + sh.vl <= start + |win|
      modifies bitmap, bl
      ensures |piece| == Off(last - i + 1, sh.vl)
      ensures bl[..] == Splice(old(bl[..]), bo, piece)
      ensures !dirty ==> bl[..] == old(bl[..])
      ensures WindowDone(Addrs(), sh.vl, mem, cmp, i, last - i + 1,
                old(Bits(bitmap[..], slotCount)), Bits(bitmap[..], slotCount),
                Slots(old(bl[bo..bo + Off(last - i + 1, sh.vl)]), sh.vl, last - i + 1),
                Slots(piece, sh.vl, last - i + 1), last + 1)
      ensures survivors + CountSet(Bits(bitmap[..], slotCount), i) == CountSet(Bits(bitmap[..], slotCount), last + 1)
    {
      hide Off, Slot, Slots, CountSet, WindowDone, Splice, Bit, Bits, AddrOf, Numbered, Total, Slice;
      var n, vl := slotCount, sh.vl;
      ghost var cnt := last - i + 1;
      ghost var b0 := Bits(bitmap[..], n);
      ghost var piece0 := bl[bo..bo + Off(cnt, vl)];
      piece := piece0;
      WindowStart(Addrs(), vl, mem, cmp, i, cnt, b0, Slots(piece0, vl, cnt));
      SpliceSelf(bl[..], bo, Off(cnt, vl));
      dirty, survivors := false, 0;
      var k := i;
      ghost var upto := i;
      while k <= last
        invariant i <= upto <= last + 1
        invariant if k <= last then upto == k && Bit(bitmap[..], k) else upto == last + 1
        invariant |piece| == Off(cnt, vl) && bl[..] == Splice(old(bl[..]), bo, piece)
        invariant !dirty ==> bl[..] == old(bl[..])
        invariant WindowDone(Addrs(), vl, mem, cmp, i, cnt, b0, Bits(bitmap[..], n),
                             Slots(piece0, vl, cnt), Slots(piece, vl, cnt), upto)
        invariant survivors + CountSet(Bits(bitmap[..], n), i) == CountSet(Bits(bitmap[..], n), upto)
        decreases last + 1 - upto
      {
        var addr := SlotAddr(segs, stride, k);
        Undecided(Addrs(), vl, mem, cmp, i, cnt, b0, Bits(bitmap[..], n), Slots(piece0, vl, cnt),
                  Slots(piece, vl, cnt), upto, k);
        var m := win[addr - start..addr - start + vl];
        SliceOfSlice(mem, start, |win|, addr, vl);
        ghost var bs, was := Bits(bitmap[..], n), piece;
        SpliceRead(old(bl[..]), bo, was);
        var matched;
        matched, piece := CompareOne(k, m, bl, bo, k - i, cnt, cmp);
        SpliceTwice(old(bl[..]), bo, was, piece);
        if matched { dirty, survivors := true, survivors + 1; }
        var q := NextSet(bitmap, k + 1, n);
        upto := if q <= last then q else last + 1;
        WindowStep(Addrs(), vl, mem, cmp, i, cnt, b0, bs, Bits(bitmap[..], n),
                   Slots(piece0, vl, cnt), Slots(was, vl, cnt), Slots(piece, vl, cnt), k, upto);
        CountStep(bs, Bits(bitmap[..], n), i, k, upto);
        k := q;
      }
    }

    /** Point at the baselines of a window: straight into RAM, or a buffered copy if any of it spilled. */
    method Baselines(i: nat, cnt: nat, blBuf: array<byte>) returns (buffered: bool, bl: array<byte>, bo: nat)
      requires Shaped() && i + cnt <= slotCount && cnt > 0
      requires blBuf.Length == WIN_CAP && Off(cnt, sh.vl) <= WIN_CAP
      modifies blBuf
      requires blBuf != store.ram && (blBuf as object) != bitmap
      ensures Shaped() && Off(i, sh.vl) + Off(cnt, sh.vl) <= |store.Flat()| && bo + Off(cnt, sh.vl) <= bl.Length
      ensures store.Flat() == old(store.Flat()) && bitmap[..] == old(bitmap[..])
      ensures bl[bo..bo + Off(cnt, sh.vl)] == store.Flat()[Off(i, sh.vl)..Off(i, sh.vl) + Off(cnt, sh.vl)]
      ensures if buffered then bl == blBuf && bo == 0 else bl == store.ram && bo == Off(i, sh.vl)
    {
      hide Off, Scannable, Numbered, Total, SlotAddrs;
      var off, len := Off(i, sh.vl), Off(cnt, sh.vl);
      OffSum(i, cnt, sh.vl);
      OffMono(i + cnt, slotCount, sh.vl);
      buffered := off + len > store.ram.Length;
      if buffered {
        var ok, data := store.Read(off, len);
        OffNext(cnt - 1, sh.vl);
        Blit(blBuf, 0, data);
        bl, bo := blBuf, 0;
      } else {
        bl, bo := store.ram, off;
      }
    }

    /** Save a window's baselines as previous values, compare it, write refreshed baselines back. */
    method RefreshWindow(i: nat, last: nat, start: nat, win: seq<byte>, blBuf: array<byte>, ghost mem: Memory,
                         cmp: Comparator)
      returns (survivors: nat, ghost piece: seq<byte>)
      requires Shaped() && i <= last < slotCount && Bit(bitmap[..], i)
      requires blBuf.Length == WIN_CAP && Off(last - i + 1, sh.vl) <= WIN_CAP
      requires blBuf != store.ram && (blBuf as object) != bitmap
      requires win == Slice(mem, start, |win|)
      requires forall k :: i <= k <= last && Bits(bitmap[..], slotCount)[k] ==>
                 start <= Addrs()[k] && Addrs()[k] + sh.vl <= start + |win|
      requires Off(i, sh.vl) + Off(last - i + 1, sh.vl) <= |store.Flat()|
      modifies this`prevFile, store`file, store.ram, bitmap, blBuf
      ensures |piece| == Off(last - i + 1, sh.vl)
      ensures store.Flat() == Splice(old(store.Flat()), Off(i, sh.vl), piece)
      ensures prevFile == if sh.keepPrev
                          then Splice(old(prevFile), Off(i, sh.vl),
                                      old(store.Flat()[Off(i, sh.vl)..Off(i, sh.vl) + Off(last - i + 1, sh.vl)]))
                          else old(prevFile)
      ensures WindowDone(Addrs(), sh.vl, mem, cmp, i, last - i + 1,
                         old(Bits(bitmap[..], slotCount)), Bits(bitmap[..], slotCount),
                         Slots(old(store.Flat()[Off(i, sh.vl)..Off(i, sh.vl) + Off(last - i + 1, sh.vl)]),
                               sh.vl, last - i + 1),
                         Slots(piece, sh.vl, last - i + 1), last + 1)
      ensures survivors + CountSet(Bits(bitmap[..], slotCount), i) == CountSet(Bits(bitmap[..], slotCount), last + 1)
    {
      hide Off, Scannable, Numbered, Total, SlotAddrs, WindowDone, CountSet, Slot, Slots, Splice, Bit, Bits, Slice;
      hide WriteAt;
      var cnt := last - i + 1;
      var off, len := Off(i, sh.vl), Off(cnt, sh.vl);
      ghost var flat0 := store.Flat();
      var buffered, bl, bo := Baselines(i, cnt, blBuf);
      if sh.keepPrev {
        prevFile := WriteAt(prevFile, off, bl[bo..bo + len]);
      }
      var dirty;
      ghost var bl0, ram0, file0 := bl[..], store.ram[..], store.file;
      dirty, survivors, piece := Compare(i, last, start, win, bl, bo, mem, cmp);
      if buffered {
        SpliceRead(bl0, bo, piece);
        SpliceSelf(flat0, off, len);
        if dirty { store.Write(bl[..len], off); }
      } else {
        SpliceLeft(ram0, file0, off, piece);
      }
    }

    /** Rescan one window, slot by slot. */
    method RescanWindow(i: nat, last: nat, start: nat, win: seq<byte>, blBuf: array<byte>, ghost mem: Memory,
                        cmp: Comparator)
      returns (survivors: nat)
      requires Shaped() && i <= last < slotCount && Bit(bitmap[..], i)
      requires blBuf.Length == WIN_CAP && Off(last - i + 1, sh.vl) <= WIN_CAP
      requires blBuf != store.ram && (blBuf as object) != bitmap
      requires win == Slice(mem, start, |win|)
      requires forall k :: i <= k <= last && Bits(bitmap[..], slotCount)[k] ==>
                 start <= Addrs()[k] && Addrs()[k] + sh.vl <= start + |win|
      modifies this`prevFile, store`file, store.ram, bitmap, blBuf
      ensures Shaped()
      ensures WindowDone(Addrs(), sh.vl, mem, cmp, i, last - i + 1, old(TheView()).bits, TheView().bits,
                         old(TheView()).cur[i..last + 1], TheView().cur[i..last + 1], last + 1)
      ensures forall k :: 0 <= k < slotCount && !(i <= k <= last) ==> TheView().cur[k] == old(TheView()).cur[k]
      ensures sh.keepPrev ==> TheView().prev == Splice(old(TheView()).prev, i, old(TheView()).cur[i..last + 1])
      ensures survivors + CountSet(TheView().bits, i) == CountSet(TheView().bits, last + 1)
    {
      hide Off, Scannable, Numbered, Total, SlotAddrs, WindowDone, CountSet, Slot, Slots, Splice, Bit, Bits, Slice;
      var cnt := last - i + 1;
      ghost var flat0, prev0 := store.Flat(), prevFile;
      SlotsOfPiece(flat0, sh.vl, slotCount, i, cnt);
      ghost var piece;
      survivors, piece := RefreshWindow(i, last, start, win, blBuf, mem, cmp);
      if sh.keepPrev {
        SpliceSlots(prev0, sh.vl, slotCount, i, flat0[Off(i, sh.vl)..Off(i, sh.vl) + Off(cnt, sh.vl)], cnt);
      }
      SpliceSlots(flat0, sh.vl, slotCount, i, piece, cnt);
      SpliceRead(Slots(flat0, sh.vl, slotCount), i, Slots(piece, sh.vl, cnt));
      SpliceElements(Slots(flat0, sh.vl, slotCount), i, Slots(piece, sh.vl, cnt));
    }

    /** Grow the window of survivor `i`, read it, and rescan it: the narrowed prefix grows to the window's end. */
    method RescanNext(ghost a: View, ghost p: nat, i: nat, mem: Memory, cmp: Comparator, blBuf: array<byte>)
      returns (survivors: nat, last: nat)
      requires Shaped() && p <= i < slotCount && IsNextSet(Bits(bitmap[..], slotCount), p, i)
      requires blBuf.Length == WIN_CAP && blBuf != store.ram && (blBuf as object) != bitmap
      requires ViewOk(a, sh) && |a.bits| == slotCount && a.addrs == Addrs() && Upto(a, TheView(), sh, mem, cmp, p)
      modifies this`prevFile, store`file, store.ram, bitmap, blBuf
      ensures Shaped() && i <= last < slotCount
      ensures Upto(a, TheView(), sh, mem, cmp, last + 1)
      ensures old(CountSet(TheView().bits, p)) + survivors == CountSet(TheView().bits, last + 1)
    {
      hide Off, Scannable, Numbered, Total, SlotAddrs, WindowDone, CountSet, Slot, Slots, Bit, Bits, Upto, SlotNarrowed;
      hide Splice, Slice, Snapshot.Addrs;
      ghost var b := TheView();
      var start, end;
      start, end, last := Window(i);
      var win := Slice(mem, start, end - start);
      survivors := RescanWindow(i, last, start, win, blBuf, mem, cmp);
      UptoStep(a, b, TheView(), sh, mem, cmp, p, i, last);
    }

    /** fs_snapshot_rescan: narrow the bitmap window by window. */
    method Rescan(mem: Memory, cmp: Comparator, blBuf: array<byte>) returns (survivors: nat)
      requires Valid() && blBuf.Length == WIN_CAP && blBuf != store.ram && (blBuf as object) != bitmap
      modifies this, store`file, store.ram, bitmap, blBuf
      ensures Valid() && firstFile == old(firstFile)
      ensures Survivors() == Narrow(old(Survivors()), sh, mem, cmp)
      ensures survivors == |Survivors()|
    {
      hide Off, Scannable, Numbered, Total, SlotAddrs, WindowDone, CountSet, Slot, Slots, Bit, Bits, Upto,
        SlotNarrowed, Slice;
      hide Splice, Kept, Narrow, Snapshot.Addrs;
      if slotCount == 0 {
        survivorCount := 0;
        return 0;
      }
      survivors := 0;
      ghost var a, p := TheView(), 0;
      UptoStart(a, sh, mem, cmp);
      var i: nat := NextSet(bitmap, 0, slotCount);
      while i < slotCount
        invariant Shaped() && firstFile == old(firstFile)
        invariant p <= slotCount && IsNextSet(Bits(bitmap[..], slotCount), p, i)
        invariant Upto(a, TheView(), sh, mem, cmp, p)
        invariant survivors == CountSet(TheView().bits, p)
        decreases slotCount - p
      {
        var s, last := RescanNext(a, p, i, mem, cmp, blBuf);
        survivors := survivors + s;
        i := NextSet(bitmap, last + 1, slotCount);
        p := last + 1;
      }
      UptoEnd(a, TheView(), sh, mem, cmp, p);
      survivorCount := survivors;
    }

    /** The bytes GET sends for the survivor in slot `i`. */
    method RecordAt(i: nat) returns (o: seq<byte>)
      requires Shaped() && i < slotCount
      ensures o == Record(SlotRec(TheView(), sh, i), sh)
      ensures |o| <= OUT_CAP
    {
      hide Off, Scannable, Numbered, Total, SlotAddrs, LeBytes, Bits, Record;
      SlotLength(store.Flat(), sh.vl, slotCount, i);
      ghost var r := SlotRec(TheView(), sh, i);
      RecordParts(r, sh);
      var addr := SlotAddr(segs, stride, i);
      assert r.addr == addr && r.cur == Slot(store.Flat(), sh.vl, i);
      var _, cur := store.Read(Off(i, sh.vl), sh.vl);
      var prev := if sh.keepPrev then PreadAll(prevFile, Off(i, sh.vl), sh.vl).1 else cur;
      o := LeBytes(addr, 8) + cur + prev;
      if sh.keepFirst {
        o := o + PreadAll(firstFile, Off(i, sh.vl), sh.vl).1;
      }
    }

    /** Append the record of survivor `start + emitted`, which lives in slot `i`, to the reply. */
    method EmitSlot(i: nat, ghost start: nat, ghost emitted: nat, ghost head: seq<byte>,
                    sends: seq<seq<byte>>, out: seq<byte>)
      returns (sends1: seq<seq<byte>>, out1: seq<byte>)
      requires Valid() && i < slotCount && Bits(bitmap[..], slotCount)[i]
      requires CountSet(Bits(bitmap[..], slotCount), i) == start + emitted < survivorCount
      requires Fits(sends, OUT_CAP) && |out| <= OUT_CAP
      requires Joined(sends) + out == head + Records(Survivors()[start..start + emitted], sh)
      ensures Fits(sends1, OUT_CAP) && |out1| <= OUT_CAP
      ensures Joined(sends1) + out1 == head + Records(Survivors()[start..start + emitted + 1], sh)
    {
      hide Off, Scannable, Numbered, Total, SlotAddrs, Bits, Record, Records, Joined, CountSet, Kept, SlotRec;
      hide Snapshot.Addrs, Slots, Slot, ViewOk;
      KeptAt(TheView(), sh, i, slotCount);
      var o := RecordAt(i);
      EmittedStep(Survivors(), sh, start, emitted, head);
      sends1, out1 := Emit(sends, out, o, OUT_CAP);
    }

    lemma SurvivorsWellShaped()
      requires Shaped()
      ensures AllWellShaped(Kept(TheView(), sh, slotCount), sh)
    {
      hide Off, Numbered, Total, Bits, Scannable, AddrOf, Kept;
      forall i | 0 <= i < slotCount
        ensures WellShaped(SlotRec(TheView(), sh, i), sh)
      {
        SlotLength(store.Flat(), sh.vl, slotCount, i);
        if sh.keepPrev { SlotLength(prevFile, sh.vl, slotCount, i); }
        if sh.keepFirst { SlotLength(firstFile, sh.vl, slotCount, i); }
        ScannableInRange(Addrs(), sh.vl, i);
      }
      KeptWellShaped(TheView(), sh, slotCount);
    }

    lemma SurvivorsUnderstood(start: nat, count: nat)
      requires Valid()
      ensures |Requested(Survivors(), start, count)| < 0x8000_0000 ==>
                Understand(Reply(Survivors(), sh, start, count), sh.vl)
                == Some(Understood(sh.keepFirst, Requested(Survivors(), start, count)))
    {
      hide Off, Numbered, Total, Bits, Scannable, Kept, Understand, Requested, Reply, WellShaped;
      SurvivorsWellShaped();
      if |Requested(Survivors(), start, count)| < 0x8000_0000 { ReplyUnderstood(Survivors(), sh, start, count); }
    }

    /** Snapshot GET: the client reads exactly the requested survivors out of sends of at most 256 KiB. */
    method Get(start: nat, count: nat) returns (sends: seq<seq<byte>>)
      requires Valid()
      ensures Joined(sends) == Reply(Survivors(), sh, start, count)
      ensures Fits(sends, 0x4_0000)
      ensures |Requested(Survivors(), start, count)| < 0x8000_0000 ==>
                Understand(Joined(sends), sh.vl)
                == Some(Understood(sh.keepFirst, Requested(Survivors(), start, count)))
    {
      assert OUT_CAP == 0x4_0000;
      hide *;
      SurvivorsUnderstood(start, count);
      sends := SendSurvivors(start, count);
    }

    /** Walk the bitmap, skip `start` survivors, send at most `count` of them. */
    method SendSurvivors(start: nat, count: nat) returns (sends: seq<seq<byte>>)
      requires Valid()
      ensures Joined(sends) == Reply(Survivors(), sh, start, count)
      ensures Fits(sends, OUT_CAP)
    {
      hide Off, Scannable, Numbered, Total, SlotAddrs, LeBytes, Bits, Record, Records, Joined, CountSet, Kept, SlotRec;
      hide Snapshot.Addrs, Slots, Slot, Header, Bit, ViewOk;
      var actual := if start < survivorCount
                    then if count < survivorCount - start then count else survivorCount - start
                    else 0;
      var head := LeBytes(Header(actual, sh), 4);
      sends := [head];
      JoinedOne(head);
      if actual == 0 {
        assert head == head + [];
        return;
      }
      ghost var rs, v, p := Survivors(), TheView(), 0;
      var out, seen: nat, emitted: nat := [], 0, 0;
      NothingYet(v.bits, rs, sh, start);
      var i: nat := NextSet(bitmap, 0, slotCount);
      while i < slotCount && emitted < actual
        invariant p <= slotCount && IsNextSet(v.bits, p, i)
        invariant seen == CountSet(v.bits, p)
        invariant emitted == (if seen > start then seen - start else 0) && emitted <= actual
        invariant Fits(sends, OUT_CAP) && |out| <= OUT_CAP
        invariant Joined(sends) + out == head + Records(rs[start..start + emitted], sh)
        decreases slotCount - p
      {
        SeenStep(v.bits, p, i);
        if seen >= start {
          sends, out := EmitSlot(i, start, emitted, head, sends, out);
          emitted := emitted + 1;
        }
        seen := seen + 1;
        p := i + 1;
        i := NextSet(bitmap, i + 1, slotCount);
      }
      if i >= slotCount { CountSetSkip(v.bits, p, slotCount); }
      sends := Flush(sends, out, OUT_CAP);
    }
  }

  lemma SpliceRead<T>(s: seq<T>, at: nat, piece: seq<T>)
    requires at + |piece| <= |s|
    ensures Splice(s, at, piece)[at..at + |piece|] == piece
  {
  }

  lemma SpliceTwice<T>(s: seq<T>, at: nat, p: seq<T>, q: seq<T>)
    requires at + |p| <= |s| && |p| == |q|
    ensures Splice(Splice(s, at, p), at, q) == Splice(s, at, q)
  {
  }

  /** The baseline read through the window pointer is the slot of the window's piece. */
  lemma BaselineAt(s: seq<byte>, bo: nat, vl: nat, cnt: nat, j: nat)
    requires bo + Off(cnt, vl) <= |s| && j < cnt
    ensures Off(j, vl) + vl <= Off(cnt, vl)
    ensures s[bo + Off(j, vl)..bo + Off(j, vl) + vl] == Slot(s[bo..bo + Off(cnt, vl)], vl, j)
  {
    hide Off;
    OffNext(j, vl);
    OffMono(j + 1, cnt, vl);
    SliceSlice(s, bo, Off(cnt, vl), Off(j, vl), vl);
  }

  /** Refreshing one baseline through the pointer replaces one slot of the window's piece. */
  lemma RefreshPiece(s: seq<byte>, bo: nat, vl: nat, cnt: nat, j: nat, m: seq<byte>) returns (piece: seq<byte>)
    requires bo + Off(cnt, vl) <= |s| && j < cnt && |m| == vl && bo + Off(j, vl) + vl <= |s|
    ensures |piece| == Off(cnt, vl)
    ensures Splice(s, bo + Off(j, vl), m) == Splice(s, bo, piece)
    ensures Slots(piece, vl, cnt) == Slots(s[bo..bo + Off(cnt, vl)], vl, cnt)[j := m]
  {
    hide Off, Slot, Slots;
    var piece0 := s[bo..bo + Off(cnt, vl)];
    BaselineAt(s, bo, vl, cnt, j);
    piece := Splice(piece0, Off(j, vl), m);
    SpliceSelf(s, bo, Off(cnt, vl));
    SpliceInside(s, bo, piece0, Off(j, vl), m);
    OneSlot(piece0, vl, cnt, j, m);
  }

  lemma OneSlot(flat: seq<byte>, vl: nat, n: nat, k: nat, v: seq<byte>)
    requires k < n && Off(n, vl) <= |flat| && |v| == vl && Off(k, vl) + vl <= |flat|
    ensures Slots(Splice(flat, Off(k, vl), v), vl, n) == Slots(flat, vl, n)[k := v]
  {
    hide Off, Slot, Slots, Splice;
    OffNext(0, vl);
    OffZero(vl);
    SpliceSlots(flat, vl, n, k, v, 1);
    SlotWhole(v, vl);
    assert Slots(v, vl, 1) == [v];
    SpliceOne(Slots(flat, vl, n), k, v);
  }

  lemma SlotWhole(v: seq<byte>, vl: nat)
    requires |v| == vl
    ensures Slot(v, vl, 0) == v
  {
  }

  lemma SpliceOne<T>(s: seq<T>, k: nat, v: T)
    requires k < |s|
    ensures Splice(s, k, [v]) == s[k := v]
  {
  }

  lemma Undecided(addrs: seq<nat>, vl: nat, mem: Memory, cmp: Comparator, i: nat, cnt: nat,
                  b0: seq<bool>, b1: seq<bool>, p0: seq<seq<byte>>, p1: seq<seq<byte>>, upto: nat, k: nat)
    requires |b0| == |b1| == |addrs| && i + cnt <= |b0| && |p0| == |p1| == cnt
    requires WindowDone(addrs, vl, mem, cmp, i, cnt, b0, b1, p0, p1, upto) && upto <= k < |b0|
    ensures b1[k] == b0[k]
  {
  }

  lemma WindowStart(addrs: seq<nat>, vl: nat, mem: Memory, cmp: Comparator, i: nat, cnt: nat,
                    b0: seq<bool>, p0: seq<seq<byte>>)
    requires |b0| == |addrs| && i + cnt <= |b0| && |p0| == cnt
    ensures WindowDone(addrs, vl, mem, cmp, i, cnt, b0, b0, p0, p0, i)
  {
  }

  /** One survivor decided, and the unset slots after it up to the next one. */
  lemma WindowStep(addrs: seq<nat>, vl: nat, mem: Memory, cmp: Comparator, i: nat, cnt: nat,
                   b0: seq<bool>, bs: seq<bool>, b1: seq<bool>,
                   p0: seq<seq<byte>>, ps: seq<seq<byte>>, p1: seq<seq<byte>>, k: nat, q: nat)
    requires |b0| == |bs| == |b1| == |addrs| && i + cnt <= |b0| && |p0| == |ps| == |p1| == cnt
    requires i <= k < q <= i + cnt && bs[k]
    requires WindowDone(addrs, vl, mem, cmp, i, cnt, b0, bs, p0, ps, k)
    requires if cmp(Slice(mem, addrs[k], vl), ps[k - i])
             then b1 == bs && p1 == ps[k - i := Slice(mem, addrs[k], vl)]
             else b1 == bs[k := false] && p1 == ps
    requires forall j :: k < j < q ==> !b1[j]
    ensures WindowDone(addrs, vl, mem, cmp, i, cnt, b0, b1, p0, p1, q)
  {
    assert ps[k - i] == p0[k - i];
    forall j | i <= j < i + cnt && j < q
      ensures b1[j] <==> b0[j] && cmp(Slice(mem, addrs[j], vl), p0[j - i])
    {
      if j < k { assert bs[j] == b1[j]; } else if j > k { assert bs[j] == b1[j]; }
    }
    forall m | 0 <= m < cnt
      ensures p1[m] == if i + m < q && b1[i + m] then Slice(mem, addrs[i + m], vl) else p0[m]
    {
      assert ps[m] == if i + m < k && bs[i + m] then Slice(mem, addrs[i + m], vl) else p0[m];
    }
  }

  lemma CountStep(bs: seq<bool>, b1: seq<bool>, i: nat, k: nat, q: nat)
    requires |bs| == |b1| && i <= k < q <= |bs| && bs[k]
    requires b1 == bs || b1 == bs[k := false]
    requires forall j :: k < j < q ==> !b1[j]
    ensures CountSet(b1, i) == CountSet(bs, i)
    ensures CountSet(b1, q) == CountSet(bs, k) + if b1[k] then 1 else 0
  {
    CountSetAgrees(b1, bs, i);
    CountSetAgrees(b1, bs, k);
    CountSetSkip(b1, k + 1, q);
  }

  lemma SpliceLeft<T>(a: seq<T>, b: seq<T>, at: nat, p: seq<T>)
    requires at + |p| <= |a|
    ensures Splice(a, at, p) + b == Splice(a + b, at, p)
  {
  }

  lemma UptoStart(a: View, sh: Shape, mem: Memory, cmp: Comparator)
    requires ViewOk(a, sh)
    ensures Upto(a, a, sh, mem, cmp, 0) && CountSet(a.bits, 0) == 0
  {
  }

  /** One window extends the narrowed prefix past its last slot. */
  lemma UptoStep(a: View, b: View, c: View, sh: Shape, mem: Memory, cmp: Comparator, p: nat, i: nat, last: nat)
    requires ViewOk(a, sh) && ViewOk(b, sh) && ViewOk(c, sh) && |a.bits| == |b.bits| == |c.bits|
    requires b.addrs == a.addrs == c.addrs
    requires p <= i <= last < |a.bits| && Upto(a, b, sh, mem, cmp, p)
    requires forall k :: p <= k < i ==> !b.bits[k]
    requires WindowDone(a.addrs, sh.vl, mem, cmp, i, last - i + 1, b.bits, c.bits,
                        b.cur[i..last + 1], c.cur[i..last + 1], last + 1)
    requires forall k :: 0 <= k < |a.bits| && !(i <= k <= last) ==> c.cur[k] == b.cur[k]
    requires sh.keepPrev ==> c.prev == Splice(b.prev, i, b.cur[i..last + 1])
    ensures Upto(a, c, sh, mem, cmp, last + 1)
    ensures CountSet(c.bits, i) == CountSet(b.bits, p)
  {
    hide CountSet, Slice, Splice;
    if sh.keepPrev { SpliceElements(b.prev, i, b.cur[i..last + 1]); }
    forall k | 0 <= k <= last
      ensures SlotNarrowed(a, c, sh, mem, cmp, k)
    {
      if k < p {
        assert SlotNarrowed(a, b, sh, mem, cmp, k);
        assert c.bits[k] == b.bits[k] && c.cur[k] == b.cur[k];
      } else if k < i {
        assert c.bits[k] == b.bits[k];
      } else {
        assert b.cur[i..last + 1][k - i] == b.cur[k] == a.cur[k];
        assert c.cur[i..last + 1][k - i] == c.cur[k];
      }
    }
    CountSetAgrees(c.bits, b.bits, i);
    CountSetSkip(b.bits, p, i);
  }

  /** After the last window every slot is narrowed. */
  lemma UptoEnd(a: View, b: View, sh: Shape, mem: Memory, cmp: Comparator, p: nat)
    requires ViewOk(a, sh) && ViewOk(b, sh) && p <= |a.bits| == |b.bits|
    requires b.addrs == a.addrs && b.first == a.first
    requires Upto(a, b, sh, mem, cmp, p)
    requires forall k :: p <= k < |b.bits| ==> !b.bits[k]
    ensures Kept(b, sh, |b.bits|) == Narrow(Kept(a, sh, |a.bits|), sh, mem, cmp)
    ensures CountSet(b.bits, |b.bits|) == CountSet(b.bits, p)
  {
    forall k | p <= k < |a.bits|
      ensures SlotNarrowed(a, b, sh, mem, cmp, k)
    {
      assert b.bits[k] == a.bits[k];
    }
    NarrowingRefines(a, b, sh, mem, cmp, |a.bits|);
    CountSetSkip(b.bits, p, |b.bits|);
  }

  lemma NothingYet(bs: seq<bool>, rs: seq<Rec>, sh: Shape, start: nat)
    requires start <= |rs|
    ensures CountSet(bs, 0) == 0 && Records(rs[start..start], sh) == []
  {
  }

  lemma SeenStep(bs: seq<bool>, p: nat, i: nat)
    requires p <= i < |bs| && bs[i] && forall j :: p <= j < i ==> !bs[j]
    ensures CountSet(bs, i) == CountSet(bs, p) && CountSet(bs, i + 1) == CountSet(bs, p) + 1
  {
    CountSetSkip(bs, p, i);
  }

  lemma EmittedStep(rs: seq<Rec>, sh: Shape, start: nat, e: nat, head: seq<byte>)
    requires start + e < |rs|
    ensures head + Records(rs[start..start + e + 1], sh)
         == head + Records(rs[start..start + e], sh) + Record(rs[start + e], sh)
  {
    assert rs[start..start + e + 1] == rs[start..start + e] + [rs[start + e]];
    RecordsSnoc(rs[start..start + e], rs[start + e], sh);
  }
}
