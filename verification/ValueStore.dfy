/** The value store of a snapshot session: the first bytes live in RAM, the overflow in a spill file. */
module ValueStore {
  import opened Bytes

  /** A file of bytes written with pwrite: writing past the end fills the hole with zeros. */
  function WriteAt(dst: seq<byte>, at: nat, src: seq<byte>): (r: seq<byte>)
    ensures at + |src| <= |dst| ==> r == Splice(dst, at, src)
    ensures at == |dst| ==> r == dst + src
    ensures src != [] ==> |r| >= at + |src| && r[at..at + |src|] == src
  {
    if src == [] then dst
    else if at + |src| <= |dst| then Splice(dst, at, src)
    else if at <= |dst| then dst[..at] + src
    else dst + seq(at - |dst|, i => 0) + src
  }

  /** fs_pread_all: all of the requested bytes, or failure. */
  function PreadAll(file: seq<byte>, off: nat, len: nat): (bool, seq<byte>)
  {
    if len == 0 then (true, [])
    else if off + len <= |file| then (true, file[off..off + len])
    else (false, [])
  }

  /** A write across the RAM/file boundary, split in two, is one write of the whole. */
  lemma StraddlingWrite(ram: seq<byte>, file: seq<byte>, off: nat, src: seq<byte>)
    requires off < |ram| < off + |src|
    ensures Splice(ram, off, src[..|ram| - off]) + WriteAt(file, 0, src[|ram| - off..])
         == WriteAt(ram + file, off, src)
  {
    var a := |ram| - off;
    var head, tail, all := src[..a], src[a..], ram + file;
    assert src == head + tail;
    assert Splice(ram, off, head) == ram[..off] + head;
    assert all[..off] == ram[..off];
    if |tail| <= |file| {
      assert WriteAt(file, 0, tail) == tail + file[|tail|..];
      assert all[off + |src|..] == file[|tail|..];
    } else {
      assert WriteAt(file, 0, tail) == tail;
    }
  }

  /** A write that fits the RAM part, or lies past it, changes one side of the boundary only. */
  lemma OneSidedWrite(ram: seq<byte>, file: seq<byte>, off: nat, src: seq<byte>)
    ensures off + |src| <= |ram| ==> Splice(ram, off, src) + file == WriteAt(ram + file, off, src)
    ensures off >= |ram| ==> ram + WriteAt(file, off - |ram|, src) == WriteAt(ram + file, off, src)
  {
    if off + |src| <= |ram| {
      assert (ram + file)[..off] == ram[..off];
      assert (ram + file)[off + |src|..] == ram[off + |src|..] + file;
    }
    if off >= |ram| && src != [] {
      PastTheRam(ram, file, off - |ram|, src);
    }
  }

  lemma PastTheRam(ram: seq<byte>, file: seq<byte>, o: nat, src: seq<byte>)
    requires src != []
    ensures ram + WriteAt(file, o, src) == WriteAt(ram + file, |ram| + o, src)
  {
    var all := ram + file;
    if o + |src| <= |file| {
      assert all[..|ram| + o] == ram + file[..o];
      assert all[|ram| + o + |src|..] == file[o + |src|..];
    } else if o <= |file| {
      assert all[..|ram| + o] == ram + file[..o];
    }
  }

  class Store {
    var ram: array<byte>
    var file: seq<byte>

    /** The store as the one byte string it stands for. */
    ghost function Flat(): (s: seq<byte>)
      reads this, ram
    {
      ram[..] + file
    }

    constructor (ramBytes: nat)
      ensures fresh(ram) && ram.Length == ramBytes && file == []
    {
      ram := new byte[ramBytes](i => 0);
      file := [];
    }

    method Read(off: nat, len: nat) returns (ok: bool, dst: seq<byte>)
      ensures ok <==> len == 0 || off + len <= |Flat()|
      ensures ok && len > 0 ==> dst == Flat()[off..off + len]
    {
      if off >= ram.Length {
        var p := PreadAll(file, off - ram.Length, len);
        ok, dst := p.0, p.1;
      } else if off + len <= ram.Length {
        ok, dst := true, ram[off..off + len];
      } else {
        var a := ram.Length - off;
        var p := PreadAll(file, 0, len - a);
        ok, dst := p.0, ram[off..] + p.1;
      }
    }

    method Write(src: seq<byte>, off: nat)
      modifies this`file, ram
      ensures Flat() == WriteAt(old(Flat()), off, src)
    {
      hide WriteAt, Splice;
      OneSidedWrite(ram[..], file, off, src);
      if off >= ram.Length {
        file := WriteAt(file, off - ram.Length, src);
      } else if off + |src| <= ram.Length {
        Blit(ram, off, src);
      } else {
        var a := ram.Length - off;
        Blit(ram, off, src[..a]);
        file := WriteAt(file, 0, src[a..]);
        StraddlingWrite(old(ram[..]), old(file), off, src);
      }
    }
  }

  /** Bytes of slot `i` in a packed store of `vl`-byte values. */
  function Slot(flat: seq<byte>, vl: nat, i: nat): (s: seq<byte>)
    ensures Off(i, vl) + vl <= |flat| ==> |s| == vl
  {
    if Off(i, vl) + vl <= |flat| then flat[Off(i, vl)..Off(i, vl) + vl] else []
  }

  /** All slots of a packed store. */
  function Slots(flat: seq<byte>, vl: nat, n: nat): (s: seq<seq<byte>>)
    ensures |s| == n
    ensures forall i :: 0 <= i < n ==> s[i] == Slot(flat, vl, i)
  {
    seq(n, i requires 0 <= i < n => Slot(flat, vl, i))
  }

  lemma SlotLength(flat: seq<byte>, vl: nat, n: nat, i: nat)
    requires i < n && Off(n, vl) <= |flat|
    ensures Off(i, vl) + vl <= |flat| && |Slot(flat, vl, i)| == vl
  {
    OffNext(i, vl);
    OffMono(i + 1, n, vl);
  }

  lemma SpliceSlotInside(flat: seq<byte>, vl: nat, n: nat, at: nat, src: seq<byte>, cnt: nat, k: nat)
    requires at <= k < at + cnt <= n && Off(n, vl) <= |flat| && |src| == Off(cnt, vl)
    requires Off(at, vl) + |src| <= |flat|
    ensures Slot(Splice(flat, Off(at, vl), src), vl, k) == Slot(src, vl, k - at)
  {
    hide Off, Splice, Slots;
    SlotLength(flat, vl, n, k);
    SlotLength(src, vl, cnt, k - at);
    OffSum(at, k - at, vl);
    var a, o := Off(at, vl), Off(k - at, vl);
    SpliceSlice(flat, a, src, o, vl);
    assert Off(k, vl) == a + o;
  }

  lemma SpliceSlotOutside(flat: seq<byte>, vl: nat, n: nat, at: nat, src: seq<byte>, cnt: nat, k: nat)
    requires k < n && at + cnt <= n && Off(n, vl) <= |flat| && |src| == Off(cnt, vl)
    requires Off(at, vl) + |src| <= |flat| && (k < at || at + cnt <= k)
    ensures Slot(Splice(flat, Off(at, vl), src), vl, k) == Slot(flat, vl, k)
  {
    hide Off, Splice, Slots;
    SlotLength(flat, vl, n, k);
    OffNext(k, vl);
    if k < at {
      OffMono(k + 1, at, vl);
    } else {
      OffMono(at + cnt, k, vl);
      OffSum(at, cnt, vl);
    }
    SpliceOutside(flat, Off(at, vl), src, Off(k, vl), vl);
  }

  lemma SpliceSlice<T>(s: seq<T>, at: nat, src: seq<T>, o: nat, len: nat)
    requires at + |src| <= |s| && o + len <= |src|
    ensures Splice(s, at, src)[at + o..at + o + len] == src[o..o + len]
  {
  }

  lemma SliceSlice<T>(s: seq<T>, a: nat, n: nat, o: nat, len: nat)
    requires a + n <= |s| && o + len <= n
    ensures s[a..a + n][o..o + len] == s[a + o..a + o + len]
  {
    var x, y := s[a..a + n][o..o + len], s[a + o..a + o + len];
    forall i | 0 <= i < len
      ensures x[i] == y[i]
    {
      assert s[a..a + n][o + i] == s[a + o + i];
    }
  }

  lemma SpliceOutside<T>(s: seq<T>, at: nat, src: seq<T>, o: nat, len: nat)
    requires at + |src| <= |s| && o + len <= |s|
    requires o + len <= at || at + |src| <= o
    ensures Splice(s, at, src)[o..o + len] == s[o..o + len]
  {
  }

  /** Overwriting `cnt` whole slots replaces exactly those slots. */
  lemma SpliceSlots(flat: seq<byte>, vl: nat, n: nat, at: nat, src: seq<byte>, cnt: nat)
    requires Off(n, vl) <= |flat| && at + cnt <= n && |src| == Off(cnt, vl)
    requires Off(at, vl) + |src| <= |flat|
    ensures Slots(Splice(flat, Off(at, vl), src), vl, n) == Splice(Slots(flat, vl, n), at, Slots(src, vl, cnt))
  {
    hide Off, Slot, Slots, Splice;
    var all, x, y := Splice(flat, Off(at, vl), src), Slots(flat, vl, n), Slots(src, vl, cnt);
    forall k | 0 <= k < n
      ensures Slots(all, vl, n)[k] == (if at <= k < at + cnt then y[k - at] else x[k])
    {
      if at <= k < at + cnt {
        SpliceSlotInside(flat, vl, n, at, src, cnt, k);
      } else {
        SpliceSlotOutside(flat, vl, n, at, src, cnt, k);
      }
    }
    SpliceIs(x, at, y, Slots(all, vl, n));
  }

  lemma SpliceIs<T>(s: seq<T>, at: nat, src: seq<T>, r: seq<T>)
    requires at + |src| <= |s| == |r|
    requires forall k :: 0 <= k < |s| ==> r[k] == if at <= k < at + |src| then src[k - at] else s[k]
    ensures r == Splice(s, at, src)
  {
  }

  /** The slots of a contiguous piece of the store are the corresponding slots of the store. */
  lemma SlotsOfPiece(flat: seq<byte>, vl: nat, n: nat, at: nat, cnt: nat)
    requires Off(n, vl) <= |flat| && at + cnt <= n
    ensures Off(at, vl) + Off(cnt, vl) <= |flat|
    ensures Slots(flat[Off(at, vl)..Off(at, vl) + Off(cnt, vl)], vl, cnt) == Slots(flat, vl, n)[at..at + cnt]
  {
    hide Off, Slot;
    OffSum(at, cnt, vl);
    OffMono(at + cnt, n, vl);
    var piece := flat[Off(at, vl)..Off(at, vl) + Off(cnt, vl)];
    forall k | 0 <= k < cnt
      ensures Slots(piece, vl, cnt)[k] == Slots(flat, vl, n)[at..at + cnt][k]
    {
      SlotOfPiece(flat, vl, at, cnt, k);
    }
  }

  lemma SlotOfPiece(flat: seq<byte>, vl: nat, at: nat, cnt: nat, k: nat)
    requires Off(at, vl) + Off(cnt, vl) <= |flat| && k < cnt
    ensures Slot(flat[Off(at, vl)..Off(at, vl) + Off(cnt, vl)], vl, k) == Slot(flat, vl, at + k)
  {
    hide Off;
    OffNext(k, vl);
    OffMono(k + 1, cnt, vl);
    OffSum(at, k, vl);
    SliceSlice(flat, Off(at, vl), Off(cnt, vl), Off(k, vl), vl);
  }

  /** A RAM part of whole slots never cuts a slot in two. */
  lemma NoSlotStraddles(ramBytes: nat, vl: nat, i: nat)
    requires vl > 0 && ramBytes % vl == 0
    ensures Off(i, vl) < ramBytes ==> Off(i, vl) + vl <= ramBytes
  {
    var q := ramBytes / vl;
    OffIsProduct(q, vl);
    if i >= q {
      OffMono(q, i, vl);
    } else {
      OffNext(i, vl);
      OffMono(i + 1, q, vl);
    }
  }
}
