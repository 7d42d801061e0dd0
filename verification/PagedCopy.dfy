/** Reading and writing target memory page by page through its page tables. */
module PagedCopy {
  import opened Bytes
  import opened Paging
  import opened Options

  /** Can the byte behind `va` be copied: translated, below the physical bound, on a readable page? */
  predicate Copyable(m: Phys, cr3: nat, va: nat)
  {
    var p := Translate(m, cr3, va);
    p.Some? && p.value < BOUND && m.ok(p.value / PAGE)
  }

  ghost predicate AllCopyable(m: Phys, cr3: nat, va: nat, len: nat)
  {
    forall x :: va <= x < va + len ==> Copyable(m, cr3, x)
  }

  /** All-or-nothing kernel copy of [phys, phys + n): its verdict. */
  predicate Readable(m: Phys, phys: nat, n: nat)
    ensures Readable(m, phys, n) <==> forall x :: phys <= x < phys + n ==> m.ok(x / PAGE)
  {
    if n == 0 then true else m.ok((phys + n - 1) / PAGE) && Readable(m, phys, n - 1)
  }

  /** Length of the piece of [va, va + left) that lies in va's page. */
  function Piece(l: Leaf, va: nat, left: nat): (n: nat)
    requires l.Leaf? && l.level < 4 && left > 0
    ensures 0 < n <= left && va % Size(l.level) + n <= Size(l.level)
  {
    var avail := Size(l.level) - va % Size(l.level);
    if left > avail then avail else left
  }

  /** Every address of a piece translates to its place in one physical run. */
  ghost predicate Run(m: Phys, cr3: nat, va: nat, n: nat, phys: nat)
  {
    forall x :: va <= x < va + n ==> Translate(m, cr3, x) == Some(phys + (x - va))
  }

  lemma PieceIsRun(m: Phys, cr3: nat, va: nat, left: nat)
    requires left > 0 && Walk(m, cr3, va).Leaf? && Walk(m, cr3, va).level < 4
    ensures var l := Walk(m, cr3, va); Run(m, cr3, va, Piece(l, va, left), Place(l, va))
  {
    hide Walk, Place, Translate, Size, Piece;
    var l := Walk(m, cr3, va);
    forall x | va <= x < va + Piece(l, va, left)
      ensures Translate(m, cr3, x) == Some(Place(l, va) + (x - va))
    {
      TranslateRun(m, cr3, va, x - va);
    }
  }

  /** The checks on one piece succeed exactly when each of its bytes can be copied. */
  lemma RunCopyable(m: Phys, cr3: nat, va: nat, n: nat, phys: nat)
    requires n > 0 && Run(m, cr3, va, n, phys)
    ensures phys < BOUND && phys + n <= BOUND && Readable(m, phys, n) <==> AllCopyable(m, cr3, va, n)
  {
    hide Translate, Readable;
    if phys < BOUND && phys + n <= BOUND && Readable(m, phys, n) {
    } else if AllCopyable(m, cr3, va, n) {
      assert Copyable(m, cr3, va + n - 1) && Copyable(m, cr3, va);
      forall x | phys <= x < phys + n
        ensures m.ok(x / PAGE)
      {
        assert Copyable(m, cr3, va + (x - phys));
      }
    }
  }

  lemma WalkDecides(m: Phys, cr3: nat, va: nat)
    ensures Walk(m, cr3, va).Leaf? ==> Walk(m, cr3, va).level < 4
    ensures Walk(m, cr3, va).NoLeaf? ==> !Copyable(m, cr3, va)
  {
  }

  lemma Split(m: Phys, cr3: nat, va: nat, a: nat, b: nat)
    ensures AllCopyable(m, cr3, va, a + b) <==> AllCopyable(m, cr3, va, a) && AllCopyable(m, cr3, va + a, b)
  {
    hide Copyable;
  }

  /** What a read must return. */
  ghost predicate ReadsAs(m: Phys, cr3: nat, va: nat, out: seq<byte>)
  {
    forall x :: va <= x < va + |out| ==>
      Translate(m, cr3, x).Some? && out[x - va] == m.bytes(Translate(m, cr3, x).value)
  }

  lemma ReadStep(m: Phys, cr3: nat, va: nat, out: seq<byte>, n: nat, phys: nat)
    requires ReadsAs(m, cr3, va, out) && Run(m, cr3, va + |out|, n, phys)
    ensures ReadsAs(m, cr3, va, out + Slice(m.bytes, phys, n))
  {
    hide Translate;
    var out' := out + Slice(m.bytes, phys, n);
    forall x | va <= x < va + |out'|
      ensures Translate(m, cr3, x).Some? && out'[x - va] == m.bytes(Translate(m, cr3, x).value)
    {
      if x >= va + |out| { assert Translate(m, cr3, x) == Some(phys + (x - (va + |out|))); }
    }
  }

  /** proc_ptwalk_read: page by page, exactly the bytes the per-address translation gives. */
  method Read(m: Phys, cr3: nat, va: nat, len: nat) returns (ok: bool, out: seq<byte>)
    ensures ok <==> len > 0 && AllCopyable(m, cr3, va, len)
    ensures ok ==> |out| == len && ReadsAs(m, cr3, va, out)
  {
    hide Walk, Place, Translate, Size, Piece, Copyable, Readable, Slice, AllCopyable, ReadsAs, Run;
    ok, out := false, [];
    if len == 0 { return; }
    NothingRead(m, cr3, va);
    while |out| < len
      invariant |out| <= len && AllCopyable(m, cr3, va, |out|) && ReadsAs(m, cr3, va, out)
      decreases len - |out|
    {
      var cur, left := va + |out|, len - |out|;
      var l := WalkLeaf(m, cr3, cur);
      WalkDecides(m, cr3, cur);
      Split(m, cr3, va, |out|, left);
      if l.NoLeaf? { FirstBlocked(m, cr3, cur, left); return; }
      var phys, n := Place(l, cur), Piece(l, cur, left);
      PieceIsRun(m, cr3, cur, left);
      RunCopyable(m, cr3, cur, n, phys);
      Split(m, cr3, cur, n, left - n);
      if phys >= BOUND || phys + n > BOUND || !Readable(m, phys, n) { return; }
      Split(m, cr3, va, |out|, n);
      ReadStep(m, cr3, va, out, n, phys);
      out := out + Slice(m.bytes, phys, n);
    }
    ok := true;
  }

  lemma NothingRead(m: Phys, cr3: nat, va: nat)
    ensures AllCopyable(m, cr3, va, 0) && ReadsAs(m, cr3, va, [])
  {
  }

  lemma FirstBlocked(m: Phys, cr3: nat, va: nat, len: nat)
    requires len > 0 && !Copyable(m, cr3, va)
    ensures !AllCopyable(m, cr3, va, len)
  {
  }

  // ----- writing -----

  function EntryBytes(at: nat): (s: set<nat>)
    ensures forall x :: x in s <==> at <= x < at + 8
  {
    {at, at + 1, at + 2, at + 3, at + 4, at + 5, at + 6, at + 7}
  }

  /** Bytes of the table entries a walk reads. */
  function WalkReads(m: Phys, table: nat, level: nat, va: nat): set<nat>
    requires level < 4
    decreases 4 - level
  {
    if table >= BOUND then {}
    else
      var at := table + 8 * Index(va, level);
      var here := EntryBytes(at);
      match Entry(m, table, Index(va, level))
      case None => here
      case Some(e) =>
        if !Present(e) || Ends(e, level) || level == 3 then here
        else here + WalkReads(m, Frame(e), level + 1, va)
  }

  /** Changing bytes the walk does not read does not change the walk. */
  lemma {:induction false} WalkStable(m: Phys, n: Phys, table: nat, level: nat, va: nat)
    requires level < 4 && n.ok == m.ok
    requires forall x :: x in WalkReads(m, table, level, va) ==> n.bytes(x) == m.bytes(x)
    ensures WalkFrom(n, table, level, va) == WalkFrom(m, table, level, va)
    decreases 4 - level
  {
    hide Frame, Index, LeVal, EntryBytes;
    if table < BOUND {
      var at := table + 8 * Index(va, level);
      assert forall x :: x in EntryBytes(at) ==> x in WalkReads(m, table, level, va);
      assert Slice(n.bytes, at, 8) == Slice(m.bytes, at, 8);
      var e := Entry(m, table, Index(va, level));
      if e.Some? && Present(e.value) && !Ends(e.value, level) && level < 3 {
        WalkStable(m, n, Frame(e.value), level + 1, va);
      }
    }
  }

  /** The written addresses lie on distinct physical bytes, none of them in a table used to reach them. */
  ghost predicate Separate(m: Phys, cr3: nat, va: nat, len: nat)
  {
    && (forall x, y :: va <= x < va + len && va <= y < va + len && Translate(m, cr3, x).Some? ==>
          Translate(m, cr3, x).value !in WalkReads(m, Frame(cr3), 0, y))
    && (forall x, y :: va <= x < va + len && va <= y < va + len && x != y && Translate(m, cr3, x).Some? ==>
          Translate(m, cr3, x) != Translate(m, cr3, y))
  }

  ghost predicate Touched(m: Phys, cr3: nat, va: nat, len: nat, a: nat)
  {
    exists x :: va <= x < va + len && Translate(m, cr3, x) == Some(a)
  }

  /** `n` is `m` with `src` written at the physical bytes behind [va, va + |src|), and nothing else changed. */
  ghost predicate Wrote(m: Phys, n: Phys, cr3: nat, va: nat, src: seq<byte>)
  {
    && n.ok == m.ok
    && (forall x :: va <= x < va + |src| ==>
          Translate(m, cr3, x).Some? && n.bytes(Translate(m, cr3, x).value) == src[x - va])
    && (forall a: nat :: !Touched(m, cr3, va, |src|, a) ==> n.bytes(a) == m.bytes(a))
  }

  function StoredByte(m: Phys, phys: nat, piece: seq<byte>, a: nat): byte
  {
    if phys <= a < phys + |piece| then piece[a - phys] else m.bytes(a)
  }

  /** kernel_copyin of one run. */
  function Stored(m: Phys, phys: nat, piece: seq<byte>): Phys
  {
    Phys(a => StoredByte(m, phys, piece, a), m.ok)
  }

  lemma StoredAt(m: Phys, phys: nat, piece: seq<byte>, a: nat)
    ensures Stored(m, phys, piece).bytes(a) == if phys <= a < phys + |piece| then piece[a - phys] else m.bytes(a)
    ensures Stored(m, phys, piece).ok == m.ok
  {
  }

  /** While writing, translations stay what they were. */
  lemma WalksUnchanged(m: Phys, n: Phys, cr3: nat, va: nat, len: nat, src: seq<byte>, y: nat)
    requires Separate(m, cr3, va, len) && |src| <= len && Wrote(m, n, cr3, va, src) && va <= y < va + len
    ensures Walk(n, cr3, y) == Walk(m, cr3, y)
  {
    hide Translate, WalkReads;
    forall a | a in WalkReads(m, Frame(cr3), 0, y)
      ensures n.bytes(a) == m.bytes(a)
    {
      assert forall x :: va <= x < va + |src| ==> Translate(m, cr3, x) != Some(a);
      assert !Touched(m, cr3, va, |src|, a);
    }
    WalkStable(m, n, Frame(cr3), 0, y);
  }

  lemma RunTouches(m: Phys, cr3: nat, va: nat, n: nat, phys: nat, a: nat)
    requires Run(m, cr3, va, n, phys)
    ensures Touched(m, cr3, va, n, a) <==> phys <= a < phys + n
  {
    hide Translate;
    if phys <= a < phys + n {
      assert Translate(m, cr3, va + (a - phys)) == Some(a);
    }
  }

  lemma WriteStep(m: Phys, c: Phys, cr3: nat, va: nat, len: nat, src: seq<byte>, done: nat, n: nat, phys: nat)
    requires done + n <= |src| == len && Separate(m, cr3, va, len)
    requires Wrote(m, c, cr3, va, src[..done]) && Run(m, cr3, va + done, n, phys)
    ensures Wrote(m, Stored(c, phys, src[done..done + n]), cr3, va, src[..done + n])
  {
    hide Translate, Stored, WalkReads;
    var piece := src[done..done + n];
    var d := Stored(c, phys, piece);
    StoredAt(c, phys, piece, 0);
    forall x | va <= x < va + done + n
      ensures Translate(m, cr3, x).Some? && d.bytes(Translate(m, cr3, x).value) == src[..done + n][x - va]
    {
      if x < va + done {
        assert Translate(m, cr3, x).Some?;
        var a := Translate(m, cr3, x).value;
        StoredAt(c, phys, piece, a);
        RunTouches(m, cr3, va + done, n, phys, a);
        assert !Touched(m, cr3, va + done, n, a);
      } else {
        assert Translate(m, cr3, x) == Some(phys + (x - (va + done)));
        StoredAt(c, phys, piece, phys + (x - (va + done)));
      }
    }
    forall a: nat | !Touched(m, cr3, va, done + n, a)
      ensures d.bytes(a) == m.bytes(a)
    {
      StoredAt(c, phys, piece, a);
      RunTouches(m, cr3, va + done, n, phys, a);
      assert !Touched(m, cr3, va + done, n, a) && !Touched(m, cr3, va, done, a);
    }
  }

  class Machine {
    var m: Phys

    constructor (m: Phys)
      ensures this.m == m
    {
      this.m := m;
    }

    /** proc_ptwalk_write: on success the bytes are in place and nothing else changed; a failure part-way
        leaves the pages before it written. */
    method Write(cr3: nat, va: nat, src: seq<byte>) returns (ok: bool, ghost done: nat)
      requires Separate(m, cr3, va, |src|)
      modifies this
      ensures done <= |src| && Wrote(old(m), m, cr3, va, src[..done])
      ensures ok <==> |src| > 0 && AllCopyable(old(m), cr3, va, |src|)
      ensures ok ==> done == |src|
    {
      hide Walk, Place, Translate, Size, Piece, Copyable, Readable, AllCopyable, Run, Wrote, Separate, Stored;
      var len := |src|;
      ghost var m0 := m;
      ok, done := false, 0;
      NothingWritten(m0, cr3, va);
      assert src[..0] == [];
      if len == 0 { return; }
      var pos: nat := 0;
      while pos < len
        invariant pos == done <= len && Wrote(m0, m, cr3, va, src[..done]) && AllCopyable(m0, cr3, va, done)
        decreases len - pos
      {
        var cur, left := va + pos, len - pos;
        var l := WalkLeaf(m, cr3, cur);
        WalksUnchanged(m0, m, cr3, va, len, src[..done], cur);
        WalkDecides(m0, cr3, cur);
        Split(m0, cr3, va, pos, left);
        if l.NoLeaf? { FirstBlocked(m0, cr3, cur, left); return; }
        var phys, n := Place(l, cur), Piece(l, cur, left);
        PieceIsRun(m0, cr3, cur, left);
        RunCopyable(m0, cr3, cur, n, phys);
        Split(m0, cr3, cur, n, left - n);
        SameVerdict(m0, m, cr3, va, src[..done], phys, n);
        if phys >= BOUND || phys + n > BOUND || !Readable(m, phys, n) { return; }
        Split(m0, cr3, va, pos, n);
        WriteStep(m0, m, cr3, va, len, src, pos, n, phys);
        m := Stored(m, phys, src[pos..pos + n]);
        pos, done := pos + n, done + n;
      }
      ok := true;
    }
  }

  lemma NothingWritten(m: Phys, cr3: nat, va: nat)
    ensures Wrote(m, m, cr3, va, []) && AllCopyable(m, cr3, va, 0)
  {
  }

  lemma SameVerdict(m: Phys, n: Phys, cr3: nat, va: nat, src: seq<byte>, phys: nat, len: nat)
    requires Wrote(m, n, cr3, va, src)
    ensures Readable(n, phys, len) <==> Readable(m, phys, len)
  {
  }

  /** Reading after writing returns the written bytes. */
  method WriteThenRead(mach: Machine, cr3: nat, va: nat, src: seq<byte>) returns (ok: bool, back: seq<byte>)
    requires Separate(mach.m, cr3, va, |src|)
    modifies mach
    ensures ok <==> |src| > 0 && AllCopyable(old(mach.m), cr3, va, |src|)
    ensures ok ==> back == src && Wrote(old(mach.m), mach.m, cr3, va, src)
  {
    hide Walk, Place, Translate, Size, Copyable, AllCopyable, Wrote, Separate, ReadsAs;
    ghost var m0 := mach.m;
    ghost var done;
    back := [];
    ok, done := mach.Write(cr3, va, src);
    if ok {
      assert src[..done] == src;
      var rok;
      rok, back := Read(mach.m, cr3, va, |src|);
      WrittenReadsBack(m0, mach.m, cr3, va, src, if rok then back else src);
    }
  }

  lemma WrittenReadsBack(m: Phys, n: Phys, cr3: nat, va: nat, src: seq<byte>, back: seq<byte>)
    requires Separate(m, cr3, va, |src|) && Wrote(m, n, cr3, va, src) && AllCopyable(m, cr3, va, |src|)
    ensures AllCopyable(n, cr3, va, |src|)
    ensures |back| == |src| && ReadsAs(n, cr3, va, back) ==> back == src
  {
    hide Walk, Separate;
    forall x | va <= x < va + |src|
      ensures Translate(n, cr3, x) == Translate(m, cr3, x) && Copyable(n, cr3, x)
    {
      WalksUnchanged(m, n, cr3, va, |src|, src, x);
      assert Copyable(m, cr3, x);
    }
    if |back| == |src| && ReadsAs(n, cr3, va, back) {
      forall i | 0 <= i < |src|
        ensures back[i] == src[i]
      {
        assert Translate(n, cr3, va + i) == Translate(m, cr3, va + i);
      }
    }
  }
}
