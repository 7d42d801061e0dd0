/** The aliasing reader: target pages appear in our own address space through a cached span translation. */
module ScanAlias {
  import opened Bytes
  import opened Paging
  import opened PageTables
  import opened AliasArena
  import opened Options

  predicate Uncached(e: nat) { (e / 0x10) % 2 == 1 }

  predicate InSpan(va: nat, span: nat)
  {
    span <= va < span + SPAN
  }

  // ----- resolving one 2 MiB span -----

  datatype Resolved = Failed | HugeSpan(base: nat, pte: nat) | TableSpan(table: nat)

  /** Every address of the span is served by one huge entry and translates to `base` plus its offset. */
  ghost predicate HugeOk(m: Phys, cr3: nat, span: nat, base: nat, pte: nat)
  {
    forall va: nat :: InSpan(va, span) ==>
      Walk(m, cr3, va).Leaf? && Walk(m, cr3, va).e == pte && Translate(m, cr3, va) == Some(base + (va - span))
  }

  /** Every address of the span is decided by leaf table `table`. */
  ghost predicate TableOk(m: Phys, cr3: nat, span: nat, table: nat)
  {
    forall va: nat :: InSpan(va, span) ==> Walk(m, cr3, va) == WalkFrom(m, table, 3, va)
  }

  ghost predicate Via(m: Phys, cr3: nat, span: nat, table: nat, level: nat)
    requires level < 4
  {
    forall va: nat :: InSpan(va, span) ==> Walk(m, cr3, va) == WalkFrom(m, table, level, va)
  }

  lemma SpanIndex(span: nat, va: nat, level: nat)
    requires span % SPAN == 0 && InSpan(va, span) && level <= 2
    ensures Index(va, level) == Index(span, level)
    ensures va / Size(2) == span / Size(2)
  {
    ModUnique(va, SPAN, span / SPAN, va - span);
    SamePageSameIndex(va, span, 2, level);
  }

  /** A huge entry serves the whole span contiguously. */
  lemma HugeEntry(m: Phys, cr3: nat, span: nat, table: nat, level: nat, e: nat)
    requires 1 <= level <= 2 && span % SPAN == 0 && Via(m, cr3, span, table, level) && table < BOUND
    requires Entry(m, table, Index(span, level)) == Some(e) && Present(e) && Huge(e)
    ensures HugeOk(m, cr3, span, Frame(e) - Frame(e) % Size(level) + span % Size(level), e)
  {
    hide Frame, Index, Entry, Walk;
    forall va: nat | InSpan(va, span)
      ensures Walk(m, cr3, va) == Leaf(e, level)
      ensures Translate(m, cr3, va) == Some(Frame(e) - Frame(e) % Size(level) + span % Size(level) + (va - span))
    {
      SpanIndex(span, va, level);
      OffsetInPage(span, va, level);
    }
  }

  lemma OffsetInPage(span: nat, va: nat, level: nat)
    requires 1 <= level <= 2 && span % SPAN == 0 && InSpan(va, span)
    ensures va % Size(level) == span % Size(level) + (va - span)
  {
    var s := Size(level);
    var q, r := span / s, span % s;
    SpanRemainder(span, level);
    ModUnique(va, s, q, r + (va - span));
  }

  /** A span starts at a multiple of 2 MiB inside its page. */
  lemma SpanRemainder(span: nat, level: nat)
    requires 1 <= level <= 2 && span % SPAN == 0
    ensures span % Size(level) + SPAN <= Size(level)
  {
    var k := span / SPAN;
    assert span == SPAN * k;
    if level == 1 {
      ModUnique(span, Size(1), k / 512, SPAN * (k % 512));
    } else {
      ModUnique(span, Size(2), k, 0);
    }
  }

  lemma Descend(m: Phys, cr3: nat, span: nat, table: nat, level: nat, e: nat)
    requires level <= 2 && span % SPAN == 0 && Via(m, cr3, span, table, level) && table < BOUND
    requires Entry(m, table, Index(span, level)) == Some(e) && Present(e) && !Ends(e, level)
    ensures Via(m, cr3, span, Frame(e), level + 1)
  {
    hide Frame, Index, Entry, Walk;
    forall va: nat | InSpan(va, span)
      ensures Walk(m, cr3, va) == WalkFrom(m, Frame(e), level + 1, va)
    {
      SpanIndex(span, va, level);
    }
  }

  ghost predicate Unmapped(m: Phys, cr3: nat, span: nat)
  {
    forall va: nat :: InSpan(va, span) ==> Walk(m, cr3, va) == NoLeaf
  }

  lemma DeadEnd(m: Phys, cr3: nat, span: nat, table: nat, level: nat)
    requires level <= 3 && span % SPAN == 0 && Via(m, cr3, span, table, level)
    requires table >= BOUND
          || (level <= 2
              && (Entry(m, table, Index(span, level)).None? || !Present(Entry(m, table, Index(span, level)).value)))
    ensures Unmapped(m, cr3, span)
  {
    hide Frame, Index, Entry, Walk;
    forall va: nat | InSpan(va, span)
      ensures Walk(m, cr3, va) == NoLeaf
    {
      if level <= 2 { SpanIndex(span, va, level); }
    }
  }

  /** proc_ptwalk_span_resolve. */
  method SpanResolve(m: Phys, cr3: nat, span: nat) returns (r: Resolved)
    requires span % SPAN == 0
    ensures r.Failed? ==> Unmapped(m, cr3, span)
    ensures r.HugeSpan? ==> HugeOk(m, cr3, span, r.base, r.pte)
    ensures r.TableSpan? ==> r.table < BOUND && r.table % PAGE == 0 && TableOk(m, cr3, span, r.table)
  {
    hide Frame, Index, Entry, Walk, Translate, WalkFrom, HugeOk, Unmapped;
    var table: nat := Frame(cr3);
    Root(m, cr3, span);
    var level: nat := 0;
    while level < 3
      invariant level <= 3 && Via(m, cr3, span, table, level) && table % PAGE == 0
    {
      hide Via;
      if table >= BOUND { DeadEnd(m, cr3, span, table, level); return Failed; }
      var e := Entry(m, table, Index(span, level));
      if e.None? || !Present(e.value) { DeadEnd(m, cr3, span, table, level); return Failed; }
      if (level == 1 || level == 2) && Huge(e.value) {
        HugeEntry(m, cr3, span, table, level, e.value);
        var base := Frame(e.value) - Frame(e.value) % Size(level);
        return HugeSpan(base + span % Size(level), e.value);
      }
      Descend(m, cr3, span, table, level, e.value);
      table, level := Frame(e.value), level + 1;
    }
    if table >= BOUND { DeadEnd(m, cr3, span, table, 3); return Failed; }
    return TableSpan(table);
  }

  lemma Root(m: Phys, cr3: nat, span: nat)
    ensures Via(m, cr3, span, Frame(cr3), 0)
  {
  }

  // ----- the leaf table behind a window -----

  /** The leaf table that a walk from the given table reaches; its entries need not be present. */
  function LeafTableFrom(m: Phys, table: nat, level: nat, va: nat): (t: Option<nat>)
    requires level < 4
    decreases 4 - level
  {
    if table >= BOUND then None
    else match Entry(m, table, Index(va, level))
      case None => None
      case Some(e) =>
        if level == 3 then Some(table)
        else if !Present(e) || Ends(e, level) then None
        else LeafTableFrom(m, Frame(e), level + 1, va)
  }

  function LeafTable(m: Phys, cr3: nat, va: nat): (t: Option<nat>) { LeafTableFrom(m, Frame(cr3), 0, va) }

  /** proc_ptwalk_leaf_addr for the first page of a span: the address of its leaf table. */
  method LeafAddr(m: Phys, cr3: nat, va: nat) returns (t: Option<nat>)
    ensures t == LeafTable(m, cr3, va)
  {
    hide Frame, Index, Entry;
    var table: nat, level: nat := Frame(cr3), 0;
    while level < 4
      invariant 0 <= level < 4
      invariant LeafTableFrom(m, table, level, va) == LeafTable(m, cr3, va)
      decreases 4 - level
    {
      if table >= BOUND { return None; }
      var e := Entry(m, table, Index(va, level));
      if e.None? { return None; }
      if level == 3 { return Some(table); }
      if !Present(e.value) { return None; }
      if (level == 1 || level == 2) && Huge(e.value) { return None; }
      table, level := Frame(e.value), level + 1;
    }
    return None;
  }

  /** Every address of the span walks through that table. */
  lemma {:induction false} WindowWalks(m: Phys, table: nat, level: nat, span: nat, va: nat)
    requires level < 4 && span % SPAN == 0 && InSpan(va, span)
    requires LeafTableFrom(m, table, level, span).Some?
    ensures WalkFrom(m, table, level, va) == WalkFrom(m, LeafTableFrom(m, table, level, span).value, 3, va)
    ensures LeafTableFrom(m, table, level, span).value < BOUND
    decreases 4 - level
  {
    hide Frame, Index;
    if level < 3 {
      SpanIndex(span, va, level);
      var e := Entry(m, table, Index(span, level));
      WindowWalks(m, Frame(e.value), level + 1, span, va);
    }
  }

  lemma WindowIndex(span: nat, x: nat)
    requires span % SPAN == 0 && x < SPAN
    ensures Index(span + x, 3) == x / PAGE && (span + x) % PAGE == x % PAGE
  {
    var q := span / SPAN;
    assert span == PAGE * (512 * q);
    assert (span + x) / PAGE == 512 * q + x / PAGE;
    ModUnique(512 * q + x / PAGE, 512, q, x / PAGE);
  }

  /** In any memory whose leaf table for the window holds `t`, byte x of the window is what the walk of our own
      tables gives at the window's address. */
  lemma WindowByteIsWalk(n: Phys, cr3: nat, span: nat, t: seq<nat>, x: nat)
    requires span % SPAN == 0 && x < SPAN && |t| == 512 && LeafTable(n, cr3, span).Some?
    requires forall k :: 0 <= k < 512 ==> Entry(n, LeafTable(n, cr3, span).value, k) == Some(t[k])
    ensures WindowByte(n, t, x) == TargetByte(n, cr3, span + x)
  {
    hide Index, Frame, WalkFrom, LeafTableFrom;
    var table := LeafTable(n, cr3, span).value;
    WindowWalks(n, Frame(cr3), 0, span, span + x);
    WindowIndex(span, x);
    LastLevel(n, table, span + x, t[x / PAGE]);
    PlaceInSmall(t[x / PAGE], span + x);
  }

  lemma LastLevel(n: Phys, table: nat, va: nat, e: nat)
    requires table < BOUND && Entry(n, table, Index(va, 3)) == Some(e)
    ensures WalkFrom(n, table, 3, va) == if Present(e) then Leaf(e, 3) else NoLeaf
  {
  }

  lemma PlaceInSmall(e: nat, va: nat)
    ensures Place(Leaf(e, 3), va) == Frame(e) + va % PAGE
  {
  }

  // ----- the cache -----

  /** Leaf table contents decide the span. */
  ghost predicate LeavesOk(m: Phys, cr3: nat, span: nat, pt: seq<nat>)
  {
    && |pt| == 512
    && forall va: nat :: InSpan(va, span) ==>
         Walk(m, cr3, va) == if Present(pt[Index(va, 3)]) then Leaf(pt[Index(va, 3)], 3) else NoLeaf
  }

  /** Bulk read of a leaf table. */
  function TableWords(m: Phys, table: nat): (s: seq<nat>)
    ensures |s| == 512
  {
    seq(512, i requires 0 <= i < 512 => LeVal(Slice(m.bytes, table + 8 * i, 8)))
  }

  lemma WordsDecide(m: Phys, cr3: nat, span: nat, table: nat)
    requires TableOk(m, cr3, span, table) && table < BOUND && m.ok(table / PAGE)
    ensures LeavesOk(m, cr3, span, TableWords(m, table))
  {
    hide Index, LeVal, Slice, Walk;
  }

  const TOP: nat := 0x10_0000_0000_0000

  /** Physical addresses from page-table entries stay below 2^52. */
  lemma PlaceBelowTop(l: Leaf, va: nat)
    requires l.Leaf? && 1 <= l.level < 4
    ensures Place(l, va) < TOP
    ensures va % PAGE == 0 ==> Place(l, va) % PAGE == 0
  {
    hide Frame;
    FrameBelowTop(l.e);
    if l.level == 1 {
      PlaceBelow(Frame(l.e), va, 0x4_0000, 0x40_0000);
    } else if l.level == 2 {
      PlaceBelow(Frame(l.e), va, 0x200, 0x8000_0000);
    } else {
      PlaceBelow(Frame(l.e), va, 1, 0x100_0000_0000);
    }
  }

  lemma FrameBelowTop(e: nat)
    ensures Frame(e) < TOP
  {
  }

  /** A page of `m` frames, `k` of which fill the physical address space. */
  lemma PlaceBelow(f: nat, va: nat, m: nat, k: nat)
    requires m > 0 && k * (m * PAGE) == TOP && f < TOP && f % PAGE == 0
    ensures 0 <= f - f % (m * PAGE) + va % (m * PAGE) < TOP
    ensures va % PAGE == 0 ==> (f - f % (m * PAGE) + va % (m * PAGE)) % PAGE == 0
  {
    PlaceBelowMultiple(f, va, m * PAGE, k);
    if va % PAGE == 0 {
      WholeFrames(f, m);
      WholeFrames(va, m);
      WholeSum(f, f % (m * PAGE), va % (m * PAGE));
    }
  }

  lemma WholeSum(a: nat, b: nat, c: nat)
    requires a % PAGE == 0 && b % PAGE == 0 && c % PAGE == 0
    ensures (a - b + c) % PAGE == 0
  {
  }

  lemma PlaceBelowMultiple(f: nat, va: nat, size: nat, k: nat)
    requires size > 0 && f < k * size
    ensures 0 <= f - f % size + va % size < k * size
  {
    hide Off;
    var q := f / size;
    QuotientOff(f, size);
    OffIsProduct(k, size);
    if q >= k {
      OffMono(k, q, size);
    } else {
      OffNext(q, size);
      OffMono(q + 1, k, size);
    }
  }

  lemma WholeFrames(a: nat, m: nat)
    requires m > 0 && a % PAGE == 0
    ensures a % (m * PAGE) % PAGE == 0
  {
    DivMod(a, m * PAGE);
    var q := a / (m * PAGE);
    var r := a % (m * PAGE);
    assert a == PAGE * (q * m) + r;
    assert PAGE * (a / PAGE) == a;
    MulDistributes(PAGE, a / PAGE, q * m);
    ModUnique(r, PAGE, a / PAGE - q * m, 0);
  }

  /** The alias entry for a page frame gives that frame back. */
  lemma AliasEntry(tphys: nat)
    requires tphys % PAGE == 0 && tphys < TOP
    ensures Present(Frame(tphys) + 7) && Frame(Frame(tphys) + 7) == tphys
  {
  }

  function PageBase(a: nat): (p: nat)
    ensures p % PAGE == 0 && p <= a < p + PAGE
  {
    a / PAGE * PAGE
  }

  function SpanBase(a: nat): (p: nat)
    ensures p % SPAN == 0 && InSpan(a, p)
  {
    a / SPAN * SPAN
  }

  /** A target page that may be aliased: mapped by an entry that leaves caching on. */
  ghost predicate Mappable(m: Phys, cr3: nat, va: nat)
  {
    Walk(m, cr3, va).Leaf? && exists x: Fields :: FieldsOk(x) && Walk(m, cr3, va).e == Encoded(x) && !x.cacheOff
  }

  /** Testing bit 4 of the entry decides it. */
  lemma MappableByBit(m: Phys, cr3: nat, va: nat)
    ensures Mappable(m, cr3, va) <==> Walk(m, cr3, va).Leaf? && !Uncached(Walk(m, cr3, va).e)
  {
    hide WalkFrom, Frame, Encoded;
    var l := Walk(m, cr3, va);
    if l.Leaf? {
      WalkedEntry(m, Frame(cr3), 0, va);
      var y := EveryEntry(l.e);
      FieldsRead(y);
      BitsAreBits(y.cacheOff);
      if Mappable(m, cr3, va) {
        var x: Fields :| FieldsOk(x) && l.e == Encoded(x) && !x.cacheOff;
        FieldsRead(x);
      }
    }
  }

  /** A page whose entry is its frame and flags below bit 4 may be aliased; with the cache-disable
      bit added it may not. */
  lemma CacheBit(m: Phys, cr3: nat, va: nat, f: nat, flags: nat)
    requires f % PAGE == 0 && flags < 0x10 && Walk(m, cr3, va).Leaf?
    ensures Walk(m, cr3, va).e == f + flags ==> Mappable(m, cr3, va)
    ensures Walk(m, cr3, va).e == f + flags + 0x10 ==> !Mappable(m, cr3, va)
  {
    hide WalkFrom, Mappable, Walk;
    MappableByBit(m, cr3, va);
    FrameFlags(f, flags);
  }

  lemma FrameFlags(f: nat, flags: nat)
    requires f % PAGE == 0 && flags < 0x10
    ensures !Uncached(f + flags) && Uncached(f + flags + 0x10)
  {
    var k := f / PAGE;
    DivMod(f, PAGE);
    FieldAt(f + flags, 0x10, 2, flags, 0, 0x80 * k);
    FieldAt(f + flags + 0x10, 0x10, 2, flags, 1, 0x80 * k);
  }

  /** A page mapped with caching off. */
  ghost predicate CacheOff(m: Phys, cr3: nat, va: nat)
  {
    Walk(m, cr3, va).Leaf? && exists x: Fields :: FieldsOk(x) && Walk(m, cr3, va).e == Encoded(x) && x.cacheOff
  }

  lemma CacheOffBlocks(m: Phys, cr3: nat, first: nat, n: nat)
    ensures (exists k: nat :: k < n && CacheOff(m, cr3, first + k * PAGE)) ==> !AllMappable(m, cr3, first, n)
  {
    hide WalkFrom, Walk, Encoded;
    if k: nat :| k < n && CacheOff(m, cr3, first + k * PAGE) {
      var e := Walk(m, cr3, first + k * PAGE).e;
      var x: Fields :| FieldsOk(x) && e == Encoded(x) && x.cacheOff;
      FieldsRead(x);
      MappableByBit(m, cr3, first + k * PAGE);
      assert !Mappable(m, cr3, first + k * PAGE);
    }
  }

  ghost predicate AllMappable(m: Phys, cr3: nat, first: nat, n: nat)
  {
    forall k :: 0 <= k < n ==> Mappable(m, cr3, first + k * PAGE)
  }

  lemma NotMappable(m: Phys, cr3: nat, span: nat)
    requires Unmapped(m, cr3, span)
    ensures forall va: nat :: InSpan(va, span) ==> !Mappable(m, cr3, va)
  {
    hide Walk;
  }

  lemma UncachedSpan(m: Phys, cr3: nat, span: nat, base: nat, pte: nat)
    requires HugeOk(m, cr3, span, base, pte) && Uncached(pte)
    ensures forall va: nat :: InSpan(va, span) ==> !Mappable(m, cr3, va)
  {
    hide Walk, Uncached, Mappable;
    forall va: nat | InSpan(va, span)
      ensures !Mappable(m, cr3, va)
    {
      MappableByBit(m, cr3, va);
    }
  }

  lemma UnreadableTable(m: Phys, cr3: nat, span: nat, table: nat)
    requires TableOk(m, cr3, span, table) && !m.ok(table / PAGE)
    ensures forall va: nat :: InSpan(va, span) ==> !Mappable(m, cr3, va)
  {
    hide Walk, Uncached, Index;
  }

  class Reader {
    const m: Phys
    var cr3: nat
    var scValid: bool
    var scSpan: nat
    var scHuge: bool
    var scBase: nat
    var scPte: nat
    var spanPt: seq<nat>
    const arena: Arena
    /** Our own page tables above the leaf level, which no map changes. */
    const own: Phys
    const ownCr3: nat

    constructor (m: Phys, cr3: nat, arena: Arena, own: Phys, ownCr3: nat)
      ensures this.m == m && this.cr3 == cr3 && this.arena == arena && this.own == own && this.ownCr3 == ownCr3
              && !scValid
    {
      this.m, this.cr3, this.arena, this.own, this.ownCr3 := m, cr3, arena, own, ownCr3;
      scValid, scSpan, scHuge, scBase, scPte, spanPt := false, 0, false, 0, 0, [];
    }

    /** The cached span agrees with the target's page tables. */
    ghost predicate Coherent()
      reads this
    {
      scValid ==>
        && scSpan % SPAN == 0
        && (if scHuge
            then HugeOk(m, cr3, scSpan, scBase, scPte) && !Uncached(scPte)
            else LeavesOk(m, cr3, scSpan, spanPt))
    }

    /** Make the cache hold `span`; false if it cannot be resolved or is uncached memory. */
    method Fill(span: nat) returns (ok: bool)
      requires Coherent() && span % SPAN == 0
      modifies this`scValid, this`scSpan, this`scHuge, this`scBase, this`scPte, this`spanPt
      ensures Coherent()
      ensures ok ==> scValid && scSpan == span
      ensures !ok ==> forall va: nat :: InSpan(va, span) ==> !Mappable(m, cr3, va)
    {
      hide HugeOk, LeavesOk, TableOk, Unmapped;
      if scValid && scSpan == span { return true; }
      var r := SpanResolve(m, cr3, span);
      match r {
        case Failed =>
          NotMappable(m, cr3, span);
          return false;
        case HugeSpan(base, pte) =>
          if Uncached(pte) {
            UncachedSpan(m, cr3, span, base, pte);
            return false;
          }
          scHuge, scBase, scPte := true, base, pte;
        case TableSpan(table) =>
          if !m.ok(table / PAGE) {
            UnreadableTable(m, cr3, span, table);
            return false;
          }
          WordsDecide(m, cr3, span, table);
          spanPt, scHuge := TableWords(m, table), false;
      }
      scSpan, scValid := span, true;
      ok := true;
    }

    /** Physical page of one target page, through the cache. */
    method PagePhys(tpage: nat) returns (ok: bool, tphys: nat)
      requires Coherent() && tpage % PAGE == 0
      modifies this`scValid, this`scSpan, this`scHuge, this`scBase, this`scPte, this`spanPt
      ensures Coherent()
      ensures ok <==> Mappable(m, cr3, tpage)
      ensures ok ==> Translate(m, cr3, tpage) == Some(tphys) && tphys % PAGE == 0 && tphys < TOP
    {
      hide Index, Frame, Size, Place, Uncached, Mappable;
      tphys := 0;
      MappableByBit(m, cr3, tpage);
      var span := SpanBase(tpage);
      ok := Fill(span);
      if !ok { return; }
      if scHuge {
        tphys := scBase + (tpage - span);
        assert Translate(m, cr3, tpage) == Some(tphys);
      } else {
        var e := spanPt[Index(tpage, 3)];
        if !Present(e) || Uncached(e) { return false, 0; }
        tphys := Frame(e);
        SmallPage(m, cr3, tpage, e);
      }
      TranslatedPage(m, cr3, tpage, tphys);
    }

    /** The entries that alias `n` target pages from `first`, or failure. */
    method Entries(first: nat, n: nat) returns (ok: bool, entries: seq<nat>)
      requires Coherent() && first % PAGE == 0
      modifies this`scValid, this`scSpan, this`scHuge, this`scBase, this`scPte, this`spanPt
      ensures Coherent()
      ensures ok <==> AllMappable(m, cr3, first, n)
      ensures ok ==> |entries| == n && Aliases(m, cr3, first, entries)
    {
      hide Frame, Present, HugeOk, LeavesOk, Translate;
      entries := [];
      for k := 0 to n
        invariant Coherent() && |entries| == k && Aliases(m, cr3, first, entries)
        invariant AllMappable(m, cr3, first, k)
      {
        PageAligned(first, k);
        var good, tphys := PagePhys(first + k * PAGE);
        if !good { return false, entries; }
        AliasEntry(tphys);
        entries := entries + [Frame(tphys) + 7];
      }
      ok := true;
    }
  }

  lemma PageAligned(first: nat, k: nat)
    requires first % PAGE == 0
    ensures (first + k * PAGE) % PAGE == 0
  {
  }

  lemma SmallPage(m: Phys, cr3: nat, va: nat, e: nat)
    requires Walk(m, cr3, va) == Leaf(e, 3) && va % PAGE == 0
    ensures Translate(m, cr3, va) == Some(Frame(e))
  {
  }

  lemma TranslatedPage(m: Phys, cr3: nat, va: nat, p: nat)
    requires Translate(m, cr3, va) == Some(p) && va % PAGE == 0
    ensures p < TOP && p % PAGE == 0
  {
    PlaceBelowTop(Walk(m, cr3, va), va);
  }

  /** Entry k carries the physical page of target page k. */
  ghost predicate Aliases(m: Phys, cr3: nat, first: nat, entries: seq<nat>)
  {
    forall k :: 0 <= k < |entries| ==>
      Present(entries[k]) && Translate(m, cr3, first + k * PAGE) == Some(Frame(entries[k]))
  }

  // ----- the whole map -----

  /** What the environment decides during one map. */
  datatype MapEnv = MapEnv(got: nat, readOk: bool, write: Copy, verifyOk: bool,
                           zero: Copy, zeroAfter: Copy, reclaimRead: nat -> bool)

  /** Pages touched by [tgt, tgt + len). */
  function Pages(tgt: nat, len: nat): nat
  {
    (tgt % PAGE + len + PAGE - 1) / PAGE
  }

  /** So many pages and no fewer reach from the first page's base to the end of the range. */
  lemma PagesExact(tgt: nat, len: nat)
    requires len > 0
    ensures Pages(tgt, len) > 0
    ensures PageBase(tgt) + (Pages(tgt, len) - 1) * PAGE < tgt + len <= PageBase(tgt) + Pages(tgt, len) * PAGE
  {
    DivMod(tgt, PAGE);
    DivMod(tgt % PAGE + len + PAGE - 1, PAGE);
  }

  /** Byte of our address space at offset `x` of the window behind table `t`. */
  function WindowByte(m: Phys, t: seq<nat>, x: nat): Option<byte>
    requires |t| == 512
  {
    if x / PAGE < 512 && Present(t[x / PAGE]) then Some(m.bytes(Frame(t[x / PAGE]) + x % PAGE)) else None
  }

  /** Byte of the target's address space. */
  function TargetByte(m: Phys, cr3: nat, va: nat): Option<byte>
  {
    match Translate(m, cr3, va)
    case Some(p) => Some(m.bytes(p))
    case None => None
  }

  /** The 4 KiB page around a translated page base is translated contiguously. */
  lemma PageBytes(m: Phys, cr3: nat, page: nat, p: nat, o: nat)
    requires page % PAGE == 0 && o < PAGE && Translate(m, cr3, page) == Some(p)
    ensures Translate(m, cr3, page + o) == Some(p + o)
  {
    hide Walk, Place;
    var l := Walk(m, cr3, page);
    RoomInPage(l, page);
    TranslateRun(m, cr3, page, o);
  }

  lemma RoomInPage(l: Leaf, page: nat)
    requires l.Leaf? && 1 <= l.level < 4 && page % PAGE == 0
    ensures page % Size(l.level) + PAGE <= Size(l.level)
  {
    var k := page / PAGE;
    assert page == PAGE * k;
    if l.level == 1 {
      ModUnique(page, Size(1), k / 0x4_0000, PAGE * (k % 0x4_0000));
    } else if l.level == 2 {
      ModUnique(page, Size(2), k / 512, PAGE * (k % 512));
    } else {
      ModUnique(page, Size(3), k, 0);
    }
  }

  /** Reads through the window are the target's bytes, page for page. */
  lemma WindowIsTarget(m: Phys, cr3: nat, first: nat, entries: seq<nat>, t: seq<nat>, x: nat)
    requires first % PAGE == 0 && Aliases(m, cr3, first, entries) && |t| == 512
    requires |entries| <= 512 && t[..|entries|] == entries && x < |entries| * PAGE
    ensures WindowByte(m, t, x) == TargetByte(m, cr3, first + x)
    ensures WindowByte(m, t, x).Some?
  {
    hide Translate, Frame, Present;
    var k, o := x / PAGE, x % PAGE;
    assert k < |entries| && t[k] == t[..|entries|][k];
    PageAligned(first, k);
    PageBytes(m, cr3, first + k * PAGE, Frame(entries[k]), o);
    assert first + x == first + k * PAGE + o;
  }

  /** The window shows the target's bytes over the whole requested range. */
  ghost predicate Faithful(m: Phys, cr3: nat, tgt: nat, len: nat, t: seq<nat>)
  {
    && |t| == 512
    && forall b: nat :: tgt <= b < tgt + len ==>
         TargetByte(m, cr3, b).Some? && WindowByte(m, t, tgt % PAGE + (b - tgt)) == TargetByte(m, cr3, b)
  }

  lemma MapIsFaithful(m: Phys, cr3: nat, tgt: nat, len: nat, entries: seq<nat>, t: seq<nat>)
    requires Aliases(m, cr3, PageBase(tgt), entries) && |t| == 512 && |entries| == Pages(tgt, len) <= MAX_PAGES
    requires t[..|entries|] == entries
    ensures Faithful(m, cr3, tgt, len, t)
  {
    hide Aliases, WindowByte, TargetByte;
    forall b: nat | tgt <= b < tgt + len
      ensures TargetByte(m, cr3, b).Some? && WindowByte(m, t, tgt % PAGE + (b - tgt)) == TargetByte(m, cr3, b)
    {
      WindowIsTarget(m, cr3, PageBase(tgt), entries, t, tgt % PAGE + (b - tgt));
      assert PageBase(tgt) + (tgt % PAGE + (b - tgt)) == b;
    }
  }

  /** The leaf table a map would write to. */
  function WindowTable(r: Reader, got: nat): Option<nat>
    reads r.arena
  {
    LeafTable(r.own, r.ownCr3, r.arena.Upcoming(got))
  }

  /** Everything a map needs, except that its verification finds the same bytes. */
  ghost predicate CanMap(r: Reader, tgt: nat, len: nat, env: MapEnv)
    reads r, r.arena
  {
    && 0 < len && Pages(tgt, len) <= 511
    && (r.arena.HasSpan() || env.got != 0)
    && WindowTable(r, env.got).Some? && WindowTable(r, env.got).value in r.arena.tables
    && Unused(r.arena.tables[WindowTable(r, env.got).value], Pages(tgt, len))
    && AllMappable(r.m, r.cr3, PageBase(tgt), Pages(tgt, len))
    && env.readOk && env.write.Accepted?
  }

  predicate Unused(t: seq<nat>, n: nat)
  {
    n <= |t| == 512 && forall k :: 0 <= k < n ==> !Present(t[k])
  }

  /** If the map has to be taken back, does the zeroing copy reach as far as the writing one did? */
  predicate CleansUp(tgt: nat, len: nat, env: MapEnv)
  {
    env.verifyOk || Reached(env.write, Pages(tgt, len)) <= Reached(env.zeroAfter, Pages(tgt, len))
  }

  /** scan_alias_map from a state in which nothing is mapped. */
  method MapIdle(r: Reader, tgt: nat, len: nat, env: MapEnv) returns (ok: bool)
    requires r.Coherent() && r.arena.Valid() && r.arena.cap >= SPAN && !r.arena.active
    modifies r, r.arena
    ensures r.Coherent() && r.arena.Valid() && r.cr3 == old(r.cr3)
    ensures r.arena.largest
         <= (if Pages(tgt, len) > old(r.arena.largest) then Pages(tgt, len) else old(r.arena.largest))
    // a map succeeds exactly when nothing stands in its way
    ensures ok <==> old(CanMap(r, tgt, len, env)) && env.verifyOk
    ensures ok == r.arena.active && (ok ==> r.arena.raw != 0)
    ensures ok && Reached(env.write, Pages(tgt, len)) == Pages(tgt, len) ==>
              r.arena.activePt in r.arena.tables && Faithful(r.m, r.cr3, tgt, len, r.arena.tables[r.arena.activePt])
    ensures ok ==> AllMappable(r.m, r.cr3, PageBase(tgt), Pages(tgt, len))
    ensures (exists k: nat :: k < Pages(tgt, len) && CacheOff(r.m, r.cr3, PageBase(tgt) + k * PAGE)) ==> !ok
    // it uses one span, which HandedOk says is fresh, and writes only to vacant entries of that span's table
    ensures r.arena.handed == old(r.arena.handed)
         || r.arena.handed == old(r.arena.handed) + [(r.arena.mapping, old(r.arena.Upcoming(env.got)))]
    ensures if old(WindowTable(r, env.got)).Some?
            then OnlyFills(old(r.arena.tables), r.arena.tables, old(WindowTable(r, env.got)).value, Pages(tgt, len))
            else r.arena.tables == old(r.arena.tables)
    // a failed map leaves an entry behind exactly when it was taken back with a zeroing copy that fell short
    ensures !ok ==> (r.arena.live <= old(r.arena.live) <==> !old(CanMap(r, tgt, len, env)) || CleansUp(tgt, len, env))
  {
    hide LiveOk, Aliases, Faithful, OnlyFills, HugeOk, LeavesOk, ArenaOk, Reached, SlotsBelow, AllMappable, Present;
    hide Overlay, Zeros, Preserved, Vacant, HandedOk, LeafTableFrom, AlignUp, CacheOff;
    CacheOffBlocks(r.m, r.cr3, PageBase(tgt), Pages(tgt, len));
    PagesPositive(tgt, len);
    var a := r.arena;
    ghost var t0, live0 := a.tables, a.live;
    LiveArePresent(live0, t0, a.usedPt, a.usedCount, a.largest);
    if WindowTable(r, env.got).Some? { NothingFilled(t0, WindowTable(r, env.got).value, Pages(tgt, len)); }
    ok := false;
    if len == 0 { return; }
    var npages := Pages(tgt, len);
    if npages == 0 || npages > MAX_PAGES { return; }
    var got, span := a.NextSpan(env.zero, env.reclaimRead, env.got);
    if !got { return; }
    var pt := LeafAddr(r.own, r.ownCr3, span);
    if pt.None? || pt.value !in a.tables { return; }
    var good, entries := r.Entries(PageBase(tgt), npages);
    if !good { return; }
    AliasesPresent(r.m, r.cr3, PageBase(tgt), entries);
    ok := WriteAndVerify(r, tgt, len, pt.value, entries, env, live0);
  }

  /** The write of the computed entries, and its verification. */
  method WriteAndVerify(r: Reader, tgt: nat, len: nat, pt: nat, entries: seq<nat>, env: MapEnv, ghost were: set<Slot>)
    returns (ok: bool)
    requires r.arena.Valid() && !r.arena.active && r.arena.raw != 0 && pt in r.arena.tables
    requires 0 < len && |entries| == Pages(tgt, len) <= MAX_PAGES && 0 < |entries|
    requires Aliases(r.m, r.cr3, PageBase(tgt), entries) && forall k :: 0 <= k < |entries| ==> Present(entries[k])
    requires r.arena.live <= were && AllPresent(were, r.arena.tables)
    modifies r.arena
    ensures r.arena.Valid() && ok == r.arena.active
    ensures r.arena.largest == if |entries| > old(r.arena.largest) then |entries| else old(r.arena.largest)
    ensures r.arena.raw == old(r.arena.raw) && r.arena.handed == old(r.arena.handed)
            && r.arena.mapping == old(r.arena.mapping)
    ensures OnlyFills(old(r.arena.tables), r.arena.tables, pt, |entries|)
    ensures ok <==> env.readOk && env.write.Accepted? && Unused(old(r.arena.tables)[pt], |entries|) && env.verifyOk
    ensures ok && Reached(env.write, |entries|) == |entries| ==>
              r.arena.activePt in r.arena.tables && Faithful(r.m, r.cr3, tgt, len, r.arena.tables[r.arena.activePt])
    ensures !ok ==> (r.arena.live <= were
                     <==> !(env.readOk && env.write.Accepted? && Unused(old(r.arena.tables)[pt], |entries|))
                          || CleansUp(tgt, len, env))
  {
    hide LiveOk, Aliases, Faithful, OnlyFills, ArenaOk, Reached, SlotsBelow, Present;
    hide Overlay, Zeros, Preserved, Vacant, HandedOk;
    var a := r.arena;
    ghost var t0, live0 := a.tables, a.live;
    TableSize(t0, pt);
    ok := a.Install(pt, entries, env.readOk, env.write, env.zero);
    if !ok { return; }
    if Reached(env.write, |entries|) == |entries| {
      assert entries[..|entries|] == entries;
      MapIsFaithful(r.m, r.cr3, tgt, len, entries, a.tables[pt]);
    }
    if !env.verifyOk {
      ghost var t1 := a.tables;
      a.Release(env.zeroAfter);
      ok := false;
      TakenBack(t0, t1, pt, |entries|, Reached(env.zeroAfter, |entries|));
      NewSlots(live0, were, t0, pt, Reached(env.write, |entries|), Reached(env.zeroAfter, |entries|));
    }
  }

  lemma TableSize(t: map<nat, seq<nat>>, pt: nat)
    requires TablesOk(t) && pt in t
    ensures |t[pt]| == 512
  {
  }

  /** Zeroing what was just written still changes only entries that were not present. */
  lemma TakenBack(t0: map<nat, seq<nat>>, t1: map<nat, seq<nat>>, pt: nat, n: nat, z: nat)
    requires OnlyFills(t0, t1, pt, n) && pt in t1 && z <= n <= MAX_PAGES && Unused(t0[pt], n)
    ensures OnlyFills(t0, t1[pt := Overlay(t1[pt], Zeros(n), z)], pt, n)
  {
    hide Present;
  }

  /** Of `w` entries written over vacant places and `z` zeroed again, none is new exactly when `z` reaches `w`. */
  lemma NewSlots(live: set<Slot>, were: set<Slot>, t0: map<nat, seq<nat>>, pt: nat, w: nat, z: nat)
    requires pt in t0 && Unused(t0[pt], w) && live <= were && AllPresent(were, t0)
    ensures (live + SlotsBelow(pt, w)) - SlotsBelow(pt, z) <= were <==> w <= z
  {
    hide Present;
    if z < w { assert (pt, z) in SlotsBelow(pt, w) && (pt, z) !in SlotsBelow(pt, z) && (pt, z) !in were; }
  }

  lemma NothingAsked(r: Reader, tgt: nat, env: MapEnv)
    requires TablesOk(r.arena.tables)
    ensures !CanMap(r, tgt, 0, env)
    ensures WindowTable(r, env.got).Some? ==>
              OnlyFills(r.arena.tables, r.arena.tables, WindowTable(r, env.got).value, Pages(tgt, 0))
  {
    if WindowTable(r, env.got).Some? { NothingFilled(r.arena.tables, WindowTable(r, env.got).value, Pages(tgt, 0)); }
  }

  /** scan_alias_map: release what is still mapped, then map. */
  method Map(r: Reader, tgt: nat, len: nat, env: MapEnv) returns (ok: bool)
    requires r.Coherent() && r.arena.Valid() && r.arena.cap >= SPAN
    modifies r, r.arena
    ensures r.Coherent() && r.arena.Valid() && r.cr3 == old(r.cr3)
    ensures r.arena.largest
         <= (if Pages(tgt, len) > old(r.arena.largest) then Pages(tgt, len) else old(r.arena.largest))
    ensures ok ==> r.arena.active && r.arena.raw != 0
    ensures ok && Reached(env.write, Pages(tgt, len)) == Pages(tgt, len) ==>
              r.arena.activePt in r.arena.tables && Faithful(r.m, r.cr3, tgt, len, r.arena.tables[r.arena.activePt])
    ensures ok ==> AllMappable(r.m, r.cr3, PageBase(tgt), Pages(tgt, len))
    ensures (exists k: nat :: k < Pages(tgt, len) && CacheOff(r.m, r.cr3, PageBase(tgt) + k * PAGE)) ==> !ok
    ensures !old(r.arena.active) ==> (ok <==> old(CanMap(r, tgt, len, env)) && env.verifyOk)
    ensures r.arena.handed == old(r.arena.handed)
         || r.arena.handed == old(r.arena.handed) + [(r.arena.mapping, old(r.arena.Upcoming(env.got)))]
    ensures !old(r.arena.active) ==>
              if old(WindowTable(r, env.got)).Some?
              then OnlyFills(old(r.arena.tables), r.arena.tables, old(WindowTable(r, env.got)).value, Pages(tgt, len))
              else r.arena.tables == old(r.arena.tables)
    ensures !ok ==> !r.arena.active || len == 0
    ensures !ok && CleansUp(tgt, len, env) ==> r.arena.live <= old(r.arena.live)
    ensures !ok && !old(r.arena.active) ==>
              (r.arena.live <= old(r.arena.live) <==> !old(CanMap(r, tgt, len, env)) || CleansUp(tgt, len, env))
  {
    hide LiveOk, Aliases, Faithful, OnlyFills, HugeOk, LeavesOk, ArenaOk, Reached, SlotsBelow, AllMappable, Present;
    hide Overlay, Zeros, Preserved, Vacant, HandedOk, LeafTable, CleansUp, CanMap, Pages, TablesOk, CacheOff;
    if len == 0 {
      NothingAsked(r, tgt, env);
      return false;
    }
    if r.arena.active { r.arena.Release(env.zero); }
    ok := MapIdle(r, tgt, len, env);
  }

  lemma PagesPositive(tgt: nat, len: nat)
    ensures len > 0 ==> Pages(tgt, len) > 0
  {
  }

  lemma AliasesPresent(m: Phys, cr3: nat, first: nat, entries: seq<nat>)
    requires Aliases(m, cr3, first, entries)
    ensures forall k :: 0 <= k < |entries| ==> Present(entries[k])
  {
  }

  /** scan_alias_rebind: another target, so the cache is dropped. */
  method Rebind(r: Reader, cr3: nat, zero: Copy)
    requires r.Coherent() && r.arena.Valid()
    modifies r, r.arena
    ensures r.Coherent() && r.arena.Valid() && r.cr3 == cr3 && !r.arena.active
    ensures r.arena.largest == old(r.arena.largest) && r.arena.raw == old(r.arena.raw)
    ensures r.arena.live <= old(r.arena.live)
  {
    if r.arena.active { r.arena.Release(zero); }
    r.cr3, r.scValid := cr3, false;
  }

  datatype Op = MapOp(tgt: nat, len: nat, env: MapEnv) | ReleaseOp(zero: Copy) | RebindOp(cr3: nat, zero: Copy)
              | EndOp(zero: Copy, readOk: nat -> bool, got: nat)

  predicate SmallMaps(ops: seq<Op>)
  {
    forall i :: 0 <= i < |ops| && ops[i].MapOp? ==> Pages(ops[i].tgt, ops[i].len) <= 384
  }

  /** No map of the run is taken back with a zeroing copy that falls short. */
  predicate AllCleanUp(ops: seq<Op>)
  {
    forall i :: 0 <= i < |ops| && ops[i].MapOp? ==> CleansUp(ops[i].tgt, ops[i].len, ops[i].env)
  }

  /** Every map of the run failed. */
  predicate NoneMapped(ops: seq<Op>, oks: seq<bool>)
    requires |oks| <= |ops|
  {
    forall i :: 0 <= i < |oks| && ops[i].MapOp? ==> !oks[i]
  }

  /** Every run of map, release, rebind and end (each end followed by a new begin) keeps the cache coherent. With it:
      no entry that was present at the start is ever changed; no span is handed out twice from one mapping; every entry
      left at the end was there at the start, came from a map that succeeded, or from one that failed, and of the last
      kind there are none if every taken-back map is zeroed as far as it was written; and with maps of at most 384
      pages no arena is ever unmapped with an alias entry still present. */
  method Run(r: Reader, ops: seq<Op>) returns (oks: seq<bool>, ghost mapped: set<Slot>, ghost stray: set<Slot>)
    requires r.Coherent() && r.arena.Valid() && r.arena.cap >= SPAN
    modifies r, r.arena
    ensures r.Coherent() && r.arena.Valid() && |oks| == |ops|
    ensures Preserved(r.arena.origin, r.arena.tables)
    ensures forall i, j :: 0 <= i < j < |r.arena.handed| ==> r.arena.handed[i] != r.arena.handed[j]
    ensures r.arena.live <= old(r.arena.live) + mapped + stray
    ensures NoneMapped(ops, oks) ==> mapped == {}
    ensures AllCleanUp(ops) ==> stray == {}
    ensures old(r.arena.largest) <= 384 && SmallMaps(ops) ==> !r.arena.unsafeUnmap
  {
    hide LiveOk, HugeOk, LeavesOk, ArenaOk, Faithful, Pages, Preserved, Vacant, CleansUp, OnlyFills, CanMap, LeafTable;
    hide CacheOff, AllMappable;
    ghost var live0 := r.arena.live;
    oks, mapped, stray := [], {}, {};
    for i := 0 to |ops|
      invariant r.Coherent() && r.arena.Valid() && |oks| == i
      invariant old(r.arena.largest) <= VERIFY_IDX && SmallMaps(ops) ==> r.arena.largest <= VERIFY_IDX
      invariant r.arena.live <= live0 + mapped + stray
      invariant NoneMapped(ops, oks) ==> mapped == {}
      invariant AllCleanUp(ops) ==> stray == {}
    {
      ghost var before, were := r.arena.live, oks;
      match ops[i] {
        case MapOp(tgt, len, env) =>
          var ok := Map(r, tgt, len, env);
          if ok { mapped := mapped + (r.arena.live - before); } else { stray := stray + (r.arena.live - before); }
          oks := oks + [ok];
        case ReleaseOp(zero) =>
          r.arena.Release(zero);
          oks := oks + [true];
        case RebindOp(cr3, zero) =>
          Rebind(r, cr3, zero);
          oks := oks + [true];
        case EndOp(zero, readOk, got) =>
          r.arena.Release(zero);
          if r.arena.raw != 0 { var _ := r.arena.Reclaim(zero, readOk); }
          var ok := r.arena.Allocate(got);
          oks := oks + [ok];
      }
      Longer(ops, were, oks[i]);
      assert oks == were + [oks[i]];
    }
  }

  lemma Longer(ops: seq<Op>, oks: seq<bool>, ok: bool)
    requires |oks| < |ops|
    ensures NoneMapped(ops, oks + [ok]) <==> NoneMapped(ops, oks) && (ops[|oks|].MapOp? ==> !ok)
  {
    var all := oks + [ok];
    assert all[|oks|] == ok && all[..|oks|] == oks;
    if NoneMapped(ops, all) {
      forall i | 0 <= i < |oks| && ops[i].MapOp? ensures !oks[i] { assert !all[i]; }
    }
  }
}
