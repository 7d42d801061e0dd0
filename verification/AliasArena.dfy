/** The alias window: leaf entries of our own page tables, written, zeroed and checked before unmapping. */
module AliasArena {
  import opened Paging

  const SPAN: nat := 0x20_0000
  const MAX_PAGES: nat := 511
  const VERIFY_IDX: nat := 384
  const MAX_SPANS: nat := 128

  /** Outcome of a kernel copy-in: refused (nothing written), or accepted with only a prefix reaching memory. */
  datatype Copy = Refused | Accepted(reached: nat)

  /** A table with its first `n` entries replaced. */
  function Overlay(t: seq<nat>, src: seq<nat>, n: nat): (r: seq<nat>)
    requires n <= |src| <= |t|
    ensures |r| == |t|
    ensures forall k :: 0 <= k < |t| ==> r[k] == if k < n then src[k] else t[k]
  {
    src[..n] + t[n..]
  }

  function Zeros(n: nat): (z: seq<nat>)
    ensures |z| == n && forall k :: 0 <= k < n ==> z[k] == 0
  {
    seq(n, k => 0)
  }

  function Reached(c: Copy, n: nat): (r: nat)
    ensures r <= n
  {
    match c
    case Refused => 0
    case Accepted(k) => if k < n then k else n
  }

  /** (table, index) of an alias entry that is still in our page tables. */
  type Slot = (nat, nat)

  function SlotsBelow(pt: nat, n: nat): (s: set<Slot>)
    ensures forall x :: x in s <==> x.0 == pt && 0 <= x.1 < n
  {
    set k | 0 <= k < n :: (pt, k)
  }

  /** A mapped arena's cursor is span-aligned and its spans lie inside the mapping. */
  predicate ArenaOk(raw: nat, mapSize: nat, end: nat, cursor: nat)
  {
    raw != 0 ==> raw <= cursor && end <= raw + mapSize && cursor % SPAN == 0
  }

  predicate TablesOk(tables: map<nat, seq<nat>>)
  {
    forall pt :: pt in tables ==> |tables[pt]| == 512
  }

  /** Every live alias entry is present, below the largest map, and in a recorded table unless the record overflowed. */
  ghost predicate LiveOk(live: set<Slot>, tables: map<nat, seq<nat>>, usedPt: seq<nat>, usedCount: nat, largest: nat)
    requires TablesOk(tables)
  {
    forall x :: x in live ==>
      && x.0 in tables && x.1 < 512 && Present(tables[x.0][x.1]) && x.1 < largest
      && (x.0 in usedPt || usedCount > MAX_SPANS)
  }

  ghost predicate AllPresent(slots: set<Slot>, tables: map<nat, seq<nat>>)
  {
    forall x :: x in slots ==> x.0 in tables && x.1 < |tables[x.0]| && Present(tables[x.0][x.1])
  }

  lemma LiveArePresent(live: set<Slot>, tables: map<nat, seq<nat>>, usedPt: seq<nat>, usedCount: nat, largest: nat)
    requires TablesOk(tables) && LiveOk(live, tables, usedPt, usedCount, largest)
    ensures AllPresent(live, tables)
  {
  }

  lemma LiveAfterZero(live: set<Slot>, tables: map<nat, seq<nat>>, usedPt: seq<nat>, usedCount: nat, largest: nat,
                      pt: nat, pages: nat, n: nat)
    requires TablesOk(tables) && pt in tables && n <= pages <= MAX_PAGES
    requires LiveOk(live, tables, usedPt, usedCount, largest)
    ensures var t := tables[pt := Overlay(tables[pt], Zeros(pages), n)];
            TablesOk(t) && LiveOk(live - SlotsBelow(pt, n), t, usedPt, usedCount, largest)
  {
    hide Present;
  }

  /** Zeroing entries that were not present touches no live entry. */
  lemma LiveAfterRefusal(live: set<Slot>, tables: map<nat, seq<nat>>, usedPt: seq<nat>, usedCount: nat, largest: nat,
                         pt: nat, pages: nat, n: nat)
    requires TablesOk(tables) && pt in tables && n <= pages <= MAX_PAGES
    requires LiveOk(live, tables, usedPt, usedCount, largest)
    requires forall k :: 0 <= k < pages ==> !Present(tables[pt][k])
    ensures var t := tables[pt := Overlay(tables[pt], Zeros(pages), n)];
            TablesOk(t) && LiveOk(live, t, usedPt, usedCount, largest)
  {
    hide Present;
  }

  lemma LiveAfterInstall(live: set<Slot>, tables: map<nat, seq<nat>>, usedPt: seq<nat>, usedCount: nat, largest: nat,
                         pt: nat, entries: seq<nat>, n: nat)
    requires TablesOk(tables) && pt in tables && n <= |entries| <= MAX_PAGES
    requires LiveOk(live, tables, usedPt, usedCount, largest)
    requires |usedPt| == (if usedCount < MAX_SPANS then usedCount else MAX_SPANS) && |entries| <= largest
    requires forall k :: 0 <= k < |entries| ==> !Present(tables[pt][k]) && Present(entries[k])
    ensures var t := tables[pt := Overlay(tables[pt], entries, n)];
            var used := if usedCount < MAX_SPANS then usedPt + [pt] else usedPt;
            TablesOk(t) && LiveOk(live + SlotsBelow(pt, n), t, used, usedCount + 1, largest)
  {
    hide Present;
  }

  /** Everything an arena remembers stays true when entries are written over a vacant place. */
  lemma CommitKeeps(origin: map<nat, seq<nat>>, live: set<Slot>, tables: map<nat, seq<nat>>, usedPt: seq<nat>,
                    usedCount: nat, largest: nat, pt: nat, entries: seq<nat>, n: nat)
    returns (t: map<nat, seq<nat>>, used: seq<nat>)
    requires Preserved(origin, tables) && pt in tables && |tables[pt]| == 512 && n <= |entries| <= MAX_PAGES
    requires LiveOk(live, tables, usedPt, usedCount, largest)
    requires |usedPt| == (if usedCount < MAX_SPANS then usedCount else MAX_SPANS) && |entries| <= largest
    requires forall k :: 0 <= k < |entries| ==> !Present(tables[pt][k]) && Present(entries[k])
    ensures t == tables[pt := Overlay(tables[pt], entries, n)]
    ensures used == if usedCount < MAX_SPANS then usedPt + [pt] else usedPt
    ensures |used| == if usedCount + 1 < MAX_SPANS then usedCount + 1 else MAX_SPANS
    ensures TablesOk(t) && LiveOk(live + SlotsBelow(pt, n), t, used, usedCount + 1, largest)
    ensures Preserved(origin, t) && Vacant(origin, pt, |entries|) && OnlyFills(tables, t, pt, |entries|)
    ensures pt in t && |t[pt]| == 512 && t[pt][..n] == entries[..n]
  {
    hide Present, LiveOk, OnlyFills, Vacant, SlotsBelow;
    t := tables[pt := Overlay(tables[pt], entries, n)];
    used := if usedCount < MAX_SPANS then usedPt + [pt] else usedPt;
    VacantBefore(origin, tables, pt, |entries|);
    PreservedOverlay(origin, tables, pt, entries, n);
    LiveAfterInstall(live, tables, usedPt, usedCount, largest, pt, entries, n);
    OverlayFills(tables, pt, entries, n);
  }

  lemma LiveGrows(live: set<Slot>, tables: map<nat, seq<nat>>, usedPt: seq<nat>, usedCount: nat, a: nat, b: nat)
    requires TablesOk(tables) && LiveOk(live, tables, usedPt, usedCount, a) && a <= b
    ensures LiveOk(live, tables, usedPt, usedCount, b)
  {
    hide Present;
  }

  /** From `t0` to `t1` only entries below `pages` of table `pt` that were not present have changed. */
  ghost predicate OnlyFills(t0: map<nat, seq<nat>>, t1: map<nat, seq<nat>>, pt: nat, pages: nat)
  {
    && t1.Keys == t0.Keys && TablesOk(t0) && TablesOk(t1)
    && forall q, k :: q in t0 && 0 <= k < 512 && t1[q][k] != t0[q][k] ==> q == pt && k < pages && !Present(t0[q][k])
  }

  lemma OverlayFills(t: map<nat, seq<nat>>, pt: nat, src: seq<nat>, n: nat)
    requires TablesOk(t) && pt in t && n <= |src| <= MAX_PAGES
    requires forall k :: 0 <= k < |src| ==> !Present(t[pt][k])
    ensures OnlyFills(t, t[pt := Overlay(t[pt], src, n)], pt, |src|)
  {
    hide Present;
  }

  lemma NothingFilled(t: map<nat, seq<nat>>, pt: nat, pages: nat)
    requires TablesOk(t)
    ensures OnlyFills(t, t, pt, pages)
  {
  }

  /** From `t0` on, no entry that was present there has changed. */
  ghost predicate Preserved(t0: map<nat, seq<nat>>, t1: map<nat, seq<nat>>)
  {
    && t1.Keys == t0.Keys && TablesOk(t0) && TablesOk(t1)
    && forall q, k :: q in t0 && 0 <= k < 512 && Present(t0[q][k]) ==> t1[q][k] == t0[q][k]
  }

  /** The first `n` entries of a table were not present. */
  ghost predicate Vacant(t0: map<nat, seq<nat>>, pt: nat, n: nat)
  {
    pt in t0 && n <= |t0[pt]| && forall k :: 0 <= k < n ==> !Present(t0[pt][k])
  }

  lemma PreservedOverlay(t0: map<nat, seq<nat>>, t1: map<nat, seq<nat>>, pt: nat, src: seq<nat>, n: nat)
    requires Preserved(t0, t1) && n <= |src| <= MAX_PAGES && Vacant(t0, pt, |src|)
    ensures Preserved(t0, t1[pt := Overlay(t1[pt], src, n)])
  {
    hide Present;
  }

  /** Entries that are not present now were not present at the start either. */
  lemma VacantBefore(t0: map<nat, seq<nat>>, t1: map<nat, seq<nat>>, pt: nat, n: nat)
    requires Preserved(t0, t1) && n <= 512 && pt in t1 && forall k :: 0 <= k < n ==> !Present(t1[pt][k])
    ensures Vacant(t0, pt, n)
  {
    hide Present;
  }

  /** A span handed out, and the arena mapping (by number) it belongs to. */
  type Handout = (nat, nat)

  /** No span is handed out twice from one mapping, and those of the current mapping lie below the cursor. */
  ghost predicate HandedOk(handed: seq<Handout>, mapping: nat, cursor: nat)
  {
    && (forall i :: 0 <= i < |handed| ==> handed[i].0 <= mapping)
    && (forall i :: 0 <= i < |handed| && handed[i].0 == mapping ==> handed[i].1 + SPAN <= cursor)
    && (forall i, j :: 0 <= i < j < |handed| ==> handed[i] != handed[j])
  }

  lemma HandOut(handed: seq<Handout>, mapping: nat, cursor: nat)
    requires HandedOk(handed, mapping, cursor)
    ensures HandedOk(handed + [(mapping, cursor)], mapping, cursor + SPAN)
  {
  }

  lemma NewMapping(handed: seq<Handout>, mapping: nat, cursor: nat)
    requires HandedOk(handed, mapping, cursor)
    ensures HandedOk(handed, mapping + 1, 0)
  {
  }

  /** Cursor of a mapping just placed at `got`. */
  function AlignUp(got: nat): (base: nat)
    ensures base % SPAN == 0 && got <= base < got + SPAN
  {
    (got + SPAN - 1) / SPAN * SPAN
  }

  method AllFree(t: seq<nat>, n: nat) returns (free: bool)
    requires n <= |t|
    ensures free <==> forall k :: 0 <= k < n ==> !Present(t[k])
  {
    for k := 0 to n
      invariant forall j :: 0 <= j < k ==> !Present(t[j])
    {
      if Present(t[k]) { return false; }
    }
    return true;
  }

  lemma NoneLive(tables: map<nat, seq<nat>>, largest: nat)
    requires TablesOk(tables)
    ensures LiveOk({}, tables, [], 0, largest)
  {
  }

  class Arena {
    const cap: nat
    var raw: nat
    var mapSize: nat
    var end: nat
    var cursor: nat
    var usedPt: seq<nat>
    var usedCount: nat
    var active: bool
    var activePt: nat
    var activePages: nat
    /** Leaf page tables of our own address space, by kernel address. */
    var tables: map<nat, seq<nat>>
    /** Alias entries of the current arena that are still present. */
    ghost var live: set<Slot>
    /** Largest map so far. */
    ghost var largest: nat
    /** Was an arena ever unmapped with an alias entry still present? */
    ghost var unsafeUnmap: bool
    /** Our page tables at the start. */
    ghost const origin: map<nat, seq<nat>>
    /** Number of the current mapping, and every span handed out so far. */
    ghost var mapping: nat
    ghost var handed: seq<Handout>

    ghost predicate Valid()
      reads this
    {
      && TablesOk(tables)
      && |usedPt| == (if usedCount < MAX_SPANS then usedCount else MAX_SPANS)
      && LiveOk(live, tables, usedPt, usedCount, largest)
      && (active ==> activePt in tables && activePages <= MAX_PAGES)
      && (raw == 0 ==> live == {} && !active && cursor == 0)
      && ArenaOk(raw, mapSize, end, cursor)
      && (largest <= VERIFY_IDX ==> !unsafeUnmap)
      && Preserved(origin, tables) && (active ==> Vacant(origin, activePt, activePages))
      && HandedOk(handed, mapping, cursor)
    }

    /** Is there a span left in the current mapping? */
    predicate HasSpan()
      reads this
    {
      cursor != 0 && cursor + SPAN <= end
    }

    /** The span the next map will use, if a new mapping would be placed at `got`. */
    function Upcoming(got: nat): nat
      reads this
    {
      if HasSpan() then cursor else AlignUp(got)
    }

    /** scan_alias_begin. */
    constructor (cap: nat, tables: map<nat, seq<nat>>)
      requires TablesOk(tables)
      ensures Valid() && this.tables == tables && largest == 0 && live == {} && raw == 0
      ensures origin == tables && handed == []
    {
      this.cap, this.tables := cap, tables;
      raw, mapSize, end, cursor := 0, 0, 0, 0;
      usedPt, usedCount, active, activePt, activePages := [], 0, false, 0, 0;
      live, largest, unsafeUnmap := {}, 0, false;
      origin, mapping, handed := tables, 0, [];
    }

    /** scan_alias_release: zero the active entries; the copy's result is ignored. */
    method Release(zero: Copy)
      requires Valid()
      modifies this
      ensures Valid() && !active && largest == old(largest) && raw == old(raw) && unsafeUnmap == old(unsafeUnmap)
      ensures usedPt == old(usedPt) && usedCount == old(usedCount) && cursor == old(cursor) && end == old(end)
      ensures live <= old(live) && mapSize == old(mapSize) && mapping == old(mapping) && handed == old(handed)
      ensures old(active) ==>
                && old(activePt) in old(tables)
                && live == old(live) - SlotsBelow(old(activePt), Reached(zero, old(activePages)))
                && old(activePages) <= |old(tables)[old(activePt)]|
                && tables == old(tables)[old(activePt) := Overlay(old(tables)[old(activePt)], Zeros(old(activePages)),
                                                                  Reached(zero, old(activePages)))]
      ensures !old(active) ==> tables == old(tables) && live == old(live)
    {
      hide Present, LiveOk, Overlay, Zeros, Preserved, Vacant, HandedOk;
      if !active { return; }
      var n := Reached(zero, activePages);
      LiveAfterZero(live, tables, usedPt, usedCount, largest, activePt, activePages, n);
      PreservedOverlay(origin, tables, activePt, Zeros(activePages), n);
      tables := tables[activePt := Overlay(tables[activePt], Zeros(activePages), n)];
      live := live - SlotsBelow(activePt, n);
      active, activePages, activePt := false, 0, 0;
    }

    /** Does the verification read of one table show no present entry below the checked index? */
    predicate Clear(pt: nat, readOk: bool)
      requires TablesOk(tables)
      reads this
    {
      readOk && pt in tables && forall k :: 0 <= k < 384 ==> !Present(tables[pt][k])
    }

    /** Every table used in this mapping is on record and reads clean. */
    predicate AllClear(readOk: nat -> bool)
      requires TablesOk(tables)
      reads this
    {
      usedCount <= 128 && forall j :: 0 <= j < |usedPt| ==> Clear(usedPt[j], readOk(j))
    }

    /** The verification loop: does every table used in this mapping read clean? */
    method CheckClean(readOk: nat -> bool) returns (clean: bool)
      requires TablesOk(tables) && |usedPt| == (if usedCount < MAX_SPANS then usedCount else MAX_SPANS)
      ensures clean <==> AllClear(readOk)
    {
      hide TablesOk, Clear;
      clean := usedCount <= MAX_SPANS;
      var i := 0;
      while clean && i < usedCount
        invariant 0 <= i <= usedCount
        invariant clean ==> usedCount <= MAX_SPANS && forall j :: 0 <= j < i ==> Clear(usedPt[j], readOk(j))
        invariant !clean ==> usedCount > MAX_SPANS || exists j :: 0 <= j < usedCount && !Clear(usedPt[j], readOk(j))
      {
        if !Clear(usedPt[i], readOk(i)) { clean := false; }
        i := i + 1;
      }
    }

    /** Nothing of the current mapping is remembered. */
    method Forget()
      requires Valid() && !active
      modifies this
      ensures Valid() && raw == 0 && live == {} && !active && cursor == 0
      ensures largest == old(largest) && handed == old(handed) && tables == old(tables)
      ensures unsafeUnmap == old(unsafeUnmap)
    {
      hide Present, LiveOk, TablesOk, Preserved, Vacant, HandedOk;
      NoneLive(tables, largest);
      NewMapping(handed, mapping, cursor);
      raw, mapSize, end, cursor, usedCount, usedPt := 0, 0, 0, 0, 0, [];
      live, mapping := {}, mapping + 1;
    }

    /** Unmap the arena only if every table used in it reads clean. */
    method ReclaimIdle(readOk: nat -> bool) returns (unmapped: bool)
      requires Valid() && raw != 0 && !active
      modifies this
      ensures Valid() && raw == 0 && live == {} && !active && largest == old(largest) && handed == old(handed)
      ensures tables == old(tables)
      ensures unmapped <==> old(AllClear(readOk))
      ensures unsafeUnmap == (old(unsafeUnmap) || (unmapped && old(live) != {}))
      ensures old(largest) <= 384 ==> unsafeUnmap == old(unsafeUnmap)
    {
      hide Present, LiveOk, TablesOk, Clear, AllClear, Preserved, Vacant, HandedOk, ArenaOk;
      unmapped := CheckClean(readOk);
      if unmapped {
        CleanMeansNoneLive(readOk);
        unsafeUnmap := unsafeUnmap || live != {};
      }
      Forget();
    }

    /** sa_reclaim_or_leak: release what is mapped, then unmap or leak. */
    method Reclaim(zero: Copy, readOk: nat -> bool) returns (unmapped: bool)
      requires Valid() && raw != 0
      modifies this
      ensures Valid() && raw == 0 && live == {} && !active && largest == old(largest) && handed == old(handed)
      ensures old(largest) <= 384 || !unmapped ==> unsafeUnmap == old(unsafeUnmap)
      ensures !old(active) ==>
                && tables == old(tables)
                && (unmapped <==> old(AllClear(readOk)))
                && unsafeUnmap == (old(unsafeUnmap) || (unmapped && old(live) != {}))
    {
      hide Present, LiveOk, TablesOk, Clear, AllClear, Preserved, Vacant, HandedOk, Overlay, ArenaOk;
      if active { Release(zero); }
      unmapped := ReclaimIdle(readOk);
    }

    /** With maps of at most 384 pages, a clean check leaves no alias entry behind. */
    lemma CleanMeansNoneLive(readOk: nat -> bool)
      requires Valid() && AllClear(readOk)
      ensures largest <= 384 ==> live == {}
    {
      forall x | x in live
        ensures x.1 >= VERIFY_IDX
      {
        var j :| 0 <= j < |usedPt| && usedPt[j] == x.0;
        assert Clear(usedPt[j], readOk(j));
      }
    }

    /** sa_arena_alloc: reserve one span more than asked, then align up. */
    method Allocate(got: nat) returns (ok: bool)
      requires Valid() && raw == 0
      modifies this
      ensures Valid() && largest == old(largest) && live == {} && !active && unsafeUnmap == old(unsafeUnmap)
      ensures tables == old(tables) && handed == old(handed) && mapping == old(mapping)
      ensures ok <==> got != 0
      ensures ok ==> raw == got && cursor == AlignUp(got) && end == cursor + cap && usedCount == 0
      ensures !ok ==> raw == 0 && cursor == 0
    {
      hide LiveOk, TablesOk, Preserved, Vacant;
      if got == 0 { return false; }
      NoneLive(tables, largest);
      var base := AlignUp(got);
      raw, mapSize, end, cursor, usedCount, usedPt := got, cap + SPAN, base + cap, base, 0, [];
      ok := true;
    }

    /** sa_next_span: the next unused 2 MiB span, in a new arena if the current one is used up. */
    method NextSpan(zero: Copy, readOk: nat -> bool, got: nat) returns (ok: bool, span: nat)
      requires Valid() && !active && cap >= SPAN
      modifies this
      ensures Valid() && !active && largest == old(largest) && tables == old(tables)
      ensures ok ==> raw != 0 && span % SPAN == 0 && cursor == span + SPAN
      ensures ok ==> raw <= span && span + SPAN <= raw + mapSize
      // the span is fresh: HandedOk says that this entry occurs nowhere before
      ensures handed == if ok then old(handed) + [(mapping, span)] else old(handed)
      ensures ok ==> span == old(Upcoming(got))
      ensures ok <==> old(HasSpan()) || got != 0
      ensures !ok ==> raw == 0
      ensures live == old(live) || live == {}
      ensures old(HasSpan()) ==> live == old(live)
    {
      hide LiveOk, TablesOk, Preserved, Vacant, HandedOk;
      span := 0;
      if cursor == 0 || cursor + SPAN > end {
        if raw != 0 { var _ := Reclaim(zero, readOk); }
        ok := Allocate(got);
        if !ok { return; }
      }
      span := cursor;
      HandOut(handed, mapping, cursor);
      handed := handed + [(mapping, cursor)];
      cursor := cursor + SPAN;
      ok := true;
    }

    /** Write the entries that reach memory and record the table. */
    method Commit(pt: nat, entries: seq<nat>, n: nat)
      requires Valid() && !active && raw != 0 && 0 < |entries| <= MAX_PAGES && pt in tables && |tables[pt]| == 512
      requires forall k :: 0 <= k < |entries| ==> Present(entries[k]) && !Present(tables[pt][k])
      requires n <= |entries| <= largest
      modifies this`tables, this`live, this`active, this`activePt, this`activePages, this`usedPt, this`usedCount
      ensures Valid() && OnlyFills(old(tables), tables, pt, |entries|)
      ensures active && activePt == pt && activePages == |entries| && live == old(live) + SlotsBelow(pt, n)
      ensures pt in tables && |tables[pt]| == 512 && tables[pt][..n] == entries[..n]
      ensures usedCount == old(usedCount) + 1
      ensures usedPt == if old(usedCount) < MAX_SPANS then old(usedPt) + [pt] else old(usedPt)
    {
      hide Present, LiveOk, OnlyFills, SlotsBelow, ArenaOk, Preserved, HandedOk, Vacant, TablesOk, Overlay;
      ghost var t, used := CommitKeeps(origin, live, tables, usedPt, usedCount, largest, pt, entries, n);
      tables := tables[pt := Overlay(tables[pt], entries, n)];
      live := live + SlotsBelow(pt, n);
      active, activePt, activePages := true, pt, |entries|;
      usedPt, usedCount := if usedCount < MAX_SPANS then usedPt + [pt] else usedPt, usedCount + 1;
    }

    /** The write was refused: zeros are written over entries that were not present. */
    method Undo(pt: nat, pages: nat, n: nat)
      requires Valid() && !active && raw != 0 && n <= pages <= MAX_PAGES && pt in tables && |tables[pt]| == 512
      requires forall k :: 0 <= k < pages ==> !Present(tables[pt][k])
      modifies this`tables
      ensures Valid() && OnlyFills(old(tables), tables, pt, pages)
    {
      hide Present, LiveOk, OnlyFills, ArenaOk, Zeros, Overlay, Preserved, HandedOk;
      VacantBefore(origin, tables, pt, pages);
      PreservedOverlay(origin, tables, pt, Zeros(pages), n);
      LiveAfterRefusal(live, tables, usedPt, usedCount, largest, pt, pages, n);
      OverlayFills(tables, pt, Zeros(pages), n);
      tables := tables[pt := Overlay(tables[pt], Zeros(pages), n)];
    }

    /** The write half of scan_alias_map: refuse if any entry to be written is present, then write and record. */
    method Install(pt: nat, entries: seq<nat>, readOk: bool, write: Copy, zero: Copy) returns (ok: bool)
      requires Valid() && !active && raw != 0 && 0 < |entries| <= MAX_PAGES && pt in tables && |tables[pt]| == 512
      requires forall k :: 0 <= k < |entries| ==> Present(entries[k])
      modifies this
      ensures Valid() && raw == old(raw) && unsafeUnmap == old(unsafeUnmap) && end == old(end) && cursor == old(cursor)
      ensures handed == old(handed) && mapping == old(mapping)
      ensures largest == (if |entries| > old(largest) then |entries| else old(largest))
      // only not-present entries are overwritten, and only in this table
      ensures OnlyFills(old(tables), tables, pt, |entries|)
      // a refused write leaves no alias entry behind
      ensures !ok ==> live == old(live) && !active
      ensures ok ==> active && activePt == pt && activePages == |entries|
      ensures ok ==> usedCount == old(usedCount) + 1
      ensures ok ==> usedPt == if old(usedCount) < MAX_SPANS then old(usedPt) + [pt] else old(usedPt)
      ensures ok ==> live == old(live) + SlotsBelow(pt, Reached(write, |entries|))
      ensures ok ==>
                && pt in tables && |tables[pt]| == 512
                && tables[pt][..Reached(write, |entries|)] == entries[..Reached(write, |entries|)]
      ensures ok <==> readOk && write.Accepted? && forall k :: 0 <= k < |entries| ==> !Present(old(tables)[pt][k])
    {
      hide Present, LiveOk, OnlyFills, TablesOk, ArenaOk, SlotsBelow, Reached, Preserved, Vacant, HandedOk;
      LiveGrows(live, tables, usedPt, usedCount, largest, if |entries| > largest then |entries| else largest);
      largest := if |entries| > largest then |entries| else largest;
      NothingFilled(tables, pt, |entries|);
      if !readOk { return false; }
      var free := AllFree(tables[pt], |entries|);
      if !free { return false; }
      if write.Refused? {
        Undo(pt, |entries|, Reached(zero, |entries|));
        return false;
      }
      Commit(pt, entries, Reached(write, |entries|));
      ok := true;
    }
  }

  /** The 384-page limit is exact: one 385-page map whose release loses its last entry leads to an unmapping
      with that alias entry still present. */
  method LimitIsExact() returns (a: Arena)
    ensures a.Valid() && a.largest == 385 && a.unsafeUnmap
  {
    hide LiveOk, ArenaOk, OnlyFills, Preserved, Vacant, HandedOk;
    a := new Arena(SPAN, map[0 := Zeros(512)]);
    var ok := a.Allocate(SPAN);
    var entries := seq(VERIFY_IDX + 1, k => 7);
    ok := a.Install(0, entries, true, Accepted(VERIFY_IDX + 1), Refused);
    a.Release(Accepted(VERIFY_IDX));
    assert (0, VERIFY_IDX) in a.live;
    assert a.usedPt == [0] && a.Clear(0, true);
    var unmapped := a.Reclaim(Refused, j => true);
  }

  /** An installed page whose release is silently lost stays behind. */
  method LostReleaseLeavesEntry() returns (a: Arena)
    ensures a.Valid() && !a.active && a.live == {(0, 0)} && a.tables[0][0] == 7
  {
    hide LiveOk, ArenaOk, OnlyFills, Preserved, Vacant, HandedOk;
    a := new Arena(SPAN, map[0 := Zeros(512)]);
    var ok := a.Allocate(SPAN);
    ok := a.Install(0, [7], true, Accepted(1), Refused);
    assert a.tables[0][..1] == [7];
    a.Release(Accepted(0));
  }
}
