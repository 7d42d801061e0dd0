/** Enumerating a process's mapped ranges from its page tables, coalesced by protection. */
module PageEnum {
  import opened Bytes
  import opened Paging
  import opened PageTables
  import opened Options

  const MAX_ENTRIES: nat := 16384

  datatype Range = Range(start: nat, end: nat, prot: nat)

  /** Protection of a leaf: read always, write and execute from the entry. */
  function Prot(e: nat): nat
  {
    1 + (if Writable(e) then 2 else 0) + if NoExec(e) then 0 else 4
  }

  /** By fields: read is always granted, write and execute each add their own bit. */
  lemma ProtOf(x: Fields)
    requires FieldsOk(x)
    ensures Prot(Encoded(x)) == Bit(true) + 2 * Bit(x.writable) + 4 * Bit(!x.noExec)
  {
    hide Encoded;
    FieldsRead(x);
  }

  /** By value: a leaf is executable exactly below 2^63, and the write flag adds exactly the write permission. */
  lemma ProtMeans(e: nat)
    requires e < U64
    ensures Prot(e) % 2 == 1 && Prot(e) < 8
    ensures Prot(e) >= 4 <==> e < 0x8000_0000_0000_0000
    ensures e % 4 == 1 ==> Prot(e + 2) == Prot(e) + 2
  {
    if e % 4 == 1 {
      ModUnique(e + 2, 2, e / 2 + 1, 1);
      ModUnique(e, 2, e / 2, 1);
      var q := e / 4;
      assert e / 2 == 2 * q && (e + 2) / 2 == 2 * q + 1;
      SameTop(e);
    }
  }

  lemma SameTop(e: nat)
    requires e < U64 && e % 4 == 1
    ensures NoExec(e + 2) <==> NoExec(e)
  {
  }

  /** Protection the walk gives to an address, if it is mapped. */
  function ProtAt(m: Phys, cr3: nat, va: nat): Option<nat>
  {
    var l := Walk(m, cr3, va);
    if l.Leaf? then Some(Prot(l.e)) else None
  }

  /** Protection a list of ranges gives to an address. */
  function Lookup(rs: seq<Range>, va: nat): Option<nat>
  {
    if rs == [] then None
    else
      var r := rs[|rs| - 1];
      if r.start <= va < r.end then Some(r.prot) else Lookup(rs[..|rs| - 1], va)
  }

  /** Ascending, non-empty, disjoint ranges; touching ranges differ in protection; all below `top`. */
  predicate Neat(rs: seq<Range>, top: nat)
  {
    rs == [] ||
    (var r := rs[|rs| - 1];
     && r.start < r.end <= top
     && Neat(rs[..|rs| - 1], r.start)
     && (|rs| > 1 ==> !(rs[|rs| - 2].end == r.start && rs[|rs| - 2].prot == r.prot)))
  }

  lemma {:induction false} NeatGrows(rs: seq<Range>, top: nat, top': nat)
    requires Neat(rs, top) && top <= top'
    ensures Neat(rs, top')
  {
  }

  lemma {:induction false} AboveTop(rs: seq<Range>, top: nat, va: nat)
    requires Neat(rs, top) && va >= top
    ensures Lookup(rs, va) == None
  {
    if rs != [] { AboveTop(rs[..|rs| - 1], rs[|rs| - 1].start, va); }
  }

  /** What neatness means for any two ranges. */
  lemma {:induction false} NeatPairs(rs: seq<Range>, top: nat, i: nat, j: nat)
    requires Neat(rs, top) && i <= j < |rs|
    ensures rs[i].start < rs[i].end <= rs[j].end <= top
    ensures i < j ==> rs[i].end <= rs[j].start
    ensures i + 1 == j ==> !(rs[i].end == rs[j].start && rs[i].prot == rs[j].prot)
  {
    var n := |rs| - 1;
    if j < n {
      NeatPairs(rs[..n], rs[n].start, i, j);
    } else if i < j {
      NeatPairs(rs[..n], rs[n].start, i, n - 1);
    }
  }

  /** An address is covered with protection p exactly when some range says so. */
  lemma {:induction false} LookupMeans(rs: seq<Range>, top: nat, va: nat)
    requires Neat(rs, top)
    ensures Lookup(rs, va).Some? ==> exists r :: r in rs && r.start <= va < r.end && r.prot == Lookup(rs, va).value
    ensures Lookup(rs, va).None? ==> forall r :: r in rs ==> !(r.start <= va < r.end)
  {
    if rs != [] {
      var n := |rs| - 1;
      var r := rs[n];
      LookupMeans(rs[..n], r.start, va);
      if r.start <= va < r.end {
        assert r in rs;
      } else if Lookup(rs, va).Some? {
        var q :| q in rs[..n] && q.start <= va < q.end && q.prot == Lookup(rs, va).value;
        assert q in rs;
      }
    }
  }

  class Coalescer {
    var ents: seq<Range>
    var have: bool
    var cur: Range

    constructor ()
      ensures ents == [] && !have
    {
      ents, have, cur := [], false, Range(0, 0, 0);
    }

    /** Finished ranges come only with a current one, and never exceed the cap. */
    ghost predicate Ok()
      reads this
    {
      (have || ents == []) && |ents| <= MAX_ENTRIES
    }

    ghost function All(): seq<Range>
      reads this
    {
      if have then ents + [cur] else ents
    }

    /** ptw_coal_flush. */
    method Flush()
      modifies this`ents
      ensures ents == if have && |old(ents)| < MAX_ENTRIES then old(ents) + [cur] else old(ents)
    {
      if !have || |ents| >= MAX_ENTRIES { return; }
      ents := ents + [cur];
    }

    /** ptw_coal_emit: extend the current range or start a new one. */
    method Emit(start: nat, end: nat, e: nat)
      requires Ok() && |ents| < MAX_ENTRIES && Neat(All(), start) && start < end
      modifies this
      ensures Ok() && Neat(All(), end) && |ents| >= |old(ents)|
      ensures forall va: nat :: Lookup(All(), va) == if start <= va < end then Some(Prot(e)) else old(Lookup(All(), va))
    {
      hide Prot;
      var prot := Prot(e);
      ghost var before := All();
      if have && start == cur.end && prot == cur.prot {
        cur := cur.(end := end);
        Extended(before, start, end);
        return;
      }
      Flush();
      have, cur := true, Range(start, end, prot);
      Appended(before, start, end, prot);
    }
  }

  lemma Extended(rs: seq<Range>, start: nat, end: nat)
    requires rs != [] && Neat(rs, start) && start < end && rs[|rs| - 1].end == start
    ensures var r := rs[|rs| - 1];
            var rs' := rs[..|rs| - 1] + [r.(end := end)];
            && Neat(rs', end)
            && forall va: nat :: Lookup(rs', va) == if start <= va < end then Some(r.prot) else Lookup(rs, va)
  {
    var n := |rs| - 1;
    var rs' := rs[..n] + [rs[n].(end := end)];
    assert rs'[..n] == rs[..n];
    forall va: nat
      ensures Lookup(rs', va) == if start <= va < end then Some(rs[n].prot) else Lookup(rs, va)
    {
    }
  }

  lemma Appended(rs: seq<Range>, start: nat, end: nat, prot: nat)
    requires Neat(rs, start) && start < end
    requires rs != [] ==> !(rs[|rs| - 1].end == start && rs[|rs| - 1].prot == prot)
    ensures var rs' := rs + [Range(start, end, prot)];
            && Neat(rs', end)
            && forall va: nat :: Lookup(rs', va) == if start <= va < end then Some(prot) else Lookup(rs, va)
  {
    var rs' := rs + [Range(start, end, prot)];
    assert rs'[..|rs|] == rs;
    forall va: nat
      ensures Lookup(rs', va) == if start <= va < end then Some(prot) else Lookup(rs, va)
    {
    }
  }

  /** The ranges are exactly the mapped addresses below `top`, with their protection. */
  ghost predicate Exact(m: Phys, cr3: nat, rs: seq<Range>, top: nat)
  {
    Neat(rs, top) && forall va :: 0 <= va < top ==> Lookup(rs, va) == ProtAt(m, cr3, va)
  }

  /** A hole in the address space adds nothing. */
  lemma SkipHole(m: Phys, cr3: nat, rs: seq<Range>, top: nat, top': nat)
    requires Exact(m, cr3, rs, top) && top <= top'
    requires forall va :: top <= va < top' ==> ProtAt(m, cr3, va) == None
    ensures Exact(m, cr3, rs, top')
  {
    hide ProtAt, Lookup;
    NeatGrows(rs, top, top');
    forall va | top <= va < top'
      ensures Lookup(rs, va) == None
    {
      AboveTop(rs, top, va);
    }
  }

  // ----- one table -----

  /** Bytes covered by a whole table of a level. */
  function Span(level: nat): nat
    requires level < 4
  {
    512 * Size(level)
  }

  lemma IndexInside(base: nat, level: nat, i: nat, va: nat)
    requires level < 4 && base % Span(level) == 0 && i < 512
    requires base + Off(i, Size(level)) <= va < base + Off(i + 1, Size(level))
    ensures Index(va, level) == i
  {
    hide Off;
    var s, q := Size(level), base / Span(level);
    OffIsProduct(i, s);
    OffNext(i, s);
    assert base == Span(level) * q;
    assert base + i * s == s * (512 * q + i) by {
      MulDistributes(s, 512 * q, i);
      assert s * (512 * q) == (512 * s) * q;
    }
    ModUnique(va, s, 512 * q + i, va - base - i * s);
    ModUnique(512 * q + i, 512, q, i);
  }

  lemma ChildBase(base: nat, level: nat, i: nat)
    requires level < 3 && base % Span(level) == 0 && i < 512
    ensures (base + Off(i, Size(level))) % Span(level + 1) == 0
    ensures Span(level + 1) == Size(level)
  {
    hide Off;
    var s, q := Size(level), base / Span(level);
    assert Span(level + 1) == s;
    OffIsProduct(i, s);
    assert base == Span(level) * q;
    assert base + i * s == s * (512 * q + i) by {
      MulDistributes(s, 512 * q, i);
      assert s * (512 * q) == (512 * s) * q;
    }
    ModUnique(base + i * s, s, 512 * q + i, 0);
  }

  /** The walk of every address under `base` passes through this table. */
  ghost predicate Rooted(m: Phys, cr3: nat, table: nat, level: nat, base: nat)
    requires level < 4
  {
    && table < BOUND && m.ok(table / PAGE) && base % Span(level) == 0
    && forall va :: base <= va < base + Span(level) ==> Walk(m, cr3, va) == WalkFrom(m, table, level, va)
  }

  /** What the walk does with the addresses under entry `i`. */
  lemma UnderEntry(m: Phys, cr3: nat, table: nat, level: nat, base: nat, i: nat, va: nat)
    requires level < 4 && i < 512 && Rooted(m, cr3, table, level, base)
    requires base + Off(i, Size(level)) <= va < base + Off(i + 1, Size(level))
    ensures Entry(m, table, i).Some?
    ensures var e := Entry(m, table, i).value;
            Walk(m, cr3, va) == if !Present(e) then NoLeaf
                                else if Ends(e, level) then Leaf(e, level)
                                else if level < 3 then WalkFrom(m, Frame(e), level + 1, va)
                                else NoLeaf
  {
    hide Off, Frame, Size, LeVal, Walk;
    IndexInside(base, level, i, va);
    OffMono(i + 1, 512, Size(level));
    OffIsProduct(512, Size(level));
  }

  lemma EntryHole(m: Phys, cr3: nat, table: nat, level: nat, base: nat, i: nat)
    requires level < 4 && i < 512 && Rooted(m, cr3, table, level, base) && Entry(m, table, i).Some?
    requires var e := Entry(m, table, i).value;
             !Present(e) || (!Ends(e, level) && level < 3 && (Frame(e) >= BOUND || !m.ok(Frame(e) / PAGE)))
    ensures forall va :: base + Off(i, Size(level)) <= va < base + Off(i + 1, Size(level)) ==>
            ProtAt(m, cr3, va) == None
  {
    hide Off, Frame, Size, Walk, Rooted;
    forall va | base + Off(i, Size(level)) <= va < base + Off(i + 1, Size(level))
      ensures ProtAt(m, cr3, va) == None
    {
      UnderEntry(m, cr3, table, level, base, i, va);
    }
  }

  lemma EntryLeaf(m: Phys, cr3: nat, table: nat, level: nat, base: nat, i: nat)
    requires level < 4 && i < 512 && Rooted(m, cr3, table, level, base) && Entry(m, table, i).Some?
    requires var e := Entry(m, table, i).value; Present(e) && Ends(e, level)
    ensures forall va :: base + Off(i, Size(level)) <= va < base + Off(i + 1, Size(level)) ==>
              ProtAt(m, cr3, va) == Some(Prot(Entry(m, table, i).value))
  {
    hide Off, Frame, Size, Walk, Rooted, Entry, Prot;
    forall va | base + Off(i, Size(level)) <= va < base + Off(i + 1, Size(level))
      ensures ProtAt(m, cr3, va) == Some(Prot(Entry(m, table, i).value))
    {
      UnderEntry(m, cr3, table, level, base, i, va);
    }
  }

  lemma ChildRooted(m: Phys, cr3: nat, table: nat, level: nat, base: nat, i: nat)
    requires level < 3 && i < 512 && Rooted(m, cr3, table, level, base) && Entry(m, table, i).Some?
    requires var e := Entry(m, table, i).value;
             Present(e) && !Ends(e, level) && Frame(e) < BOUND && m.ok(Frame(e) / PAGE)
    ensures Rooted(m, cr3, Frame(Entry(m, table, i).value), level + 1, base + Off(i, Size(level)))
  {
    hide Off, Frame, Size, Walk, Entry, WalkFrom, Span;
    ChildBase(base, level, i);
    OffNext(i, Size(level));
    var e := Entry(m, table, i).value;
    var b := base + Off(i, Size(level));
    forall va | b <= va < b + Span(level + 1)
      ensures Walk(m, cr3, va) == WalkFrom(m, Frame(e), level + 1, va)
    {
      UnderEntry(m, cr3, table, level, base, i, va);
    }
  }

  /** Entries of a table that are enumerated: the user half of the top level, all of the others. */
  function Limit(level: nat): (n: nat)
    ensures n <= 512
  {
    if level == 0 then 256 else 512
  }

  /** The nested loops of ptw_enumerate, from one table down. */
  method EnumTable(m: Phys, cr3: nat, table: nat, level: nat, base: nat, c: Coalescer)
    requires level < 4 && Rooted(m, cr3, table, level, base)
    requires c.Ok() && |c.ents| < MAX_ENTRIES && Exact(m, cr3, c.All(), base)
    modifies c
    ensures c.Ok()
    ensures |c.ents| < MAX_ENTRIES ==> Exact(m, cr3, c.All(), base + Off(Limit(level), Size(level)))
    decreases 4 - level
  {
    hide Off, Frame, Size, Walk, Rooted, Entry, Prot, Exact, ProtAt, Lookup, Neat, Span, Ends;
    var i: nat := 0;
    FirstEntry(base, Size(level));
    while i < Limit(level) && |c.ents| < MAX_ENTRIES
      invariant i <= Limit(level) && c.Ok()
      invariant |c.ents| < MAX_ENTRIES ==> Exact(m, cr3, c.All(), base + Off(i, Size(level)))
    {
      var lo, hi := base + Off(i, Size(level)), base + Off(i + 1, Size(level));
      OffNext(i, Size(level));
      EntryReadable(m, cr3, table, level, base, i);
      var e := Entry(m, table, i).value;
      if !Present(e) {
        EntryHole(m, cr3, table, level, base, i);
        SkipHole(m, cr3, c.All(), lo, hi);
      } else if level == 3 || ((level == 1 || level == 2) && Huge(e)) {
        EndsMeans(e, level);
        EntryLeaf(m, cr3, table, level, base, i);
        ExactNeat(m, cr3, c.All(), lo);
        ghost var before := c.All();
        c.Emit(lo, hi, e);
        LeafAdded(m, cr3, before, c.All(), lo, hi, Prot(e));
      } else {
        EndsMeans(e, level);
        var child := Frame(e);
        if child >= BOUND || !m.ok(child / PAGE) {
          EntryHole(m, cr3, table, level, base, i);
          SkipHole(m, cr3, c.All(), lo, hi);
        } else {
          ChildRooted(m, cr3, table, level, base, i);
          ChildCovers(level);
          EnumTable(m, cr3, child, level + 1, lo, c);
        }
      }
      i := i + 1;
    }
  }

  lemma FirstEntry(base: nat, size: nat)
    ensures base + Off(0, size) == base
  {
  }

  lemma EntryReadable(m: Phys, cr3: nat, table: nat, level: nat, base: nat, i: nat)
    requires level < 4 && Rooted(m, cr3, table, level, base)
    ensures Entry(m, table, i).Some?
  {
  }

  lemma EndsMeans(e: nat, level: nat)
    ensures Ends(e, level) <==> level == 3 || ((level == 1 || level == 2) && Huge(e))
  {
  }

  lemma ExactNeat(m: Phys, cr3: nat, rs: seq<Range>, top: nat)
    requires Exact(m, cr3, rs, top)
    ensures Neat(rs, top)
  {
  }

  lemma ChildCovers(level: nat)
    requires level < 3
    ensures Limit(level + 1) == 512 && Off(512, Size(level + 1)) == Size(level)
  {
    OffIsProduct(512, Size(level + 1));
  }

  lemma LeafAdded(m: Phys, cr3: nat, rs: seq<Range>, rs': seq<Range>, lo: nat, hi: nat, prot: nat)
    requires lo <= hi && Exact(m, cr3, rs, lo) && Neat(rs', hi)
    requires forall va :: lo <= va < hi ==> ProtAt(m, cr3, va) == Some(prot)
    requires forall va: nat :: Lookup(rs', va) == if lo <= va < hi then Some(prot) else Lookup(rs, va)
    ensures Exact(m, cr3, rs', hi)
  {
    hide ProtAt, Lookup, Neat;
  }

  const USER_TOP: nat := 0x8000_0000_0000

  /** ptw_enumerate: below the entry cap the result is exact for every user address. */
  method Enumerate(m: Phys, cr3: nat) returns (ok: bool, ents: seq<Range>)
    ensures |ents| <= 16384
    ensures ok ==> ents != []
    ensures |ents| < 16384 && Frame(cr3) < BOUND && m.ok(Frame(cr3) / PAGE) ==>
              && Exact(m, cr3, ents, USER_TOP)
              && (ok <==> exists va :: 0 <= va < USER_TOP && ProtAt(m, cr3, va).Some?)
              && forall va: nat :: va < USER_TOP ==> (Executable(ents, va) <==> ExecutableLeaf(m, cr3, va))
    ensures !(Frame(cr3) < BOUND && m.ok(Frame(cr3) / PAGE)) ==> !ok
  {
    hide Off, Frame, Walk, Exact, ProtAt, Lookup, Neat, ExecutableLeaf, Executable;
    ok, ents := false, [];
    if Frame(cr3) >= BOUND || !m.ok(Frame(cr3) / PAGE) { return; }
    var c := new Coalescer();
    Start(m, cr3);
    EnumTable(m, cr3, Frame(cr3), 0, 0, c);
    OffIsProduct(256, Size(0));
    c.Flush();
    ents := c.ents;
    if |ents| < MAX_ENTRIES {
      Mapped(m, cr3, ents);
      ExecutableExactly(m, cr3, ents);
    }
    ok := ents != [];
  }

  /** Does the list say that `va` may be executed? */
  predicate Executable(rs: seq<Range>, va: nat)
  {
    Lookup(rs, va).Some? && Lookup(rs, va).value >= 4
  }

  /** Is `va` mapped by a leaf whose execute-disable bit is clear? */
  predicate ExecutableLeaf(m: Phys, cr3: nat, va: nat)
  {
    Walk(m, cr3, va).Leaf? && Walk(m, cr3, va).e < 0x8000_0000_0000_0000
  }

  lemma ExecutableExactly(m: Phys, cr3: nat, rs: seq<Range>)
    requires Exact(m, cr3, rs, USER_TOP)
    ensures forall va: nat :: va < USER_TOP ==> (Executable(rs, va) <==> ExecutableLeaf(m, cr3, va))
  {
    hide WalkFrom, Lookup, Prot, Neat;
    forall va: nat | va < USER_TOP
      ensures Executable(rs, va) <==> ExecutableLeaf(m, cr3, va)
    {
      WalkedEntry(m, Frame(cr3), 0, va);
      if Walk(m, cr3, va).Leaf? { ProtMeans(Walk(m, cr3, va).e); }
    }
  }

  lemma Start(m: Phys, cr3: nat)
    requires Frame(cr3) < BOUND && m.ok(Frame(cr3) / PAGE)
    ensures Rooted(m, cr3, Frame(cr3), 0, 0) && Exact(m, cr3, [], 0)
  {
  }

  lemma Mapped(m: Phys, cr3: nat, ents: seq<Range>)
    requires Exact(m, cr3, ents, USER_TOP)
    ensures ents != [] <==> exists va :: 0 <= va < USER_TOP && ProtAt(m, cr3, va).Some?
  {
    hide ProtAt;
    if ents != [] {
      var r := ents[|ents| - 1];
      assert Lookup(ents, r.start) == Some(r.prot);
    } else {
      assert forall va: nat :: Lookup(ents, va) == None;
    }
  }
}
