/** Four-level x86-64 page tables in physical memory (section 4.5 of the Intel SDM, Volume 3A). */
module Paging {
  import opened Bytes
  import opened Options

  /** Physical memory behind the direct map, and which of its pages the kernel copy can read. */
  datatype Phys = Phys(bytes: Memory, ok: nat -> bool)

  const PAGE: nat := 0x1000
  const BOUND: nat := 0x10_0000_0000

  predicate Present(e: nat) { e % 2 == 1 }
  predicate Writable(e: nat) { (e / 2) % 2 == 1 }
  predicate Huge(e: nat) { (e / 0x80) % 2 == 1 }
  predicate NoExec(e: nat) { (e / 0x8000_0000_0000_0000) % 2 == 1 }

  /** Bits 12..51 of an entry. */
  function Frame(e: nat): (f: nat)
    ensures f % PAGE == 0
  {
    ((e / PAGE) % 0x100_0000_0000) * PAGE
  }

  /** Bytes one entry of a level maps: 512G, 1G, 2M, 4K. */
  function Size(level: nat): (s: nat)
    requires level < 4
    ensures s > 0
  {
    match level
    case 0 => 0x80_0000_0000
    case 1 => 0x4000_0000
    case 2 => 0x20_0000
    case _ => 0x1000
  }

  function Index(va: nat, level: nat): (i: nat)
    requires level < 4
    ensures i < 512
  {
    (va / Size(level)) % 512
  }

  /** An 8-byte entry, read all or nothing. */
  function Entry(m: Phys, table: nat, i: nat): Option<nat>
  {
    if m.ok(table / PAGE) then Some(LeVal(Slice(m.bytes, table + 8 * i, 8))) else None
  }

  datatype Leaf = NoLeaf | Leaf(e: nat, level: nat)

  /** Does this entry end the walk? */
  predicate Ends(e: nat, level: nat)
  {
    level == 3 || ((level == 1 || level == 2) && Huge(e))
  }

  /** The hardware walk from a table of the given level. */
  function WalkFrom(m: Phys, table: nat, level: nat, va: nat): (l: Leaf)
    requires level < 4
    ensures l.Leaf? ==> level <= l.level < 4 && l.level >= 1 && Present(l.e)
    decreases 4 - level
  {
    if table >= BOUND then NoLeaf
    else match Entry(m, table, Index(va, level))
      case None => NoLeaf
      case Some(e) =>
        if !Present(e) then NoLeaf
        else if Ends(e, level) then Leaf(e, level)
        else if level < 3 then WalkFrom(m, Frame(e), level + 1, va)
        else NoLeaf
  }

  function Walk(m: Phys, cr3: nat, va: nat): (l: Leaf)
    ensures l.Leaf? ==> 1 <= l.level < 4 && Present(l.e)
  {
    WalkFrom(m, Frame(cr3), 0, va)
  }

  /** Physical address a leaf gives to `va`. */
  function Place(l: Leaf, va: nat): nat
    requires l.Leaf? && l.level < 4
  {
    Frame(l.e) - Frame(l.e) % Size(l.level) + va % Size(l.level)
  }

  function Translate(m: Phys, cr3: nat, va: nat): Option<nat>
  {
    var l := Walk(m, cr3, va);
    if l.Leaf? then Some(Place(l, va)) else None
  }

  /** ptw_walk_leaf: the same walk as a loop over levels. */
  method WalkLeaf(m: Phys, cr3: nat, va: nat) returns (l: Leaf)
    ensures l == Walk(m, cr3, va)
  {
    hide Frame, Index, Entry;
    var table: nat, level: nat := Frame(cr3), 0;
    while level < 4
      invariant 0 <= level < 4
      invariant WalkFrom(m, table, level, va) == Walk(m, cr3, va)
      decreases 4 - level
    {
      if table >= BOUND { return NoLeaf; }
      var e := Entry(m, table, Index(va, level));
      if e.None? || !Present(e.value) { return NoLeaf; }
      if level == 3 { return Leaf(e.value, 3); }
      if (level == 1 || level == 2) && Huge(e.value) { return Leaf(e.value, level); }
      table, level := Frame(e.value), level + 1;
    }
    return NoLeaf;
  }

  /** Bitwise or. */
  function Or(x: nat, y: nat): (r: nat)
    decreases x + y
  {
    if x == 0 && y == 0 then 0
    else (if x % 2 == 1 || y % 2 == 1 then 1 else 0) + 2 * Or(x / 2, y / 2)
  }

  function Pow2(k: nat): (p: nat)
    ensures p > 0
  {
    if k == 0 then 1 else 2 * Pow2(k - 1)
  }

  lemma {:induction false} OrZero(x: nat)
    ensures Or(x, 0) == x
  {
    if x > 0 { OrZero(x / 2); }
  }

  /** An offset below 2^k fills the cleared low bits of a multiple of 2^k. */
  lemma {:induction false} OrFillsLow(f: nat, o: nat, k: nat)
    requires o < Pow2(k)
    ensures Or(Pow2(k) * f, o) == Pow2(k) * f + o
  {
    if k == 0 {
      OrZero(f);
    } else {
      var h := Pow2(k - 1) * f;
      assert Pow2(k) * f == 2 * h;
      OrFillsLow(f, o / 2, k - 1);
    }
  }

  lemma PageSizes()
    ensures Pow2(12) == Size(3) && Pow2(21) == Size(2) && Pow2(30) == Size(1)
  {
    assert Pow2(4) == 16;
    assert Pow2(8) == 256;
    assert Pow2(12) == 0x1000;
    assert Pow2(16) == 0x1_0000;
    assert Pow2(20) == 0x10_0000;
    assert Pow2(24) == 0x100_0000;
    assert Pow2(28) == 0x1000_0000;
  }

  lemma MaskedOff(f: nat, pg: nat)
    requires pg > 0
    ensures f - f % pg == pg * (f / pg)
  {
  }

  /** The frame with its low bits masked off, or-ed with the low bits of the address, is the place in the page. */
  lemma OrIsPlace(l: Leaf, va: nat)
    requires l.Leaf? && 1 <= l.level < 4
    ensures var pg := Size(l.level); Or(Frame(l.e) - Frame(l.e) % pg, va % pg) == Place(l, va)
  {
    hide Frame, Pow2, Or;
    var pg, f := Size(l.level), Frame(l.e);
    PageSizes();
    var k := if l.level == 3 then 12 else if l.level == 2 then 21 else 30;
    MaskedOff(f, pg);
    OrFillsLow(f / pg, va % pg, k);
  }

  /** ptw_vtophys: its own walk, page masks and or; 0 when there is no translation. */
  method VtoPhys(m: Phys, cr3: nat, va: nat) returns (phys: nat)
    ensures phys == match Translate(m, cr3, va) case Some(p) => p case None => 0
  {
    hide Frame, Index, Entry, Place, Or;
    phys := 0;
    var table: nat, level: nat := Frame(cr3), 0;
    while level < 4
      invariant 0 <= level < 4 && phys == 0
      invariant WalkFrom(m, table, level, va) == Walk(m, cr3, va)
      decreases 4 - level
    {
      if table >= BOUND { return; }
      var e := Entry(m, table, Index(va, level));
      if e.None? || !Present(e.value) { return; }
      if level == 3 {
        FrameIsPaged(e.value);
        OrIsPlace(Leaf(e.value, 3), va);
        return Or(Frame(e.value), va % 0x1000);
      }
      if (level == 1 || level == 2) && Huge(e.value) {
        var pg := if level == 1 then 0x4000_0000 else 0x20_0000;
        OrIsPlace(Leaf(e.value, level), va);
        return Or(Frame(e.value) - Frame(e.value) % pg, va % pg);
      }
      table, level := Frame(e.value), level + 1;
    }
  }

  lemma FrameIsPaged(e: nat)
    ensures Frame(e) % Size(3) == 0
  {
  }

  // ----- one leaf serves one page -----

  lemma QuotientNested(x: nat, y: nat, a: nat, b: nat)
    requires a > 0 && b > 0 && x / a == y / a
    ensures x / (a * b) == y / (a * b)
  {
    DivDiv(x, a, b);
    DivDiv(y, a, b);
  }

  lemma DivDiv(x: nat, a: nat, b: nat)
    requires a > 0 && b > 0
    ensures x / (a * b) == (x / a) / b
  {
    var q := x / a;
    var r := q / b;
    assert x == a * q + x % a;
    assert q == b * r + q % b;
    var rem := a * (q % b) + x % a;
    assert x == (a * b) * r + rem by {
      MulDistributes(a, b * r, q % b);
      assert a * (b * r) == (a * b) * r;
    }
    assert rem < a * b by {
      MulDistributes(a, b, q % b);
      MulAtLeast(a, b - q % b);
    }
    ModUnique(x, a * b, r, rem);
  }

  /** Addresses in one page of a level agree on the index at that level and above. */
  lemma SamePageSameIndex(va: nat, vb: nat, level: nat, above: nat)
    requires above <= level < 4 && va / Size(level) == vb / Size(level)
    ensures Index(va, above) == Index(vb, above)
  {
    var f := if above == level then 1
             else if level - above == 1 then 512
             else if level - above == 2 then 0x4_0000
             else 0x800_0000;
    assert Size(above) == Size(level) * f;
    QuotientNested(va, vb, Size(level), f);
  }

  /** A leaf translates its whole page: every address of the page walks to it. */
  lemma {:induction false} LeafServesPage(m: Phys, table: nat, level: nat, va: nat, vb: nat)
    requires level < 4
    requires var l := WalkFrom(m, table, level, va); l.Leaf? && va / Size(l.level) == vb / Size(l.level)
    ensures WalkFrom(m, table, level, vb) == WalkFrom(m, table, level, va)
    decreases 4 - level
  {
    hide Frame, Index, Size, Entry;
    var l := WalkFrom(m, table, level, va);
    SamePageSameIndex(va, vb, l.level, level);
    var e := Entry(m, table, Index(va, level)).value;
    if !Ends(e, level) && level < 3 {
      LeafServesPage(m, Frame(e), level + 1, va, vb);
    }
  }

  /** Consecutive addresses of a page are consecutive in physical memory. */
  lemma PageIsContiguous(l: Leaf, va: nat, k: nat)
    requires l.Leaf? && l.level < 4 && va % Size(l.level) + k < Size(l.level)
    ensures (va + k) / Size(l.level) == va / Size(l.level)
    ensures Place(l, va + k) == Place(l, va) + k
  {
    var s := Size(l.level);
    ModUnique(va + k, s, va / s, va % s + k);
  }

  lemma TranslateRun(m: Phys, cr3: nat, va: nat, k: nat)
    requires var l := Walk(m, cr3, va); l.Leaf? && va % Size(l.level) + k < Size(l.level)
    ensures Translate(m, cr3, va + k) == Some(Place(Walk(m, cr3, va), va) + k)
  {
    hide Size, Frame, Place;
    var l := Walk(m, cr3, va);
    PageIsContiguous(l, va, k);
    LeafServesPage(m, Frame(cr3), 0, va, va + k);
  }
}
