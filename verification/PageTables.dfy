/** Page-table entries by their fields (tables 4-15 to 4-20 of the Intel SDM, Volume 3A), and tables built from them. */
module PageTables {
  import opened Bytes
  import opened Paging
  import opened Options

  /** Bits 8 to 11 are `low`, bits 12 to 51 `frame`, bits 52 to 62 `high`. */
  datatype Fields = Fields(present: bool, writable: bool, user: bool, writeThrough: bool, cacheOff: bool,
                           accessed: bool,
                           dirty: bool, huge: bool, low: nat, frame: nat, high: nat, noExec: bool)

  predicate FieldsOk(x: Fields)
  {
    x.low < 0x10 && x.frame < 0x100_0000_0000 && x.high < 0x800
  }

  function Bit(b: bool): nat { if b then 1 else 0 }

  /** The eight low flags, most significant first. */
  function Flags(x: Fields): (f: nat)
    ensures f < 0x100
  {
    0x80 * Bit(x.huge) + 0x40 * Bit(x.dirty) + 0x20 * Bit(x.accessed) + 0x10 * Bit(x.cacheOff)
    + 8 * Bit(x.writeThrough) + 4 * Bit(x.user) + 2 * Bit(x.writable) + Bit(x.present)
  }

  function Encoded(x: Fields): (e: nat)
    requires FieldsOk(x)
    ensures e < U64
  {
    0x8000_0000_0000_0000 * Bit(x.noExec) + 0x10_0000_0000_0000 * x.high + 0x1000 * x.frame + 0x100 * x.low + Flags(x)
  }

  /** A field of `size` values at weight `m`. */
  lemma FieldAt(e: nat, m: nat, size: nat, below: nat, v: nat, above: nat)
    requires m > 0 && below < m && v < size && e == m * (size * above + v) + below
    ensures (e / m) % size == v
  {
    ModUnique(e, m, size * above + v, below);
    ModUnique(size * above + v, size, above, v);
  }

  /** Four of the eight flags of a word, counted from the lowest: bits 0, 1, 4 and 7. */
  lemma FlagsAt(e: nat, up: nat, h: nat, d: nat, a: nat, c: nat, t: nat, u: nat, w: nat, p: nat)
    requires h < 2 && d < 2 && a < 2 && c < 2 && t < 2 && u < 2 && w < 2 && p < 2
    requires e == 0x100 * up + 0x80 * h + 0x40 * d + 0x20 * a + 0x10 * c + 8 * t + 4 * u + 2 * w + p
    ensures e % 2 == p && (e / 2) % 2 == w && (e / 0x10) % 2 == c && (e / 0x80) % 2 == h
  {
    FieldAt(e, 1, 2, 0, p, 0x80 * up + 0x40 * h + 0x20 * d + 0x10 * a + 8 * c + 4 * t + 2 * u + w);
    FieldAt(e, 2, 2, p, w, 0x40 * up + 0x20 * h + 0x10 * d + 8 * a + 4 * c + 2 * t + u);
    FieldAt(e, 0x10, 2, 8 * t + 4 * u + 2 * w + p, c, 8 * up + 4 * h + 2 * d + a);
    FieldAt(e, 0x80, 2, 0x40 * d + 0x20 * a + 0x10 * c + 8 * t + 4 * u + 2 * w + p, h, up);
  }

  lemma BitsAreBits(b: bool)
    ensures Bit(b) < 2 && (Bit(b) == 1 <==> b)
  {
  }

  lemma LowFlags(x: Fields)
    requires FieldsOk(x)
    ensures Present(Encoded(x)) <==> x.present
    ensures Writable(Encoded(x)) <==> x.writable
    ensures Huge(Encoded(x)) <==> x.huge
    ensures (Encoded(x) / 0x10) % 2 == Bit(x.cacheOff)
  {
    var up := 0x80_0000_0000_0000 * Bit(x.noExec) + 0x1000_0000_0000 * x.high + 0x10 * x.frame + x.low;
    BitsAreBits(x.present);
    BitsAreBits(x.writable);
    BitsAreBits(x.user);
    BitsAreBits(x.writeThrough);
    BitsAreBits(x.cacheOff);
    BitsAreBits(x.accessed);
    BitsAreBits(x.dirty);
    BitsAreBits(x.huge);
    hide Bit;
    FlagsAt(Encoded(x), up, Bit(x.huge), Bit(x.dirty), Bit(x.accessed), Bit(x.cacheOff), Bit(x.writeThrough),
            Bit(x.user), Bit(x.writable), Bit(x.present));
  }

  /** The predicates a walk uses read exactly the fields they are named after. */
  lemma FieldsRead(x: Fields)
    requires FieldsOk(x)
    ensures Present(Encoded(x)) <==> x.present
    ensures Writable(Encoded(x)) <==> x.writable
    ensures Huge(Encoded(x)) <==> x.huge
    ensures (Encoded(x) / 0x10) % 2 == Bit(x.cacheOff)
    ensures NoExec(Encoded(x)) <==> x.noExec
    ensures Frame(Encoded(x)) == 0x1000 * x.frame
  {
    LowFlags(x);
    BitsAreBits(x.noExec);
    hide Bit, Flags, Present, Writable, Huge;
    FieldAt(Encoded(x), 0x8000_0000_0000_0000, 2,
            0x10_0000_0000_0000 * x.high + 0x1000 * x.frame + 0x100 * x.low + Flags(x), Bit(x.noExec), 0);
    FieldAt(Encoded(x), 0x1000, 0x100_0000_0000, 0x100 * x.low + Flags(x), x.frame, 0x800 * Bit(x.noExec) + x.high);
  }

  /** Every 64-bit word is an entry. */
  lemma EveryEntry(e: nat) returns (x: Fields)
    requires e < U64
    ensures FieldsOk(x) && Encoded(x) == e
  {
    var h, f := Cut(e, 0x100);
    var g, low := Cut(h, 0x10);
    var t, frame := Cut(g, 0x100_0000_0000);
    var n, high := Cut(t, 0x800);
    BitsAreBits(n == 1);
    hide Bit, Flags;
    var y := EveryByte(f);
    x := y.(low := low, frame := frame, high := high, noExec := n == 1);
    SameFlags(x, y);
  }

  lemma Cut(n: nat, m: nat) returns (q: nat, r: nat)
    requires m > 0
    ensures n == m * q + r && r < m
  {
    q, r := n / m, n % m;
    DivMod(n, m);
  }

  lemma SameFlags(x: Fields, y: Fields)
    requires x == y.(low := x.low, frame := x.frame, high := x.high, noExec := x.noExec)
    ensures Flags(x) == Flags(y)
  {
  }

  lemma LowBit(n: nat) returns (q: nat, b: bool)
    ensures n == 2 * q + Bit(b)
  {
    q, b := n / 2, n % 2 == 1;
  }

  /** Every byte is a set of the eight low flags. */
  lemma EveryByte(f: nat) returns (x: Fields)
    requires f < 0x100
    ensures Flags(x) == f
  {
    hide Bit, Flags;
    var top, t, u, w, p := LowFour(f);
    var over, h, d, a, c := LowFour(top);
    x := Fields(p, w, u, t, c, a, d, h, 0, 0, 0, false);
    FlagsOf(x, f, top, over);
  }

  lemma LowFour(n: nat) returns (q: nat, b3: bool, b2: bool, b1: bool, b0: bool)
    ensures n == 16 * q + 8 * Bit(b3) + 4 * Bit(b2) + 2 * Bit(b1) + Bit(b0)
  {
    hide Bit;
    var n1, n2, n3;
    n1, b0 := LowBit(n);
    n2, b1 := LowBit(n1);
    n3, b2 := LowBit(n2);
    q, b3 := LowBit(n3);
  }

  lemma FlagsOf(x: Fields, f: nat, top: nat, over: nat)
    requires f == 16 * top + 8 * Bit(x.writeThrough) + 4 * Bit(x.user) + 2 * Bit(x.writable) + Bit(x.present)
    requires top == 16 * over + 8 * Bit(x.huge) + 4 * Bit(x.dirty) + 2 * Bit(x.accessed) + Bit(x.cacheOff)
    requires f < 0x100
    ensures Flags(x) == f
  {
    hide Bit;
    assert over == 0;
  }

  // ---- tables built from entries

  /** Entry `i` of the table at `table` can be read and holds `x`. */
  ghost predicate Holds(m: Phys, table: nat, i: nat, x: Fields)
  {
    && FieldsOk(x) && x.present && i < 512 && table < BOUND && m.ok(table / PAGE)
    && Slice(m.bytes, table + i * 8, 8) == LeBytes(Encoded(x), 8)
  }

  lemma HeldEntry(m: Phys, table: nat, i: nat, x: Fields)
    requires Holds(m, table, i, x)
    ensures Entry(m, table, i) == Some(Encoded(x))
  {
    hide LeVal, LeBytes;
    Le64RoundTrip(Encoded(x));
  }

  /** The address with these four indices and this offset. */
  function Address(i0: nat, i1: nat, i2: nat, i3: nat, o: nat): nat
  {
    i0 * 0x80_0000_0000 + i1 * 0x4000_0000 + i2 * 0x20_0000 + i3 * 0x1000 + o
  }

  lemma AddressIndex(i0: nat, i1: nat, i2: nat, i3: nat, o: nat)
    requires i0 < 512 && i1 < 512 && i2 < 512 && i3 < 512 && o < 0x1000
    ensures var va := Address(i0, i1, i2, i3, o);
            && Index(va, 0) == i0 && Index(va, 1) == i1 && Index(va, 2) == i2 && Index(va, 3) == i3
            && va % 0x1000 == o && va % 0x20_0000 == i3 * 0x1000 + o
            && va % 0x4000_0000 == i2 * 0x20_0000 + i3 * 0x1000 + o
  {
    var va := Address(i0, i1, i2, i3, o);
    FieldAt(va, 0x80_0000_0000, 512, i1 * 0x4000_0000 + i2 * 0x20_0000 + i3 * 0x1000 + o, i0, 0);
    FieldAt(va, 0x4000_0000, 512, i2 * 0x20_0000 + i3 * 0x1000 + o, i1, i0);
    FieldAt(va, 0x20_0000, 512, i3 * 0x1000 + o, i2, i0 * 512 + i1);
    FieldAt(va, 0x1000, 512, o, i3, (i0 * 512 + i1) * 512 + i2);
    ModUnique(va, 0x1000, ((i0 * 512 + i1) * 512 + i2) * 512 + i3, o);
    ModUnique(va, 0x20_0000, (i0 * 512 + i1) * 512 + i2, i3 * 0x1000 + o);
    ModUnique(va, 0x4000_0000, i0 * 512 + i1, i2 * 0x20_0000 + i3 * 0x1000 + o);
  }

  /** Through an entry that names a table, a walk goes on in that table. */
  lemma StepDown(m: Phys, table: nat, level: nat, va: nat, x: Fields)
    requires level < 3 && Holds(m, table, Index(va, level), x) && (level > 0 ==> !x.huge)
    ensures WalkFrom(m, table, level, va) == WalkFrom(m, 0x1000 * x.frame, level + 1, va)
  {
    hide Index, Entry;
    HeldEntry(m, table, Index(va, level), x);
    FieldsRead(x);
  }

  /** At an entry that maps a page, a walk ends. */
  lemma StepEnd(m: Phys, table: nat, level: nat, va: nat, x: Fields)
    requires 1 <= level <= 3 && Holds(m, table, Index(va, level), x) && (level < 3 ==> x.huge)
    ensures WalkFrom(m, table, level, va) == Leaf(Encoded(x), level)
  {
    hide Index, Entry;
    HeldEntry(m, table, Index(va, level), x);
    FieldsRead(x);
  }

  /** A 4 KiB page mapped through four tables translates to its frame. */
  lemma BuiltSmall(m: Phys, cr3: nat, i0: nat, i1: nat, i2: nat, i3: nat, o: nat,
                   x0: Fields, x1: Fields, x2: Fields, x3: Fields)
    requires cr3 % PAGE == 0 && o < 0x1000 && !x1.huge && !x2.huge
    requires Holds(m, cr3, i0, x0) && Holds(m, 0x1000 * x0.frame, i1, x1)
    requires Holds(m, 0x1000 * x1.frame, i2, x2) && Holds(m, 0x1000 * x2.frame, i3, x3)
    ensures Walk(m, cr3, Address(i0, i1, i2, i3, o)) == Leaf(Encoded(x3), 3)
    ensures Translate(m, cr3, Address(i0, i1, i2, i3, o)) == Some(0x1000 * x3.frame + o)
  {
    hide WalkFrom, Address, Index, Holds, Encoded;
    var va := Address(i0, i1, i2, i3, o);
    HoldsOk(m, cr3, i0, x0);
    HoldsOk(m, 0x1000 * x0.frame, i1, x1);
    HoldsOk(m, 0x1000 * x1.frame, i2, x2);
    HoldsOk(m, 0x1000 * x2.frame, i3, x3);
    AddressIndex(i0, i1, i2, i3, o);
    RootFrame(m, cr3, i0, x0);
    StepDown(m, cr3, 0, va, x0);
    StepDown(m, 0x1000 * x0.frame, 1, va, x1);
    StepDown(m, 0x1000 * x1.frame, 2, va, x2);
    StepEnd(m, 0x1000 * x2.frame, 3, va, x3);
    FieldsRead(x3);
  }

  /** A 2 MiB page translates to its frame plus the low 21 bits. */
  lemma BuiltLarge(m: Phys, cr3: nat, i0: nat, i1: nat, i2: nat, i3: nat, o: nat,
                   x0: Fields, x1: Fields, x2: Fields)
    requires cr3 % PAGE == 0 && i3 < 512 && o < 0x1000 && !x1.huge && x2.huge && x2.frame % 512 == 0
    requires Holds(m, cr3, i0, x0) && Holds(m, 0x1000 * x0.frame, i1, x1) && Holds(m, 0x1000 * x1.frame, i2, x2)
    ensures Walk(m, cr3, Address(i0, i1, i2, i3, o)) == Leaf(Encoded(x2), 2)
    ensures Translate(m, cr3, Address(i0, i1, i2, i3, o)) == Some(0x1000 * x2.frame + i3 * 0x1000 + o)
  {
    hide WalkFrom, Address, Index, Holds, Encoded;
    var va := Address(i0, i1, i2, i3, o);
    HoldsOk(m, cr3, i0, x0);
    HoldsOk(m, 0x1000 * x0.frame, i1, x1);
    HoldsOk(m, 0x1000 * x1.frame, i2, x2);
    AddressIndex(i0, i1, i2, i3, o);
    RootFrame(m, cr3, i0, x0);
    StepDown(m, cr3, 0, va, x0);
    StepDown(m, 0x1000 * x0.frame, 1, va, x1);
    StepEnd(m, 0x1000 * x1.frame, 2, va, x2);
    FieldsRead(x2);
    ModUnique(0x1000 * x2.frame, 0x20_0000, x2.frame / 512, 0);
  }

  /** A 1 GiB page translates to its frame plus the low 30 bits. */
  lemma BuiltHuge(m: Phys, cr3: nat, i0: nat, i1: nat, i2: nat, i3: nat, o: nat, x0: Fields, x1: Fields)
    requires cr3 % PAGE == 0 && i2 < 512 && i3 < 512 && o < 0x1000 && x1.huge && x1.frame % 0x4_0000 == 0
    requires Holds(m, cr3, i0, x0) && Holds(m, 0x1000 * x0.frame, i1, x1)
    ensures Walk(m, cr3, Address(i0, i1, i2, i3, o)) == Leaf(Encoded(x1), 1)
    ensures Translate(m, cr3, Address(i0, i1, i2, i3, o))
         == Some(0x1000 * x1.frame + i2 * 0x20_0000 + i3 * 0x1000 + o)
  {
    hide WalkFrom, Address, Index, Holds, Encoded;
    var va := Address(i0, i1, i2, i3, o);
    HoldsOk(m, cr3, i0, x0);
    HoldsOk(m, 0x1000 * x0.frame, i1, x1);
    AddressIndex(i0, i1, i2, i3, o);
    RootFrame(m, cr3, i0, x0);
    StepDown(m, cr3, 0, va, x0);
    StepEnd(m, 0x1000 * x0.frame, 1, va, x1);
    FieldsRead(x1);
    ModUnique(0x1000 * x1.frame, 0x4000_0000, x1.frame / 0x4_0000, 0);
  }

  /** No table at or above 2^36 is followed. */
  lemma NoTableAbove(m: Phys, table: nat, level: nat, va: nat)
    requires level < 4
    ensures table >= 0x10_0000_0000 ==> WalkFrom(m, table, level, va) == NoLeaf
  {
  }

  lemma HoldsOk(m: Phys, table: nat, i: nat, x: Fields)
    requires Holds(m, table, i, x)
    ensures FieldsOk(x) && i < 512
  {
  }

  lemma RootFrame(m: Phys, cr3: nat, i: nat, x: Fields)
    requires cr3 % PAGE == 0 && Holds(m, cr3, i, x)
    ensures Frame(cr3) == cr3
  {
  }

  /** Entries are 64 bits wide. */
  lemma {:induction false} WalkedEntry(m: Phys, table: nat, level: nat, va: nat)
    requires level < 4
    ensures var l := WalkFrom(m, table, level, va); l.Leaf? ==> l.e < U64
    decreases 4 - level
  {
    hide Index, LeVal;
    Pow256Values();
    if table < BOUND && level < 3 {
      match Entry(m, table, Index(va, level))
      case None =>
      case Some(e) => WalkedEntry(m, Frame(e), level + 1, va);
    }
  }
}
