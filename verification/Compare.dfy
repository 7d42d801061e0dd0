/** Integer value comparison: the generic comparator and the typed point comparator. */
module Compare {
  import opened Bytes
  import opened Options

  /** Value types 0..7 are u8 i8 u16 i16 u32 i32 u64 i64. */
  type IntType = t: nat | t < 8

  function Size(t: IntType): (n: nat)
    ensures n == 1 || n == 2 || n == 4 || n == 8
  {
    if t < 2 then 1 else if t < 4 then 2 else if t < 6 then 4 else 8
  }

  predicate Signed(t: IntType)
  {
    t % 2 == 1
  }

  /** 2 to the number of bits of the type. */
  function Range(t: IntType): (r: nat)
    ensures r > 0 && r % 2 == 0
  {
    if t < 2 then 0x100 else if t < 4 then 0x1_0000 else if t < 6 then U32 else U64
  }

  lemma RangeIsPow(t: IntType)
    ensures Range(t) == Pow256(Size(t))
  {
    Pow256Values();
  }

  predicate IsValue(t: IntType, b: seq<byte>)
  {
    |b| == Size(t)
  }

  /** Two's-complement reading of the unsigned value `u`. */
  function Interpret(t: IntType, u: nat): int
    requires u < Range(t)
  {
    if Signed(t) && u >= Range(t) / 2 then u - Range(t) else u
  }

  /** The integer stored in `b`. */
  function Load(t: IntType, b: seq<byte>): int
    requires IsValue(t, b)
  {
    RangeIsPow(t);
    Interpret(t, LeVal(b))
  }

  /** Conversion of an exact integer result back to the type: the value modulo its range. */
  function Convert(t: IntType, x: int): int
  {
    Interpret(t, x % Range(t))
  }

  // ----- the generic comparator -----

  predicate ExactBytes(scan: seq<byte>, mem: seq<byte>)
    requires |scan| == |mem|
  {
    forall j :: 0 <= j < |scan| ==> scan[j] == mem[j]
  }

  predicate Between(t: IntType, mem: seq<byte>, lo: seq<byte>, hi: seq<byte>)
    requires IsValue(t, mem) && IsValue(t, lo) && IsValue(t, hi)
  {
    var mv, sv, ev := Load(t, mem), Load(t, lo), Load(t, hi);
    if ev > sv then sv <= mv <= ev else mv <= sv && mv >= ev
  }

  /** `(uint64_t)(int64_t)x`. */
  function Widen(x: int): nat
  {
    x % U64
  }

  /** proc_scan_compareValues for the integer types. */
  predicate Generic(cmpType: nat, t: IntType, scan: seq<byte>, mem: seq<byte>, prev: Option<seq<byte>>)
    requires IsValue(t, scan) && IsValue(t, mem) && (prev.Some? ==> IsValue(t, prev.value))
  {
    if 4 <= cmpType <= 10 && prev.None? then false
    else match cmpType
      case 0 => ExactBytes(scan, mem)
      case 2 => Load(t, mem) > Load(t, scan)
      case 3 => Load(t, mem) < Load(t, scan)
      case 4 => Between(t, mem, scan, prev.value)
      case 5 => Load(t, mem) > Load(t, prev.value)
      case 6 => Load(t, mem) == Convert(t, Load(t, prev.value) + Load(t, scan))
      case 7 => Load(t, mem) < Load(t, prev.value)
      case 8 => Load(t, mem) == Convert(t, Load(t, prev.value) - Load(t, scan))
      case 9 => Load(t, mem) != Load(t, prev.value)
      case 10 => Load(t, mem) == Load(t, prev.value)
      case 11 => LeVal(mem) != 0
      case 12 => Load(t, mem) != 0 && Widen(Load(t, mem)) <= Widen(Load(t, scan))
      case _ => false
  }

  // ----- the typed point comparator -----

  predicate PointSupported(cmpType: nat, valType: nat)
  {
    valType <= 9 && match cmpType
      case 0 => valType <= 7
      case 5 => true
      case 6 => true
      case 7 => true
      case 8 => true
      case 9 => true
      case 10 => true
      case _ => false
  }

  /** scan_point_compare for the integer types. */
  predicate Point(cmpType: nat, t: IntType, mem: seq<byte>, scan: seq<byte>, prev: seq<byte>)
    requires IsValue(t, mem) && IsValue(t, scan) && IsValue(t, prev)
  {
    match cmpType
    case 0 => Load(t, mem) == Load(t, scan)
    case 5 => Load(t, mem) > Load(t, prev)
    case 6 => Load(t, mem) == Convert(t, Load(t, prev) + Load(t, scan))
    case 7 => Load(t, mem) < Load(t, prev)
    case 8 => Load(t, mem) == Convert(t, Load(t, prev) - Load(t, scan))
    case 9 => Load(t, mem) != Load(t, prev)
    case 10 => Load(t, mem) == Load(t, prev)
    case _ => false
  }

  // ----- properties -----

  lemma InterpretInjective(t: IntType, u: nat, v: nat)
    requires u < Range(t) && v < Range(t)
    ensures Interpret(t, u) == Interpret(t, v) <==> u == v
  {
  }

  /** Typed equality is equality of the stored bytes. */
  lemma LoadInjective(t: IntType, a: seq<byte>, b: seq<byte>)
    requires IsValue(t, a) && IsValue(t, b)
    ensures Load(t, a) == Load(t, b) <==> a == b
  {
    RangeIsPow(t);
    InterpretInjective(t, LeVal(a), LeVal(b));
    LeInjective(a, b);
  }

  lemma ExactIsEqual(a: seq<byte>, b: seq<byte>)
    requires |a| == |b|
    ensures ExactBytes(a, b) <==> a == b
  {
  }

  /** Supported are equality of the eight integer types and the comparisons with a previous value of all ten types. */
  lemma SupportedExactly(cmpType: nat, valType: nat)
    ensures PointSupported(cmpType, valType)
            <==> (cmpType == 0 && valType < 8) || (5 <= cmpType < 11 && valType < 10)
  {
  }

  /** On every supported pair the point comparator decides exactly like the generic one. */
  lemma PointEqualsGeneric(cmpType: nat, t: IntType, mem: seq<byte>, scan: seq<byte>, prev: seq<byte>)
    requires IsValue(t, mem) && IsValue(t, scan) && IsValue(t, prev)
    requires PointSupported(cmpType, t)
    ensures Point(cmpType, t, mem, scan, prev) <==> Generic(cmpType, t, scan, mem, Some(prev))
  {
    hide LeVal;
    LoadInjective(t, mem, scan);
    ExactIsEqual(scan, mem);
  }

  /** Deltas do not depend on signedness: they hold exactly when the stored words agree modulo the range. */
  lemma DeltaIsModular(t: IntType, mem: seq<byte>, prev: seq<byte>, d: seq<byte>)
    requires IsValue(t, mem) && IsValue(t, prev) && IsValue(t, d)
    ensures LeVal(mem) < Range(t) && LeVal(prev) < Range(t) && LeVal(d) < Range(t)
    ensures Point(6, t, mem, d, prev) <==> LeVal(mem) == (LeVal(prev) + LeVal(d)) % Range(t)
    ensures Point(8, t, mem, d, prev) <==> LeVal(mem) == (LeVal(prev) - LeVal(d)) % Range(t)
  {
    RangeIsPow(t);
    var m, p, x := LeVal(mem), LeVal(prev), LeVal(d);
    ModularSum(t, p, x);
    InterpretInjective(t, m, (Interpret(t, p) + Interpret(t, x)) % Range(t));
    InterpretInjective(t, m, (Interpret(t, p) - Interpret(t, x)) % Range(t));
  }

  // ----- the order, byte by byte -----

  /** Comparing from the most significant byte down. */
  predicate Below(a: seq<byte>, b: seq<byte>)
    requires |a| == |b|
  {
    |a| > 0 &&
    (var n := |a| - 1;
     a[n] < b[n] || (a[n] == b[n] && Below(a[..n], b[..n])))
  }

  /** For signed types the sign bit is turned over first, so that negative values come before the others. */
  function Biased(t: IntType, b: seq<byte>): (s: seq<byte>)
    requires IsValue(t, b)
    ensures |s| == |b|
  {
    var n := |b| - 1;
    if Signed(t) then b[n := if b[n] < 0x80 then b[n] + 0x80 else b[n] - 0x80] else b
  }

  lemma {:induction false} BelowIsLess(a: seq<byte>, b: seq<byte>)
    requires |a| == |b|
    ensures Below(a, b) <==> LeVal(a) < LeVal(b)
  {
    if |a| > 0 {
      var n := |a| - 1;
      BelowIsLess(a[..n], b[..n]);
      assert a == a[..n] + [a[n]] && b == b[..n] + [b[n]];
      LeValSnoc(a[..n], a[n]);
      LeValSnoc(b[..n], b[n]);
      TopDecides(Pow256(n), LeVal(a[..n]), a[n], LeVal(b[..n]), b[n]);
    }
  }

  lemma TopDecides(p: nat, u: nat, x: nat, v: nat, y: nat)
    requires u < p && v < p
    ensures u + p * x < v + p * y <==> x < y || (x == y && u < v)
  {
    if x < y {
      MulDistributes(p, y, x);
      MulAtLeast(p, y - x);
    } else if y < x {
      MulDistributes(p, x, y);
      MulAtLeast(p, x - y);
    }
  }

  /** Turning the sign bit over adds half the range to the signed reading. */
  lemma BiasedIs(t: IntType, b: seq<byte>)
    requires IsValue(t, b)
    ensures LeVal(Biased(t, b)) == Load(t, b) + if Signed(t) then Range(t) / 2 else 0
  {
    if Signed(t) {
      var n := |b| - 1;
      var c := Biased(t, b);
      assert b == b[..n] + [b[n]] && c == b[..n] + [c[n]];
      LeValSnoc(b[..n], b[n]);
      LeValSnoc(b[..n], c[n]);
      RangeIsPow(t);
      var p := Pow256(n);
      assert Range(t) == 256 * p;
      TopDecides(p, LeVal(b[..n]), b[n], 0, 0x80);
      MulDistributes(p, b[n], 0x80);
    }
  }

  /** Two stored integers are in order exactly when their bytes are, from the most significant down. */
  lemma LoadOrder(t: IntType, a: seq<byte>, b: seq<byte>)
    requires IsValue(t, a) && IsValue(t, b)
    ensures Load(t, a) < Load(t, b) <==> Below(Biased(t, a), Biased(t, b))
  {
    BiasedIs(t, a);
    BiasedIs(t, b);
    BelowIsLess(Biased(t, a), Biased(t, b));
  }

  /** Bigger and smaller than a value, increased and decreased, in terms of the bytes alone. */
  lemma OrderByBytes(t: IntType, scan: seq<byte>, mem: seq<byte>, prev: seq<byte>)
    requires IsValue(t, scan) && IsValue(t, mem) && IsValue(t, prev)
    ensures var s, m, p := Biased(t, scan), Biased(t, mem), Biased(t, prev);
            && (Generic(2, t, scan, mem, None) <==> Below(s, m)) && (Generic(3, t, scan, mem, None) <==> Below(m, s))
            && (Generic(5, t, scan, mem, Some(prev)) <==> Below(p, m))
            && (Generic(7, t, scan, mem, Some(prev)) <==> Below(m, p))
            && (Generic(4, t, scan, mem, Some(prev))
                <==> !((Below(m, s) && Below(m, p)) || (Below(s, m) && Below(p, m))))
            && (Generic(9, t, scan, mem, Some(prev)) <==> mem != prev)
            && (Generic(11, t, scan, mem, None) <==> mem != LeBytes(0, |mem|))
  {
    hide LeVal, LeBytes, Biased, Below, Interpret;
    LoadOrder(t, scan, mem);
    LoadOrder(t, mem, scan);
    LoadOrder(t, prev, mem);
    LoadOrder(t, mem, prev);
    LoadInjective(t, mem, prev);
    ZeroValue(mem);
  }

  lemma ZeroValue(s: seq<byte>)
    ensures LeVal(s) == 0 <==> s == LeBytes(0, |s|)
  {
    hide LeVal, LeBytes;
    LeValOfBytes(0, |s|);
    LeInjective(s, LeBytes(0, |s|));
  }

  lemma ModShift(x: int, r: nat, k: int)
    requires r > 0
    ensures (x + k * r) % r == x % r
  {
    ModUnique(x + k * r, r, x / r + k, x % r) by {
      MulDistributes(r, x / r, k);
    }
  }

  lemma ModularSum(t: IntType, p: nat, x: nat)
    requires p < Range(t) && x < Range(t)
    ensures (Interpret(t, p) + Interpret(t, x)) % Range(t) == (p + x) % Range(t)
    ensures (Interpret(t, p) - Interpret(t, x)) % Range(t) == (p - x) % Range(t)
  {
    var r := Range(t);
    var a: int := if Interpret(t, p) == p then 0 else -1;
    var b: int := if Interpret(t, x) == x then 0 else -1;
    assert a * r == Interpret(t, p) - p && b * r == Interpret(t, x) - x;
    MulDistributes(r, a, b);
    ModShift(p + x, r, a + b);
    ModShift(p - x, r, a - b);
  }

  /** "Increased by d" from the old value is "decreased by d" back to it. */
  lemma DeltaRoundTrip(t: IntType, mem: seq<byte>, prev: seq<byte>, d: seq<byte>)
    requires IsValue(t, mem) && IsValue(t, prev) && IsValue(t, d)
    ensures Point(6, t, mem, d, prev) <==> Point(8, t, prev, d, mem)
  {
    DeltaIsModular(t, mem, prev, d);
    DeltaIsModular(t, prev, mem, d);
    UndoSum(LeVal(mem), LeVal(prev), LeVal(d), Range(t));
  }

  lemma UndoSum(m: nat, p: nat, x: nat, r: nat)
    requires m < r && p < r && x < r
    ensures m == (p + x) % r <==> p == (m - x) % r
  {
    if p + x < r { ModUnique(p + x, r, 0, p + x); } else { ModUnique(p + x, r, 1, p + x - r); }
    if m >= x { ModUnique(m - x, r, 0, m - x); } else { ModUnique(m - x, r, -1, m - x + r); }
  }

  /** Increased, decreased and unchanged partition every pair; changed is the complement of unchanged. */
  lemma Trichotomy(t: IntType, mem: seq<byte>, scan: seq<byte>, prev: seq<byte>)
    requires IsValue(t, mem) && IsValue(t, scan) && IsValue(t, prev)
    ensures Point(10, t, mem, scan, prev) <==> mem == prev
    ensures Point(9, t, mem, scan, prev) <==> mem != prev
    ensures mem != prev <==> (Point(5, t, mem, scan, prev) != Point(7, t, mem, scan, prev))
    ensures !(Point(5, t, mem, scan, prev) && Point(7, t, mem, scan, prev))
  {
    LoadInjective(t, mem, prev);
  }

  /** Bounds may be given in either order. */
  lemma BetweenIsSymmetric(t: IntType, mem: seq<byte>, lo: seq<byte>, hi: seq<byte>)
    requires IsValue(t, mem) && IsValue(t, lo) && IsValue(t, hi)
    ensures Between(t, mem, lo, hi) <==> Between(t, mem, hi, lo)
  {
  }

  /** "Non-zero and at most" compares words, so the signed type decides like the unsigned one of its width. */
  lemma AtMostIgnoresSign(t: IntType, scan: seq<byte>, mem: seq<byte>)
    requires Signed(t) && IsValue(t, scan) && IsValue(t, mem)
    ensures Generic(12, t, scan, mem, None) <==> Generic(12, t - 1, scan, mem, None)
    ensures Generic(12, t, scan, mem, None) <==> 0 < LeVal(mem) <= LeVal(scan)
  {
    RangeIsPow(t);
    RangeIsPow(t - 1);
    assert Range(t) <= U64 && Range(t) == Range(t - 1);
    WidenOrder(t, LeVal(mem), LeVal(scan));
    WidenOrder(t - 1, LeVal(mem), LeVal(scan));
    InterpretZero(t, LeVal(mem));
    InterpretZero(t - 1, LeVal(mem));
  }

  lemma InterpretZero(t: IntType, u: nat)
    requires u < Range(t)
    ensures Interpret(t, u) == 0 <==> u == 0
  {
  }

  lemma WidenOrder(t: IntType, u: nat, v: nat)
    requires u < Range(t) && v < Range(t) && Range(t) <= U64
    ensures Widen(Interpret(t, u)) <= Widen(Interpret(t, v)) <==> u <= v
  {
    WidenValue(t, u);
    WidenValue(t, v);
  }

  lemma WidenValue(t: IntType, u: nat)
    requires u < Range(t) && Range(t) <= U64
    ensures Widen(Interpret(t, u)) == if Signed(t) && u >= Range(t) / 2 then U64 - Range(t) + u else u
  {
  }
}
