/** Bytes, slices of target memory, and little-endian fields of a record. */
module Bytes {

  type byte = x: int | 0 <= x < 256

  /** Target memory as one scan sees it: every address holds one byte. */
  type Memory = nat -> byte

  const U64: nat := 0x1_0000_0000_0000_0000
  const U32: nat := 0x1_0000_0000

  /** The `n` bytes of target memory starting at `addr`. */
  function Slice(mem: Memory, addr: nat, n: nat): (s: seq<byte>)
    ensures |s| == n
    ensures forall i :: 0 <= i < n ==> s[i] == mem(addr + i)
  {
    seq(n, i requires 0 <= i < n => mem(addr + i))
  }

  /** A slice of a slice is the slice at the shifted address. */
  lemma SliceOfSlice(mem: Memory, base: nat, n: nat, addr: nat, len: nat)
    requires base <= addr && addr + len <= base + n
    ensures Slice(mem, base, n)[addr - base..addr - base + len] == Slice(mem, addr, len)
  {
  }

  function Pow256(n: nat): (p: nat)
    ensures p > 0
  {
    if n == 0 then 1 else 256 * Pow256(n - 1)
  }

  /** Value of a little-endian byte string. */
  function LeVal(s: seq<byte>): (v: nat)
    ensures v < Pow256(|s|)
  {
    if s == [] then 0 else s[0] + 256 * LeVal(s[1..])
  }

  /** The low `n` bytes of `v`, least significant first. */
  function LeBytes(v: nat, n: nat): (s: seq<byte>)
    ensures |s| == n
  {
    if n == 0 then [] else [v % 256] + LeBytes(v / 256, n - 1)
  }

  lemma {:induction false} LeValOfBytes(v: nat, n: nat)
    ensures LeVal(LeBytes(v, n)) == v % Pow256(n)
  {
    if n != 0 {
      LeValOfBytes(v / 256, n - 1);
      assert LeBytes(v, n)[1..] == LeBytes(v / 256, n - 1);
      ModSplit(v, Pow256(n - 1));
    }
  }

  lemma ModSplit(v: nat, p: nat)
    requires p > 0
    ensures v % 256 + 256 * ((v / 256) % p) == v % (256 * p)
  {
    var q := v / 256;
    var r := v % 256 + 256 * (q % p);
    assert q == p * (q / p) + q % p;
    assert v == (256 * p) * (q / p) + r by {
      assert v == 256 * q + v % 256;
      assert 256 * (p * (q / p)) == (256 * p) * (q / p);
    }
    ModUnique(v, 256 * p, q / p, r);
  }

  lemma MulAtLeast(m: nat, k: int)
    requires k >= 1
    ensures m * k >= m
  {
  }

  lemma MulDistributes(m: int, a: int, b: int)
    ensures m * (a - b) == m * a - m * b
    ensures m * (a + b) == m * a + m * b
  {
  }

  /** Quotient and remainder are the only pair that fits. */
  lemma DivModUnique(m: nat, q: int, r: nat, q': int, r': nat)
    requires r < m && r' < m && m * q + r == m * q' + r'
    ensures q == q' && r == r'
  {
    MulDistributes(m, q, q');
    if q > q' {
      MulAtLeast(m, q - q');
    } else if q < q' {
      MulDistributes(m, q', q);
      MulAtLeast(m, q' - q);
    }
  }

  lemma ModUnique(v: int, m: nat, q: int, r: nat)
    requires m > 0 && v == m * q + r && r < m
    ensures v % m == r && v / m == q
  {
    DivModUnique(m, q, r, v / m, v % m);
  }

  lemma {:induction false} LeBytesOfVal(s: seq<byte>)
    ensures LeBytes(LeVal(s), |s|) == s
  {
    if s != [] {
      LeBytesOfVal(s[1..]);
      ModUnique(LeVal(s), 256, LeVal(s[1..]), s[0]);
      assert s == [s[0]] + s[1..];
    }
  }

  /** A further byte on top counts 256 to the power of its place. */
  lemma {:induction false} LeValSnoc(s: seq<byte>, x: byte)
    ensures LeVal(s + [x]) == LeVal(s) + Pow256(|s|) * x
  {
    if s == [] {
      assert [] + [x] == [x];
    } else {
      LeValSnoc(s[1..], x);
      assert (s + [x])[1..] == s[1..] + [x];
      assert 256 * (Pow256(|s| - 1) * x) == Pow256(|s|) * x;
    }
  }

  /** Little-endian fields of equal width are equal exactly when their values are. */
  lemma LeInjective(a: seq<byte>, b: seq<byte>)
    requires |a| == |b|
    ensures LeVal(a) == LeVal(b) <==> a == b
  {
    LeBytesOfVal(a);
    LeBytesOfVal(b);
  }

  lemma Pow256Values()
    ensures Pow256(1) == 0x100 && Pow256(2) == 0x1_0000
    ensures Pow256(4) == U32 && Pow256(8) == U64
  {
    assert Pow256(2) == 256 * Pow256(1);
    assert Pow256(3) == 256 * Pow256(2);
    assert Pow256(4) == 256 * Pow256(3);
    assert Pow256(5) == 256 * Pow256(4);
    assert Pow256(6) == 256 * Pow256(5);
    assert Pow256(7) == 256 * Pow256(6);
    assert Pow256(8) == 256 * Pow256(7);
  }

  /** A 64-bit field decodes to what was stored. */
  lemma Le64RoundTrip(v: nat)
    requires v < U64
    ensures LeVal(LeBytes(v, 8)) == v
  {
    Pow256Values();
    LeValOfBytes(v, 8);
  }

  lemma Le32RoundTrip(v: nat)
    requires v < U32
    ensures LeVal(LeBytes(v, 4)) == v
  {
    Pow256Values();
    LeValOfBytes(v, 4);
  }

  /** Unsigned 64-bit subtraction. */
  function Sub64(a: nat, b: nat): (d: nat)
    ensures d < U64
    ensures b <= a < U64 ==> d == a - b
    ensures a < b < U64 ==> d == U64 + a - b
  {
    (a - b) % U64
  }

  /** `dst` with `src` written over it at `at`. */
  function Splice<T>(dst: seq<T>, at: nat, src: seq<T>): (r: seq<T>)
    requires at + |src| <= |dst|
    ensures |r| == |dst|
  {
    dst[..at] + src + dst[at + |src|..]
  }

  lemma SpliceElements<T>(dst: seq<T>, at: nat, src: seq<T>)
    requires at + |src| <= |dst|
    ensures forall i :: 0 <= i < |dst| ==>
              Splice(dst, at, src)[i] == if at <= i < at + |src| then src[i - at] else dst[i]
  {
  }

  /** memcpy into a buffer. */
  method Blit<T>(dst: array<T>, at: nat, src: seq<T>)
    requires at + |src| <= dst.Length
    modifies dst
    ensures dst[..] == Splice(old(dst[..]), at, src)
  {
    for i := 0 to |src|
      invariant forall j :: 0 <= j < dst.Length ==>
                  dst[j] == if at <= j < at + i then src[j - at] else old(dst[j])
    {
      dst[at + i] := src[i];
    }
  }

  /** Offset of element `i` in an array of `size`-byte elements: the product, unrolled. */
  function Off(i: nat, size: nat): (r: nat)
  {
    if i == 0 then 0 else Off(i - 1, size) + size
  }

  lemma {:induction false} OffIsProduct(i: nat, size: nat)
    ensures Off(i, size) == i * size
  {
    if i > 0 {
      OffIsProduct(i - 1, size);
      MulDistributes(size, i, 1);
    }
  }

  /** Offsets add up, so neighbouring elements tile the array. */
  lemma {:induction false} OffSum(a: nat, b: nat, size: nat)
    ensures Off(a + b, size) == Off(a, size) + Off(b, size)
  {
    if b > 0 {
      OffSum(a, b - 1, size);
      assert a + b - 1 == a + (b - 1);
    }
  }

  lemma OffZero(size: nat)
    ensures Off(0, size) == 0
  {
  }

  lemma DivMod(n: nat, m: nat)
    requires m > 0
    ensures n == n / m * m + n % m
  {
  }

  /** Element `len / size` is the one that holds byte `len`. */
  lemma QuotientOff(len: nat, size: nat)
    requires size > 0
    ensures Off(len / size, size) <= len < Off(len / size, size) + size
    ensures Off(len / size, size) + len % size == len
  {
    hide Off;
    var q, r := len / size, len % size;
    OffIsProduct(q, size);
    DivMod(len, size);
  }

  lemma QuotientIs(len: nat, size: nat, q: nat)
    requires size > 0 && Off(q, size) <= len < Off(q, size) + size
    ensures len / size == q && len % size == len - Off(q, size)
  {
    hide Off;
    OffIsProduct(q, size);
    ModUnique(len, size, q, len - Off(q, size));
  }

  lemma OffNext(i: nat, size: nat)
    ensures Off(i + 1, size) == Off(i, size) + size
  {
  }

  lemma OffMono(a: nat, b: nat, size: nat)
    requires a <= b
    ensures Off(a, size) <= Off(b, size)
  {
    OffSum(a, b - a, size);
  }
}
