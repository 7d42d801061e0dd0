/** SHA-1 as sections 4.1.1, 4.2.1, 5.1.1, 5.3.1 and 6.1.2 of FIPS 180-4 define it. */
module Sha1Spec {
  type Bytes8 = seq<bv8>
  datatype Regs = Regs(a: bv32, b: bv32, c: bv32, d: bv32, e: bv32)

  function Rotl1(x: bv32): bv32 { (x << 1) | (x >> 31) }
  function Rotl5(x: bv32): bv32 { (x << 5) | (x >> 27) }
  function Rotl30(x: bv32): bv32 { (x << 30) | (x >> 2) }

  /** Rotating left by k moves bit i to bit (i + k) mod 32. */
  lemma RotationBits(x: bv32, i: bv32)
    requires i < 32
    ensures (Rotl1(x) >> ((i + 1) & 31)) & 1 == (x >> i) & 1
    ensures (Rotl5(x) >> ((i + 5) & 31)) & 1 == (x >> i) & 1
    ensures (Rotl30(x) >> ((i + 30) & 31)) & 1 == (x >> i) & 1
  {
  }

  function Ch(x: bv32, y: bv32, z: bv32): bv32 { (x & y) ^ (!x & z) }
  function Parity(x: bv32, y: bv32, z: bv32): bv32 { x ^ y ^ z }
  function Maj(x: bv32, y: bv32, z: bv32): bv32 { ((x & y) ^ (x & z)) ^ (y & z) }

  function Ft(t: nat, x: bv32, y: bv32, z: bv32): bv32
  {
    if t < 20 then Ch(x, y, z) else if t < 40 then Parity(x, y, z) else if t < 60 then Maj(x, y, z) else Parity(x, y, z)
  }

  function Kt(t: nat): bv32
  {
    if t < 20 then 0x5A827999 else if t < 40 then 0x6ED9EBA1 else if t < 60 then 0x8F1BBCDC else 0xCA62C1D6
  }

  /** Is `k` the integer part of 2^30 times the square root of `n`? */
  predicate RootBits(k: nat, n: nat)
  {
    k * k <= n * 0x1000_0000_0000_0000 < (k + 1) * (k + 1)
  }

  /** The round constants are the leading bits of the square roots of 2, 3, 5 and 10, twenty rounds each. */
  lemma RoundConstants(t: nat)
    requires t < 80
    ensures RootBits(Kt(t) as nat, if t < 20 then 2 else if t < 40 then 3 else if t < 60 then 5 else 10)
  {
    assert 0x5A827999 * 0x5A827999 <= 2 * 0x1000_0000_0000_0000 < 0x5A82799A * 0x5A82799A;
    assert 0x6ED9EBA1 * 0x6ED9EBA1 <= 3 * 0x1000_0000_0000_0000 < 0x6ED9EBA2 * 0x6ED9EBA2;
    assert 0x8F1BBCDC * 0x8F1BBCDC <= 5 * 0x1000_0000_0000_0000 < 0x8F1BBCDD * 0x8F1BBCDD;
    assert 0xCA62C1D6 * 0xCA62C1D6 <= 10 * 0x1000_0000_0000_0000 < 0xCA62C1D7 * 0xCA62C1D7;
  }

  function BeWord(b0: bv8, b1: bv8, b2: bv8, b3: bv8): bv32
  {
    (b0 as bv32 << 24) | (b1 as bv32 << 16) | (b2 as bv32 << 8) | (b3 as bv32)
  }

  function BlockWord(block: Bytes8, t: nat): bv32
    requires |block| == 64 && t < 16
  {
    BeWord(block[4 * t], block[4 * t + 1], block[4 * t + 2], block[4 * t + 3])
  }

  /** The 80-word message schedule. */
  function Schedule(block: Bytes8, t: nat): (w: bv32)
    requires |block| == 64
  {
    if t < 16 then BlockWord(block, t)
    else Expand(Schedule(block, t - 3), Schedule(block, t - 8), Schedule(block, t - 14), Schedule(block, t - 16))
  }

  function Expand(a: bv32, b: bv32, c: bv32, d: bv32): bv32 { Rotl1(((a ^ b) ^ c) ^ d) }

  function Sum5(p: bv32, q: bv32, r: bv32, s: bv32, t: bv32): bv32 { p + q + r + s + t }

  function RoundStep(r: Regs, t: nat, w: bv32): (r': Regs)
  {
    Regs(Sum5(Rotl5(r.a), Ft(t, r.b, r.c, r.d), r.e, Kt(t), w), r.a, Rotl30(r.b), r.c, r.d)
  }

  /** The working variables after the first `t` rounds. */
  function Rounds(r: Regs, block: Bytes8, t: nat): (r': Regs)
    requires |block| == 64
  {
    if t == 0 then r else RoundStep(Rounds(r, block, t - 1), t - 1, Schedule(block, t - 1))
  }

  function Compress(h: Regs, block: Bytes8): (r: Regs)
    requires |block| == 64
  {
    AddRegs(h, Rounds(h, block, 80))
  }

  function AddRegs(h: Regs, w: Regs): Regs
  {
    Regs(Add(h.a, w.a), Add(h.b, w.b), Add(h.c, w.c), Add(h.d, w.d), Add(h.e, w.e))
  }

  /** Addition modulo 2^32. */
  function Add(x: bv32, y: bv32): bv32 { x + y }

  /** Zero is neutral and counting carries over: these determine addition. */
  lemma AddCounts(x: bv32, y: bv32)
    ensures Add(x, 0) == x && Add(x, y + 1) == Add(x, y) + 1
  {
  }

  const INITIAL: Regs := Regs(0x67452301, 0xEFCDAB89, 0x98BADCFE, 0x10325476, 0xC3D2E1F0)

  /** Byte `k` of a word, least significant first. */
  function LowByte(w: bv32, k: nat): bv32
    requires k < 4
  {
    if k == 0 then w & 0xff else if k == 1 then (w >> 8) & 0xff else if k == 2 then (w >> 16) & 0xff else w >> 24
  }

  /** The initial bytes count up in steps of 0x22 from 0x01, then back down; the last word's go down by 0x0f. */
  lemma InitialPattern(k: nat)
    requires k < 4
    ensures LowByte(INITIAL.a, k) == 0x01 + 0x22 * (k as bv32)
    ensures LowByte(INITIAL.b, k) == 0x89 + 0x22 * (k as bv32)
    ensures LowByte(INITIAL.c, k) == 0xfe - 0x22 * (k as bv32)
    ensures LowByte(INITIAL.d, k) == 0x76 - 0x22 * (k as bv32)
    ensures LowByte(INITIAL.e, k) == 0xf0 - 0x0f * (k as bv32)
  {
    if k == 0 {} else if k == 1 {} else if k == 2 {} else {}
  }

  /** Hash value after the whole blocks of a message. */
  function Hash(m: Bytes8): (h: Regs)
    requires |m| % 64 == 0
  {
    if |m| == 0 then INITIAL else Compress(Hash(m[..|m| - 64]), m[|m| - 64..])
  }

  function Zeros(n: nat): (z: Bytes8)
    ensures |z| == n && forall i :: 0 <= i < n ==> z[i] == 0
  {
    seq(n, i => 0)
  }

  function Byte(v: nat): bv8 { (v % 256) as bv8 }

  /** 64-bit big-endian length field. */
  function Be64(v: nat): (s: Bytes8)
    ensures |s| == 8
  {
    [Byte(v / 0x100_0000_0000_0000), Byte(v / 0x1_0000_0000_0000), Byte(v / 0x100_0000_0000), Byte(v / 0x1_0000_0000),
     Byte(v / 0x100_0000), Byte(v / 0x1_0000), Byte(v / 0x100), Byte(v)]
  }

  /** A message of n bytes, the 0x80 byte and k zeros leave exactly eight bytes in the last block. */
  predicate LeavesLengthField(n: nat, k: nat) { (n + 1 + k) % 64 == 56 }

  /** Number of zero bytes between the 1 bit's byte and the length field. */
  function PadZeros(n: nat): (k: nat)
    ensures k < 64 && LeavesLengthField(n, k)
    ensures forall j: nat :: j < k ==> !LeavesLengthField(n, j)
  {
    if n % 64 <= 55 then 55 - n % 64 else 119 - n % 64
  }

  function Padded(m: Bytes8): (p: Bytes8)
    ensures |p| % 64 == 0 && |m| <= |p| && p[..|m|] == m
  {
    var k := PadZeros(|m|);
    assert (|m| + 1 + k + 8) % 64 == 0;
    m + ([0x80] + Zeros(k) + Be64(8 * |m|))
  }

  function WordBytes(w: bv32): (s: Bytes8)
    ensures |s| == 4
  {
    [((w >> 24) & 0xff) as bv8, ((w >> 16) & 0xff) as bv8, ((w >> 8) & 0xff) as bv8, (w & 0xff) as bv8]
  }

  /** A word's bytes, most significant first, are the bytes it was read from. */
  lemma WordRoundTrip(b0: bv8, b1: bv8, b2: bv8, b3: bv8)
    ensures WordBytes(BeWord(b0, b1, b2, b3)) == [b0, b1, b2, b3]
    ensures BeWord(b0, b1, b2, b3) >> 24 == b0 as bv32
  {
  }

  function RegsBytes(r: Regs): (s: Bytes8)
    ensures |s| == 20
  {
    WordBytes(r.a) + WordBytes(r.b) + WordBytes(r.c) + WordBytes(r.d) + WordBytes(r.e)
  }

  function Digest(m: Bytes8): (d: Bytes8)
    ensures |d| == 20
  {
    RegsBytes(Hash(Padded(m)))
  }
}
