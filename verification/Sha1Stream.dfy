/** Feeding a message in pieces, padding it in place, and the digest that results. */
module Sha1Stream {
  import opened Bytes
  import opened Sha1Spec
  import opened Sha1

  /** The whole blocks of a message, and the bytes still waiting in the buffer. */
  function Done(m: Bytes8): (d: nat)
    ensures d <= |m| && d % 64 == 0 && |m| - d < 64
  {
    |m| - |m| % 64
  }

  ghost predicate Absorbed(regs: Regs, buf: Bytes8, m: Bytes8)
  {
    |buf| == 64 && regs == Hash(m[..Done(m)]) && buf[..|m| - Done(m)] == m[Done(m)..]
  }

  /** The two count words hold the bit length modulo 2^64. */
  predicate Counted(count0: nat, count1: nat, n: nat)
  {
    count0 < U32 && count1 < U32 && count1 * U32 + count0 == (8 * n) % U64
  }

  lemma HashNext(m: Bytes8, p: nat)
    requires p % 64 == 0 && p + 64 <= |m|
    ensures (p + 64) % 64 == 0 && Hash(m[..p + 64]) == Compress(Hash(m[..p]), m[p..p + 64])
  {
    hide Compress;
    var pre := m[..p + 64];
    assert pre[..|pre| - 64] == m[..p];
    assert pre[|pre| - 64..] == m[p..p + 64];
  }

  // ---- the 64-bit bit count

  function Carry(count0: nat, count1: nat, len: nat): (c: (nat, nat))
    requires count0 < U32 && count1 < U32
  {
    var low := (count0 + 8 * len) % U32;
    var high := if low < count0 then (count1 + 1) % U32 else count1;
    (low, (high + len / 0x2000_0000) % U32)
  }

  lemma MulMod(a: nat, k: nat)
    ensures (a + U32 * k) % U32 == a % U32
  {
  }

  lemma Wrap64(a: nat, k: nat)
    ensures (a + U64 * k) % U64 == a % U64
  {
  }

  lemma HighWrap(high: nat, low: nat)
    requires low < U32
    ensures (high % U32) * U32 + low == (high * U32 + low) % U64
  {
    var q := high / U32;
    assert high == U32 * q + high % U32;
    assert high * U32 + low == (high % U32) * U32 + low + U64 * q;
    Wrap64((high % U32) * U32 + low, q);
  }

  /** Eight times the length, cut at the bit where the C code cuts it. */
  lemma LengthSplit(len: nat)
    ensures 8 * len == (len / 0x2000_0000) * U32 + 8 * (len % 0x2000_0000)
    ensures 8 * (len % 0x2000_0000) < U32
  {
  }

  /** The low sum is below `count0` exactly when it wrapped. */
  lemma LowSum(count0: nat, lo: nat)
    requires count0 < U32 && lo < U32
    ensures var low := (count0 + lo) % U32; count0 + lo == low + if low < count0 then U32 else 0
  {
    if count0 + lo >= U32 {
      ModUnique(count0 + lo, U32, 1, count0 + lo - U32);
    }
  }

  lemma HighSum(count1: nat, carry: bool, hi: nat)
    requires count1 < U32
    ensures var high := if carry then (count1 + 1) % U32 else count1;
            (high + hi) % U32 == (count1 + (if carry then 1 else 0) + hi) % U32
  {
    if carry && count1 + 1 == U32 {
      MulMod(hi, 1);
    }
  }

  lemma CarrySplit(count0: nat, count1: nat, len: nat)
    requires count0 < U32 && count1 < U32
    ensures var c := Carry(count0, count1, len);
            c.0 < U32 && c.1 < U32 && c.1 * U32 + c.0 == (count1 * U32 + count0 + 8 * len) % U64
  {
    var hi, lo := len / 0x2000_0000, 8 * (len % 0x2000_0000);
    LengthSplit(len);
    MulMod(count0 + lo, hi);
    LowSum(count0, lo);
    var low := (count0 + lo) % U32;
    HighSum(count1, low < count0, hi);
    HighWrap(count1 + (if low < count0 then 1 else 0) + hi, low);
  }

  /** The carry between the two words loses nothing, whatever the split. */
  lemma CountStep(count0: nat, count1: nat, n: nat, len: nat)
    requires Counted(count0, count1, n)
    ensures var c := Carry(count0, count1, len); Counted(c.0, c.1, n + len)
  {
    hide Carry;
    CarrySplit(count0, count1, len);
    var q := (8 * n) / U64;
    assert 8 * n == U64 * q + (8 * n) % U64;
    assert 8 * (n + len) == (8 * n) % U64 + 8 * len + U64 * q;
    Wrap64((8 * n) % U64 + 8 * len, q);
  }

  lemma LowCount(count0: nat, count1: nat, n: nat)
    requires Counted(count0, count1, n)
    ensures (count0 / 8) % 64 == n % 64
  {
    var q := (8 * n) / U64;
    assert 8 * n == U32 * (U32 * q + count1) + count0;
    LowCountOf(count0, U32 * q + count1, n);
  }

  lemma LowCountOf(count0: nat, k: nat, n: nat)
    requires 8 * n == U32 * k + count0
    ensures (count0 / 8) % 64 == n % 64
  {
    assert n == 64 * (0x80_0000 * k) + count0 / 8;
    Mod64(count0 / 8, 0x80_0000 * k);
  }

  lemma Mod64(a: nat, k: nat)
    ensures (64 * k + a) % 64 == a % 64
  {
  }

  // ---- the 32-bit block index

  /** At this index the 32-bit loop test and the 32-bit increment agree with the unbounded ones. */
  predicate IndexExact(i: nat, len: nat)
  {
    && ((i + 63) % U32 < len <==> i + 63 < len)
    && (i + 63 < len ==> i + 64 < U32)
  }

  /** The block loop runs as written for unbounded indices exactly when the buffered bytes and the
      new ones stay below 2^32. */
  lemma IndexExactIff(j: nat, len: nat)
    requires j < 64 && j + len > 63
    ensures (forall i: nat :: 64 - j <= i <= len && i < U32 && (i + j) % 64 == 0 ==> IndexExact(i, len))
            <==> j + len < U32
  {
    if j + len >= U32 {
      var i: nat := if j == 0 then U32 - 64 else U32 - j;
      assert (i + j) % 64 == 0 && !IndexExact(i, len);
    } else {
      forall i: nat | 64 - j <= i <= len && i < U32 && (i + j) % 64 == 0 ensures IndexExact(i, len) {
        IndexWithin(i, j, len);
      }
    }
  }

  lemma IndexWithin(i: nat, j: nat, len: nat)
    requires j < 64 && i <= len && j + len < U32 && (i + j) % 64 == 0
    ensures IndexExact(i, len)
  {
    assert i + j <= U32 - 64;
  }

  /** A reachable loop index: `n` bytes came before the data, `j` of them still buffered at its start. */
  predicate AtBlock(i: nat, j: nat, n: nat, len: nat)
  {
    0 < i <= len && j < 64 && j + len < U32 && (n + i) % 64 == 0 && (i + j) % 64 == 0
  }

  lemma AtBlockMeans(i: nat, j: nat, n: nat, len: nat)
    requires AtBlock(i, j, n, len)
    ensures IndexExact(i, len) && i <= len && (n + i) % 64 == 0
    ensures (i + 63) % U32 < len <==> i + 63 < len
  {
    IndexWithin(i, j, len);
  }

  lemma NextBlock(i: nat, j: nat, n: nat, len: nat)
    requires AtBlock(i, j, n, len) && i + 63 < len
    ensures (i + 64) % U32 == i + 64 && AtBlock(i + 64, j, n, len)
  {
    AtBlockMeans(i, j, n, len);
  }

  /** memcpy into the block buffer. */
  method CopyIn(buffer: array<bv8>, j: nat, src: Bytes8)
    requires j + |src| <= buffer.Length
    modifies buffer
    ensures buffer[..] == old(buffer[..j]) + src + old(buffer[j + |src|..])
  {
    for k := 0 to |src|
      invariant buffer[..j] == old(buffer[..j]) && buffer[j..j + k] == src[..k]
      invariant buffer[j + k..] == old(buffer[j + k..])
    {
      buffer[j + k] := src[k];
      assert buffer[j..j + (k + 1)] == buffer[j..j + k] + [src[k]];
    }
    assert buffer[..] == buffer[..j] + buffer[j..j + |src|] + buffer[j + |src|..];
  }

  lemma FirstBlock(buf: Bytes8, was: Bytes8, m: Bytes8, data: Bytes8)
    requires |was| == 64 && was[..|m| - Done(m)] == m[Done(m)..] && |m| - Done(m) + |data| > 63
    requires var j := |m| - Done(m); buf == was[..j] + data[..64 - j]
    ensures var p := Done(m); buf == (m + data)[p..p + 64]
  {
  }

  lemma DataBlock(m: Bytes8, data: Bytes8, i: nat)
    requires i + 64 <= |data|
    ensures data[i..i + 64] == (m + data)[|m| + i..|m| + i + 64]
  {
  }

  lemma Finished(regs: Regs, buf: Bytes8, m: Bytes8, p: nat)
    requires p % 64 == 0 && p <= |m| < p + 64 && |buf| == 64
    requires regs == Hash(m[..p]) && buf[..|m| - p] == m[p..]
    ensures Absorbed(regs, buf, m)
  {
    hide Hash;
    assert Done(m) == p;
  }

  lemma NoBlock(regs: Regs, buf: Bytes8, was: Bytes8, m: Bytes8, data: Bytes8)
    requires Absorbed(regs, was, m) && |m| - Done(m) + |data| <= 63
    requires var j := |m| - Done(m); buf == was[..j] + data + was[j + |data|..]
    ensures Absorbed(regs, buf, m + data)
  {
    hide Hash;
    var p := Done(m);
    assert (m + data)[..p] == m[..p];
    assert (m + data)[p..] == m[p..] + data;
    Finished(regs, buf, m + data, p);
  }

  class Context {
    const state: array<bv32>
    const buffer: array<bv8>
    var count0: nat
    var count1: nat
    /** Everything fed so far. */
    ghost var msg: Bytes8

    ghost predicate Shape()
    {
      state.Length == 5 && buffer.Length == 64 && (state as object) != buffer
    }

    ghost predicate Valid()
      reads this, state, buffer
    {
      Shape() && Counted(count0, count1, |msg|) && Absorbed(StateRegs(state[..]), buffer[..], msg)
    }

    /** SHA1Init. */
    constructor ()
      ensures Valid() && msg == [] && fresh(state) && fresh(buffer)
    {
      state := new bv32[5];
      buffer := new bv8[64];
      count0, count1, msg := 0, 0, [];
      new;
      state[0], state[1], state[2], state[3], state[4] := 0x67452301, 0xEFCDAB89, 0x98BADCFE, 0x10325476, 0xC3D2E1F0;
      assert msg[..Done(msg)] == [];
    }

    /** The block loop of SHA1Update, over the caller's bytes. */
    method Blocks(from: nat, ghost j: nat, data: Bytes8) returns (i: nat)
      requires Shape() && AtBlock(from, j, |msg|, |data|)
      requires StateRegs(state[..]) == Hash((msg + data)[..|msg| + from])
      modifies state
      ensures i <= |data| && |data| < i + 64 && (|msg| + i) % 64 == 0
      ensures StateRegs(state[..]) == Hash((msg + data)[..|msg| + i])
    {
      hide Hash, StateRegs, Compress, AtBlock, IndexExact;
      ghost var all, n := msg + data, |msg|;
      i := from;
      AtBlockMeans(i, j, n, |data|);
      while (i + 63) % U32 < |data|
        invariant AtBlock(i, j, n, |data|) && i <= |data| && (n + i) % 64 == 0
        invariant (i + 63) % U32 < |data| <==> i + 63 < |data|
        invariant StateRegs(state[..]) == Hash(all[..n + i])
        decreases |data| - i
      {
        DataBlock(msg, data, i);
        HashNext(all, n + i);
        Transform(state, data[i..i + 64]);
        NextBlock(i, j, n, |data|);
        i := (i + 64) % U32;
        AtBlockMeans(i, j, n, |data|);
      }
    }

    /** The part of SHA1Update that hashes whole blocks, when the new bytes complete at least one. */
    method FillAndHash(j: nat, data: Bytes8) returns (i: nat)
      requires Shape() && Absorbed(StateRegs(state[..]), buffer[..], msg)
      requires j == |msg| - Done(msg) && 63 < j + |data| < U32
      modifies state, buffer
      ensures i <= |data| && |data| < i + 64 && (|msg| + i) % 64 == 0
      ensures StateRegs(state[..]) == Hash((msg + data)[..|msg| + i])
    {
      hide Hash, StateRegs, Compress;
      ghost var all, was := msg + data, buffer[..];
      i := 64 - j;
      CopyIn(buffer, j, data[..i]);
      FirstBlock(buffer[..], was, msg, data);
      assert all[..Done(msg)] == msg[..Done(msg)];
      HashNext(all, Done(msg));
      Transform(state, buffer[..]);
      assert AtBlock(i, j, |msg|, |data|);
      i := Blocks(i, j, data);
    }

    /** The copying and hashing of SHA1Update, for `j` buffered bytes. */
    method Absorb(j: nat, data: Bytes8)
      requires Shape() && Absorbed(StateRegs(state[..]), buffer[..], msg)
      requires j == |msg| % 64 && j + |data| < U32
      modifies state, buffer
      ensures Absorbed(StateRegs(state[..]), buffer[..], msg + data)
    {
      hide Hash, StateRegs;
      ghost var all, was := msg + data, buffer[..];
      if j + |data| > 63 {
        var i := FillAndHash(j, data);
        CopyIn(buffer, 0, data[i..]);
        assert all[|msg| + i..] == data[i..];
        Finished(StateRegs(state[..]), buffer[..], all, |msg| + i);
      } else {
        CopyIn(buffer, j, data);
        NoBlock(StateRegs(state[..]), buffer[..], was, msg, data);
      }
    }

    /** SHA1Update: the context now stands for the old message followed by the new bytes. */
    method Update(data: Bytes8)
      requires Valid() && |msg| % 64 + |data| < U32
      modifies this, state, buffer
      ensures Valid() && msg == old(msg) + data
    {
      hide Absorbed, StateRegs, Counted;
      var j := count0;
      CountStep(count0, count1, |msg|, |data|);
      LowCount(count0, count1, |msg|);
      CountBounds(count0, count1, |msg|);
      count0 := (count0 + 8 * |data|) % U32;
      if count0 < j { count1 := (count1 + 1) % U32; }
      count1 := (count1 + |data| / 0x2000_0000) % U32;
      Absorb((j / 8) % 64, data);
      msg := msg + data;
    }

    /** The padding loop of SHA1Final: one bit, then zeros up to the length field. */
    method Pad()
      requires Valid()
      modifies this, state, buffer
      ensures Valid() && msg == old(msg) + ([0x80] + Zeros(PadZeros(|old(msg)|)))
    {
      hide Absorbed, StateRegs, Counted, PadZeros, Zeros;
      ghost var m := msg;
      Update([0x80]);
      ghost var z: nat := 0;
      assert Zeros(0) == [];
      assert msg == m + ([0x80] + Zeros(z));
      LowCount(count0, count1, |msg|);
      while (count0 / 8) % 64 != 56
        invariant Valid() && z <= PadZeros(|m|)
        invariant msg == m + ([0x80] + Zeros(z)) && (count0 / 8) % 64 == |msg| % 64
        decreases PadZeros(|m|) - z
      {
        assert !LeavesLengthField(|m|, z);
        Update([0]);
        assert Zeros(z + 1) == Zeros(z) + [0];
        z := z + 1;
        LowCount(count0, count1, |msg|);
      }
      assert LeavesLengthField(|m|, z);
    }

    /** SHA1Final: the digest of everything fed, as the standard defines it. */
    method Final() returns (digest: array<bv8>)
      requires Valid()
      modifies this, state, buffer
      ensures fresh(digest) && digest[..] == Digest(old(msg))
    {
      hide Absorbed, StateRegs, Counted, Hash, PadZeros, Zeros, Be64, CountField, RegsBytes, LeavesLengthField;
      ghost var m := msg;
      var finalcount := CountField(count0, count1);
      CountFieldIsLength(count0, count1, |m|);
      Pad();
      Update(finalcount);
      assert msg == Padded(m);
      AllDone(StateRegs(state[..]), buffer[..], msg);
      digest := Output(state);
    }
  }

  lemma AllDone(regs: Regs, buf: Bytes8, m: Bytes8)
    requires Absorbed(regs, buf, m) && |m| % 64 == 0
    ensures regs == Hash(m)
  {
    hide Hash;
    assert m[..Done(m)] == m;
  }

  /** The eight length bytes: the high count word first, each word most significant byte first. */
  function CountField(count0: nat, count1: nat): (s: Bytes8)
    ensures |s| == 8
  {
    [Byte(count1 / 0x100_0000), Byte(count1 / 0x1_0000), Byte(count1 / 0x100), Byte(count1),
     Byte(count0 / 0x100_0000), Byte(count0 / 0x1_0000), Byte(count0 / 0x100), Byte(count0)]
  }

  lemma HighBytes(v: nat, q: nat, c: nat)
    requires v / U32 == U32 * q + c
    ensures (v / 0x100_0000_0000_0000) % 256 == (c / 0x100_0000) % 256
    ensures (v / 0x1_0000_0000_0000) % 256 == (c / 0x1_0000) % 256
    ensures (v / 0x100_0000_0000) % 256 == (c / 0x100) % 256
    ensures (v / 0x1_0000_0000) % 256 == c % 256
  {
    var u := v / U32;
    assert v / 0x100_0000_0000_0000 == u / 0x100_0000;
    assert v / 0x1_0000_0000_0000 == u / 0x1_0000;
    assert v / 0x100_0000_0000 == u / 0x100;
    LowBytes(u, q, c);
  }

  lemma LowBytes(u: nat, q: nat, c: nat)
    requires u == U32 * q + c
    ensures (u / 0x100_0000) % 256 == (c / 0x100_0000) % 256
    ensures (u / 0x1_0000) % 256 == (c / 0x1_0000) % 256
    ensures (u / 0x100) % 256 == (c / 0x100) % 256
    ensures u % 256 == c % 256
  {
    Shift24(u, q, c);
    Shift16(u, q, c);
    Shift8(u, q, c);
    Shift0(u, 0x100_0000 * q, c);
  }

  lemma Shift0(u: nat, k: nat, c: nat)
    requires u == 256 * k + c
    ensures u % 256 == c % 256
  {
  }

  lemma Shift24(u: nat, q: nat, c: nat)
    requires u == U32 * q + c
    ensures (u / 0x100_0000) % 256 == (c / 0x100_0000) % 256
  {
    assert u / 0x100_0000 == 0x100 * q + c / 0x100_0000;
  }

  lemma Shift16(u: nat, q: nat, c: nat)
    requires u == U32 * q + c
    ensures (u / 0x1_0000) % 256 == (c / 0x1_0000) % 256
  {
    assert u / 0x1_0000 == 0x1_0000 * q + c / 0x1_0000;
  }

  lemma Shift8(u: nat, q: nat, c: nat)
    requires u == U32 * q + c
    ensures (u / 0x100) % 256 == (c / 0x100) % 256
  {
    assert u / 0x100 == 0x100_0000 * q + c / 0x100;
  }

  lemma CountFieldIsLength(count0: nat, count1: nat, n: nat)
    requires Counted(count0, count1, n)
    ensures CountField(count0, count1) == Be64(8 * n)
  {
    var q := (8 * n) / U64;
    assert 8 * n == U64 * q + (count1 * U32 + count0);
    HighBytes(8 * n, q, count1);
    LowBytes(8 * n, U32 * q + count1, count0);
  }

  function StateByte(w: bv32, k: nat): bv8
    requires k < 4
  {
    if k == 0 then ((w >> 24) & 0xff) as bv8
    else if k == 1 then ((w >> 16) & 0xff) as bv8
    else if k == 2 then ((w >> 8) & 0xff) as bv8
    else (w & 0xff) as bv8
  }

  lemma WordByteAt(w: bv32, k: nat)
    requires k < 4
    ensures WordBytes(w)[k] == StateByte(w, k)
  {
  }

  lemma RegsByteAt(s: seq<bv32>, i: nat)
    requires |s| == 5 && i < 20
    ensures RegsBytes(StateRegs(s))[i] == WordBytes(s[i / 4])[i % 4]
  {
    hide WordBytes;
  }

  lemma StateByteAt(s: seq<bv32>, i: nat)
    requires |s| == 5 && i < 20
    ensures StateByte(s[i / 4], i % 4) == RegsBytes(StateRegs(s))[i]
  {
    hide WordBytes, StateByte, RegsBytes;
    RegsByteAt(s, i);
    WordByteAt(s[i / 4], i % 4);
  }

  /** The last loop of SHA1Final. */
  method Output(state: array<bv32>) returns (digest: array<bv8>)
    requires state.Length == 5
    ensures fresh(digest) && digest[..] == RegsBytes(StateRegs(state[..]))
  {
    hide RegsBytes, StateRegs, StateByte;
    digest := new bv8[20];
    for i := 0 to 20
      invariant forall k :: 0 <= k < i ==> digest[k] == RegsBytes(StateRegs(state[..]))[k]
    {
      StateByteAt(state[..], i);
      digest[i] := StateByte(state[i / 4], i % 4);
    }
  }

  function Concat(parts: seq<Bytes8>): (m: Bytes8)
  {
    if |parts| == 0 then [] else Concat(parts[..|parts| - 1]) + parts[|parts| - 1]
  }

  /** Feeding a message in any pieces gives the digest of the whole message. */
  method DigestOfParts(parts: seq<Bytes8>) returns (digest: array<bv8>)
    requires forall i :: 0 <= i < |parts| ==> |Concat(parts[..i])| % 64 + |parts[i]| < U32
    ensures fresh(digest) && digest[..] == Digest(Concat(parts))
  {
    hide Digest, Context.Valid;
    var ctx := new Context();
    for i := 0 to |parts|
      invariant ctx.Valid() && fresh(ctx) && fresh(ctx.state) && fresh(ctx.buffer)
      invariant ctx.msg == Concat(parts[..i])
    {
      ctx.Update(parts[i]);
      assert parts[..i + 1][..i] == parts[..i];
    }
    assert parts[..|parts|] == parts;
    digest := ctx.Final();
  }

  lemma CountBounds(count0: nat, count1: nat, n: nat)
    requires Counted(count0, count1, n)
    ensures count0 < U32 && count1 < U32
  {
  }
}
