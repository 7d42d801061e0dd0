/** The streaming SHA-1 context: unrolled rounds over a 16-word ring, buffered updates, in-place padding. */
module Sha1 {
  import opened Sha1Spec

  // ---- the round macros

  function F(x: bv32, y: bv32, z: bv32): bv32 { z ^ (x & (y ^ z)) }
  function H(x: bv32, y: bv32, z: bv32): bv32 { (x & y) | (z & (x | y)) }

  /** F, G, H and I of the source, by round. */
  function CodeF(t: nat, x: bv32, y: bv32, z: bv32): bv32
  {
    if t < 20 then F(x, y, z) else if t < 40 then Parity(x, y, z) else if t < 60 then H(x, y, z) else Parity(x, y, z)
  }

  lemma ChForm(x: bv32, y: bv32, z: bv32)
    ensures F(x, y, z) == Ch(x, y, z)
  {
    ChBits(x, y, z);
  }

  lemma ChBits(x: bv32, y: bv32, z: bv32)
    ensures z ^ (x & (y ^ z)) == (x & y) ^ (!x & z)
  {
  }

  lemma MajForm(x: bv32, y: bv32, z: bv32)
    ensures H(x, y, z) == Maj(x, y, z)
  {
    MajBits(x, y, z);
  }

  lemma MajBits(x: bv32, y: bv32, z: bv32)
    ensures (x & y) | (z & (x | y)) == ((x & y) ^ (x & z)) ^ (y & z)
  {
  }

  /** The two in-place additions of a round macro to its last argument. */
  function Mixed(t: nat, a: bv32, b: bv32, c: bv32, d: bv32, e: bv32, w: bv32): (r: bv32)
  {
    InPlaceSum(e, CodeF(t, b, c, d), w, Kt(t), RotateLeft(a, 5))
  }

  function InPlaceSum(e: bv32, f: bv32, w: bv32, k: bv32, r: bv32): bv32 { (e + (f + w + k)) + r }

  lemma SumOrder(e: bv32, f: bv32, w: bv32, k: bv32, r: bv32)
    ensures InPlaceSum(e, f, w, k, r) == Sum5(r, f, e, k, w)
  {
  }

  /** A macro on rotated roles is one round of the standard. */
  lemma MacroIsRound(t: nat, r: Regs, w: bv32)
    ensures RoundStep(r, t, w) == Regs(Mixed(t, r.a, r.b, r.c, r.d, r.e, w), r.a, RotateLeft(r.b, 30), r.c, r.d)
  {
    hide Rotl5, Rotl30, RotateLeft, F, H, Ch, Maj, Parity, Kt, InPlaceSum, Sum5;
    RotateForms(r.a);
    RotateForms(r.b);
    ChForm(r.b, r.c, r.d);
    MajForm(r.b, r.c, r.d);
    SumOrder(r.e, Ft(t, r.b, r.c, r.d), w, Kt(t), Rotl5(r.a));
  }

  /** ROTATE_LEFT. */
  function RotateLeft(x: bv32, n: bv6): (r: bv32)
    requires n <= 32
  {
    (x << n) | (x >> (32 - n))
  }

  lemma RotateForms(x: bv32)
    ensures RotateLeft(x, 1) == Rotl1(x) && RotateLeft(x, 5) == Rotl5(x) && RotateLeft(x, 30) == Rotl30(x)
  {
  }

  // ---- the 16-word ring

  /** Before round `t` the ring holds the sixteen schedule words that round needs or that precede it. */
  ghost predicate Ring(x: seq<bv32>, block: Bytes8, t: nat)
    requires |block| == 64
  {
    |x| == 16 && forall i: nat :: (if t < 16 then 0 else t - 16) <= i < (if t < 16 then 16 else t) ==>
      x[i % 16] == Schedule(block, i)
  }

  lemma RingAt(x: seq<bv32>, block: Bytes8, t: nat, i: nat)
    requires |block| == 64 && Ring(x, block, t) && 16 <= t && t - 16 <= i < t
    ensures |x| == 16 && x[i % 16] == Schedule(block, i)
  {
  }

  lemma ScheduleNext(block: Bytes8, t: nat)
    requires |block| == 64 && 16 <= t
    ensures Schedule(block, t)
         == Expand(Schedule(block, t - 3), Schedule(block, t - 8), Schedule(block, t - 14), Schedule(block, t - 16))
  {
  }

  lemma RingStep(x: seq<bv32>, block: Bytes8, t: nat, w: bv32)
    requires |block| == 64 && Ring(x, block, t) && 16 <= t && w == Schedule(block, t)
    ensures Ring(x[t % 16 := w], block, t + 1)
  {
    hide Schedule;
    forall i: nat | t + 1 - 16 <= i < t + 1
      ensures x[t % 16 := w][i % 16] == Schedule(block, i)
    {
      if i != t {
        assert i % 16 != t % 16;
        RingAt(x, block, t, i);
      }
    }
  }

  /** x[t] in the first sixteen rounds, the W macro afterwards. */
  method NextWord(x: array<bv32>, ghost block: Bytes8, t: nat) returns (w: bv32)
    requires x.Length == 16 && |block| == 64 && Ring(x[..], block, t)
    modifies x
    ensures w == Schedule(block, t) && Ring(x[..], block, t + 1)
  {
    hide Ring, Schedule, Expand, RotateLeft, Xored;
    ghost var was := x[..];
    if t < 16 {
      RingFirst(was, block, t);
      w := x[t];
      return;
    }
    RingBefore(was, block, t);
    var tmp := Xored(x[(t - 3) % 16], x[(t - 8) % 16], x[(t - 14) % 16], x[t % 16]);
    w := RotateLeft(tmp, 1);
    MacroIsExpand(x[(t - 3) % 16], x[(t - 8) % 16], x[(t - 14) % 16], x[t % 16]);
    RingStep(was, block, t, w);
    x[t % 16] := w;
    assert x[..] == was[t % 16 := w];
  }

  /** The operand of the W macro's rotation. */
  function Xored(a: bv32, b: bv32, c: bv32, d: bv32): bv32 { ((a ^ b) ^ c) ^ d }

  lemma MacroIsExpand(a: bv32, b: bv32, c: bv32, d: bv32)
    ensures RotateLeft(Xored(a, b, c, d), 1) == Expand(a, b, c, d)
  {
    hide RotateLeft, Rotl1;
    RotateForms(Xored(a, b, c, d));
  }

  lemma RingFirst(x: seq<bv32>, block: Bytes8, t: nat)
    requires |block| == 64 && Ring(x, block, t) && t < 16
    ensures |x| == 16 && x[t] == Schedule(block, t) && Ring(x, block, t + 1)
  {
    assert x[t % 16] == Schedule(block, t);
  }

  /** The four ring entries the W macro combines give the next schedule word. */
  lemma RingBefore(x: seq<bv32>, block: Bytes8, t: nat)
    requires |block| == 64 && Ring(x, block, t) && 16 <= t
    ensures |x| == 16 && Expand(x[(t - 3) % 16], x[(t - 8) % 16], x[(t - 14) % 16], x[t % 16]) == Schedule(block, t)
  {
    hide Expand, Ring, Schedule;
    ScheduleNext(block, t);
    RingAt(x, block, t, t - 3);
    RingAt(x, block, t, t - 8);
    RingAt(x, block, t, t - 14);
    RingAt(x, block, t, t - 16);
    assert (t - 16) % 16 == t % 16;
  }

  function StateRegs(s: seq<bv32>): (r: Regs)
    requires |s| == 5
  {
    Regs(s[0], s[1], s[2], s[3], s[4])
  }

  method DecodeBlock(block: Bytes8) returns (x: array<bv32>)
    requires |block| == 64
    ensures fresh(x) && x.Length == 16 && Ring(x[..], block, 0)
  {
    hide BeWord;
    x := new bv32[16];
    for i := 0 to 16
      invariant forall k :: 0 <= k < i ==> x[k] == BlockWord(block, k)
    {
      x[i] := BeWord(block[4 * i], block[4 * i + 1], block[4 * i + 2], block[4 * i + 3]);
    }
    assert forall k: nat :: k < 16 ==> x[..][k % 16] == Schedule(block, k);
  }

  lemma RoundsNext(r: Regs, block: Bytes8, t: nat)
    requires |block| == 64
    ensures Rounds(r, block, t + 1) == RoundStep(Rounds(r, block, t), t, Schedule(block, t))
  {
  }

  /** Five consecutive macros: the five registers take each role once and return to their places. */
  method FiveRounds(x: array<bv32>, ghost block: Bytes8, t: nat, ghost h: Regs, r: Regs) returns (r': Regs)
    requires x.Length == 16 && |block| == 64 && Ring(x[..], block, t) && r == Rounds(h, block, t)
    modifies x
    ensures r' == Rounds(h, block, t + 5) && Ring(x[..], block, t + 5)
  {
    hide Ring, Schedule, Rounds, RoundStep, Mixed, RotateLeft;
    var a, b, c, d, e := r.a, r.b, r.c, r.d, r.e;
    var w := NextWord(x, block, t);
    RoundsNext(h, block, t); MacroIsRound(t, Regs(a, b, c, d, e), w);
    e, b := Mixed(t, a, b, c, d, e, w), RotateLeft(b, 30);
    w := NextWord(x, block, t + 1);
    RoundsNext(h, block, t + 1); MacroIsRound(t + 1, Regs(e, a, b, c, d), w);
    d, a := Mixed(t + 1, e, a, b, c, d, w), RotateLeft(a, 30);
    w := NextWord(x, block, t + 2);
    RoundsNext(h, block, t + 2); MacroIsRound(t + 2, Regs(d, e, a, b, c), w);
    c, e := Mixed(t + 2, d, e, a, b, c, w), RotateLeft(e, 30);
    w := NextWord(x, block, t + 3);
    RoundsNext(h, block, t + 3); MacroIsRound(t + 3, Regs(c, d, e, a, b), w);
    b, d := Mixed(t + 3, c, d, e, a, b, w), RotateLeft(d, 30);
    w := NextWord(x, block, t + 4);
    RoundsNext(h, block, t + 4); MacroIsRound(t + 4, Regs(b, c, d, e, a), w);
    a, c := Mixed(t + 4, b, c, d, e, a, w), RotateLeft(c, 30);
    r' := Regs(a, b, c, d, e);
  }

  /** SHA1Transform. */
  method Transform(state: array<bv32>, block: Bytes8)
    requires state.Length == 5 && |block| == 64
    modifies state
    ensures StateRegs(state[..]) == Compress(old(StateRegs(state[..])), block)
  {
    hide Ring, Rounds, Schedule, AddRegs;
    ghost var h := StateRegs(state[..]);
    var x := DecodeBlock(block);
    var r := Regs(state[0], state[1], state[2], state[3], state[4]);
    RoundsZero(h, block);
    var t := 0;
    while t < 80
      invariant t <= 80 && t % 5 == 0 && x.Length == 16 && fresh(x)
      invariant r == Rounds(h, block, t) && Ring(x[..], block, t)
      invariant StateRegs(state[..]) == h
    {
      r := FiveRounds(x, block, t, h, r);
      t := t + 5;
    }
    Accumulate(state, r);
  }

  method Accumulate(state: array<bv32>, r: Regs)
    requires state.Length == 5
    modifies state
    ensures StateRegs(state[..]) == AddRegs(old(StateRegs(state[..])), r)
  {
    hide Add;
    state[0] := Add(state[0], r.a);
    state[1] := Add(state[1], r.b);
    state[2] := Add(state[2], r.c);
    state[3] := Add(state[3], r.d);
    state[4] := Add(state[4], r.e);
  }

  lemma RoundsZero(r: Regs, block: Bytes8)
    requires |block| == 64
    ensures Rounds(r, block, 0) == r
  {
  }
}
