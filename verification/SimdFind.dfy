/** Exact search in a buffer: the eight-lane 32-bit search and the scalar search. */
module SimdFind {
  import opened Bytes
  import opened Compare

  /** Does the element at `off` hold exactly the bytes of `val`? */
  predicate HoldsAt(buf: seq<byte>, val: seq<byte>, off: nat)
  {
    off + |val| <= |buf| && buf[off..off + |val|] == val
  }

  /** Offsets of the exact matches among the first `k` elements, `step` bytes apart. */
  function Offsets(buf: seq<byte>, val: seq<byte>, step: nat, k: nat): (s: seq<nat>)
    ensures |s| <= k
  {
    if k == 0 then []
    else if HoldsAt(buf, val, Off(k - 1, step)) then Offsets(buf, val, step, k - 1) + [Off(k - 1, step)]
    else Offsets(buf, val, step, k - 1)
  }

  lemma {:induction false} OffsetsBelow(buf: seq<byte>, val: seq<byte>, step: nat, k: nat)
    ensures forall o :: o in Offsets(buf, val, step, k) ==> HoldsAt(buf, val, o)
  {
    if k > 0 { OffsetsBelow(buf, val, step, k - 1); }
  }

  /** Elements past the end of the buffer never match. */
  lemma {:induction false} OffsetsPastEnd(buf: seq<byte>, val: seq<byte>, step: nat, k: nat, n: nat)
    requires k <= n && step > 0 && Off(k, step) + |val| > |buf|
    ensures Offsets(buf, val, step, n) == Offsets(buf, val, step, k)
  {
    if k < n {
      OffMono(k, n - 1, step);
      OffsetsPastEnd(buf, val, step, k, n - 1);
    }
  }

  /** The part of the output array that holds matches: the first `max` of them. */
  ghost predicate Reported(out: seq<nat>, max: nat, found: seq<nat>)
  {
    && max <= |out|
    && forall i :: 0 <= i < |found| && i < max ==> out[i] == found[i] % U32
  }

  /** Record one match if there is room; the count always advances. */
  method Record(out: array<nat>, max: nat, cnt: nat, off: nat, ghost found: seq<nat>) returns (cnt': nat)
    requires cnt == |found| && Reported(out[..], max, found)
    modifies out
    ensures cnt' == cnt + 1 && Reported(out[..], max, found + [off])
  {
    if cnt < max { out[cnt] := off % U32; }
    cnt' := cnt + 1;
  }

  /** find_scalar for the integer types: typed comparison at every step. */
  method FindScalar(t: IntType, buf: seq<byte>, val: seq<byte>, step: nat, out: array<nat>, max: nat)
    returns (cnt: nat, ghost k: nat)
    requires IsValue(t, val) && max <= out.Length
    modifies out
    ensures step > 0 ==> Off(k, step) + |val| > |buf|
    ensures cnt == |if step == 0 then [] else Offsets(buf, val, step, k)|
    ensures Reported(out[..], max, if step == 0 then [] else Offsets(buf, val, step, k))
  {
    hide Off;
    var esz := Size(t);
    cnt, k := 0, 0;
    OffZero(step);
    if step == 0 || |buf| < esz { return; }
    var end, off := |buf| - esz, 0;
    while off <= end
      invariant off == Off(k, step)
      invariant cnt == |Offsets(buf, val, step, k)| && Reported(out[..], max, Offsets(buf, val, step, k))
      decreases end + step - off
    {
      LoadInjective(t, buf[off..off + esz], val);
      if Load(t, buf[off..off + esz]) == Load(t, val) {
        cnt := Record(out, max, cnt, off, Offsets(buf, val, step, k));
      }
      OffNext(k, step);
      k := k + 1;
      off := off + step;
    }
  }

  /** find_u32_avx2: eight 32-bit lanes at a time, then a scalar tail. */
  method FindU32(buf: seq<byte>, val: seq<byte>, out: array<nat>, max: nat) returns (cnt: nat)
    requires |val| == 4 && max <= out.Length
    modifies out
    ensures cnt == |Offsets(buf, val, 4, |buf| / 4)|
    ensures Reported(out[..], max, Offsets(buf, val, 4, |buf| / 4))
  {
    hide Off;
    var n, target := |buf| / 4, LeVal(val);
    var i := 0;
    cnt := 0;
    while i + 8 <= n
      invariant i <= n
      invariant cnt == |Offsets(buf, val, 4, i)| && Reported(out[..], max, Offsets(buf, val, 4, i))
    {
      var mask := seq(8, b requires 0 <= b < 8 => LeVal(Lane(buf, i + b)) == target);
      if true in mask {
        cnt := Lanes(buf, val, i, mask, out, max, cnt);
      } else {
        NoLane(buf, val, i, mask, 8);
      }
      i := i + 8;
    }
    while i < n
      invariant i <= n
      invariant cnt == |Offsets(buf, val, 4, i)| && Reported(out[..], max, Offsets(buf, val, 4, i))
    {
      LaneHolds(buf, val, i);
      if LeVal(Lane(buf, i)) == target {
        cnt := Record(out, max, cnt, Off(i, 4), Offsets(buf, val, 4, i));
      }
      i := i + 1;
    }
  }

  /** The `i`-th 32-bit word of the buffer. */
  function Lane(buf: seq<byte>, i: nat): (s: seq<byte>)
    requires i < |buf| / 4
    ensures |s| == 4
  {
    OffIsProduct(i, 4);
    buf[Off(i, 4)..Off(i, 4) + 4]
  }

  lemma LaneHolds(buf: seq<byte>, val: seq<byte>, i: nat)
    requires i < |buf| / 4 && |val| == 4
    ensures LeVal(Lane(buf, i)) == LeVal(val) <==> HoldsAt(buf, val, Off(i, 4))
  {
    hide Off;
    OffIsProduct(i, 4);
    LeInjective(Lane(buf, i), val);
  }

  /** The lane mask of one vector comparison. */
  predicate IsMask(buf: seq<byte>, val: seq<byte>, i: nat, mask: seq<bool>)
    requires i + |mask| <= |buf| / 4
  {
    forall b :: 0 <= b < |mask| ==> mask[b] == (LeVal(Lane(buf, i + b)) == LeVal(val))
  }

  lemma {:induction false} NoLane(buf: seq<byte>, val: seq<byte>, i: nat, mask: seq<bool>, k: nat)
    requires |val| == 4 && i + |mask| <= |buf| / 4 && k <= |mask|
    requires IsMask(buf, val, i, mask) && true !in mask
    ensures Offsets(buf, val, 4, i + k) == Offsets(buf, val, 4, i)
  {
    if k > 0 {
      NoLane(buf, val, i, mask, k - 1);
      assert !mask[k - 1];
      LaneHolds(buf, val, i + (k - 1));
    }
  }

  /** Report the lanes set in the mask, in lane order. */
  method Lanes(buf: seq<byte>, val: seq<byte>, i: nat, mask: seq<bool>, out: array<nat>, max: nat, cnt0: nat)
    returns (cnt: nat)
    requires |val| == 4 && i + 8 <= |buf| / 4 && |mask| == 8 && max <= out.Length
    requires IsMask(buf, val, i, mask)
    requires cnt0 == |Offsets(buf, val, 4, i)| && Reported(out[..], max, Offsets(buf, val, 4, i))
    modifies out
    ensures cnt == |Offsets(buf, val, 4, i + 8)| && Reported(out[..], max, Offsets(buf, val, 4, i + 8))
  {
    hide Off, LeVal;
    cnt := cnt0;
    for b := 0 to 8
      invariant cnt == |Offsets(buf, val, 4, i + b)| && Reported(out[..], max, Offsets(buf, val, 4, i + b))
    {
      LaneHolds(buf, val, i + b);
      if mask[b] {
        cnt := Record(out, max, cnt, Off(i + b, 4), Offsets(buf, val, 4, i + b));
      }
    }
  }

  /** scan_simd_find_exact with step == value size, as the streaming pass calls it: room for every element
      means every match is reported, and offsets of a buffer below 4 GiB are stored exactly. */
  method FindExact(t: IntType, buf: seq<byte>, val: seq<byte>, out: array<nat>, max: nat) returns (cnt: nat)
    requires IsValue(t, val) && max <= out.Length && |buf| / Size(t) <= max && |buf| <= U32
    modifies out
    ensures cnt <= max
    ensures out[..cnt] == Offsets(buf, val, Size(t), |buf| / Size(t))
  {
    hide Off, Offsets, LeVal;
    var size := Size(t);
    if size == 4 {
      cnt := FindU32(buf, val, out, max);
    } else {
      ghost var k;
      cnt, k := FindScalar(t, buf, val, size, out, max);
      QuotientOff(|buf|, size);
      SamePrefix(buf, val, size, k, |buf| / size);
    }
    OffsetsBelow(buf, val, size, |buf| / size);
    ghost var found := Offsets(buf, val, size, |buf| / size);
    forall i | 0 <= i < cnt
      ensures out[i] == found[i]
    {
      assert found[i] in found;
      ModUnique(found[i], U32, 0, found[i]);
    }
  }

  /** A walk that stopped for want of room has met every whole element. */
  lemma SamePrefix(buf: seq<byte>, val: seq<byte>, size: nat, k: nat, q: nat)
    requires size == |val| > 0 && Off(k, size) + size > |buf| && Off(q, size) <= |buf| < Off(q, size) + size
    ensures Offsets(buf, val, size, k) == Offsets(buf, val, size, q)
  {
    hide Off, Offsets;
    OffNext(k, size);
    if k < q {
      OffMono(k + 1, q, size);
    } else {
      OffsetsPastEnd(buf, val, size, q, k);
    }
  }
}
