/** The survivor bitmap of a snapshot session: one bit per slot, eight slots per byte. */
module Bitmap {

  function Mask(k: nat): bv8
    requires k < 8
  {
    match k
    case 0 => 0x01
    case 1 => 0x02
    case 2 => 0x04
    case 3 => 0x08
    case 4 => 0x10
    case 5 => 0x20
    case 6 => 0x40
    case _ => 0x80
  }

  predicate ByteBit(b: bv8, k: nat)
    requires k < 8
  {
    b & Mask(k) != 0
  }

  lemma ClearedByte(b: bv8, k: nat, j: nat)
    requires k < 8 && j < 8
    ensures ByteBit(b & !Mask(k), j) <==> ByteBit(b, j) && j != k
  {
    if j == k {
      assert (b & !Mask(k)) & Mask(k) == 0;
    } else {
      MasksDisjoint(k, j);
      assert (b & !Mask(k)) & Mask(j) == b & (!Mask(k) & Mask(j));
    }
  }

  lemma MasksDisjoint(k: nat, j: nat)
    requires k < 8 && j < 8 && k != j
    ensures !Mask(k) & Mask(j) == Mask(j)
  {
  }

  /** Is slot `i` of the bitmap still a survivor? */
  predicate Bit(bm: seq<bv8>, i: nat)
    requires i < 8 * |bm|
  {
    ByteBit(bm[i / 8], i % 8)
  }

  /** The first `n` bits as booleans. */
  function Bits(bm: seq<bv8>, n: nat): (bs: seq<bool>)
    requires n <= 8 * |bm|
    ensures |bs| == n
    ensures forall i :: 0 <= i < n ==> bs[i] == Bit(bm, i)
  {
    seq(n, i requires 0 <= i < n => Bit(bm, i))
  }

  /** Number of set bits below `k`. */
  function CountSet(bs: seq<bool>, k: nat): (c: nat)
    requires k <= |bs|
    ensures c <= k
  {
    if k == 0 then 0 else CountSet(bs, k - 1) + if bs[k - 1] then 1 else 0
  }

  lemma {:induction false} CountSetAgrees(a: seq<bool>, b: seq<bool>, k: nat)
    requires k <= |a| && k <= |b|
    requires forall i :: 0 <= i < k ==> a[i] == b[i]
    ensures CountSet(a, k) == CountSet(b, k)
  {
    if k > 0 { CountSetAgrees(a, b, k - 1); }
  }

  lemma {:induction false} CountSetSkip(bs: seq<bool>, p: nat, q: nat)
    requires p <= q <= |bs|
    requires forall i :: p <= i < q ==> !bs[i]
    ensures CountSet(bs, q) == CountSet(bs, p)
  {
    if p < q { CountSetSkip(bs, p, q - 1); }
  }

  lemma {:induction false} CountSetMonotone(bs: seq<bool>, p: nat, q: nat)
    requires p <= q <= |bs|
    ensures CountSet(bs, p) <= CountSet(bs, q)
  {
    if p < q { CountSetMonotone(bs, p, q - 1); }
  }

  /** Linear-search specification of "next survivor at or after `from`". */
  predicate IsNextSet(bs: seq<bool>, from: nat, i: nat)
  {
    && i <= |bs|
    && (from <= |bs| ==> from <= i)
    && (forall j :: from <= j < i ==> !bs[j])
    && (i < |bs| ==> from <= i && bs[i])
  }

  /** The bitmap with the bit of slot `i` cleared. */
  function Cleared(bm: seq<bv8>, i: nat): (r: seq<bv8>)
    requires i < 8 * |bm|
    ensures |r| == |bm|
  {
    bm[i / 8 := bm[i / 8] & !Mask(i % 8)]
  }

  lemma ClearedBit(bm: seq<bv8>, i: nat, j: nat)
    requires i < 8 * |bm| && j < 8 * |bm|
    ensures Bit(Cleared(bm, i), j) <==> Bit(bm, j) && j != i
  {
    if j / 8 == i / 8 {
      ClearedByte(bm[i / 8], i % 8, j % 8);
    }
  }

  lemma {:induction false} CountSetClear(bs: seq<bool>, i: nat, k: nat)
    requires i < |bs| && bs[i] && k <= |bs|
    ensures CountSet(bs[i := false], k) == CountSet(bs, k) - if i < k then 1 else 0
  {
    if k > 0 { CountSetClear(bs, i, k - 1); }
  }

  /** Clearing a set bit drops exactly one survivor, and no other bit changes. */
  lemma ClearedBits(bm: seq<bv8>, i: nat, n: nat)
    requires i < n <= 8 * |bm|
    ensures Bits(Cleared(bm, i), n) == Bits(bm, n)[i := false]
    ensures CountSet(Bits(Cleared(bm, i), n), n) == CountSet(Bits(bm, n), n) - if Bit(bm, i) then 1 else 0
  {
    ClearedExactly(bm, i, n);
    if Bit(bm, i) {
      CountSetClear(Bits(bm, n), i, n);
    } else {
      assert Bits(bm, n)[i := false] == Bits(bm, n);
    }
  }

  lemma ClearedExactly(bm: seq<bv8>, i: nat, n: nat)
    requires i < n <= 8 * |bm|
    ensures Bits(Cleared(bm, i), n) == Bits(bm, n)[i := false]
  {
    forall j | 0 <= j < n
      ensures Bits(Cleared(bm, i), n)[j] == Bits(bm, n)[i := false][j]
    {
      ClearedBit(bm, i, j);
    }
  }

  /** fs_bm_clear: of all the bits only bit `i` changes. */
  method ClearBit(bm: array<bv8>, i: nat)
    requires i < 8 * bm.Length
    modifies bm
    ensures Bits(bm[..], 8 * bm.Length) == old(Bits(bm[..], 8 * bm.Length))[i := false]
    ensures forall n :: i < n <= 8 * bm.Length ==>
              Bits(bm[..], n) == old(Bits(bm[..], n))[i := false]
              && CountSet(Bits(bm[..], n), n)
                 == old(CountSet(Bits(bm[..], n), n)) - if old(Bit(bm[..], i)) then 1 else 0
  {
    hide Bits, CountSet, Mask;
    ghost var was := bm[..];
    forall n | i < n <= 8 * bm.Length
      ensures Bits(Cleared(was, i), n) == Bits(was, n)[i := false]
      ensures CountSet(Bits(Cleared(was, i), n), n) == CountSet(Bits(was, n), n) - if Bit(was, i) then 1 else 0
    {
      ClearedBits(was, i, n);
    }
    bm[i / 8] := bm[i / 8] & !Mask(i % 8);
    assert bm[..] == Cleared(was, i);
  }

  lemma ZeroWord(b0: bv8, b1: bv8, b2: bv8, b3: bv8, b4: bv8, b5: bv8, b6: bv8, b7: bv8)
    ensures (b0 as bv64) | (b1 as bv64 << 8) | (b2 as bv64 << 16) | (b3 as bv64 << 24)
            | (b4 as bv64 << 32) | (b5 as bv64 << 40) | (b6 as bv64 << 48) | (b7 as bv64 << 56) == 0
            <==> b0 == 0 && b1 == 0 && b2 == 0 && b3 == 0 && b4 == 0 && b5 == 0 && b6 == 0 && b7 == 0
  {
  }

  /** Load eight bytes as one word and test it against zero. */
  method IsZeroWord(bm: array<bv8>, at: nat) returns (zero: bool)
    requires at + 8 <= bm.Length
    ensures zero <==> forall k :: at <= k < at + 8 ==> bm[k] == 0
  {
    var b0, b1, b2, b3 := bm[at], bm[at + 1], bm[at + 2], bm[at + 3];
    var b4, b5, b6, b7 := bm[at + 4], bm[at + 5], bm[at + 6], bm[at + 7];
    zero := (b0 as bv64) | (b1 as bv64 << 8) | (b2 as bv64 << 16) | (b3 as bv64 << 24)
            | (b4 as bv64 << 32) | (b5 as bv64 << 40) | (b6 as bv64 << 48) | (b7 as bv64 << 56) == 0;
    ZeroWord(b0, b1, b2, b3, b4, b5, b6, b7);
  }

  lemma ZeroByteBit(k: nat)
    requires k < 8
    ensures !ByteBit(0, k)
  {
  }

  lemma WordOf(q: nat, j: nat)
    requires 64 * q <= j < 64 * q + 64
    ensures 8 * q <= j / 8 < 8 * q + 8 && (64 * q) / 8 == 8 * q
  {
  }

  lemma WordOfBit(i: nat, j: nat)
    requires i % 64 == 0 && i <= j < i + 64
    ensures i / 8 <= j / 8 < i / 8 + 8
  {
    WordOf(i / 64, j);
  }

  lemma ZeroBytesHaveNoBit(bm: seq<bv8>, i: nat)
    requires i % 64 == 0 && i + 64 <= 8 * |bm|
    requires forall k :: i / 8 <= k < i / 8 + 8 ==> bm[k] == 0
    ensures forall j :: i <= j < i + 64 ==> !Bit(bm, j)
  {
    forall j | i <= j < i + 64
      ensures !Bit(bm, j)
    {
      WordOfBit(i, j);
      ZeroByteBit(j % 8);
    }
  }

  /** Skip whole zero words from the aligned position `from`. */
  method SkipZeroWords(bm: array<bv8>, from: nat, n: nat) returns (i: nat)
    requires from % 64 == 0 && from <= n <= 8 * bm.Length
    ensures from <= i <= n
    ensures forall j :: from <= j < i ==> !Bit(bm[..], j)
  {
    i := from;
    while i + 64 <= n
      invariant from <= i <= n && i % 64 == 0
      invariant forall j :: from <= j < i ==> !Bit(bm[..], j)
    {
      var zero := IsZeroWord(bm, i / 8);
      if !zero { break; }
      ZeroBytesHaveNoBit(bm[..], i);
      i := i + 64;
    }
  }

  /** Next survivor at or after `from`, or `n`: aligned zero words are skipped whole. */
  method NextSet(bm: array<bv8>, from: nat, n: nat) returns (i: nat)
    requires n <= 8 * bm.Length
    ensures IsNextSet(Bits(bm[..], n), from, i)
    ensures from > n ==> i == n
  {
    i := from;
    while i < n
      invariant from <= i
      invariant from <= n ==> i <= n
      invariant forall j :: from <= j < i && j < n ==> !Bit(bm[..], j)
    {
      if i % 64 == 0 {
        i := SkipZeroWords(bm, i, n);
        if i >= n { break; }
      }
      if ByteBit(bm[i / 8], i % 8) {
        assert Bit(bm[..], i);
        return;
      }
      i := i + 1;
    }
    i := n;
  }
}
