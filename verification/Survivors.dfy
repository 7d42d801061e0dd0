/** What a turbo-scan session stands for: the ascending sequence of its surviving candidates. */
module Survivors {
  import opened Bytes
  import opened Bitmap
  import opened ValueStore

  /** A candidate with its value at the last scan, at the scan before that, and at the first scan. */
  datatype Rec = Rec(addr: nat, cur: seq<byte>, prev: seq<byte>, first: seq<byte>)

  /** Value width, and which of the two optional value stores the session keeps. */
  datatype Shape = Shape(vl: nat, keepPrev: bool, keepFirst: bool)

  /** One rescan's comparison of the value now in memory with the candidate's baseline. */
  type Comparator = (seq<byte>, seq<byte>) -> bool

  /** Without a previous-value store, "previous" is reported as the current value. */
  predicate WellShaped(r: Rec, sh: Shape)
  {
    && r.addr < U64
    && |r.cur| == |r.prev| == sh.vl
    && (!sh.keepPrev ==> r.prev == r.cur)
    && |r.first| == (if sh.keepFirst then sh.vl else 0)
  }

  // ----- narrowing -----

  function NarrowRec(r: Rec, sh: Shape, mem: Memory, cmp: Comparator): (s: seq<Rec>)
    ensures |s| <= 1
  {
    var v := Slice(mem, r.addr, sh.vl);
    if cmp(v, r.cur) then [Rec(r.addr, v, if sh.keepPrev then r.cur else v, r.first)] else []
  }

  /** A rescan: keep the candidates whose memory satisfies the comparison and shift their history. */
  function Narrow(rs: seq<Rec>, sh: Shape, mem: Memory, cmp: Comparator): (s: seq<Rec>)
    ensures |s| <= |rs|
  {
    if rs == [] then []
    else Narrow(rs[..|rs| - 1], sh, mem, cmp) + NarrowRec(rs[|rs| - 1], sh, mem, cmp)
  }

  lemma NarrowSnoc(rs: seq<Rec>, r: Rec, sh: Shape, mem: Memory, cmp: Comparator)
    ensures Narrow(rs + [r], sh, mem, cmp) == Narrow(rs, sh, mem, cmp) + NarrowRec(r, sh, mem, cmp)
  {
    assert (rs + [r])[..|rs|] == rs;
  }

  // ----- the reply to GET -----

  const FIRST_FLAG: nat := 0x8000_0000

  /** Header word: `actual | (keepFirst ? 0x80000000 : 0)`. */
  function Header(actual: nat, sh: Shape): nat
  {
    if sh.keepFirst && actual < FIRST_FLAG then actual + FIRST_FLAG else actual
  }

  function Record(r: Rec, sh: Shape): (s: seq<byte>)
  {
    LeBytes(r.addr, 8) + r.cur + r.prev + if sh.keepFirst then r.first else []
  }

  lemma RecordParts(r: Rec, sh: Shape)
    ensures Record(r, sh) == if sh.keepFirst
                             then LeBytes(r.addr, 8) + r.cur + r.prev + r.first
                             else LeBytes(r.addr, 8) + r.cur + r.prev
  {
  }

  function Records(rs: seq<Rec>, sh: Shape): seq<byte>
  {
    if rs == [] then [] else Records(rs[..|rs| - 1], sh) + Record(rs[|rs| - 1], sh)
  }

  lemma RecordsNone(sh: Shape)
    ensures Records([], sh) == []
  {
  }

  lemma RecordsSnoc(rs: seq<Rec>, r: Rec, sh: Shape)
    ensures Records(rs + [r], sh) == Records(rs, sh) + Record(r, sh)
  {
    assert (rs + [r])[..|rs|] == rs;
  }

  function Actual(total: nat, start: nat, count: nat): (n: nat)
    ensures start <= total ==> start + n <= total
    ensures start > total ==> n == 0
  {
    if start < total then (if count < total - start then count else total - start) else 0
  }

  /** Bytes the client receives for GET(start, count). */
  function Reply(rs: seq<Rec>, sh: Shape, start: nat, count: nat): seq<byte>
  {
    var n := Actual(|rs|, start, count);
    LeBytes(Header(n, sh), 4) + if n == 0 then [] else Records(rs[start..start + n], sh)
  }

  // ----- snapshot view -----

  /** A snapshot session, slot by slot. */
  datatype View = View(addrs: seq<nat>, bits: seq<bool>, cur: seq<seq<byte>>, prev: seq<seq<byte>>,
                       first: seq<seq<byte>>)

  predicate ViewOk(v: View, sh: Shape)
  {
    && |v.addrs| == |v.bits| == |v.cur|
    && (sh.keepPrev ==> |v.prev| == |v.bits|)
    && (sh.keepFirst ==> |v.first| == |v.bits|)
  }

  function SlotRec(v: View, sh: Shape, k: nat): Rec
    requires ViewOk(v, sh) && k < |v.bits|
  {
    Rec(v.addrs[k], v.cur[k], if sh.keepPrev then v.prev[k] else v.cur[k], if sh.keepFirst then v.first[k] else [])
  }

  /** The survivors among the first `k` slots. */
  function Kept(v: View, sh: Shape, k: nat): (s: seq<Rec>)
    requires ViewOk(v, sh) && k <= |v.bits|
    ensures |s| == CountSet(v.bits, k)
  {
    if k == 0 then []
    else if v.bits[k - 1] then Kept(v, sh, k - 1) + [SlotRec(v, sh, k - 1)]
    else Kept(v, sh, k - 1)
  }

  /** The survivor of slot `k` sits at the position given by the set bits before it. */
  lemma {:induction false} KeptAt(v: View, sh: Shape, k: nat, n: nat)
    requires ViewOk(v, sh) && k < n <= |v.bits| && v.bits[k]
    ensures CountSet(v.bits, k) < |Kept(v, sh, n)|
    ensures Kept(v, sh, n)[CountSet(v.bits, k)] == SlotRec(v, sh, k)
  {
    CountSetMonotone(v.bits, k + 1, n);
    if n > k + 1 { KeptAt(v, sh, k, n - 1); }
  }

  /** What one rescan does to slot `k`. */
  predicate SlotNarrowed(a: View, b: View, sh: Shape, mem: Memory, cmp: Comparator, k: nat)
    requires ViewOk(a, sh) && ViewOk(b, sh) && k < |a.bits| == |b.bits|
  {
    var v := Slice(mem, a.addrs[k], sh.vl);
    && (b.bits[k] <==> a.bits[k] && cmp(v, a.cur[k]))
    && (b.bits[k] ==> b.cur[k] == v)
    && (b.bits[k] && sh.keepPrev ==> b.prev[k] == a.cur[k])
  }

  /** Narrowing slot by slot in the bitmap is narrowing the survivor sequence. */
  lemma {:induction false} NarrowingRefines(a: View, b: View, sh: Shape, mem: Memory, cmp: Comparator, k: nat)
    requires ViewOk(a, sh) && ViewOk(b, sh) && k <= |a.bits| == |b.bits|
    requires b.addrs == a.addrs && b.first == a.first
    requires forall i :: 0 <= i < k ==> SlotNarrowed(a, b, sh, mem, cmp, i)
    ensures Kept(b, sh, k) == Narrow(Kept(a, sh, k), sh, mem, cmp)
  {
    if k > 0 {
      NarrowingRefines(a, b, sh, mem, cmp, k - 1);
      assert SlotNarrowed(a, b, sh, mem, cmp, k - 1);
      if a.bits[k - 1] {
        NarrowSnoc(Kept(a, sh, k - 1), SlotRec(a, sh, k - 1), sh, mem, cmp);
      }
    }
  }

  // ----- record list -----

  function RecSize(sh: Shape): nat
  {
    8 + sh.vl + (if sh.keepPrev then sh.vl else 0) + if sh.keepFirst then sh.vl else 0
  }

  function FirstOff(sh: Shape): nat
  {
    8 + sh.vl + if sh.keepPrev then sh.vl else 0
  }

  /** A stored record: address, current value, then previous and first value when kept. */
  function Layout(r: Rec, sh: Shape): seq<byte>
  {
    LeBytes(r.addr, 8) + r.cur + (if sh.keepPrev then r.prev else []) + if sh.keepFirst then r.first else []
  }

  function Parse(b: seq<byte>, sh: Shape): Rec
    requires |b| == RecSize(sh)
  {
    var cur := b[8..8 + sh.vl];
    Rec(LeVal(b[..8]), cur,
        if sh.keepPrev then b[8 + sh.vl..8 + 2 * sh.vl] else cur,
        if sh.keepFirst then b[FirstOff(sh)..FirstOff(sh) + sh.vl] else [])
  }

  lemma ParseLayout(r: Rec, sh: Shape)
    requires WellShaped(r, sh)
    ensures |Layout(r, sh)| == RecSize(sh)
    ensures Parse(Layout(r, sh), sh) == r
  {
    Le64RoundTrip(r.addr);
    var b := Layout(r, sh);
    assert b[..8] == LeBytes(r.addr, 8);
    assert b[8..8 + sh.vl] == r.cur;
    if sh.keepPrev { assert b[8 + sh.vl..8 + 2 * sh.vl] == r.prev; }
    if sh.keepFirst { assert b[FirstOff(sh)..FirstOff(sh) + sh.vl] == r.first; }
  }

  lemma ParsedIsWellShaped(b: seq<byte>, sh: Shape)
    requires |b| == RecSize(sh)
    ensures WellShaped(Parse(b, sh), sh)
  {
    Pow256Values();
  }

  /** The first `k` records of a list buffer. */
  function Listed(buf: seq<byte>, sh: Shape, k: nat): (s: seq<Rec>)
    requires Off(k, RecSize(sh)) <= |buf|
    ensures |s| == k
  {
    if k == 0 then []
    else
      OffNext(k - 1, RecSize(sh));
      Listed(buf, sh, k - 1) + [Parse(Slot(buf, RecSize(sh), k - 1), sh)]
  }

  lemma {:induction false} ListedAt(buf: seq<byte>, sh: Shape, k: nat, i: nat)
    requires Off(k, RecSize(sh)) <= |buf| && i < k
    ensures |Slot(buf, RecSize(sh), i)| == RecSize(sh)
    ensures Listed(buf, sh, k)[i] == Parse(Slot(buf, RecSize(sh), i), sh)
  {
    OffNext(k - 1, RecSize(sh));
    SlotLength(buf, RecSize(sh), k, i);
    if i < k - 1 { ListedAt(buf, sh, k - 1, i); }
  }

  lemma {:induction false} ListedPrefix(buf: seq<byte>, sh: Shape, k: nat, n: nat)
    requires k <= n && Off(n, RecSize(sh)) <= |buf|
    ensures Off(k, RecSize(sh)) <= |buf|
    ensures Listed(buf, sh, n)[..k] == Listed(buf, sh, k)
  {
    hide Off, RecSize, Slot;
    OffMono(k, n, RecSize(sh));
    if k < n {
      OffNext(n - 1, RecSize(sh));
      ListedPrefix(buf, sh, k, n - 1);
    }
  }

  lemma {:induction false} ListedWellShaped(buf: seq<byte>, sh: Shape, k: nat)
    requires Off(k, RecSize(sh)) <= |buf|
    ensures forall r :: r in Listed(buf, sh, k) ==> WellShaped(r, sh)
  {
    if k > 0 {
      OffNext(k - 1, RecSize(sh));
      ListedWellShaped(buf, sh, k - 1);
      ParsedIsWellShaped(Slot(buf, RecSize(sh), k - 1), sh);
    }
  }
}
