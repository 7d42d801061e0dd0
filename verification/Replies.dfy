/** The client's side of GET: what it reads out of a reply, with its own arithmetic. */
module Replies {
  import opened Bytes
  import opened Survivors
  import opened Options

  /** A reply as the client understands it. */
  datatype Understood = Understood(withFirst: bool, recs: seq<Rec>)

  /** One entry: 8-byte address, current and previous value, and the first value if it was announced. */
  function ReadEntry(s: seq<byte>, vl: nat): Rec
    requires |s| >= 8 + 2 * vl
  {
    Rec(LeVal(s[..8]), s[8..8 + vl], s[8 + vl..8 + 2 * vl], s[8 + 2 * vl..])
  }

  /** Exactly `n` entries of `size` bytes. */
  function ReadEntries(b: seq<byte>, vl: nat, size: nat, n: nat): (r: Option<seq<Rec>>)
    requires size >= 8 + 2 * vl
    ensures r.Some? ==> |r.value| == n
  {
    if n == 0 then (if b == [] then Some([]) else None)
    else if |b| < size then None
    else
      match ReadEntries(b[size..], vl, size, n - 1)
      case None => None
      case Some(rest) => Some([ReadEntry(b[..size], vl)] + rest)
  }

  /** Bit 31 of the header word announces first values, the other bits are the number of entries. */
  function Understand(b: seq<byte>, vl: nat): Option<Understood>
  {
    if |b| < 4 then None
    else
      var w := LeVal(b[..4]);
      var withFirst, n := w / 0x8000_0000 == 1, w % 0x8000_0000;
      match ReadEntries(b[4..], vl, if withFirst then 8 + 3 * vl else 8 + 2 * vl, n)
      case None => None
      case Some(recs) => Some(Understood(withFirst, recs))
  }

  /** The part of a sequence a client asks for: `count` elements from `start` on, as far as there are any. */
  function Requested<T>(rs: seq<T>, start: nat, count: nat): seq<T>
  {
    if start >= |rs| then [] else if count <= |rs[start..]| then rs[start..][..count] else rs[start..]
  }

  predicate AllWellShaped(rs: seq<Rec>, sh: Shape)
  {
    forall r :: r in rs ==> WellShaped(r, sh)
  }

  /** The header word is read back as it was meant exactly when the count leaves bit 31 free. */
  lemma HeaderExact(n: nat, sh: Shape)
    requires n < U32
    ensures var w := LeVal(LeBytes(Header(n, sh), 4));
            (w / 0x8000_0000 == (if sh.keepFirst then 1 else 0) && w % 0x8000_0000 == n) <==> n < 0x8000_0000
  {
    hide LeVal, LeBytes;
    Le32RoundTrip(Header(n, sh));
  }

  lemma EntryRoundTrip(r: Rec, sh: Shape)
    requires WellShaped(r, sh)
    ensures |Record(r, sh)| == (if sh.keepFirst then 8 + 3 * sh.vl else 8 + 2 * sh.vl)
    ensures ReadEntry(Record(r, sh), sh.vl) == r
  {
    hide LeVal, LeBytes;
    Le64RoundTrip(r.addr);
    var s := Record(r, sh);
    assert s[..8] == LeBytes(r.addr, 8);
    assert s[8..8 + sh.vl] == r.cur;
    assert s[8 + sh.vl..8 + 2 * sh.vl] == r.prev;
    assert s[8 + 2 * sh.vl..] == r.first;
  }

  lemma {:induction false} RecordsCons(r: Rec, rs: seq<Rec>, sh: Shape)
    ensures Records([r] + rs, sh) == Record(r, sh) + Records(rs, sh)
  {
    hide Record;
    if rs == [] {
      assert [r] + rs == [] + [r];
      RecordsSnoc([], r, sh);
    } else {
      var p, last := rs[..|rs| - 1], rs[|rs| - 1];
      assert [r] + rs == ([r] + p) + [last];
      RecordsSnoc([r] + p, last, sh);
      RecordsCons(r, p, sh);
    }
  }

  lemma {:induction false} EntriesRoundTrip(rs: seq<Rec>, sh: Shape)
    requires AllWellShaped(rs, sh)
    ensures ReadEntries(Records(rs, sh), sh.vl, if sh.keepFirst then 8 + 3 * sh.vl else 8 + 2 * sh.vl, |rs|) == Some(rs)
  {
    hide Record, ReadEntry, WellShaped;
    if rs != [] {
      var size := if sh.keepFirst then 8 + 3 * sh.vl else 8 + 2 * sh.vl;
      assert rs == [rs[0]] + rs[1..];
      RecordsCons(rs[0], rs[1..], sh);
      EntryRoundTrip(rs[0], sh);
      EntriesRoundTrip(rs[1..], sh);
      var b := Records(rs, sh);
      assert b[..size] == Record(rs[0], sh) && b[size..] == Records(rs[1..], sh);
    }
  }

  lemma RequestedIsActual(rs: seq<Rec>, start: nat, count: nat)
    ensures |Requested(rs, start, count)| == Actual(|rs|, start, count)
    ensures var n := Actual(|rs|, start, count); n > 0 ==> rs[start..start + n] == Requested(rs, start, count)
  {
    var n := Actual(|rs|, start, count);
    if start < |rs| { assert rs[start..][..n] == rs[start..start + n]; }
  }

  /** A reply is understood as exactly what was asked for, first values announced exactly when the session keeps them,
      if and only if fewer than 2^31 candidates are sent. */
  lemma ReplyUnderstood(rs: seq<Rec>, sh: Shape, start: nat, count: nat)
    requires AllWellShaped(rs, sh) && |Requested(rs, start, count)| < U32
    ensures Understand(Reply(rs, sh, start, count), sh.vl)
              == Some(Understood(sh.keepFirst, Requested(rs, start, count)))
            <==> |Requested(rs, start, count)| < 0x8000_0000
  {
    hide Record, Records, ReadEntry, LeVal, LeBytes, Header, WellShaped, ReadEntries;
    var n, asked := Actual(|rs|, start, count), Requested(rs, start, count);
    RequestedIsActual(rs, start, count);
    HeaderExact(n, sh);
    var b := Reply(rs, sh, start, count);
    assert b[..4] == LeBytes(Header(n, sh), 4);
    RecordsNone(sh);
    assert n == 0 ==> asked == [];
    assert b[4..] == Records(asked, sh);
    if n < 0x8000_0000 {
      assert forall r :: r in asked ==> r in rs;
      EntriesRoundTrip(asked, sh);
    }
  }

  lemma {:induction false} KeptWellShaped(v: View, sh: Shape, k: nat)
    requires ViewOk(v, sh) && k <= |v.bits| && forall i :: 0 <= i < k ==> WellShaped(SlotRec(v, sh, i), sh)
    ensures AllWellShaped(Kept(v, sh, k), sh)
  {
    hide WellShaped, SlotRec;
    if k > 0 { KeptWellShaped(v, sh, k - 1); }
  }

  lemma {:induction false} NarrowWellShaped(rs: seq<Rec>, sh: Shape, mem: Memory, cmp: Comparator)
    requires AllWellShaped(rs, sh)
    ensures AllWellShaped(Narrow(rs, sh, mem, cmp), sh)
  {
    if rs != [] {
      NarrowWellShaped(rs[..|rs| - 1], sh, mem, cmp);
      assert rs[|rs| - 1] in rs;
    }
  }
}
