/** List sessions: a compact buffer of records, narrowed in place. */
module RecordList {
  import opened Bytes
  import opened ValueStore
  import opened Survivors
  import opened Wire
  import opened Replies
  import opened Options
  import opened Windows

  /** Addresses of stored records, in stored order: no order, spacing or distinctness is assumed. */
  ghost predicate InRange(rs: seq<Rec>, vl: nat)
  {
    forall r :: r in rs ==> r.addr + vl <= ADDR_TOP
  }

  lemma SpliceAppend<T>(s: seq<T>, at: nat, a: seq<T>, b: seq<T>)
    requires at + |a| + |b| <= |s|
    ensures Splice(Splice(s, at, a), at + |a|, b) == Splice(s, at, a + b)
  {
  }

  /** The record a matching candidate leaves behind. */
  function Refreshed(r: Rec, sh: Shape, m: seq<byte>): Rec
  {
    Rec(r.addr, m, if sh.keepPrev then r.cur else m, r.first)
  }

  class RecordList {
    const sh: Shape
    const buf: array<byte>
    var count: nat

    constructor (sh: Shape, buf: array<byte>, count: nat)
      ensures this.sh == sh && this.buf == buf && this.count == count
    {
      this.sh, this.buf, this.count := sh, buf, count;
    }

    ghost predicate Valid()
      reads this, buf
    {
      && 1 <= sh.vl <= 0x1000
      && Off(count, RecSize(sh)) <= buf.Length
      && InRange(Listed(buf[..], sh, count), sh.vl)
    }

    ghost function Records(): (s: seq<Rec>)
      requires Valid()
      reads this, buf
      ensures |s| == count
    {
      Listed(buf[..], sh, count)
    }

    /** The address field of record `k`. */
    method AddrAt(k: nat, ghost n: nat) returns (addr: nat)
      requires k < n && Off(n, RecSize(sh)) <= buf.Length
      ensures addr == Listed(buf[..], sh, n)[k].addr
    {
      hide Off, Listed, LeVal, LeBytes;
      ListedAt(buf[..], sh, n, k);
      SlotLength(buf[..], RecSize(sh), n, k);
      var o := Off(k, RecSize(sh));
      addr := LeVal(buf[o..o + 8]);
      SliceSlice(buf[..], o, RecSize(sh), 0, 8);
    }

    /** Grow one read window from record `i` over the records after it. */
    method Window(i: nat, n: nat) returns (start: nat, end: nat)
      requires i < n && Off(n, RecSize(sh)) <= buf.Length && 1 <= sh.vl <= 0x1000
      requires InRange(Listed(buf[..], sh, n), sh.vl)
      ensures start == Listed(buf[..], sh, n)[i].addr
      ensures start + sh.vl <= end <= start + 0x10_0000
    {
      hide Off, Listed;
      start := AddrAt(i, n);
      end := start + sh.vl;
      for k := i + 1 to n
        invariant start + sh.vl <= end <= start + WIN_CAP
        invariant end <= ADDR_TOP
      {
        var na := AddrAt(k, n);
        assert Listed(buf[..], sh, n)[k] in Listed(buf[..], sh, n);
        var gap := if na > end then na - end else 0;
        if gap > GAP_MAX { break; }
        var ne := na + sh.vl;
        if Sub64(ne, start) > WIN_CAP { break; }
        if ne > end { end := ne; }
      }
    }

    /** Write the fields of one record at byte `out`. */
    method WriteFields(out: nat, addr: seq<byte>, m: seq<byte>, prevval: seq<byte>, firstval: seq<byte>)
      requires |addr| == 8 && |m| == sh.vl && out + RecSize(sh) <= buf.Length
      requires |prevval| == (if sh.keepPrev then sh.vl else 0) && |firstval| == (if sh.keepFirst then sh.vl else 0)
      modifies buf
      ensures buf[..] == Splice(old(buf[..]), out, addr + m + prevval + firstval)
    {
      hide Splice;
      ghost var s0 := buf[..];
      Blit(buf, out, addr);
      Blit(buf, out + 8, m);
      SpliceAppend(s0, out, addr, m);
      if sh.keepPrev {
        Blit(buf, out + 8 + sh.vl, prevval);
        SpliceAppend(s0, out, addr + m, prevval);
      } else {
        assert addr + m + prevval == addr + m;
      }
      if sh.keepFirst {
        Blit(buf, out + FirstOff(sh), firstval);
        SpliceAppend(s0, out, addr + m + prevval, firstval);
      } else {
        assert addr + m + prevval + firstval == addr + m + prevval;
      }
    }

    /** Copy record `i`, refreshed with the matched value `m`, to slot `j`. */
    method Compact(i: nat, j: nat, m: seq<byte>, ghost n: nat)
      requires j <= i < n && Off(n, RecSize(sh)) <= buf.Length && |m| == sh.vl
      requires Off(j, RecSize(sh)) + RecSize(sh) <= buf.Length
      modifies buf
      ensures |Layout(Refreshed(old(Listed(buf[..], sh, n)[i]), sh, m), sh)| == RecSize(sh)
      ensures buf[..] == Splice(old(buf[..]), Off(j, RecSize(sh)),
                                Layout(Refreshed(old(Listed(buf[..], sh, n)[i]), sh, m), sh))
    {
      hide Off, Splice, Listed, Parse, Layout;
      ListedAt(buf[..], sh, n, i);
      SlotLength(buf[..], RecSize(sh), n, i);
      var rec, out := Off(i, RecSize(sh)), Off(j, RecSize(sh));
      var addr := buf[rec..rec + 8];
      var prevval := if sh.keepPrev then buf[rec + 8..rec + 8 + sh.vl] else [];
      var firstval := if sh.keepFirst then buf[rec + FirstOff(sh)..rec + FirstOff(sh) + sh.vl] else [];
      RefreshedFields(buf[..], rec, sh, m);
      WriteFields(out, addr, m, prevval, firstval);
    }

    /** The current value of record `k`. */
    method CurAt(k: nat, ghost n: nat) returns (cur: seq<byte>)
      requires k < n && Off(n, RecSize(sh)) <= buf.Length
      ensures cur == Listed(buf[..], sh, n)[k].cur
    {
      hide Off, Listed, Parse;
      ListedAt(buf[..], sh, n, k);
      SlotLength(buf[..], RecSize(sh), n, k);
      var o := Off(k, RecSize(sh));
      cur := buf[o + 8..o + 8 + sh.vl];
      FieldBytes(buf[..], o, sh);
    }

    /** The value record `i` has in memory now, read through the current window or a new one. */
    method ValueAt(i: nat, n: nat, ws: nat, we: nat, win: seq<byte>, mem: Memory)
      returns (ws': nat, we': nat, win': seq<byte>, m: seq<byte>)
      requires i < n && Off(n, RecSize(sh)) <= buf.Length && 1 <= sh.vl <= 0x1000
      requires InRange(Listed(buf[..], sh, n), sh.vl)
      requires ws <= we && win == Slice(mem, ws, we - ws)
      ensures ws' <= we' && win' == Slice(mem, ws', we' - ws')
      ensures |win'| <= |win| || |win'| <= WIN_CAP
      ensures m == Slice(mem, Listed(buf[..], sh, n)[i].addr, sh.vl)
    {
      hide Off, Listed, RecSize, Slice;
      ws', we', win' := ws, we, win;
      var addr := AddrAt(i, n);
      if addr < ws || addr + sh.vl > we {
        ws', we' := Window(i, n);
        win' := Slice(mem, ws', we' - ws');
      }
      m := win'[addr - ws'..addr - ws' + sh.vl];
      SliceOfSlice(mem, ws', we' - ws', addr, sh.vl);
    }

    /** Narrow the list in place, reading memory through windows that persist across records. */
    method Rescan(mem: Memory, cmp: Comparator) returns (newCount: nat)
      requires Valid()
      modifies this`count, buf
      ensures Valid()
      ensures Records() == Narrow(old(Records()), sh, mem, cmp)
      ensures newCount == count == |Records()|
    {
      hide Off, Listed, Layout, Parse, Splice, RecSize, Slice, Narrow, NarrowRec, WellShaped, InRange, Refreshed;
      var n := count;
      ghost var l0 := Listed(buf[..], sh, n);
      newCount := 0;
      var ws: nat, we: nat, win: seq<byte> := 0, 0, [];
      NarrowPrefix(l0, sh, mem, cmp, 0);
      for i := 0 to n
        invariant newCount <= i
        invariant Off(n, RecSize(sh)) <= buf.Length
        invariant InRange(Listed(buf[..], sh, n), sh.vl)
        invariant Listed(buf[..], sh, n)[i..] == l0[i..]
        invariant Listed(buf[..], sh, n)[..newCount] == Narrow(l0[..i], sh, mem, cmp)
        invariant ws <= we && win == Slice(mem, ws, we - ws)
      {
        ghost var l := Listed(buf[..], sh, n);
        assert l[i] == l[i..][0] == l0[i];
        var m;
        ws, we, win, m := ValueAt(i, n, ws, we, win, mem);
        var cur := CurAt(i, n);
        NarrowPrefix(l0, sh, mem, cmp, i + 1);
        NarrowOne(l[i], sh, mem, cmp);
        if cmp(m, cur) {
          CompactedAt(buf[..], sh, n, i, newCount, m);
          Compact(i, newCount, m, n);
          KeptStep(l, l0, i, newCount, sh, m);
          newCount := newCount + 1;
        } else {
          DropStep(l, l0, i);
        }
      }
      count := newCount;
      assert l0[..n] == l0;
      ListedPrefix(buf[..], sh, newCount, n);
      PrefixInRange(Listed(buf[..], sh, n), newCount, sh.vl);
    }

    /** The bytes GET sends for record `k`. */
    method RecordAt(k: nat) returns (o: seq<byte>)
      requires Valid() && k < count
      ensures o == Record(Records()[k], sh)
      ensures |o| == 8 + (if sh.keepFirst then 3 else 2) * sh.vl
    {
      hide Off, Listed, Parse, LeBytes, InRange, Slot, Record, Sent;
      ListedAt(buf[..], sh, count, k);
      SlotLength(buf[..], RecSize(sh), count, k);
      SlotBytes(buf[..], RecSize(sh), k);
      o := FieldsAt(Off(k, RecSize(sh)));
      SentFields(buf[..], Off(k, RecSize(sh)), sh);
    }

    method FieldsAt(rec: nat) returns (o: seq<byte>)
      requires rec + RecSize(sh) <= buf.Length
      ensures o == Sent(buf[..], rec, sh) && |o| == 8 + (if sh.keepFirst then 3 else 2) * sh.vl
    {
      var prevOff := if sh.keepPrev then 8 + sh.vl else 8;
      o := buf[rec..rec + 8] + buf[rec + 8..rec + 8 + sh.vl] + buf[rec + prevOff..rec + prevOff + sh.vl];
      if sh.keepFirst { o := o + buf[rec + FirstOff(sh)..rec + FirstOff(sh) + sh.vl]; }
    }

    lemma RecordsUnderstood(start: nat, want: nat)
      requires Valid()
      ensures |Requested(Records(), start, want)| < 0x8000_0000 ==>
                Understand(Reply(Records(), sh, start, want), sh.vl)
                == Some(Understood(sh.keepFirst, Requested(Records(), start, want)))
    {
      hide Off, Listed, Understand, Requested, Reply, WellShaped;
      ListedWellShaped(buf[..], sh, count);
      if |Requested(Records(), start, want)| < 0x8000_0000 { ReplyUnderstood(Records(), sh, start, want); }
    }

    /** List GET: the client reads exactly the requested records out of sends of at most 256 KiB. */
    method Get(start: nat, want: nat) returns (sends: seq<seq<byte>>)
      requires Valid()
      ensures Joined(sends) == Reply(Records(), sh, start, want)
      ensures Fits(sends, 0x4_0000)
      ensures |Requested(Records(), start, want)| < 0x8000_0000 ==>
                Understand(Joined(sends), sh.vl) == Some(Understood(sh.keepFirst, Requested(Records(), start, want)))
    {
      assert OUT_CAP == 0x4_0000;
      hide *;
      RecordsUnderstood(start, want);
      sends := SendRecords(start, want);
    }

    /** Header, then the requested records. */
    method SendRecords(start: nat, want: nat) returns (sends: seq<seq<byte>>)
      requires Valid()
      ensures Joined(sends) == Reply(Records(), sh, start, want)
      ensures Fits(sends, OUT_CAP)
    {
      hide Off, Listed, Record, Survivors.Records, Joined, LeBytes;
      var total := count;
      var from := if start > total then total else start;
      var end := if from + want > total then total else from + want;
      var actual := end - from;
      var head := LeBytes(Header(actual, sh), 4);
      sends := [head];
      JoinedOne(head);
      var out := [];
      ghost var rs := Records();
      RecordsNone(sh);
      assert rs[from..from] == [];
      for i := from to end
        invariant Fits(sends, OUT_CAP) && |out| <= OUT_CAP
        invariant Joined(sends) + out == head + Survivors.Records(rs[from..i], sh)
      {
        var o := RecordAt(i);
        assert rs[from..i + 1] == rs[from..i] + [rs[i]];
        RecordsSnoc(rs[from..i], rs[i], sh);
        sends, out := Emit(sends, out, o, OUT_CAP);
        assert head + Survivors.Records(rs[from..i], sh) + o == head + (Survivors.Records(rs[from..i], sh) + o);
      }
      sends := Flush(sends, out, OUT_CAP);
    }
  }

  lemma SlotBytes(s: seq<byte>, size: nat, k: nat)
    requires Off(k, size) + size <= |s|
    ensures Slot(s, size, k) == s[Off(k, size)..Off(k, size) + size]
  {
  }

  lemma NarrowPrefix(rs: seq<Rec>, sh: Shape, mem: Memory, cmp: Comparator, i: nat)
    requires i <= |rs|
    ensures i == 0 ==> Narrow(rs[..i], sh, mem, cmp) == []
    ensures i > 0 ==>
              Narrow(rs[..i], sh, mem, cmp)
              == Narrow(rs[..i - 1], sh, mem, cmp) + NarrowRec(rs[i - 1], sh, mem, cmp)
  {
    if i > 0 {
      assert rs[..i] == rs[..i - 1] + [rs[i - 1]];
      NarrowSnoc(rs[..i - 1], rs[i - 1], sh, mem, cmp);
    }
  }

  lemma NarrowOne(r: Rec, sh: Shape, mem: Memory, cmp: Comparator)
    ensures var m := Slice(mem, r.addr, sh.vl);
            NarrowRec(r, sh, mem, cmp) == if cmp(m, r.cur) then [Refreshed(r, sh, m)] else []
  {
  }

  /** Writing record `r` over slot `j` replaces that record only. */
  lemma {:induction false} ListedUpdate(buf: seq<byte>, sh: Shape, n: nat, j: nat, r: Rec)
    requires j < n && Off(n, RecSize(sh)) <= |buf| && WellShaped(r, sh) && |Layout(r, sh)| == RecSize(sh)
    requires Off(j, RecSize(sh)) + RecSize(sh) <= |buf|
    ensures Listed(Splice(buf, Off(j, RecSize(sh)), Layout(r, sh)), sh, n) == Listed(buf, sh, n)[j := r]
  {
    hide Off, Splice, Slot, Layout, Parse, RecSize, Slots;
    var b := Splice(buf, Off(j, RecSize(sh)), Layout(r, sh));
    forall k | 0 <= k < n
      ensures Listed(b, sh, n)[k] == Listed(buf, sh, n)[j := r][k]
    {
      ListedAt(b, sh, n, k);
      ListedAt(buf, sh, n, k);
      SlotReplaced(buf, sh, n, j, Layout(r, sh), k);
      ParseLayout(r, sh);
    }
  }

  lemma SlotReplaced(buf: seq<byte>, sh: Shape, n: nat, j: nat, v: seq<byte>, k: nat)
    requires j < n && k < n && Off(n, RecSize(sh)) <= |buf| && |v| == RecSize(sh)
    requires Off(j, RecSize(sh)) + RecSize(sh) <= |buf|
    ensures Slot(Splice(buf, Off(j, RecSize(sh)), v), RecSize(sh), k) == if k == j then v else Slot(buf, RecSize(sh), k)
  {
    OffOne(RecSize(sh));
    hide Off, Splice, RecSize;
    if k == j {
      SpliceSlotInside(buf, RecSize(sh), n, j, v, 1, k);
    } else {
      SpliceSlotOutside(buf, RecSize(sh), n, j, v, 1, k);
    }
  }

  lemma OffOne(size: nat)
    ensures Off(0, size) == 0 && Off(1, size) == size
  {
  }

  lemma CompactedAt(buf: seq<byte>, sh: Shape, n: nat, i: nat, j: nat, m: seq<byte>)
    requires j <= i < n && Off(n, RecSize(sh)) <= |buf| && |m| == sh.vl
    ensures Off(j, RecSize(sh)) + RecSize(sh) <= |buf|
    ensures |Layout(Refreshed(Listed(buf, sh, n)[i], sh, m), sh)| == RecSize(sh)
    ensures Listed(Splice(buf, Off(j, RecSize(sh)), Layout(Refreshed(Listed(buf, sh, n)[i], sh, m), sh)), sh, n)
         == Listed(buf, sh, n)[j := Refreshed(Listed(buf, sh, n)[i], sh, m)]
  {
    hide Off, Splice, Slot, Layout, Listed;
    SlotLength(buf, RecSize(sh), n, j);
    ListedWellShaped(buf, sh, n);
    var r := Refreshed(Listed(buf, sh, n)[i], sh, m);
    assert Listed(buf, sh, n)[i] in Listed(buf, sh, n);
    ParseLayout(r, sh);
    ListedUpdate(buf, sh, n, j, r);
  }

  /** Overwriting slot `j <= i` leaves every unread record in place. */
  lemma KeptStep(l: seq<Rec>, l0: seq<Rec>, i: nat, j: nat, sh: Shape, m: seq<byte>)
    requires j <= i < |l| == |l0| && l[i..] == l0[i..] && InRange(l, sh.vl)
    ensures var r := Refreshed(l[i], sh, m);
            && l[j := r][i + 1..] == l0[i + 1..]
            && l[j := r][..j + 1] == l[..j] + [r]
            && InRange(l[j := r], sh.vl)
  {
    DropStep(l, l0, i);
    assert l[i] in l;
  }

  lemma PrefixInRange(l: seq<Rec>, j: nat, vl: nat)
    requires j <= |l| && InRange(l, vl)
    ensures InRange(l[..j], vl)
  {
  }

  lemma DropStep(l: seq<Rec>, l0: seq<Rec>, i: nat)
    requires i < |l| == |l0| && l[i..] == l0[i..]
    ensures l[i + 1..] == l0[i + 1..]
  {
    assert l[i + 1..] == l[i..][1..];
    assert l0[i + 1..] == l0[i..][1..];
  }

  /** Fields gathered from a record before it is overwritten are those of the refreshed record. */
  lemma RefreshedFields(s: seq<byte>, rec: nat, sh: Shape, m: seq<byte>)
    requires rec + RecSize(sh) <= |s| && |m| == sh.vl
    ensures Layout(Refreshed(Parse(s[rec..rec + RecSize(sh)], sh), sh, m), sh)
         == s[rec..rec + 8] + m + (if sh.keepPrev then s[rec + 8..rec + 8 + sh.vl] else [])
            + if sh.keepFirst then s[rec + FirstOff(sh)..rec + FirstOff(sh) + sh.vl] else []
  {
    hide Parse, LeBytes;
    AddressBytes(s, rec, sh);
    FieldBytes(s, rec, sh);
  }

  function Sent(s: seq<byte>, rec: nat, sh: Shape): seq<byte>
    requires rec + RecSize(sh) <= |s|
  {
    var prevOff := if sh.keepPrev then 8 + sh.vl else 8;
    s[rec..rec + 8] + s[rec + 8..rec + 8 + sh.vl] + s[rec + prevOff..rec + prevOff + sh.vl]
    + if sh.keepFirst then s[rec + FirstOff(sh)..rec + FirstOff(sh) + sh.vl] else []
  }

  /** The pieces GET copies out of a stored record are the record's wire form. */
  lemma SentFields(s: seq<byte>, rec: nat, sh: Shape)
    requires rec + RecSize(sh) <= |s|
    ensures Record(Parse(s[rec..rec + RecSize(sh)], sh), sh) == Sent(s, rec, sh)
  {
    hide Parse, LeBytes;
    AddressBytes(s, rec, sh);
    FieldBytes(s, rec, sh);
  }

  lemma AddressBytes(s: seq<byte>, rec: nat, sh: Shape)
    requires rec + RecSize(sh) <= |s|
    ensures LeBytes(Parse(s[rec..rec + RecSize(sh)], sh).addr, 8) == s[rec..rec + 8]
  {
    SliceSlice(s, rec, RecSize(sh), 0, 8);
    LeBytesOfVal(s[rec..rec + 8]);
  }

  lemma FieldBytes(s: seq<byte>, rec: nat, sh: Shape)
    requires rec + RecSize(sh) <= |s|
    ensures Parse(s[rec..rec + RecSize(sh)], sh).cur == s[rec + 8..rec + 8 + sh.vl]
    ensures sh.keepFirst ==>
              Parse(s[rec..rec + RecSize(sh)], sh).first == s[rec + FirstOff(sh)..rec + FirstOff(sh) + sh.vl]
    ensures !sh.keepFirst ==> Parse(s[rec..rec + RecSize(sh)], sh).first == []
    ensures Parse(s[rec..rec + RecSize(sh)], sh).prev
         == if sh.keepPrev then s[rec + 8 + sh.vl..rec + 8 + 2 * sh.vl] else s[rec + 8..rec + 8 + sh.vl]
  {
    hide LeVal;
    SliceSlice(s, rec, RecSize(sh), 8, sh.vl);
    PrevBytes(s, rec, sh);
    if sh.keepFirst { SliceSlice(s, rec, RecSize(sh), FirstOff(sh), sh.vl); }
  }

  lemma PrevBytes(s: seq<byte>, rec: nat, sh: Shape)
    requires rec + RecSize(sh) <= |s|
    ensures Parse(s[rec..rec + RecSize(sh)], sh).prev
         == if sh.keepPrev then s[rec + 8 + sh.vl..rec + 8 + 2 * sh.vl] else s[rec + 8..rec + 8 + sh.vl]
  {
    hide LeVal;
    SliceSlice(s, rec, RecSize(sh), 8, sh.vl);
    if sh.keepPrev { SliceSlice(s, rec, RecSize(sh), 8 + sh.vl, sh.vl); }
  }
}
