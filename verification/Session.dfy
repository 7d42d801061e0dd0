/** A turbo-scan session: a snapshot that may turn itself into a record list in mid-run. */
module Session {
  import opened Bytes
  import opened Bitmap
  import opened ValueStore
  import opened Segments
  import opened Survivors
  import opened Wire
  import opened Replies
  import opened Options
  import opened Windows
  import S = Snapshot
  import L = RecordList

  const RESIDENT_CAP: nat := 0x1000_0000
  const DENSITY: nat := 32

  /** Value of slot `i` for the record list: from the spill file if it lies past the RAM part. */
  method SlotValue(s: S.Snapshot, i: nat) returns (val: seq<byte>)
    requires s.Shaped() && i < s.slotCount
    ensures val == s.TheView().cur[i]
  {
    hide Off, Scannable, Numbered, Total, SlotAddrs, Bits;
    var vl, voff := s.sh.vl, Off(i, s.sh.vl);
    SlotLength(s.store.Flat(), vl, s.slotCount, i);
    NoSlotStraddles(s.store.ram.Length, vl, i);
    OneSide(s.store.ram[..], s.store.file, voff, vl);
    assert s.TheView().cur[i] == Slot(s.store.Flat(), vl, i);
    if voff >= s.store.ram.Length {
      val := PreadAll(s.store.file, voff - s.store.ram.Length, vl).1;
    } else {
      val := s.store.ram[voff..voff + vl];
    }
  }

  lemma OneSide(ram: seq<byte>, file: seq<byte>, off: nat, len: nat)
    requires off + len <= |ram| + |file|
    ensures off + len <= |ram| ==> (ram + file)[off..off + len] == ram[off..off + len]
    ensures off >= |ram| ==> (ram + file)[off..off + len] == file[off - |ram|..off - |ram| + len]
  {
  }

  /** Record `out` of the list is filled from survivor slot `i`. */
  method FillRecord(s: S.Snapshot, l: L.RecordList, i: nat, out: nat, ghost n: nat)
    requires s.Shaped() && i < s.slotCount && l.sh == s.sh && out < n
    requires Off(n, RecSize(l.sh)) <= l.buf.Length
    requires l.buf != s.store.ram && (l.buf as object) != s.bitmap
    modifies l.buf
    ensures Listed(l.buf[..], l.sh, n) == old(Listed(l.buf[..], l.sh, n))[out := SlotRec(s.TheView(), s.sh, i)]
  {
    hide Off, Scannable, Numbered, Total, SlotAddrs, Bits, Listed, RecSize, Slots, LeBytes;
    ghost var r := SlotRec(s.TheView(), s.sh, i);
    SlotRecLayout(s, i);
    var sh := s.sh;
    var addr := SlotAddr(s.segs, s.stride, i);
    var val := SlotValue(s, i);
    var prevval := if sh.keepPrev then PreadAll(s.prevFile, Off(i, sh.vl), sh.vl).1 else [];
    var firstval := if sh.keepFirst then PreadAll(s.firstFile, Off(i, sh.vl), sh.vl).1 else [];
    SlotLength(l.buf[..], RecSize(sh), n, out);
    L.ListedUpdate(l.buf[..], sh, n, out, r);
    l.WriteFields(Off(out, RecSize(sh)), LeBytes(addr, 8), val, prevval, firstval);
  }

  lemma SlotRecLayout(s: S.Snapshot, i: nat)
    requires s.Shaped() && i < s.slotCount
    ensures var r := SlotRec(s.TheView(), s.sh, i);
            && WellShaped(r, s.sh) && |Layout(r, s.sh)| == RecSize(s.sh)
            && r.addr + s.sh.vl <= ADDR_TOP && r.addr == AddrOf(s.segs, s.stride, i)
            && |r.cur| == s.sh.vl
            && Layout(r, s.sh) == LeBytes(r.addr, 8) + r.cur
                 + (if s.sh.keepPrev then PreadAll(s.prevFile, Off(i, s.sh.vl), s.sh.vl).1 else [])
                 + (if s.sh.keepFirst then PreadAll(s.firstFile, Off(i, s.sh.vl), s.sh.vl).1 else [])
            && (s.sh.keepPrev ==> |PreadAll(s.prevFile, Off(i, s.sh.vl), s.sh.vl).1| == s.sh.vl)
            && (s.sh.keepFirst ==> |PreadAll(s.firstFile, Off(i, s.sh.vl), s.sh.vl).1| == s.sh.vl)
  {
    hide Off, Numbered, Total, Bits, LeBytes, Scannable, AddrOf;
    SlotLength(s.store.Flat(), s.sh.vl, s.slotCount, i);
    ScannableInRange(s.Addrs(), s.sh.vl, i);
  }

  /** fs_snapshot_materialize: copy the survivors into a record list, or decline and change nothing. */
  method Materialize(s: S.Snapshot, mmapOk: bool) returns (l: L.RecordList?)
    requires s.Valid()
    ensures l != null ==> fresh(l) && fresh(l.buf) && l.Valid() && l.sh == s.sh && l.Records() == s.Survivors()
  {
    hide Off, Scannable, Numbered, Total, SlotAddrs, Bits, Listed, RecSize, Slots, Kept, CountSet, SlotRec, L.InRange;
    var records, size := s.survivorCount, RecSize(s.sh);
    if records == 0 || Off(records, size) > RESIDENT_CAP || !mmapOk {
      return null;
    }
    var buf := new byte[Off(records, size)](i => 0);
    l := new L.RecordList(s.sh, buf, records);
    ghost var v, p := s.TheView(), 0;
    var out: nat := 0;
    KeptNone(v, s.sh);
    var i: nat := NextSet(s.bitmap, 0, s.slotCount);
    while i < s.slotCount && out < records
      invariant l.sh == s.sh && l.buf == buf && l.count == records
      invariant s.Valid() && v == s.TheView()
      invariant p <= s.slotCount && IsNextSet(v.bits, p, i)
      invariant out == CountSet(v.bits, p) && out <= records
      invariant Listed(buf[..], s.sh, records)[..out] == Kept(v, s.sh, p)
      decreases s.slotCount - p
    {
      S.SeenStep(v.bits, p, i);
      KeptSkip(v, s.sh, p, i);
      ghost var before := Listed(buf[..], s.sh, records);
      FillRecord(s, l, i, out, records);
      PrefixGrows(before, out, SlotRec(v, s.sh, i));
      out := out + 1;
      p := i + 1;
      i := NextSet(s.bitmap, i + 1, s.slotCount);
    }
    Complete(v, s.sh, p, i, out);
    assert Listed(buf[..], s.sh, records)[..records] == Listed(buf[..], s.sh, records);
    SurvivorsInRange(s);
  }

  lemma PrefixGrows<T>(s: seq<T>, k: nat, x: T)
    requires k < |s|
    ensures s[k := x][..k + 1] == s[..k] + [x]
  {
  }

  lemma KeptNone(v: View, sh: Shape)
    requires ViewOk(v, sh)
    ensures Kept(v, sh, 0) == [] && CountSet(v.bits, 0) == 0
  {
  }

  lemma {:induction false} KeptUnset(v: View, sh: Shape, p: nat, i: nat)
    requires ViewOk(v, sh) && p <= i <= |v.bits| && forall j :: p <= j < i ==> !v.bits[j]
    ensures Kept(v, sh, i) == Kept(v, sh, p)
  {
    if p < i { KeptUnset(v, sh, p, i - 1); }
  }

  lemma KeptSkip(v: View, sh: Shape, p: nat, i: nat)
    requires ViewOk(v, sh) && p <= i < |v.bits| && v.bits[i] && forall j :: p <= j < i ==> !v.bits[j]
    ensures Kept(v, sh, i + 1) == Kept(v, sh, p) + [SlotRec(v, sh, i)]
  {
    KeptUnset(v, sh, p, i);
  }

  /** The copy loop stops only when every survivor has been copied. */
  lemma Complete(v: View, sh: Shape, p: nat, i: nat, out: nat)
    requires ViewOk(v, sh) && p <= |v.bits| && IsNextSet(v.bits, p, i)
    requires out == CountSet(v.bits, p) && (i >= |v.bits| || out >= CountSet(v.bits, |v.bits|))
    ensures out == CountSet(v.bits, |v.bits|) && Kept(v, sh, p) == Kept(v, sh, |v.bits|)
  {
    CountSetMonotone(v.bits, p, |v.bits|);
    if i < |v.bits| {
      S.SeenStep(v.bits, p, i);
      CountSetMonotone(v.bits, i + 1, |v.bits|);
      assert false;
    } else {
      CountSetSkip(v.bits, p, |v.bits|);
      KeptUnset(v, sh, p, |v.bits|);
    }
  }

  lemma {:induction false} KeptInRange(v: View, sh: Shape, k: nat, vl: nat)
    requires ViewOk(v, sh) && k <= |v.bits|
    requires forall i :: 0 <= i < k ==> v.addrs[i] + vl <= ADDR_TOP
    ensures L.InRange(Kept(v, sh, k), vl)
  {
    if k > 0 { KeptInRange(v, sh, k - 1, vl); }
  }

  lemma SurvivorsInRange(s: S.Snapshot)
    requires s.Valid()
    ensures L.InRange(s.Survivors(), s.sh.vl)
  {
    hide Kept, CountSet, Slots, Bits, Off, Steady, Dense, L.InRange;
    KeptInRange(s.TheView(), s.sh, s.slotCount, s.sh.vl);
  }

  // ----- the session state machine -----

  /** A client request; `vl` is the value width the request names. */
  datatype Request = Count(mem: Memory, cmp: Comparator, vl: nat) | Get(start: nat, count: nat)

  /** What the client sees: the new survivor count, or the bytes of a GET reply. */
  datatype Answer = Counted(n: nat) | Sent(bytes: seq<byte>)

  /** Effect of one request on the survivors; a width mismatch leaves them alone. */
  function Step(rs: seq<Rec>, sh: Shape, q: Request): seq<Rec>
  {
    match q
    case Count(mem, cmp, vl) => if vl == sh.vl then Narrow(rs, sh, mem, cmp) else rs
    case Get(_, _) => rs
  }

  function AnswerTo(rs: seq<Rec>, sh: Shape, q: Request): Answer
  {
    match q
    case Count(_, _, _) => Counted(|Step(rs, sh, q)|)
    case Get(start, count) => Sent(Reply(rs, sh, start, count))
  }

  function After(rs: seq<Rec>, sh: Shape, qs: seq<Request>): seq<Rec>
  {
    if qs == [] then rs else Step(After(rs, sh, qs[..|qs| - 1]), sh, qs[|qs| - 1])
  }

  /** The specification of a whole run. */
  function Answers(rs: seq<Rec>, sh: Shape, qs: seq<Request>): (a: seq<Answer>)
    ensures |a| == |qs|
  {
    if qs == [] then []
    else Answers(rs, sh, qs[..|qs| - 1]) + [AnswerTo(After(rs, sh, qs[..|qs| - 1]), sh, qs[|qs| - 1])]
  }

  lemma RunStep(rs: seq<Rec>, sh: Shape, qs: seq<Request>, i: nat)
    requires i < |qs|
    ensures After(rs, sh, qs[..i + 1]) == Step(After(rs, sh, qs[..i]), sh, qs[i])
    ensures Answers(rs, sh, qs[..i + 1]) == Answers(rs, sh, qs[..i]) + [AnswerTo(After(rs, sh, qs[..i]), sh, qs[i])]
  {
    assert qs[..i + 1][..i] == qs[..i];
  }

  /** Two request lists one after the other are one run: the second sees exactly what the first left. */
  lemma {:induction false} RunSplit(rs: seq<Rec>, sh: Shape, q1: seq<Request>, q2: seq<Request>)
    ensures After(rs, sh, q1 + q2) == After(After(rs, sh, q1), sh, q2)
    ensures Answers(rs, sh, q1 + q2) == Answers(rs, sh, q1) + Answers(After(rs, sh, q1), sh, q2)
  {
    hide Step, AnswerTo;
    if q2 == [] {
      assert q1 + q2 == q1;
    } else {
      RunSplit(rs, sh, q1, q2[..|q2| - 1]);
      assert (q1 + q2)[..|q1 + q2| - 1] == q1 + q2[..|q2| - 1];
    }
  }

  /** What the client makes of answer `i` of a run: the number of survivors after the first `i` requests and this one,
      or, unless 2^31 candidates are sent, exactly those it asked for of the survivors the first `i` requests left. */
  predicate Reads(rs: seq<Rec>, sh: Shape, qs: seq<Request>, i: nat, a: Answer)
    requires i < |qs|
  {
    var before := After(rs, sh, qs[..i]);
    match qs[i]
    case Count(_, _, _) => a == Counted(|After(rs, sh, qs[..i + 1])|)
    case Get(start, count) =>
      a.Sent? && (|Requested(before, start, count)| < 0x8000_0000 ==>
                    Understand(a.bytes, sh.vl) == Some(Understood(sh.keepFirst, Requested(before, start, count))))
  }

  lemma {:induction false} AfterWellShaped(rs: seq<Rec>, sh: Shape, qs: seq<Request>)
    requires AllWellShaped(rs, sh)
    ensures AllWellShaped(After(rs, sh, qs), sh)
  {
    hide WellShaped, Narrow;
    if qs != [] {
      var p, q := qs[..|qs| - 1], qs[|qs| - 1];
      AfterWellShaped(rs, sh, p);
      if q.Count? { NarrowWellShaped(After(rs, sh, p), sh, q.mem, q.cmp); }
    }
  }

  lemma AnswerReads(rs: seq<Rec>, sh: Shape, qs: seq<Request>, i: nat)
    requires AllWellShaped(rs, sh) && i < |qs|
    ensures Reads(rs, sh, qs, i, AnswerTo(After(rs, sh, qs[..i]), sh, qs[i]))
  {
    hide WellShaped, Narrow, Understand, Requested, Reply, After, Answers;
    RunStep(rs, sh, qs, i);
    var before := After(rs, sh, qs[..i]);
    AfterWellShaped(rs, sh, qs[..i]);
    match qs[i]
    case Count(_, _, _) =>
    case Get(start, count) =>
      if |Requested(before, start, count)| < 0x8000_0000 { ReplyUnderstood(before, sh, start, count); }
  }

  /** Every answer of a run reads as it should, whatever came before it. */
  lemma {:induction false} AnswersRead(rs: seq<Rec>, sh: Shape, qs: seq<Request>)
    requires AllWellShaped(rs, sh)
    ensures forall i :: 0 <= i < |qs| ==> Reads(rs, sh, qs, i, Answers(rs, sh, qs)[i])
  {
    hide WellShaped, After, Reads, AnswerTo;
    if qs != [] {
      var n := |qs| - 1;
      AnswersRead(rs, sh, qs[..n]);
      AnswerReads(rs, sh, qs, n);
      forall i | 0 <= i < |qs|
        ensures Reads(rs, sh, qs, i, Answers(rs, sh, qs)[i])
      {
        if i < n {
          var a := Answers(rs, sh, qs[..n])[i];
          assert Reads(rs, sh, qs[..n], i, a);
          ReadsLonger(rs, sh, qs, n, i, a);
          assert Answers(rs, sh, qs)[i] == a;
        }
      }
    }
  }

  lemma ReadsLonger(rs: seq<Rec>, sh: Shape, qs: seq<Request>, n: nat, i: nat, a: Answer)
    requires i < n <= |qs| && Reads(rs, sh, qs[..n], i, a)
    ensures Reads(rs, sh, qs, i, a)
  {
    hide After, Understand, Requested;
    assert qs[..n][..i] == qs[..i] && qs[..n][..i + 1] == qs[..i + 1];
  }

  /** A candidate that was there before, with the same first value. */
  predicate Known(rs: seq<Rec>, r: Rec)
  {
    exists o :: o in rs && o.addr == r.addr && o.first == r.first
  }

  lemma {:induction false} NarrowInvents(rs: seq<Rec>, sh: Shape, mem: Memory, cmp: Comparator)
    ensures forall r :: r in Narrow(rs, sh, mem, cmp) ==> Known(rs, r)
  {
    if rs != [] {
      var p, last := rs[..|rs| - 1], rs[|rs| - 1];
      NarrowInvents(p, sh, mem, cmp);
      forall r | r in Narrow(rs, sh, mem, cmp)
        ensures Known(rs, r)
      {
        if r in Narrow(p, sh, mem, cmp) {
          assert Known(p, r);
        } else {
          assert last in rs && last.addr == r.addr && last.first == r.first;
        }
      }
    }
  }

  /** No run invents a candidate or changes a first value, and survivors never grow in number. */
  lemma {:induction false} RunOnlyNarrows(rs: seq<Rec>, sh: Shape, qs: seq<Request>)
    ensures |After(rs, sh, qs)| <= |rs|
    ensures forall r :: r in After(rs, sh, qs) ==> Known(rs, r)
  {
    hide Narrow;
    if qs != [] {
      var before, q := After(rs, sh, qs[..|qs| - 1]), qs[|qs| - 1];
      RunOnlyNarrows(rs, sh, qs[..|qs| - 1]);
      if q.Count? { NarrowInvents(before, sh, q.mem, q.cmp); }
      forall r | r in After(rs, sh, qs)
        ensures Known(rs, r)
      {
        if r !in before { assert Known(before, r); }
      }
    }
  }

  class Session {
    var snap: S.Snapshot?
    var list: L.RecordList?
    ghost var Repr: set<object>

    ghost predicate Valid()
      reads this, Repr
      ensures Valid() ==> this in Repr
    {
      && this in Repr
      && (snap == null <==> list != null)
      && (snap != null ==>
            && snap in Repr && snap.store in Repr && snap.store.ram in Repr && snap.bitmap in Repr
            && snap.Valid())
      && (list != null ==> list in Repr && list.buf in Repr && list.Valid())
    }

    ghost function Abs(): seq<Rec>
      requires Valid()
      reads this, Repr
    {
      if snap != null then snap.Survivors() else list.Records()
    }

    ghost function Sh(): Shape
      requires Valid()
      reads this, Repr
    {
      if snap != null then snap.sh else list.sh
    }

    constructor FromSnapshot(s: S.Snapshot)
      requires s.Valid()
      ensures Valid() && Abs() == s.Survivors() && Sh() == s.sh
      ensures Repr == {this, s, s.store, s.store.ram, s.bitmap}
    {
      snap, list := s, null;
      Repr := {this, s, s.store, s.store.ram, s.bitmap};
    }

    /** Snapshot mode: rescan in place, then switch to a list if few enough survivors remain. */
    method CountSnapshot(mem: Memory, cmp: Comparator, vl: nat, materializeMax: nat, mmapOk: bool, bufOk: bool)
      returns (nc: nat)
      requires Valid() && snap != null
      modifies Repr
      ensures Valid() && fresh(Repr - old(Repr)) && Sh() == old(Sh())
      ensures Abs() == if bufOk then Step(old(Abs()), old(Sh()), Count(mem, cmp, vl)) else old(Abs())
      ensures nc == |Abs()|
    {
      hide Narrow, Scannable, L.InRange, Kept, Listed, RecSize, Off, CountSet, Bits, Numbered, Total, SlotAddrs;
      if snap.sh.vl != vl || !bufOk {
        nc := snap.survivorCount;
        return;
      }
      var blBuf := new byte[WIN_CAP](i => 0);
      nc := snap.Rescan(mem, cmp, blBuf);
      var rsz := RecSize(snap.sh);
      if 0 < nc <= materializeMax && nc * DENSITY <= snap.slotCount && Off(nc, rsz) <= RESIDENT_CAP {
        var l := Materialize(snap, mmapOk);
        if l != null {
          snap, list := null, l;
          Repr := Repr + {l, l.buf};
        }
      }
    }

    /** COUNT on a resident session, whichever mode it is in, when its baseline buffer can be had. */
    method CountStep(mem: Memory, cmp: Comparator, vl: nat, materializeMax: nat, mmapOk: bool) returns (nc: nat)
      requires Valid()
      modifies Repr
      ensures Valid() && fresh(Repr - old(Repr)) && Sh() == old(Sh())
      ensures Abs() == Step(old(Abs()), old(Sh()), Count(mem, cmp, vl))
      ensures nc == |Abs()|
    {
      hide Narrow, Scannable, L.InRange, Kept, Listed, RecSize, Off, CountSet, Bits, Numbered, Total, SlotAddrs;
      if snap != null {
        nc := CountSnapshot(mem, cmp, vl, materializeMax, mmapOk, true);
      } else if list.sh.vl == vl {
        nc := list.Rescan(mem, cmp);
      } else {
        nc := list.count;
      }
    }

    method GetStep(start: nat, count: nat) returns (sends: seq<seq<byte>>)
      requires Valid()
      ensures Joined(sends) == Reply(Abs(), Sh(), start, count)
      ensures Fits(sends, 0x4_0000)
      ensures |Requested(Abs(), start, count)| < 0x8000_0000 ==>
                Understand(Joined(sends), Sh().vl) == Some(Understood(Sh().keepFirst, Requested(Abs(), start, count)))
    {
      hide Understand, Requested, Reply, Joined, Scannable, CountSet, Kept, Listed, Off;
      if snap != null {
        sends := snap.Get(start, count);
      } else {
        sends := list.Get(start, count);
      }
    }

    /** A whole run: `policy` fixes, per request, the materialise threshold and whether its buffer can be had. */
    method Run(qs: seq<Request>, policy: nat -> (nat, bool)) returns (answers: seq<Answer>)
      requires Valid()
      modifies Repr
      ensures Valid() && fresh(Repr - old(Repr)) && Sh() == old(Sh())
      ensures answers == Answers(old(Abs()), old(Sh()), qs)
      ensures Abs() == After(old(Abs()), old(Sh()), qs)
      ensures forall i :: 0 <= i < |qs| ==> Reads(old(Abs()), old(Sh()), qs, i, answers[i])
    {
      AbsWellShaped();
      AnswersRead(Abs(), Sh(), qs);
      answers := AnswerAll(qs, policy);
    }

    lemma AbsWellShaped()
      requires Valid()
      ensures AllWellShaped(Abs(), Sh())
    {
      hide Off, Scannable, CountSet, Numbered, Total, Bits, Listed, Kept, WellShaped;
      if snap != null {
        snap.SurvivorsWellShaped();
      } else {
        ListedWellShaped(list.buf[..], list.sh, list.count);
      }
    }

    /** The requests of a run one after the other. */
    method AnswerAll(qs: seq<Request>, policy: nat -> (nat, bool)) returns (answers: seq<Answer>)
      requires Valid()
      modifies Repr
      ensures Valid() && fresh(Repr - old(Repr)) && Sh() == old(Sh())
      ensures answers == Answers(old(Abs()), old(Sh()), qs)
      ensures Abs() == After(old(Abs()), old(Sh()), qs)
    {
      answers := [];
      ghost var rs, sh := Abs(), Sh();
      for i := 0 to |qs|
        invariant Valid() && fresh(Repr - old(Repr)) && Sh() == sh
        invariant Abs() == After(rs, sh, qs[..i])
        invariant answers == Answers(rs, sh, qs[..i])
      {
        hide Narrow, Scannable, L.InRange, Kept, Listed, RecSize, Off, CountSet, Bits, Numbered, Total, SlotAddrs;
        RunStep(rs, sh, qs, i);
        match qs[i] {
          case Count(mem, cmp, vl) =>
            var (max, mmapOk) := policy(i);
            var nc := CountStep(mem, cmp, vl, max, mmapOk);
            answers := answers + [Counted(nc)];
          case Get(start, count) =>
            var sends := GetStep(start, count);
            answers := answers + [Sent(Joined(sends))];
        }
      }
      assert qs[..|qs|] == qs;
    }
  }

  /** Counts and GET replies do not show whether a session has materialised: sessions that agree at the start answer
      every run alike, whatever their thresholds, and so whenever (if ever) each of them switches to a list. */
  method MaterialisingIsUnobservable(a: Session, b: Session, qs: seq<Request>,
                                     policyA: nat -> (nat, bool), policyB: nat -> (nat, bool))
    returns (answersA: seq<Answer>, answersB: seq<Answer>)
    requires a.Valid() && b.Valid() && a.Repr !! b.Repr
    requires a.Abs() == b.Abs() && a.Sh() == b.Sh()
    modifies a.Repr, b.Repr
    ensures answersA == answersB
    ensures a.Valid() && b.Valid() && a.Abs() == b.Abs()
  {
    hide Session.Valid, Session.Abs, Session.Sh, Answers, After, Reads;
    answersA := a.Run(qs, policyA);
    answersB := b.Run(qs, policyB);
  }
}
