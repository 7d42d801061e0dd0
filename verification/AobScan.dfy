/** One worker of the multi-pattern scan: every pattern over its own range of start positions. */
module AobScan {
  import opened Bytes
  import opened AobSpec
  import opened AobDispatch

  /** Matches recorded per pattern: one more than asked for, to decide uniqueness. */
  function Cap(p: Pat): (c: nat)
    ensures c >= 1
  {
    p.target + 1
  }

  /** slot_off[]: where a pattern's recorded addresses start. */
  function SlotOff(pats: seq<Pat>, i: nat): nat
    requires i <= |pats|
  {
    if i == 0 then 0 else SlotOff(pats, i - 1) + Cap(pats[i - 1])
  }

  lemma {:induction false} SlotsDisjoint(pats: seq<Pat>, i: nat, j: nat)
    requires i <= j <= |pats|
    ensures SlotOff(pats, i) <= SlotOff(pats, j)
    ensures i < j ==> SlotOff(pats, i) + Cap(pats[i]) <= SlotOff(pats, j)
  {
    if i < j { SlotsDisjoint(pats, i, j - 1); }
  }

  /** The private result arrays of a worker. */
  datatype Results = Results(counts: seq<nat>, done: seq<bool>, addrs: seq<nat>)

  predicate Sized(pats: seq<Pat>, r: Results)
  {
    |r.counts| == |r.done| == |pats| && |r.addrs| == SlotOff(pats, |pats|)
  }

  function Min(a: nat, b: nat): nat { if a < b then a else b }

  /** After all start positions in [start, g), pattern `i` has its earliest matches recorded, up to its cap. */
  ghost predicate Tracks(pats: seq<Pat>, a: Area, r: Results, i: nat, start: nat, g: nat)
    requires Sized(pats, r) && i < |pats| && GoodPat(pats[i]) && start <= g
  {
    var m := Matches(a, pats[i], start, g);
    SlotsDisjoint(pats, i, |pats|);
    && r.counts[i] == Min(|m|, Cap(pats[i]))
    && (r.done[i] <==> r.counts[i] == Cap(pats[i]))
    && forall k :: 0 <= k < r.counts[i] ==> r.addrs[SlotOff(pats, i) + k] == a.base + m[k]
  }

  /** aob_try on the result arrays. */
  function Recorded(pats: seq<Pat>, r: Results, i: nat, addr: nat): (r': Results)
    requires Sized(pats, r) && i < |pats| && r.counts[i] < Cap(pats[i])
    ensures Sized(pats, r')
  {
    SlotsDisjoint(pats, i, |pats|);
    var c := r.counts[i];
    Results(r.counts[i := c + 1], r.done[i := c + 1 == Cap(pats[i])], r.addrs[SlotOff(pats, i) + c := addr])
  }

  lemma RecordSelf(pats: seq<Pat>, a: Area, r: Results, i: nat, start: nat, g: nat)
    requires Sized(pats, r) && i < |pats| && GoodPat(pats[i]) && start <= g
    requires Tracks(pats, a, r, i, start, g) && !r.done[i] && MatchAt(a, g, pats[i])
    ensures r.counts[i] < Cap(pats[i])
    ensures Tracks(pats, a, Recorded(pats, r, i, a.base + g), i, start, g + 1)
  {
    hide MatchAt;
    SlotsDisjoint(pats, i, |pats|);
    var m, m' := Matches(a, pats[i], start, g), Matches(a, pats[i], start, g + 1);
    assert m' == m + [g];
  }

  lemma RecordOther(pats: seq<Pat>, a: Area, r: Results, i: nat, j: nat, addr: nat, start: nat, x: nat)
    requires Sized(pats, r) && i < |pats| && j < |pats| && i != j && GoodPat(pats[j]) && start <= x
    requires r.counts[i] < Cap(pats[i]) && Tracks(pats, a, r, j, start, x)
    ensures Tracks(pats, a, Recorded(pats, r, i, addr), j, start, x)
  {
    hide Matches, SlotOff;
    SlotsDisjoint(pats, i, |pats|);
    SlotsDisjoint(pats, j, |pats|);
    if i < j { SlotsDisjoint(pats, i, j); } else { SlotsDisjoint(pats, j, i); }
  }

  /** A position without a match, or a pattern at its cap, changes nothing. */
  lemma SkipTracks(pats: seq<Pat>, a: Area, r: Results, i: nat, start: nat, g: nat)
    requires Sized(pats, r) && i < |pats| && GoodPat(pats[i]) && start <= g
    requires Tracks(pats, a, r, i, start, g) && (r.done[i] || !MatchAt(a, g, pats[i]))
    ensures Tracks(pats, a, r, i, start, g + 1)
  {
    hide MatchAt;
    var m, m' := Matches(a, pats[i], start, g), Matches(a, pats[i], start, g + 1);
    assert m' == m || m' == m + [g];
  }

  lemma {:induction false} DoneStays(pats: seq<Pat>, a: Area, r: Results, i: nat, start: nat, g: nat, h: nat)
    requires Sized(pats, r) && i < |pats| && GoodPat(pats[i]) && start <= g <= h
    requires Tracks(pats, a, r, i, start, g) && r.done[i]
    ensures Tracks(pats, a, r, i, start, h)
    decreases h - g
  {
    if g < h {
      SkipTracks(pats, a, r, i, start, g);
      DoneStays(pats, a, r, i, start, g + 1, h);
    }
  }

  function Active(done: seq<bool>): (n: nat)
    ensures n <= |done|
  {
    if done == [] then 0 else Active(done[..|done| - 1]) + if done[|done| - 1] then 0 else 1
  }

  lemma {:induction false} ActiveDrop(done: seq<bool>, i: nat)
    requires i < |done| && !done[i]
    ensures Active(done[i := true]) == Active(done) - 1
  {
    var n := |done| - 1;
    if i == n {
      assert done[i := true][..n] == done[..n];
    } else {
      ActiveDrop(done[..n], i);
      assert done[i := true][..n] == done[..n][i := true];
    }
  }

  lemma {:induction false} NoneActive(done: seq<bool>)
    ensures Active(done) == 0 <==> forall i :: 0 <= i < |done| ==> done[i]
  {
    if done != [] {
      NoneActive(done[..|done| - 1]);
      assert forall i :: 0 <= i < |done| - 1 ==> done[..|done| - 1][i] == done[i];
    }
  }

  /** Dispatch is sound: a pattern that is neither in the byte's bucket nor a wildcard cannot match here. */
  lemma SkippedCannotMatch(pats: seq<Pat>, a: Area, i: nat, g: nat, b: nat)
    requires i < |pats| && (forall p :: p in pats ==> GoodPat(p)) && b < 256
    requires g < a.length && a.mem(a.base + g) == b
    requires i !in Bucket(pats, b, |pats|) && i !in Bucket(pats, -1, |pats|)
    ensures !MatchAt(a, g, pats[i])
  {
    BucketExact(pats, b, |pats|);
    BucketExact(pats, -1, |pats|);
    assert pats[i] in pats;
  }

  /** State of all patterns while a position is being processed: those in `at` are past `g`. */
  ghost predicate AllTrack(pats: seq<Pat>, a: Area, r: Results, start: nat, g: nat, past: set<nat>)
    requires Sized(pats, r) && (forall p :: p in pats ==> GoodPat(p)) && start <= g
  {
    forall i :: 0 <= i < |pats| ==>
      GoodPat(pats[i]) && Tracks(pats, a, r, i, start, if i in past then g + 1 else g)
  }

  class Worker {
    const pats: seq<Pat>
    const d: Dispatch
    const a: Area
    const maxPlen: nat
    const chunk: nat
    const start: nat
    const end: nat
    const counts: array<nat>
    const done: array<bool>
    const addrs: array<nat>

    constructor (pats: seq<Pat>, d: Dispatch, a: Area, maxPlen: nat, chunk: nat, start: nat, end: nat)
      ensures this.pats == pats && this.d == d && this.a == a && this.maxPlen == maxPlen && this.chunk == chunk
      ensures this.start == start && this.end == end
      ensures fresh(counts) && fresh(done) && fresh(addrs) && Sized(pats, R())
      ensures (counts as object) != done && counts != addrs && (done as object) != addrs
    {
      this.pats, this.d, this.a, this.maxPlen, this.chunk, this.start, this.end :=
        pats, d, a, maxPlen, chunk, start, end;
      counts := new nat[|pats|](i => 0);
      done := new bool[|pats|](i => false);
      addrs := new nat[SlotOff(pats, |pats|)](i => 0);
    }

    ghost function R(): Results
      reads counts, done, addrs
    {
      Results(counts[..], done[..], addrs[..])
    }

    ghost predicate Configured()
      reads counts, done, addrs
    {
      && (forall p :: p in pats ==> GoodPat(p) && |p.pat| <= maxPlen)
      && GoodDispatch(pats, d) && Sized(pats, R())
      && chunk > 0 && maxPlen > 0 && start <= end <= a.length
      && (counts as object) != done && counts != addrs && (done as object) != addrs
    }

    /** aob_try: test pattern `i` at buffer position `jj`; 1 if that completed the pattern. */
    method Try(i: nat, jj: nat, win: seq<byte>, off: nat) returns (completed: nat)
      requires Configured() && i < |pats| && start <= off
      requires win == Slice(a.mem, a.base + off, |win|) && jj < |win| && off + |win| <= a.length
      requires forall p :: p in pats && off + jj + |p.pat| <= a.length ==> jj + |p.pat| <= |win|
      requires Tracks(pats, a, R(), i, start, off + jj)
      modifies counts, done, addrs
      ensures Sized(pats, R())
      ensures var hit := !old(R()).done[i] && MatchAt(a, off + jj, pats[i]);
              && (hit ==> old(R()).counts[i] < Cap(pats[i]))
              && R() == (if hit then Recorded(pats, old(R()), i, a.base + (off + jj)) else old(R()))
              && completed == (if hit && R().done[i] then 1 else 0)
    {
      hide MatchAt, MatchIn, Matches, SlotOff;
      completed := 0;
      if done[i] { return; }
      var p := pats[i];
      assert p in pats;
      if off + jj + |p.pat| > a.length { OutOfRegion(a, off + jj, p); return; }
      if jj + |p.pat| > |win| { return; }
      BufferedMatch(a, win, off, jj, p);
      var ok := MatchTest(win, jj, p);
      if !ok { return; }
      var c := counts[i];
      SlotsDisjoint(pats, i, |pats|);
      ghost var r0 := R();
      if c < Cap(p) {
        addrs[SlotOff(pats, i) + c] := a.base + (off + jj);
        counts[i] := c + 1;
        done[i] := c + 1 == Cap(p);
        assert R() == Recorded(pats, r0, i, a.base + (off + jj));
        if c + 1 == Cap(p) { completed := 1; }
      }
    }

    /** Try each pattern of one dispatch list. */
    method TryAll(list: seq<nat>, jj: nat, win: seq<byte>, off: nat, active0: nat, ghost past: set<nat>)
      returns (active: nat)
      requires Configured() && start <= off
      requires win == Slice(a.mem, a.base + off, |win|) && jj < |win| && off + |win| <= a.length
      requires forall p :: p in pats && off + jj + |p.pat| <= a.length ==> jj + |p.pat| <= |win|
      requires Ascending(list) && forall i :: i in list ==> i < |pats| && i !in past
      requires AllTrack(pats, a, R(), start, off + jj, past) && active0 == Active(done[..])
      modifies counts, done, addrs
      ensures Configured()
      ensures AllTrack(pats, a, R(), start, off + jj, past + Elems(list)) && active == Active(done[..])
    {
      hide MatchAt, Matches, SlotOff, Active, Tracks, GoodDispatch, AllTrack;
      active := active0;
      assert past + Elems(list[..0]) == past;
      for t := 0 to |list|
        invariant Configured() && active == Active(done[..])
        invariant AllTrack(pats, a, R(), start, off + jj, past + Elems(list[..t]))
      {
        var i := list[t];
        ghost var r0, now := R(), past + Elems(list[..t]);
        assert i in list && i !in list[..t];
        TracksAt(pats, a, r0, start, off + jj, now, i);
        var completed := Try(i, jj, win, off);
        TryStep(pats, a, r0, R(), start, off + jj, now, i);
        active := active - completed;
        ElemsStep(list, t);
        assert past + Elems(list[..t + 1]) == now + {i};
      }
      assert list[..|list|] == list;
    }

    /** Dispatch one start position on its byte. */
    method Position(jj: nat, win: seq<byte>, off: nat, active0: nat) returns (active: nat)
      requires Configured() && start <= off
      requires win == Slice(a.mem, a.base + off, |win|) && jj < |win| && off + |win| <= a.length
      requires forall p :: p in pats && off + jj + |p.pat| <= a.length ==> jj + |p.pat| <= |win|
      requires AllTrack(pats, a, R(), start, off + jj, {}) && active0 == Active(done[..])
      modifies counts, done, addrs
      ensures Configured()
      ensures AllTrack(pats, a, R(), start, off + jj + 1, {}) && active == Active(done[..])
    {
      hide MatchAt, Matches, SlotOff, Active, Tracks, AllTrack, Bucket, FirstFixed, Ascending;
      var b := win[jj];
      assert BucketStored(pats, d, b);
      var bucket := d.bidx[d.boff[b]..d.boff[b + 1]];
      BucketExact(pats, b, |pats|);
      BucketExact(pats, -1, |pats|);
      active := TryAll(bucket, jj, win, off, active0, {});
      assert {} + Elems(bucket) == Elems(bucket);
      active := TryAll(d.widx, jj, win, off, active, Elems(bucket));
      PositionDone(pats, a, R(), start, off + jj, b);
    }

    /** aob_scan_range. */
    method ScanRange()
      requires Configured()
      modifies counts, done, addrs
      ensures Configured()
      ensures AllTrack(pats, a, R(), start, end, {})
    {
      hide MatchAt, Matches, SlotOff, Active, Tracks, AllTrack, GoodDispatch;
      for i := 0 to |pats|
        invariant Configured()
        invariant forall j :: 0 <= j < i ==> counts[j] == 0 && !done[j]
      {
        counts[i] := 0;
        done[i] := false;
      }
      var active := |pats|;
      NoMatchesYet(pats, a, R(), start);
      var off := start;
      while off < end && active > 0
        invariant Configured() && start <= off <= end && active == Active(done[..])
        invariant AllTrack(pats, a, R(), start, off, {})
        decreases end - off
      {
        var own := if end - off < chunk then end - off else chunk;
        var avail := a.length - off;
        var readLen := own + maxPlen - 1;
        if readLen > avail { readLen := avail; }
        assert readLen <= chunk + maxPlen;
        var win := Slice(a.mem, a.base + off, readLen);
        var jj := 0;
        while jj < own
          invariant 0 <= jj <= own && Configured() && active == Active(done[..])
          invariant AllTrack(pats, a, R(), start, off + jj, {})
        {
          active := Position(jj, win, off, active);
          jj := jj + 1;
          if active == 0 { break; }
        }
        if jj < own { AllDoneStay(pats, a, R(), start, off + jj, off + own); }
        off := off + own;
      }
      if off < end { AllDoneStay(pats, a, R(), start, off, end); }
    }
  }

  function Elems(s: seq<nat>): set<nat>
  {
    set x | x in s
  }

  lemma ElemsStep(s: seq<nat>, t: nat)
    requires t < |s|
    ensures Elems(s[..t + 1]) == Elems(s[..t]) + {s[t]}
  {
  }

  lemma OutOfRegion(a: Area, g: nat, p: Pat)
    requires GoodPat(p) && g + |p.pat| > a.length
    ensures !MatchAt(a, g, p)
  {
  }

  lemma TracksAt(pats: seq<Pat>, a: Area, r: Results, start: nat, g: nat, past: set<nat>, i: nat)
    requires Sized(pats, r) && (forall p :: p in pats ==> GoodPat(p)) && start <= g && i < |pats|
    requires AllTrack(pats, a, r, start, g, past)
    ensures GoodPat(pats[i]) && Tracks(pats, a, r, i, start, if i in past then g + 1 else g)
  {
  }

  /** One try moves its pattern past the position and leaves the others where they were. */
  lemma TryStep(pats: seq<Pat>, a: Area, r: Results, r': Results, start: nat, g: nat, past: set<nat>, i: nat)
    requires Sized(pats, r) && Sized(pats, r') && (forall p :: p in pats ==> GoodPat(p)) && start <= g
    requires i < |pats| && GoodPat(pats[i]) && i !in past && AllTrack(pats, a, r, start, g, past)
    requires var hit := !r.done[i] && MatchAt(a, g, pats[i]);
             && (hit ==> r.counts[i] < Cap(pats[i]))
             && r' == (if hit then Recorded(pats, r, i, a.base + g) else r)
    ensures AllTrack(pats, a, r', start, g, past + {i})
    ensures Active(r'.done) == Active(r.done) - if !r.done[i] && MatchAt(a, g, pats[i]) && r'.done[i] then 1 else 0
  {
    hide MatchAt, Matches, Tracks, SlotOff;
    var hit := !r.done[i] && MatchAt(a, g, pats[i]);
    forall j | 0 <= j < |pats|
      ensures GoodPat(pats[j]) && Tracks(pats, a, r', j, start, if j in past + {i} then g + 1 else g)
    {
      assert pats[j] in pats;
      if j == i {
        if hit { RecordSelf(pats, a, r, i, start, g); } else { SkipTracks(pats, a, r, i, start, g); }
      } else if hit {
        RecordOther(pats, a, r, i, j, a.base + g, start, if j in past then g + 1 else g);
      }
    }
    if hit {
      if r'.done[i] {
        ActiveDrop(r.done, i);
      } else {
        assert r'.done == r.done;
      }
    }
  }

  /** Patterns outside both lists had no match at the position. */
  lemma PositionDone(pats: seq<Pat>, a: Area, r: Results, start: nat, g: nat, b: nat)
    requires Sized(pats, r) && (forall p :: p in pats ==> GoodPat(p)) && start <= g < a.length && b < 256
    requires a.mem(a.base + g) == b
    requires AllTrack(pats, a, r, start, g, Elems(Bucket(pats, b, |pats|)) + Elems(Bucket(pats, -1, |pats|)))
    ensures AllTrack(pats, a, r, start, g + 1, {})
  {
    hide MatchAt, Matches, Tracks, SlotOff, Bucket;
    forall i | 0 <= i < |pats|
      ensures GoodPat(pats[i]) && Tracks(pats, a, r, i, start, g + 1)
    {
      assert pats[i] in pats;
      if i !in Bucket(pats, b, |pats|) && i !in Bucket(pats, -1, |pats|) {
        SkippedCannotMatch(pats, a, i, g, b);
        SkipTracks(pats, a, r, i, start, g);
      }
    }
  }

  lemma NoMatchesYet(pats: seq<Pat>, a: Area, r: Results, start: nat)
    requires Sized(pats, r) && (forall p :: p in pats ==> GoodPat(p))
    requires forall j :: 0 <= j < |pats| ==> r.counts[j] == 0 && !r.done[j]
    ensures AllTrack(pats, a, r, start, start, {}) && Active(r.done) == |pats|
  {
    forall i | 0 <= i < |pats|
      ensures GoodPat(pats[i]) && Tracks(pats, a, r, i, start, start)
    {
      assert pats[i] in pats;
    }
    AllActive(r.done);
  }

  lemma {:induction false} AllActive(done: seq<bool>)
    requires forall i :: 0 <= i < |done| ==> !done[i]
    ensures Active(done) == |done|
  {
    if done != [] { AllActive(done[..|done| - 1]); }
  }

  lemma AllDoneStay(pats: seq<Pat>, a: Area, r: Results, start: nat, g: nat, h: nat)
    requires Sized(pats, r) && (forall p :: p in pats ==> GoodPat(p)) && start <= g <= h
    requires AllTrack(pats, a, r, start, g, {}) && Active(r.done) == 0
    ensures AllTrack(pats, a, r, start, h, {})
  {
    hide Tracks;
    NoneActive(r.done);
    forall i | 0 <= i < |pats|
      ensures GoodPat(pats[i]) && Tracks(pats, a, r, i, start, h)
    {
      assert pats[i] in pats;
      DoneStays(pats, a, r, i, start, g, h);
    }
  }
}
