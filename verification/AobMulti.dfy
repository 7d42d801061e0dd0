/** The region-parallel multi-pattern scan: split, scan each part, merge. */
module AobMulti {
  import opened Bytes
  import opened AobSpec
  import opened AobDispatch
  import opened AobScan

  const THREADS_MAX: nat := 16

  function Clip(x: nat, length: nat): (r: nat)
    ensures r <= length
  {
    if x > length then length else x
  }

  /** Start of worker `w`'s range. */
  function Cut(w: nat, span: nat, length: nat): (r: nat)
    ensures r <= length
  {
    Clip(Off(w, span), length)
  }

  /** Worker count and span: the requested threads clipped to 1..16 and to the length, then re-derived from the span. */
  method Split(threads: nat, length: nat) returns (nw: nat, span: nat)
    ensures 1 <= nw <= 16 && span > 0
    ensures Cut(nw, span, length) == length
    ensures nw <= (if threads < 1 then 1 else threads) && nw <= (if length < 1 then 1 else length)
    ensures length > 0 ==> Cut(nw - 1, span, length) < length
  {
    hide Off;
    nw := threads;
    if nw < 1 { nw := 1; }
    if nw > THREADS_MAX { nw := THREADS_MAX; }
    if nw > length { nw := if length > 0 then length else 1; }
    span := (length + nw - 1) / nw;
    if span == 0 { span := 1; }
    SpanCovers(length, nw, span);
    LastCut(length, span);
    nw := (length + span - 1) / span;
    if nw < 1 { nw := 1; }
    if nw > THREADS_MAX { nw := THREADS_MAX; }
    if length > 0 { LastWorks(length, span, nw); }
  }

  /** With the least worker count that reaches the end, the last worker has something to do. */
  lemma LastWorks(length: nat, span: nat, nw: nat)
    requires span > 0 && length > 0 && nw == (length + span - 1) / span
    ensures nw > 0 && nw <= length && Cut(nw - 1, span, length) < length
  {
    hide Off;
    OffIsProduct(nw - 1, span);
    CeilLeast(length, span, nw);
    DivMod(length + span - 1, span);
    MulDistributes(span, nw, 1);
    if nw > length { MulAtLeast(span, nw - length); MulDistributes(span, nw, length); }
  }

  /** The re-derived worker count reaches the end of the region. */
  lemma LastCut(length: nat, span: nat)
    requires span > 0
    ensures Cut((length + span - 1) / span, span, length) == length
    ensures length == 0 ==> (length + span - 1) / span == 0 && Cut(1, span, length) == length
    ensures length > 0 ==> (length + span - 1) / span > 0
  {
    hide Off;
    CeilTimes(length, span);
    OffIsProduct((length + span - 1) / span, span);
  }

  /** Rounding up twice neither loses coverage nor adds workers. */
  lemma SpanCovers(length: nat, nw: nat, span: nat)
    requires nw >= 1 && span == (if (length + nw - 1) / nw == 0 then 1 else (length + nw - 1) / nw)
    ensures (length + span - 1) / span <= nw
    ensures length <= span * ((length + span - 1) / span)
    ensures length == 0 <==> (length + span - 1) / span == 0
  {
    CeilTimes(length, nw);
    CeilTimes(length, span);
    CeilLeast(length, span, nw);
  }

  /** `m` times the rounded-up quotient covers `n`. */
  lemma CeilTimes(n: nat, m: nat)
    requires m > 0
    ensures n <= m * ((n + m - 1) / m) < n + m
    ensures n == 0 <==> (n + m - 1) / m == 0
  {
    var q := (n + m - 1) / m;
    assert n + m - 1 == m * q + (n + m - 1) % m;
  }

  lemma CeilLeast(n: nat, m: nat, k: nat)
    requires m > 0 && n <= m * k
    ensures (n + m - 1) / m <= k
  {
    var q := (n + m - 1) / m;
    CeilTimes(n, m);
    if q > k {
      MulAtLeast(m, q - k);
      MulDistributes(m, q, k);
    }
  }

  /** What worker `w` has recorded. */
  ghost predicate PartDone(pats: seq<Pat>, a: Area, r: Results, w: nat, span: nat)
    requires forall p :: p in pats ==> GoodPat(p)
  {
    && Sized(pats, r)
    && Cut(w, span, a.length) <= Cut(w + 1, span, a.length)
    && forall i :: 0 <= i < |pats| ==>
         GoodPat(pats[i]) && RangeTracks(pats, a, r, i, Cut(w, span, a.length), Cut(w + 1, span, a.length))
  }

  ghost predicate RangeTracks(pats: seq<Pat>, a: Area, r: Results, i: nat, lo: nat, hi: nat)
    requires Sized(pats, r) && i < |pats| && GoodPat(pats[i]) && lo <= hi
  {
    Tracks(pats, a, r, i, lo, hi)
  }

  lemma CutsAscend(w: nat, span: nat, length: nat)
    ensures Cut(w, span, length) <= Cut(w + 1, span, length) && Cut(0, span, length) == 0
  {
  }

  /** aob_merge for one pattern: walk the workers in address order. */
  method MergeOne(pats: seq<Pat>, a: Area, rs: seq<Results>, span: nat, i: nat, stopUnique: bool) returns (out: nat)
    requires (forall p :: p in pats ==> GoodPat(p)) && i < |pats| && GoodPat(pats[i])
    requires forall w :: 0 <= w < |rs| ==> PartDone(pats, a, rs[w], w, span)
    requires Cut(|rs|, span, a.length) == a.length
    ensures out == Answer(a, pats[i], stopUnique)
  {
    hide Matches, SlotOff, Off, Cut, Tracks;
    var tc, cap := pats[i].target, Cap(pats[i]);
    var total: nat, result, found := 0, 0, false;
    CutsAscend(0, span, a.length);
    NoMatchesAt(a, pats[i]);
    for w := 0 to |rs|
      invariant total == Min(|Matches(a, pats[i], 0, Cut(w, span, a.length))|, cap)
      invariant found <==> tc >= 1 && |Matches(a, pats[i], 0, Cut(w, span, a.length))| >= tc
      invariant found ==> result == a.base + Matches(a, pats[i], 0, Cut(w, span, a.length))[tc - 1]
    {
      assert PartDone(pats, a, rs[w], w, span);
      ghost var lo, hi := Cut(w, span, a.length), Cut(w + 1, span, a.length);
      assert RangeTracks(pats, a, rs[w], i, lo, hi);
      MatchesSplit(a, pats[i], 0, lo, hi);
      RecordedPart(pats, a, rs[w], i, lo, hi);
      var c := rs[w].counts[i];
      if !found && tc >= 1 && total < tc && total + c >= tc {
        var localIdx := tc - total - 1;
        result := rs[w].addrs[SlotOff(pats, i) + localIdx];
        found := true;
      }
      total := total + c;
      if total > cap { total := cap; }
    }
    out := if !found then 0 else if stopUnique && total >= tc + 1 then 0 else result;
  }

  lemma NoMatchesAt(a: Area, p: Pat)
    requires GoodPat(p)
    ensures Matches(a, p, 0, 0) == []
  {
  }

  lemma RecordedPart(pats: seq<Pat>, a: Area, r: Results, i: nat, lo: nat, hi: nat)
    requires Sized(pats, r) && i < |pats| && GoodPat(pats[i]) && lo <= hi && RangeTracks(pats, a, r, i, lo, hi)
    ensures r.counts[i] == Min(|Matches(a, pats[i], lo, hi)|, Cap(pats[i]))
    ensures SlotOff(pats, i) + r.counts[i] <= |r.addrs|
    ensures forall k :: 0 <= k < r.counts[i] ==>
            r.addrs[SlotOff(pats, i) + k] == a.base + Matches(a, pats[i], lo, hi)[k]
  {
    SlotsDisjoint(pats, i, |pats|);
  }

  method MaxLength(pats: seq<Pat>) returns (m: nat)
    ensures m >= 1 && forall p :: p in pats ==> |p.pat| <= m
  {
    m := 1;
    for i := 0 to |pats|
      invariant m >= 1 && forall j :: 0 <= j < i ==> |pats[j].pat| <= m
    {
      if |pats[i].pat| > m { m := |pats[i].pat|; }
    }
  }

  /** proc_scan_aob_multi: for every pattern, memory, thread count and window size, the specified answer. */
  method MultiScan(pats: seq<Pat>, a: Area, threads: nat, window: nat, stopUnique: bool) returns (output: seq<nat>)
    requires forall p :: p in pats ==> GoodPat(p)
    ensures |output| == |pats|
    ensures forall i :: 0 <= i < |pats| ==> GoodPat(pats[i]) && output[i] == Answer(a, pats[i], stopUnique)
    ensures forall i :: 0 <= i < |pats| && AllFixed(pats[i]) && output[i] != 0 ==>
              Slice(a.mem, output[i], |pats[i].pat|) == pats[i].pat
  {
    hide Off, Answer, Tracks, GoodDispatch, SlotOff, Cut, AllFixed;
    forall i | 0 <= i < |pats| { LiteralAnswer(a, pats[i], stopUnique); }
    var maxPlen := MaxLength(pats);
    var chunk := if window < maxPlen then maxPlen else window;
    var d := Build(pats);
    var nw, span := Split(threads, a.length);
    var rs: seq<Results> := [];
    for w := 0 to nw
      invariant |rs| == w && forall k :: 0 <= k < w ==> PartDone(pats, a, rs[k], k, span)
    {
      CutsAscend(w, span, a.length);
      var worker := new Worker(pats, d, a, maxPlen, chunk, Cut(w, span, a.length), Cut(w + 1, span, a.length));
      worker.ScanRange();
      PartComplete(pats, a, worker.R(), w, span);
      rs := rs + [Results(worker.counts[..], worker.done[..], worker.addrs[..])];
    }
    output := [];
    for i := 0 to |pats|
      invariant |output| == i
      invariant forall k :: 0 <= k < i ==> GoodPat(pats[k]) && output[k] == Answer(a, pats[k], stopUnique)
    {
      assert pats[i] in pats;
      var out := MergeOne(pats, a, rs, span, i, stopUnique);
      output := output + [out];
    }
  }

  lemma PartComplete(pats: seq<Pat>, a: Area, r: Results, w: nat, span: nat)
    requires (forall p :: p in pats ==> GoodPat(p)) && Sized(pats, r)
    requires Cut(w, span, a.length) <= Cut(w + 1, span, a.length)
    requires AllTrack(pats, a, r, Cut(w, span, a.length), Cut(w + 1, span, a.length), {})
    ensures PartDone(pats, a, r, w, span)
  {
    hide Tracks, Cut, AllTrack;
    var lo, hi := Cut(w, span, a.length), Cut(w + 1, span, a.length);
    forall i | 0 <= i < |pats|
      ensures GoodPat(pats[i]) && RangeTracks(pats, a, r, i, lo, hi)
    {
      TracksAt(pats, a, r, lo, hi, {}, i);
    }
  }
}
