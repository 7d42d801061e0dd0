/** Streaming an exact scan, sequentially or split across two workers. */
module ParallelScan {
  import opened Bytes
  import opened Wire
  import opened Runs
  import opened Compare
  import opened ScanPass

  const RESULT_CAP: nat := 0x80_0000

  /** Result entries carry 32-bit offsets from the scan base. */
  function ToHits(found: seq<Found>, base: nat): (hs: seq<Hit>)
    ensures |hs| == |found|
  {
    if found == [] then []
    else
      var f := found[|found| - 1];
      ToHits(found[..|found| - 1], base) + [Hit((f.addr - base) % U32, f.val)]
  }

  lemma HitsSnoc(found: seq<Found>, f: Found, base: nat)
    ensures ToHits(found + [f], base) == ToHits(found, base) + [Hit((f.addr - base) % U32, f.val)]
  {
    assert (found + [f])[..|found|] == found;
  }

  lemma {:induction false} HitsAppend(a: seq<Found>, b: seq<Found>, base: nat)
    ensures ToHits(a + b, base) == ToHits(a, base) + ToHits(b, base)
  {
    hide ToHits;
    if b == [] {
      assert a + b == a;
      NoHits(base);
    } else {
      var n := |b| - 1;
      HitsAppend(a, b[..n], base);
      assert a + b == (a + b[..n]) + [b[n]];
      HitsSnoc(a + b[..n], b[n], base);
      HitsSnoc(b[..n], b[n], base);
      assert b == b[..n] + [b[n]];
    }
  }

  /** Offsets of a scan shorter than 4 GiB are exact: the client's base + offset is the match address. */
  lemma {:induction false} HitsAreExact(found: seq<Found>, base: nat, len: nat, vl: nat)
    requires len <= U32 && vl > 0
    requires forall f :: f in found ==> base <= f.addr && f.addr + vl <= base + len && |f.val| == vl
    ensures forall h :: h in ToHits(found, base) ==> GoodHit(h, vl)
    ensures forall i :: 0 <= i < |found| ==>
              base + ToHits(found, base)[i].off == found[i].addr && ToHits(found, base)[i].val == found[i].val
  {
    if found != [] {
      var n := |found| - 1;
      HitsAreExact(found[..n], base, len, vl);
      assert found[n] in found;
      ModUnique(found[n].addr - base, U32, 0, found[n].addr - base);
    }
  }

  function Thresh(vl: nat): int
  {
    0x3FFE8 - vl
  }

  /** The stream a scan must produce. */
  function Expected(mem: Memory, base: nat, len: nat, val: seq<byte>): seq<seq<byte>>
    requires |val| > 0
  {
    Streamed(ToHits(Flat(mem, base, |val|, Equals(val), len / |val|), base), Thresh(|val|))
  }

  /** The client decodes exactly the matching elements, in ascending order. */
  lemma ExpectedDecodes(mem: Memory, base: nat, len: nat, val: seq<byte>)
    requires 0 < |val| <= 8 && len <= U32
    ensures var flat := Flat(mem, base, |val|, Equals(val), len / |val|);
            var hits := ToHits(flat, base);
            && Decode(Joined(Expected(mem, base, len, val)) + End(), |val|) == (true, hits)
            && Fits(Expected(mem, base, len, val), FRAME_CAP)
            && forall i :: 0 <= i < |flat| ==> base + hits[i].off == flat[i].addr && hits[i].val == flat[i].val
  {
    hide Flat, ToHits, Streamed, Decode, End, Off, GoodHit;
    var flat := Flat(mem, base, |val|, Equals(val), len / |val|);
    QuotientOff(len, |val|);
    FlatIn(mem, base, |val|, Equals(val), len / |val|, len);
    HitsAreExact(flat, base, len, |val|);
    DecodeStreamed(ToHits(flat, base), |val|, Thresh(|val|));
  }

  /** Push matches into the open run, sending it whenever it passes the threshold. */
  method Push(found: seq<Found>, base: nat, thresh: int, sends0: seq<seq<byte>>, run0: seq<byte>, ghost hits0: seq<Hit>)
    returns (sends: seq<seq<byte>>, run: seq<byte>)
    requires (sends0, run0) == Collected(hits0, thresh)
    ensures (sends, run) == Collected(hits0 + ToHits(found, base), thresh)
  {
    hide Collected, Entry, Frame, ToHits;
    sends, run := sends0, run0;
    NoHits(base);
    assert hits0 + [] == hits0;
    for k := 0 to |found|
      invariant (sends, run) == Collected(hits0 + ToHits(found[..k], base), thresh)
    {
      var h := Hit((found[k].addr - base) % U32, found[k].val);
      assert found[..k + 1] == found[..k] + [found[k]];
      HitsSnoc(found[..k], found[k], base);
      assert hits0 + (ToHits(found[..k], base) + [h]) == (hits0 + ToHits(found[..k], base)) + [h];
      CollectedSnoc(hits0 + ToHits(found[..k], base), h, thresh);
      if |run| > thresh {
        sends, run := sends + [Frame(run)], [];
      }
      assert [] + Entry(h) == Entry(h);
      run := run + Entry(h);
    }
    assert found[..|found|] == found;
  }

  lemma NoHits(base: nat)
    ensures ToHits([], base) == []
  {
  }

  lemma NothingCollected(thresh: int)
    ensures Collected([], thresh) == ([], [])
  {
  }

  /** turboscan_scan_pass without a session: one run buffer carried across chunks. */
  method StreamPass(mem: Memory, base: nat, len: nat, t: IntType, val: seq<byte>, chunk: nat, simdOff: array<nat>)
    returns (sends: seq<seq<byte>>)
    requires IsValue(t, val) && chunk % Size(t) == 0 && 0 < chunk <= U32 && chunk / Size(t) <= simdOff.Length
    modifies simdOff
    ensures sends == Expected(mem, base, len, val)
  {
    hide Off, Flat, Slice, Collected, ToHits, Frame;
    var vl, thresh := |val|, Thresh(|val|);
    var run := [];
    sends := [];
    var pos: nat := 0;
    ghost var done: nat := 0;
    NothingFound(mem, base, vl, val);
    NoHits(base);
    NothingCollected(thresh);
    while pos < len
      invariant pos <= len && (pos < len ==> pos == Off(done, vl)) && (pos == len ==> done == len / vl)
      invariant (sends, run) == Collected(ToHits(Flat(mem, base, vl, Equals(val), done), base), thresh)
      decreases len - pos
    {
      var toRead := if len - pos > chunk then chunk else len - pos;
      QuotientMono(toRead, chunk, vl);
      var more := ChunkMatches(mem, base + pos, toRead, t, val, simdOff, chunk / vl);
      FlatSplit(mem, base, vl, Equals(val), done, toRead / vl);
      ChunkCount(len, vl, done, toRead, chunk);
      HitsAppend(Flat(mem, base, vl, Equals(val), done), more, base);
      sends, run := Push(more, base, thresh, sends, run, ToHits(Flat(mem, base, vl, Equals(val), done), base));
      pos, done := pos + toRead, done + toRead / vl;
    }
    if len == 0 { ZeroQuotient(vl); }
    if run != [] { sends := sends + [Frame(run)]; }
  }

  lemma ZeroQuotient(vl: nat)
    requires vl > 0
    ensures 0 / vl == 0
  {
  }

  /** Length of each worker's part: half the range, rounded up to whole values. */
  function Span(len: nat, vl: nat): nat
    requires vl > 0
  {
    var half := (len + 1) / 2;
    Off((half + vl - 1) / vl, vl)
  }

  lemma SpanIsHalf(len: nat, vl: nat)
    requires vl > 0 && len >= 2 * vl
    ensures Span(len, vl) >= vl && 2 * Span(len, vl) >= len
    ensures Span(len, vl) / vl == ((len + 1) / 2 + vl - 1) / vl
  {
    hide Off;
    var half := (len + 1) / 2;
    var q := (half + vl - 1) / vl;
    QuotientOff(half + vl - 1, vl);
    QuotientIs(Off(q, vl), vl, q);
  }

  lemma SplitCount(len: nat, vl: nat, span: nat, q: nat)
    requires vl > 0 && span == Off(q, vl) && span <= len
    ensures len / vl == q + (len - span) / vl && span / vl == q
  {
    hide Off;
    QuotientOff(len - span, vl);
    OffSum(q, (len - span) / vl, vl);
    QuotientIs(len, vl, q + (len - span) / vl);
    QuotientIs(span, vl, q);
  }

  /** turboscan_parallel_stream: scan both halves, then stream; or decline before sending anything. */
  method ParallelStream(mem: Memory, base: nat, len: nat, t: IntType, val: seq<byte>, chunk: nat,
                        allocOk: bool, blockOk: bool) returns (handled: bool, sends: seq<seq<byte>>)
    requires IsValue(t, val) && chunk % Size(t) == 0 && 0 < chunk <= U32
    ensures handled <==>
              && len >= 2 * |val| && allocOk && blockOk && Span(len, |val|) < len
              && WorkersFit(mem, base, len, val, Span(len, |val|))
    ensures handled ==> sends == Expected(mem, base, len, val)
    ensures !handled ==> sends == []
  {
    hide Off, Flat, Slice, Collected, ToHits, Frame, Span;
    handled, sends := false, [];
    var vl := |val|;
    if len < vl * 2 { return; }
    var span := Span(len, vl);
    SpanIsHalf(len, vl);
    var nw := (len + span - 1) / span;
    TwoWorkers(len, vl);
    if nw <= 1 || nw > 2 { return; }
    if !allocOk { return; }
    var cap := RESULT_CAP / (8 + vl);
    var off0, off1 := new nat[chunk / vl](i => 0), new nat[chunk / vl](i => 0);
    var ok0, found0 := ExactPass(mem, base, span, t, val, chunk, off0, cap);
    var ok1, found1 := ExactPass(mem, base + span, len - span, t, val, chunk, off1, cap);
    if !ok0 || !ok1 || !blockOk { return; }
    var thresh := Thresh(vl);
    NothingCollected(thresh);
    NoHits(base);
    var run;
    sends, run := Push(found0, base, thresh, [], [], []);
    assert [] + ToHits(found0, base) == ToHits(found0, base);
    sends, run := Push(found1, base, thresh, sends, run, ToHits(found0, base));
    HitsAppend(found0, found1, base);
    SpanSplit(mem, base, len, val, span);
    if run != [] { sends := sends + [Frame(run)]; }
    handled := true;
  }

  /** A range of at least two values always gives exactly two non-empty parts. */
  lemma TwoWorkers(len: nat, vl: nat)
    requires vl > 0 && len >= 2 * vl
    ensures 0 < Span(len, vl) < len && (len + Span(len, vl) - 1) / Span(len, vl) == 2
  {
    hide Off;
    SpanIsHalf(len, vl);
    var half := (len + 1) / 2;
    QuotientOff(half + vl - 1, vl);
    var span := Span(len, vl);
    assert span <= half + vl - 1 < len;
    ModUnique(len + span - 1, span, 2, len - 1 - span);
  }

  /** Do both workers' matches fit their result buffers? */
  predicate WorkersFit(mem: Memory, base: nat, len: nat, val: seq<byte>, span: nat)
    requires |val| > 0 && span <= len
  {
    && |Flat(mem, base, |val|, Equals(val), span / |val|)| <= 0x80_0000 / (8 + |val|)
    && |Flat(mem, base + span, |val|, Equals(val), (len - span) / |val|)| <= 0x80_0000 / (8 + |val|)
  }

  lemma SpanSplit(mem: Memory, base: nat, len: nat, val: seq<byte>, span: nat)
    requires |val| > 0 && len >= 2 * |val| && span == Span(len, |val|) && span < len
    ensures Flat(mem, base, |val|, Equals(val), len / |val|)
         == Flat(mem, base, |val|, Equals(val), span / |val|)
           + Flat(mem, base + span, |val|, Equals(val), (len - span) / |val|)
  {
    hide Off, Flat;
    var q := ((len + 1) / 2 + |val| - 1) / |val|;
    SplitCount(len, |val|, span, q);
    FlatSplit(mem, base, |val|, Equals(val), q, (len - span) / |val|);
  }
}
