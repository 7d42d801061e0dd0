/** Client-driven rescan: candidates arrive in chunks, matches leave as result runs. */
module StreamRescan {
  import opened Bytes
  import opened ValueStore
  import opened Wire
  import opened Runs
  import opened Windows
  import S = Survivors

  /** Bytes per uploaded candidate: its offset, and its previous value when the comparison needs one. */
  function EntrySize(vl: nat, withPrev: bool): (n: nat)
    ensures n >= 4
  {
    if withPrev then 4 + vl else 4
  }

  function OffsetOf(e: seq<byte>): (o: nat)
    requires |e| >= 4
    ensures o < U32
  {
    Pow256Values();
    LeVal(e[..4])
  }

  /** The matches among the first `k` candidates, each judged by its own bytes. */
  function Matches(chunk: seq<byte>, vl: nat, withPrev: bool, base: nat, mem: Memory, cmp: S.Comparator,
                   k: nat): (hs: seq<Hit>)
    requires Off(k, EntrySize(vl, withPrev)) <= |chunk|
    ensures forall h :: h in hs ==> GoodHit(h, vl)
  {
    if k == 0 then []
    else
      OffNext(k - 1, EntrySize(vl, withPrev));
      var e := Slot(chunk, EntrySize(vl, withPrev), k - 1);
      var v := Slice(mem, base + OffsetOf(e), vl);
      var rest := Matches(chunk, vl, withPrev, base, mem, cmp, k - 1);
      if cmp(v, e[4..]) then rest + [Hit(OffsetOf(e), v)] else rest
  }

  // ----- what the client uploaded -----

  /** A candidate as the client knows it: its offset, and its previous value when the comparison needs one. */
  datatype Candidate = Candidate(off: nat, prev: seq<byte>)

  predicate Sendable(c: Candidate, vl: nat, withPrev: bool)
  {
    c.off < 0x1_0000_0000 && |c.prev| == if withPrev then vl else 0
  }

  /** The chunk a client sends for these candidates. */
  function Upload(cs: seq<Candidate>): seq<byte>
  {
    if cs == [] then []
    else Upload(cs[..|cs| - 1]) + (LeBytes(cs[|cs| - 1].off, 4) + cs[|cs| - 1].prev)
  }

  /** The candidates whose bytes satisfy the comparison, with the bytes found. */
  function Satisfied(cs: seq<Candidate>, vl: nat, base: nat, mem: Memory, cmp: S.Comparator): seq<Hit>
  {
    if cs == [] then []
    else
      var c := cs[|cs| - 1];
      var v := Slice(mem, base + c.off, vl);
      Satisfied(cs[..|cs| - 1], vl, base, mem, cmp) + if cmp(v, c.prev) then [Hit(c.off, v)] else []
  }

  lemma {:induction false} UploadLength(cs: seq<Candidate>, vl: nat, withPrev: bool)
    requires forall c :: c in cs ==> Sendable(c, vl, withPrev)
    ensures |Upload(cs)| == Off(|cs|, EntrySize(vl, withPrev))
  {
    hide LeBytes;
    if cs == [] {
      OffZero(EntrySize(vl, withPrev));
    } else {
      assert cs[|cs| - 1] in cs;
      UploadLength(cs[..|cs| - 1], vl, withPrev);
      OffNext(|cs| - 1, EntrySize(vl, withPrev));
    }
  }

  /** What follows the first `k` candidates does not change their matches. */
  lemma {:induction false} MatchesPrefix(a: seq<byte>, b: seq<byte>, vl: nat, withPrev: bool, base: nat, mem: Memory,
                                         cmp: S.Comparator, k: nat)
    requires Off(k, EntrySize(vl, withPrev)) <= |a|
    ensures Matches(a + b, vl, withPrev, base, mem, cmp, k) == Matches(a, vl, withPrev, base, mem, cmp, k)
  {
    hide Off, OffsetOf, EntrySize;
    if k > 0 {
      var es := EntrySize(vl, withPrev);
      OffNext(k - 1, es);
      MatchesPrefix(a, b, vl, withPrev, base, mem, cmp, k - 1);
      assert (a + b)[Off(k - 1, es)..Off(k - 1, es) + es] == a[Off(k - 1, es)..Off(k - 1, es) + es];
    }
  }

  lemma ReadBack(c: Candidate, vl: nat, withPrev: bool)
    requires Sendable(c, vl, withPrev)
    ensures var e := LeBytes(c.off, 4) + c.prev;
            |e| == EntrySize(vl, withPrev) && OffsetOf(e) == c.off && e[4..] == c.prev
  {
    hide LeBytes, LeVal;
    Le32RoundTrip(c.off);
    assert (LeBytes(c.off, 4) + c.prev)[..4] == LeBytes(c.off, 4);
  }

  /** The matches found in an uploaded chunk are the uploaded candidates that satisfy the
      comparison, no more, no less. */
  lemma {:induction false} UploadedMatches(cs: seq<Candidate>, vl: nat, withPrev: bool, base: nat, mem: Memory,
                                           cmp: S.Comparator)
    requires forall c :: c in cs ==> Sendable(c, vl, withPrev)
    ensures |Upload(cs)| == Off(|cs|, EntrySize(vl, withPrev))
    ensures Matches(Upload(cs), vl, withPrev, base, mem, cmp, |cs|) == Satisfied(cs, vl, base, mem, cmp)
  {
    hide Off, OffsetOf, EntrySize, LeBytes, Slice, Sendable;
    UploadLength(cs, vl, withPrev);
    if cs != [] {
      var n, es := |cs| - 1, EntrySize(vl, withPrev);
      var p, c := cs[..n], cs[n];
      assert c in cs;
      UploadedMatches(p, vl, withPrev, base, mem, cmp);
      var e := LeBytes(c.off, 4) + c.prev;
      ReadBack(c, vl, withPrev);
      MatchesPrefix(Upload(p), e, vl, withPrev, base, mem, cmp, n);
      OffNext(n, es);
      assert Slot(Upload(cs), es, n) == e;
    }
  }

  /** The chunk holds as many candidates as were uploaded. */
  lemma UploadedCount(cs: seq<Candidate>, vl: nat, withPrev: bool, n: nat)
    requires forall c :: c in cs ==> Sendable(c, vl, withPrev)
    requires Off(n, EntrySize(vl, withPrev)) <= |Upload(cs)| < Off(n + 1, EntrySize(vl, withPrev))
    ensures n == |cs|
  {
    hide Off, EntrySize;
    UploadLength(cs, vl, withPrev);
    if n < |cs| {
      OffMono(n + 1, |cs|, EntrySize(vl, withPrev));
    } else if n > |cs| {
      OffNext(|cs|, EntrySize(vl, withPrev));
      OffMono(|cs| + 1, n, EntrySize(vl, withPrev));
    }
  }

  /** The window grown from candidate `k` over the candidates after it. */
  method Window(chunk: seq<byte>, es: nat, base: nat, vl: nat, k: nat) returns (start: nat, end: nat)
    requires es >= 4 && Off(k + 1, es) <= |chunk| && 1 <= vl <= 0x1000
    requires base + U32 + vl <= ADDR_TOP
    ensures |Slot(chunk, es, k)| == es
    ensures start == base + OffsetOf(Slot(chunk, es, k))
    ensures start + vl <= end <= start + 0x10_0000
  {
    hide Off, OffsetOf;
    SlotLength(chunk, es, k + 1, k);
    OffNext(k, es);
    start := base + OffsetOf(Slot(chunk, es, k));
    end := start + vl;
    var j: nat := k + 1;
    while Off(j, es) + es <= |chunk|
      invariant start + vl <= end <= start + WIN_CAP && end <= ADDR_TOP
      invariant Off(j, es) <= |chunk|
      decreases |chunk| - Off(j, es)
    {
      OffNext(j, es);
      SlotLength(chunk, es, j + 1, j);
      var na := base + OffsetOf(Slot(chunk, es, j));
      var gap := if na > end then na - end else 0;
      if gap > GAP_MAX { break; }
      var ne := na + vl;
      if Sub64(ne, start) > WIN_CAP { break; }
      if ne > end { end := ne; }
      j := j + 1;
    }
  }

  /** A client that uploads candidates decodes exactly those that satisfy the comparison. */
  method RescanUpload(cs: seq<Candidate>, vl: nat, withPrev: bool, base: nat, mem: Memory, cmp: S.Comparator)
    returns (sends: seq<seq<byte>>)
    requires 1 <= vl <= 0x1000 && base + U32 + vl <= ADDR_TOP
    requires forall c :: c in cs ==> Sendable(c, vl, withPrev)
    ensures Decode(Joined(sends) + End(), vl) == (true, Satisfied(cs, vl, base, mem, cmp))
    ensures Fits(sends, FRAME_CAP)
  {
    hide Off, Matches, Slice, Decode, Sendable;
    var n;
    sends, n := RescanChunk(Upload(cs), vl, withPrev, base, mem, cmp);
    UploadedCount(cs, vl, withPrev, n);
    UploadedMatches(cs, vl, withPrev, base, mem, cmp);
  }

  /** Rescan one uploaded chunk and stream its matches. */
  method RescanChunk(chunk: seq<byte>, vl: nat, withPrev: bool, base: nat, mem: Memory, cmp: S.Comparator)
    returns (sends: seq<seq<byte>>, n: nat)
    requires 1 <= vl <= 0x1000 && base + U32 + vl <= ADDR_TOP
    ensures Off(n, EntrySize(vl, withPrev)) <= |chunk| < Off(n + 1, EntrySize(vl, withPrev))
    ensures sends == Streamed(Matches(chunk, vl, withPrev, base, mem, cmp, n), 0x3FFE8 - 2 * vl)
    ensures Decode(Joined(sends) + End(), vl) == (true, Matches(chunk, vl, withPrev, base, mem, cmp, n))
    ensures Fits(sends, FRAME_CAP)
  {
    hide Off, Matches, OffsetOf, Slice, Collected, Entry, Frame, Streamed, Decode, Slot;
    var es, thresh := EntrySize(vl, withPrev), 0x3FFE8 - 2 * vl;
    var run := [];
    sends, n := [], 0;
    var ws: nat, we: nat, win: seq<byte> := 0, 0, [];
    NoMatches(chunk, vl, withPrev, base, mem, cmp, thresh);
    while Off(n, es) + es <= |chunk|
      invariant Off(n, es) <= |chunk|
      invariant ws <= we && win == Slice(mem, ws, we - ws) && |win| <= WIN_CAP
      invariant (sends, run) == Collected(Matches(chunk, vl, withPrev, base, mem, cmp, n), thresh)
      decreases |chunk| - Off(n, es)
    {
      OffNext(n, es);
      SlotLength(chunk, es, n + 1, n);
      var e := Slot(chunk, es, n);
      var addr := base + OffsetOf(e);
      if addr < ws || addr + vl > we {
        ws, we := Window(chunk, es, base, vl, n);
        win := Slice(mem, ws, we - ws);
      }
      var v := win[addr - ws..addr - ws + vl];
      SliceOfSlice(mem, ws, we - ws, addr, vl);
      MatchesStep(chunk, vl, withPrev, base, mem, cmp, n);
      if cmp(v, e[4..]) {
        CollectedSnoc(Matches(chunk, vl, withPrev, base, mem, cmp, n), Hit(OffsetOf(e), v), thresh);
        if |run| > thresh {
          sends, run := sends + [Frame(run)], [];
        }
        assert [] + Entry(Hit(OffsetOf(e), v)) == Entry(Hit(OffsetOf(e), v));
        run := run + Entry(Hit(OffsetOf(e), v));
      }
      n := n + 1;
    }
    OffNext(n, es);
    CloseStream(Matches(chunk, vl, withPrev, base, mem, cmp, n), thresh);
    if run != [] {
      sends := sends + [Frame(run)];
    }
    DecodeStreamed(Matches(chunk, vl, withPrev, base, mem, cmp, n), vl, thresh);
  }

  lemma CloseStream(hits: seq<Hit>, thresh: int)
    ensures var (sends, run) := Collected(hits, thresh);
            Streamed(hits, thresh) == if run == [] then sends else sends + [Frame(run)]
  {
  }

  lemma NoMatches(chunk: seq<byte>, vl: nat, withPrev: bool, base: nat, mem: Memory, cmp: S.Comparator, thresh: int)
    ensures Off(0, EntrySize(vl, withPrev)) == 0
    ensures Matches(chunk, vl, withPrev, base, mem, cmp, 0) == [] && Collected([], thresh) == ([], [])
  {
  }

  lemma MatchesStep(chunk: seq<byte>, vl: nat, withPrev: bool, base: nat, mem: Memory, cmp: S.Comparator, k: nat)
    requires Off(k + 1, EntrySize(vl, withPrev)) <= |chunk|
    ensures Off(k, EntrySize(vl, withPrev)) <= |chunk|
            && |Slot(chunk, EntrySize(vl, withPrev), k)| == EntrySize(vl, withPrev)
    ensures var e := Slot(chunk, EntrySize(vl, withPrev), k);
            var v := Slice(mem, base + OffsetOf(e), vl);
            Matches(chunk, vl, withPrev, base, mem, cmp, k + 1)
            == if cmp(v, e[4..]) then Matches(chunk, vl, withPrev, base, mem, cmp, k) + [Hit(OffsetOf(e), v)]
               else Matches(chunk, vl, withPrev, base, mem, cmp, k)
  {
    OffNext(k, EntrySize(vl, withPrev));
  }
}
