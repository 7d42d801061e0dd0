/** The single-pattern scan: chunks overlap by one byte less than the pattern. */
module AobSingle {
  import opened Bytes
  import opened AobSpec

  const READ_MAX: nat := 0x10_0000

  /** Largest multiple of the pattern length that fits the read buffer. */
  function ChunkSize(plen: nat): (c: nat)
    requires 1 <= plen <= READ_MAX
    ensures plen <= c <= READ_MAX
  {
    var q := READ_MAX / plen;
    assert q >= 1 by { QuotientPositive(READ_MAX, plen); }
    MulAtLeast(plen, q);
    assert plen * q <= READ_MAX;
    plen * q
  }

  lemma QuotientPositive(n: nat, m: nat)
    requires 1 <= m <= n
    ensures n / m >= 1
  {
  }

  /** The scan's verdict so far: number of matches, remembered address, and whether the search is over. */
  datatype Verdict = Verdict(count: nat, addr: nat, over: bool)

  /** One more match at address `addr`. */
  function Note(v: Verdict, addr: nat, target: nat, stopUnique: bool): Verdict
  {
    var c := v.count + 1;
    if c == target then Verdict(c, addr, !stopUnique)
    else if c > target && stopUnique then Verdict(c, 0, true)
    else Verdict(c, v.addr, false)
  }

  /** The verdict agrees with the matches found below `g`. */
  ghost predicate Agrees(v: Verdict, a: Area, p: Pat, stopUnique: bool, g: nat)
    requires GoodPat(p)
  {
    var m := Matches(a, p, 0, g);
    && v.count == |m|
    && (v.over ==> if stopUnique then |m| > p.target && v.addr == 0
                   else 1 <= p.target <= |m| && v.addr == a.base + m[p.target - 1])
    && (!v.over ==> if stopUnique then |m| <= p.target else p.target == 0 || |m| < p.target)
    && (!v.over ==> v.addr == if p.target >= 1 && |m| == p.target then a.base + m[p.target - 1] else 0)
  }

  lemma NoteAgrees(v: Verdict, a: Area, p: Pat, stopUnique: bool, g: nat)
    requires GoodPat(p) && Agrees(v, a, p, stopUnique, g) && !v.over
    ensures Agrees(if MatchAt(a, g, p) then Note(v, a.base + g, p.target, stopUnique) else v, a, p, stopUnique, g + 1)
  {
    hide MatchAt;
  }

  /** Positions too close to the end cannot match. */
  lemma {:induction false} NoRoom(a: Area, p: Pat, g: nat, h: nat)
    requires GoodPat(p) && g <= h && g + |p.pat| > a.length
    ensures Matches(a, p, 0, h) == Matches(a, p, 0, g)
  {
    if g < h { NoRoom(a, p, g, h - 1); }
  }

  /** A finished or complete verdict is the answer. */
  lemma VerdictIsAnswer(v: Verdict, a: Area, p: Pat, stopUnique: bool, g: nat)
    requires GoodPat(p) && g <= a.length && Agrees(v, a, p, stopUnique, g)
    requires v.over || g + |p.pat| > a.length
    ensures v.addr == Answer(a, p, stopUnique)
  {
    hide MatchAt, Matches;
    MatchesSplit(a, p, 0, g, a.length);
    if g + |p.pat| > a.length { NoRoom(a, p, g, a.length); }
  }

  /** Test every position of one chunk. */
  method ScanChunk(a: Area, p: Pat, stopUnique: bool, win: seq<byte>, pos: nat, v0: Verdict)
    returns (v: Verdict, ghost g: nat)
    requires GoodPat(p) && win == Slice(a.mem, a.base + pos, |win|) && |p.pat| <= |win| && pos + |win| <= a.length
    requires Agrees(v0, a, p, stopUnique, pos) && !v0.over
    ensures g <= a.length && Agrees(v, a, p, stopUnique, g)
    ensures !v.over ==> g == pos + |win| - |p.pat| + 1
  {
    hide MatchAt, MatchIn, Matches, Agrees;
    v, g := v0, pos;
    var limit := |win| - |p.pat|;
    var j := 0;
    while j <= limit
      invariant 0 <= j <= limit + 1 && g == pos + j && !v.over && Agrees(v, a, p, stopUnique, g)
    {
      BufferedMatch(a, win, pos, j, p);
      NoteAgrees(v, a, p, stopUnique, g);
      var hit := MatchTest(win, j, p);
      g := g + 1;
      if hit {
        v := Note(v, a.base + pos + j, p.target, stopUnique);
        if v.over { return; }
      }
      j := j + 1;
    }
  }

  /** proc_scan_aob_handle for a region at least as long as the pattern (or empty). */
  method Scan(a: Area, p: Pat, stopUnique: bool) returns (out: nat)
    requires GoodPat(p) && |p.pat| <= 0x10_0000 && (|p.pat| <= a.length || a.length == 0)
    ensures out == Answer(a, p, stopUnique)
    ensures AllFixed(p) && out != 0 ==> Slice(a.mem, out, |p.pat|) == p.pat
  {
    hide MatchAt, Matches, Agrees, Answer, Slice, ChunkSize, AllFixed;
    LiteralAnswer(a, p, stopUnique);
    var plen, chunk := |p.pat|, ChunkSize(|p.pat|);
    var pos: nat, remaining: nat := 0, a.length;
    var v := Verdict(0, 0, false);
    ghost var g: nat := 0;
    Start(a, p, stopUnique);
    while remaining > 0
      invariant pos + remaining == a.length && !v.over && Agrees(v, a, p, stopUnique, pos)
      invariant remaining >= plen || (remaining == 0 && a.length == 0)
      decreases remaining
    {
      var toRead := if chunk < remaining then chunk else remaining;
      var win := Slice(a.mem, a.base + pos, toRead);
      v, g := ScanChunk(a, p, stopUnique, win, pos, v);
      if v.over || chunk >= remaining {
        VerdictIsAnswer(v, a, p, stopUnique, g);
        return v.addr;
      }
      var advance := chunk - plen + 1;
      pos, remaining := pos + advance, remaining - advance;
    }
    VerdictIsAnswer(v, a, p, stopUnique, 0);
    out := v.addr;
  }

  lemma Start(a: Area, p: Pat, stopUnique: bool)
    requires GoodPat(p)
    ensures Agrees(Verdict(0, 0, false), a, p, stopUnique, 0)
  {
  }

  /** Region shorter than the pattern: one position is tested against the read buffer, whose tail is stale. */
  method ScanShort(a: Area, p: Pat, stopUnique: bool, stale: seq<byte>) returns (out: nat)
    requires GoodPat(p) && |p.pat| <= READ_MAX && 0 < a.length < |p.pat| && |stale| == ChunkSize(|p.pat|)
    ensures Answer(a, p, stopUnique) == 0
    ensures out == Answer(a, p, stopUnique) <==>
              !(p.target == 1 && a.base != 0 && MatchIn(Splice(stale, 0, Slice(a.mem, a.base, a.length)), 0, p))
  {
    hide MatchAt, MatchIn, Matches, Slice, ChunkSize;
    NoRoom(a, p, 0, a.length);
    Start(a, p, stopUnique);
    var toRead := a.length;
    var buf := Splice(stale, 0, Slice(a.mem, a.base, toRead));
    var v := Verdict(0, 0, false);
    var hit := MatchTest(buf, 0, p);
    if hit { v := Note(v, a.base, p.target, stopUnique); }
    out := v.addr;
  }
}
