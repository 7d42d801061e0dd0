/** The result stream: length-prefixed runs of (offset, value) pairs, closed by a sentinel. */
module Runs {
  import opened Bytes
  import opened Wire

  /** A match: 32-bit offset from the scan base, and its bytes. */
  datatype Hit = Hit(off: nat, val: seq<byte>)

  const FRAME_CAP: nat := 0x4_0000
  const SENTINEL: nat := 0xFFFF_FFFF_FFFF_FFFF

  predicate GoodHit(h: Hit, vl: nat)
  {
    h.off < U32 && |h.val| == vl
  }

  function Entry(h: Hit): seq<byte>
  {
    LeBytes(h.off, 4) + h.val
  }

  function Frame(run: seq<byte>): seq<byte>
  {
    LeBytes(|run|, 8) + run
  }

  /** Frames already sent and the run being collected, after a sequence of hits. */
  function Collected(hits: seq<Hit>, thresh: int): (seq<seq<byte>>, seq<byte>)
  {
    if hits == [] then ([], [])
    else
      var (sends, run) := Collected(hits[..|hits| - 1], thresh);
      var e := Entry(hits[|hits| - 1]);
      if |run| > thresh then (sends + [Frame(run)], e) else (sends, run + e)
  }

  /** All frames of a scan, in the order they are sent. */
  function Streamed(hits: seq<Hit>, thresh: int): seq<seq<byte>>
  {
    var (sends, run) := Collected(hits, thresh);
    if run == [] then sends else sends + [Frame(run)]
  }

  lemma CollectedSnoc(hits: seq<Hit>, h: Hit, thresh: int)
    ensures var (sends, run) := Collected(hits, thresh);
            Collected(hits + [h], thresh)
            == if |run| > thresh then (sends + [Frame(run)], Entry(h)) else (sends, run + Entry(h))
  {
    assert (hits + [h])[..|hits|] == hits;
  }

  /** The receiver: split a run into entries. */
  function Entries(run: seq<byte>, vl: nat): seq<Hit>
  {
    if |run| < 4 + vl then []
    else [Hit(LeVal(run[..4]), run[4..4 + vl])] + Entries(run[4 + vl..], vl)
  }

  /** The receiver: decode runs until the sentinel. */
  function Decode(s: seq<byte>, vl: nat): (bool, seq<Hit>)
    decreases |s|
  {
    if |s| < 8 then (false, [])
    else
      var len := LeVal(s[..8]);
      if len == SENTINEL then (true, [])
      else if 8 + len > |s| then (false, [])
      else
        var rest := Decode(s[8 + len..], vl);
        (rest.0, Entries(s[8..8 + len], vl) + rest.1)
  }

  function Payload(hits: seq<Hit>): seq<byte>
  {
    if hits == [] then [] else Entry(hits[0]) + Payload(hits[1..])
  }

  lemma {:induction false} EntriesOfPayload(hits: seq<Hit>, vl: nat)
    requires forall h :: h in hits ==> GoodHit(h, vl)
    ensures Entries(Payload(hits), vl) == hits
  {
    if hits != [] {
      assert hits[0] in hits;
      EntriesOfPayload(hits[1..], vl);
      Le32RoundTrip(hits[0].off);
      var p := Payload(hits);
      assert p[..4] == LeBytes(hits[0].off, 4);
      assert p[4..4 + vl] == hits[0].val;
      assert p[4 + vl..] == Payload(hits[1..]);
    } else {
      assert |Payload(hits)| == 0;
    }
  }

  lemma {:induction false} PayloadSnoc(hits: seq<Hit>, h: Hit)
    ensures Payload(hits + [h]) == Payload(hits) + Entry(h)
  {
    if hits == [] {
      assert hits + [h] == [h];
      assert [h][1..] == [];
    } else {
      PayloadSnoc(hits[1..], h);
      assert (hits + [h])[1..] == hits[1..] + [h];
      assert (hits + [h])[0] == hits[0];
    }
  }

  function End(): seq<byte>
  {
    LeBytes(SENTINEL, 8)
  }

  lemma DecodeEnd(vl: nat)
    ensures Decode(End(), vl) == (true, [])
  {
    Le64RoundTrip(SENTINEL);
    assert End()[..8] == End();
  }

  /** Decoding one frame in front of a stream. */
  lemma DecodeFrame(hits: seq<Hit>, rest: seq<byte>, vl: nat)
    requires forall h :: h in hits ==> GoodHit(h, vl)
    requires |Payload(hits)| < SENTINEL
    ensures Decode(Frame(Payload(hits)) + rest, vl) == (Decode(rest, vl).0, hits + Decode(rest, vl).1)
  {
    var run := Payload(hits);
    var s := Frame(run) + rest;
    Le64RoundTrip(|run|);
    assert s[..8] == LeBytes(|run|, 8);
    assert s[8..8 + |run|] == run;
    assert s[8 + |run|..] == rest;
    EntriesOfPayload(hits, vl);
  }

  /** A run never outgrows its buffer: header plus run stay within 256 KiB. */
  ghost predicate Grouped(sends: seq<seq<byte>>, groups: seq<seq<Hit>>, vl: nat)
  {
    && |sends| == |groups|
    && (forall i :: 0 <= i < |sends| ==> sends[i] == Frame(Payload(groups[i])) && |sends[i]| <= FRAME_CAP)
    && (forall i, h :: 0 <= i < |groups| && h in groups[i] ==> GoodHit(h, vl))
  }

  function Concat(groups: seq<seq<Hit>>): seq<Hit>
  {
    if groups == [] then [] else Concat(groups[..|groups| - 1]) + groups[|groups| - 1]
  }

  lemma ConcatSnoc(groups: seq<seq<Hit>>, g: seq<Hit>)
    ensures Concat(groups + [g]) == Concat(groups) + g
  {
    assert (groups + [g])[..|groups|] == groups;
  }

  lemma FrameLength(run: seq<byte>)
    ensures |Frame(run)| == 8 + |run|
  {
  }

  lemma GroupedSnoc(sends: seq<seq<byte>>, groups: seq<seq<Hit>>, g: seq<Hit>, vl: nat)
    requires Grouped(sends, groups, vl) && 8 + |Payload(g)| <= FRAME_CAP
    requires forall h :: h in g ==> GoodHit(h, vl)
    ensures Grouped(sends + [Frame(Payload(g))], groups + [g], vl)
    ensures Concat(groups + [g]) == Concat(groups) + g
  {
    hide Payload, Frame, Concat, GoodHit;
    FrameLength(Payload(g));
    ConcatSnoc(groups, g);
  }

  /** Decoding grouped frames, back to front. */
  lemma {:induction false} DecodeGroups(sends: seq<seq<byte>>, groups: seq<seq<Hit>>, rest: seq<byte>, vl: nat)
    requires Grouped(sends, groups, vl)
    ensures Decode(Joined(sends) + rest, vl) == (Decode(rest, vl).0, Concat(groups) + Decode(rest, vl).1)
  {
    hide Decode, Payload, Frame;
    if sends == [] {
      assert Joined(sends) + rest == rest;
      assert Concat(groups) + Decode(rest, vl).1 == Decode(rest, vl).1;
    } else {
      var n := |sends| - 1;
      FrameLength(Payload(groups[n]));
      DecodeFrame(groups[n], rest, vl);
      assert Grouped(sends[..n], groups[..n], vl) by {
        assert forall i :: 0 <= i < n ==> sends[..n][i] == sends[i] && groups[..n][i] == groups[i];
      }
      DecodeGroups(sends[..n], groups[..n], sends[n] + rest, vl);
      assert Joined(sends) + rest == Joined(sends[..n]) + (sends[n] + rest);
      assert Concat(groups) + Decode(rest, vl).1 == Concat(groups[..n]) + (groups[n] + Decode(rest, vl).1);
    }
  }

  /** Every collected stream is a sequence of grouped frames plus an open run. */
  lemma {:induction false} CollectedGroups(hits: seq<Hit>, vl: nat, thresh: int)
    returns (groups: seq<seq<Hit>>, open: seq<Hit>)
    requires forall h :: h in hits ==> GoodHit(h, vl)
    requires 0 <= thresh && thresh + 4 + vl + 8 <= FRAME_CAP
    ensures var (sends, run) := Collected(hits, thresh);
            && Grouped(sends, groups, vl) && run == Payload(open) && |run| <= thresh + 4 + vl
            && Concat(groups) + open == hits
    ensures forall h :: h in open ==> GoodHit(h, vl)
  {
    hide Payload, Frame, Entry, Concat, Grouped;
    if hits == [] {
      groups, open := [], [];
      NoGroups(vl);
    } else {
      var n := |hits| - 1;
      var g, o := CollectedGroups(hits[..n], vl, thresh);
      var (sends, run) := Collected(hits[..n], thresh);
      assert hits[n] in hits;
      assert hits == hits[..n] + [hits[n]];
      PayloadSnoc([], hits[n]);
      assert [] + [hits[n]] == [hits[n]];
      EntryLength(hits[n]);
      NoGroups(vl);
      if |run| > thresh {
        groups, open := g + [o], [hits[n]];
        GroupedSnoc(sends, g, o, vl);
      } else {
        groups, open := g, o + [hits[n]];
        PayloadSnoc(o, hits[n]);
      }
    }
  }

  lemma NoGroups(vl: nat)
    ensures Grouped([], [], vl) && Concat([]) == [] && Payload([]) == []
  {
  }

  lemma EntryLength(h: Hit)
    ensures |Entry(h)| == 4 + |h.val|
  {
  }

  lemma EmptyPayload(hits: seq<Hit>)
    ensures Payload(hits) == [] <==> hits == []
  {
    if hits != [] { assert |Entry(hits[0])| >= 4; }
  }

  /** Decoding what was streamed recovers every (offset, value) pair in order, and every frame fits its buffer. */
  lemma DecodeStreamed(hits: seq<Hit>, vl: nat, thresh: int)
    requires forall h :: h in hits ==> GoodHit(h, vl)
    requires 0 <= thresh && thresh + 4 + vl + 8 <= FRAME_CAP
    ensures Decode(Joined(Streamed(hits, thresh)) + End(), vl) == (true, hits)
    ensures Fits(Streamed(hits, thresh), FRAME_CAP)
  {
    hide Payload, Frame, Concat, Grouped, Decode, Joined, Collected, End;
    var groups, open := CollectedGroups(hits, vl, thresh);
    var (sends, run) := Collected(hits, thresh);
    EmptyPayload(open);
    var gs := groups;
    if run != [] {
      gs := groups + [open];
      GroupedSnoc(sends, groups, open, vl);
    }
    DecodeGroups(Streamed(hits, thresh), gs, End(), vl);
    DecodeEnd(vl);
    assert Concat(gs) == hits && hits + [] == hits;
    GroupedFits(Streamed(hits, thresh), gs, vl);
  }

  lemma GroupedFits(sends: seq<seq<byte>>, groups: seq<seq<Hit>>, vl: nat)
    requires Grouped(sends, groups, vl)
    ensures Fits(sends, FRAME_CAP)
  {
  }
}
