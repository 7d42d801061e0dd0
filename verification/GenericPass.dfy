/** The chunked pass with the generic comparator: which elements it visits, for any step and length. */
module GenericPass {
  import opened Bytes
  import opened ScanPass
  import G = Segments

  /** `count` positions from `pos`, `step` apart. */
  function Positions(pos: nat, count: nat, step: nat): (s: seq<nat>)
    ensures |s| == count
    ensures forall k :: 0 <= k < count ==> s[k] == pos + Off(k, step)
  {
    seq(count, k requires 0 <= k < count => pos + Off(k, step))
  }

  /** Specification: every whole element of the range, `step` apart from its start. */
  function FlatPositions(len: nat, vl: nat, step: nat): seq<nat>
    requires vl > 0 && step > 0
  {
    Positions(0, G.SlotsIn(len, vl, step), step)
  }

  /** Elements tested in one chunk; a chunk shorter than a value still tests one. */
  function Tested(toRead: nat, vl: nat, step: nat): (n: nat)
    requires vl > 0 && step > 0
    ensures n >= 1
  {
    if toRead >= vl then G.SlotsIn(toRead, vl, step) else 1
  }

  /** How far the scan moves after a chunk. */
  function Advance(toRead: nat, vl: nat, step: nat): (a: nat)
    requires vl > 0 && step > 0 && toRead > 0
    ensures 0 < a <= toRead
  {
    var a := (toRead + step - vl) % U64;
    if a == 0 || a > toRead then toRead else a
  }

  /** Positions the loop visits from `pos` on. */
  function Visits(pos: nat, remaining: nat, vl: nat, step: nat, chunk: nat): seq<nat>
    requires vl > 0 && step > 0 && chunk > 0
    decreases remaining
  {
    if remaining == 0 then []
    else
      var toRead := if remaining > chunk then chunk else remaining;
      var a := Advance(toRead, vl, step);
      Positions(pos, Tested(toRead, vl, step), step) + Visits(pos + a, remaining - a, vl, step, chunk)
  }

  /** When the loop visits exactly the whole elements. */
  predicate VisitsAreFlat(len: nat, vl: nat, step: nat, chunk: nat)
    requires chunk > 0 && step > 0
  {
    || len == 0
    || (&& step >= vl
        && (len <= chunk || Divides(step, chunk))
        && TailFits(len, chunk, vl))
  }

  predicate Divides(step: nat, chunk: nat)
    requires step > 0
  {
    chunk % step == 0
  }

  /** The last chunk is empty or holds at least one whole element. */
  predicate TailFits(remaining: nat, chunk: nat, vl: nat)
    requires chunk > 0
  {
    remaining % chunk == 0 || remaining % chunk >= vl
  }

  lemma AdvanceNarrow(toRead: nat, vl: nat, step: nat)
    requires 0 < step < vl && 0 < toRead < U64 && vl < U64
    ensures toRead >= vl ==> Advance(toRead, vl, step) == toRead - (vl - step)
  {
  }

  lemma AdvanceWide(toRead: nat, vl: nat, step: nat)
    requires 0 < vl <= step && 0 < toRead && toRead + step < U64
    ensures Advance(toRead, vl, step) == toRead
  {
  }

  /** A step below the value length always ends in a fragment that is tested as if it were an element. */
  lemma {:induction false} NarrowStepVisitsFragment(pos: nat, remaining: nat, vl: nat, step: nat, chunk: nat)
    returns (p: nat)
    requires 0 < step < vl <= chunk && 0 < remaining && chunk < U64 && vl < U64
    ensures p in Visits(pos, remaining, vl, step, chunk) && p + vl > pos + remaining
    decreases remaining
  {
    hide G.SlotsIn, Advance, Off;
    var toRead := if remaining > chunk then chunk else remaining;
    var a := Advance(toRead, vl, step);
    var here := Positions(pos, Tested(toRead, vl, step), step);
    if toRead < vl {
      OffZero(step);
      p := pos;
      assert here[0] == pos;
    } else {
      AdvanceNarrow(toRead, vl, step);
      p := NarrowStepVisitsFragment(pos + a, remaining - a, vl, step, chunk);
    }
  }

  lemma FlatAreWhole(len: nat, vl: nat, step: nat)
    requires vl > 0 && step > 0
    ensures forall p :: p in FlatPositions(len, vl, step) ==> p + vl <= len
  {
    hide G.SlotsIn, Off;
    forall k | 0 <= k < G.SlotsIn(len, vl, step)
      ensures Off(k, step) + vl <= len
    {
      G.SlotsInFit(len, vl, step, k);
    }
  }

  lemma {:induction false} FlatAreMultiples(len: nat, vl: nat, step: nat)
    requires vl > 0 && step > 0
    ensures forall p :: p in FlatPositions(len, vl, step) ==> p % step == 0
  {
    hide G.SlotsIn, Off;
    forall k | 0 <= k < G.SlotsIn(len, vl, step)
      ensures Off(k, step) % step == 0
    {
      OffIsProduct(k, step);
      ModUnique(k * step, step, k, 0);
    }
  }

  lemma WideStep(pos: nat, remaining: nat, vl: nat, step: nat, chunk: nat)
    requires 0 < vl <= step && 0 < chunk < remaining && chunk + step < U64
    ensures Visits(pos, remaining, vl, step, chunk)
         == Positions(pos, Tested(chunk, vl, step), step) + Visits(pos + chunk, remaining - chunk, vl, step, chunk)
  {
    hide G.SlotsIn, Off;
    AdvanceWide(chunk, vl, step);
  }

  /** With a wide step every chunk restarts at its own beginning. */
  lemma SecondChunkVisited(len: nat, vl: nat, step: nat, chunk: nat)
    requires 0 < vl <= step && 0 < chunk < len && chunk + step < U64
    ensures chunk in Visits(0, len, vl, step, chunk)
  {
    hide Visits, Positions;
    WideStep(0, len, vl, step, chunk);
    StartVisited(chunk, len - chunk, vl, step, chunk);
  }

  /** A last chunk shorter than a value is tested too. */
  lemma {:induction false} ShortTailVisited(pos: nat, remaining: nat, vl: nat, step: nat, chunk: nat)
    requires 0 < vl <= step && 0 < chunk && chunk + step < U64
    requires 0 < remaining % chunk
    ensures pos + remaining - remaining % chunk in Visits(pos, remaining, vl, step, chunk)
    decreases remaining
  {
    hide Visits, Positions;
    if remaining > chunk {
      WideStep(pos, remaining, vl, step, chunk);
      RemainderStep(remaining, chunk);
      ShortTailVisited(pos + chunk, remaining - chunk, vl, step, chunk);
    } else {
      if remaining == chunk { ModUnique(remaining, chunk, 1, 0); } else { ModUnique(remaining, chunk, 0, remaining); }
      StartVisited(pos, remaining, vl, step, chunk);
    }
  }

  lemma StartVisited(pos: nat, remaining: nat, vl: nat, step: nat, chunk: nat)
    requires vl > 0 && step > 0 && chunk > 0 && remaining > 0
    ensures pos in Visits(pos, remaining, vl, step, chunk)
  {
    hide G.SlotsIn, Off;
    OffZero(step);
    var toRead := if remaining > chunk then chunk else remaining;
    assert Positions(pos, Tested(toRead, vl, step), step)[0] == pos;
  }

  lemma RemainderStep(n: nat, m: nat)
    requires m > 0 && n >= m
    ensures n % m == (n - m) % m
  {
    var q, r := (n - m) / m, (n - m) % m;
    MulDistributes(m, q, 1);
    ModUnique(n, m, q + 1, r);
  }

  lemma PositionsJoin(pos: nat, a: nat, b: nat, step: nat)
    ensures Positions(pos, a + b, step) == Positions(pos, a, step) + Positions(pos + Off(a, step), b, step)
  {
    hide Off;
    var whole := Positions(pos, a + b, step);
    var parts := Positions(pos, a, step) + Positions(pos + Off(a, step), b, step);
    forall k | 0 <= k < a + b
      ensures whole[k] == parts[k]
    {
      if k >= a { OffSum(a, k - a, step); }
    }
  }

  /** A chunk of `c` steps holds `c` elements and shifts the count of the rest by `c`. */
  lemma SlotsShift(c: nat, rest: nat, vl: nat, step: nat)
    requires 0 < vl <= step && c > 0
    ensures G.SlotsIn(Off(c, step), vl, step) == c
    ensures G.SlotsIn(Off(c, step) + rest, vl, step) == c + G.SlotsIn(rest, vl, step)
  {
    hide G.SlotsIn, Off;
    SlotsAre(Off(c, step), vl, step, c) by {
      OffNext(c - 1, step);
    }
    var m := G.SlotsIn(rest, vl, step);
    G.SlotsInFit(rest, vl, step, m);
    if m > 0 { G.SlotsInFit(rest, vl, step, m - 1); }
    OffSum(c, m, step);
    SlotsAre(Off(c, step) + rest, vl, step, c + m) by {
      if m > 0 { OffSum(c, m - 1, step); } else { OffNext(c - 1, step); }
    }
  }

  lemma SlotsAre(len: nat, vl: nat, step: nat, n: nat)
    requires 0 < vl && step > 0
    requires Off(n, step) + vl > len && (n > 0 ==> Off(n - 1, step) + vl <= len)
    ensures G.SlotsIn(len, vl, step) == n
  {
    hide G.SlotsIn, Off;
    G.SlotsInFit(len, vl, step, n);
    if n > 0 { G.SlotsInFit(len, vl, step, n - 1); }
  }

  lemma TailStep(remaining: nat, chunk: nat, vl: nat)
    requires 0 < chunk <= remaining && TailFits(remaining, chunk, vl)
    ensures TailFits(remaining - chunk, chunk, vl)
  {
    RemainderStep(remaining, chunk);
  }

  lemma TailIsWhole(remaining: nat, chunk: nat, vl: nat)
    requires 0 < remaining <= chunk && vl <= chunk && TailFits(remaining, chunk, vl)
    ensures vl <= remaining
  {
    if remaining < chunk { ModUnique(remaining, chunk, 0, remaining); }
  }

  /** Under the condition, chunk by chunk is one flat walk. */
  lemma {:induction false} GoodVisits(pos: nat, remaining: nat, vl: nat, step: nat, chunk: nat, c: nat)
    requires 0 < vl <= step && chunk > 0 && chunk + step < U64
    requires remaining <= chunk || (c > 0 && chunk == Off(c, step))
    requires TailFits(remaining, chunk, vl) && chunk >= vl
    ensures Visits(pos, remaining, vl, step, chunk) == Positions(pos, G.SlotsIn(remaining, vl, step), step)
    decreases remaining
  {
    hide G.SlotsIn, Off, TailFits, Visits, Positions;
    if remaining == 0 {
      EmptyRange(pos, vl, step, chunk);
    } else if remaining > chunk {
      WideStep(pos, remaining, vl, step, chunk);
      TailStep(remaining, chunk, vl);
      GoodVisits(pos + chunk, remaining - chunk, vl, step, chunk, c);
      SlotsShift(c, remaining - chunk, vl, step);
      PositionsJoin(pos, c, G.SlotsIn(remaining - chunk, vl, step), step);
    } else {
      TailIsWhole(remaining, chunk, vl);
      LastChunk(pos, remaining, vl, step, chunk);
    }
  }

  lemma LastChunk(pos: nat, remaining: nat, vl: nat, step: nat, chunk: nat)
    requires 0 < vl <= step && 0 < remaining <= chunk && chunk + step < U64
    ensures Visits(pos, remaining, vl, step, chunk) == Positions(pos, Tested(remaining, vl, step), step)
  {
    hide G.SlotsIn, Off, Positions, Tested;
    AdvanceWide(remaining, vl, step);
    var here := Positions(pos, Tested(remaining, vl, step), step);
    assert here + [] == here;
    assert Visits(pos + remaining, 0, vl, step, chunk) == [];
  }

  /** The pass visits exactly the whole elements of the range if and only if the condition holds. */
  lemma VisitsExactlyWhenFlat(len: nat, vl: nat, step: nat, chunk: nat)
    requires 0 < vl <= chunk && 0 < step && chunk + step < U64
    ensures Visits(0, len, vl, step, chunk) == FlatPositions(len, vl, step) <==> VisitsAreFlat(len, vl, step, chunk)
  {
    hide G.SlotsIn, Off, Visits;
    if len == 0 {
      EmptyRange(0, vl, step, chunk);
    } else if step < vl {
      var p := NarrowStepVisitsFragment(0, len, vl, step, chunk);
      FlatAreWhole(len, vl, step);
    } else if len > chunk && !Divides(step, chunk) {
      SecondChunkVisited(len, vl, step, chunk);
      FlatAreMultiples(len, vl, step);
    } else if !TailFits(len, chunk, vl) {
      ShortTailVisited(0, len, vl, step, chunk);
      FlatAreWhole(len, vl, step);
    } else {
      GoodRange(len, vl, step, chunk);
    }
  }

  lemma EmptyRange(pos: nat, vl: nat, step: nat, chunk: nat)
    requires 0 < vl && 0 < step && chunk > 0
    ensures Visits(pos, 0, vl, step, chunk) == [] == Positions(pos, G.SlotsIn(0, vl, step), step)
  {
  }

  lemma GoodRange(len: nat, vl: nat, step: nat, chunk: nat)
    requires 0 < vl <= chunk && vl <= step && chunk + step < U64
    requires (len <= chunk || Divides(step, chunk)) && TailFits(len, chunk, vl)
    ensures Visits(0, len, vl, step, chunk) == FlatPositions(len, vl, step)
  {
    hide G.SlotsIn, Off, Visits, Divides, TailFits;
    var c := if len > chunk then StepsIn(step, chunk) else 0;
    GoodVisits(0, len, vl, step, chunk, c);
  }

  /** Number of steps in a chunk that is a multiple of the step. */
  function StepsIn(step: nat, chunk: nat): (c: nat)
    requires step > 0 && chunk > 0 && Divides(step, chunk)
    ensures c > 0 && chunk == Off(c, step)
  {
    QuotientOff(chunk, step);
    chunk / step
  }

  /** An unaligned scan (step 1) of two 4-byte values: the loop also tests a fragment at position 5. */
  lemma UnalignedScanVisitsFragment()
    ensures FlatPositions(8, 4, 1) == [0, 1, 2, 3, 4]
    ensures exists p :: p in Visits(0, 8, 4, 1, 0x10_0000) && p + 4 > 8
    ensures !VisitsAreFlat(8, 4, 1, 0x10_0000)
  {
    var p := NarrowStepVisitsFragment(0, 8, 4, 1, 0x10_0000);
    assert G.SlotsIn(8, 4, 1) == 5;
    forall k | 0 <= k < 5 ensures Off(k, 1) == k { OffIsProduct(k, 1); }
  }

  /** The matches among given positions, each judged by its own bytes. */
  function Filter(mem: Memory, addr: nat, vl: nat, test: Test, ps: seq<nat>): seq<Found>
  {
    if ps == [] then []
    else
      var a := addr + ps[|ps| - 1];
      var rest := Filter(mem, addr, vl, test, ps[..|ps| - 1]);
      if test(Slice(mem, a, vl)) then rest + [Found(a, Slice(mem, a, vl))] else rest
  }

  lemma FilterSnoc(mem: Memory, addr: nat, vl: nat, test: Test, ps: seq<nat>, p: nat)
    ensures var v := Slice(mem, addr + p, vl);
            Filter(mem, addr, vl, test, ps + [p])
            == if test(v) then Filter(mem, addr, vl, test, ps) + [Found(addr + p, v)]
              else Filter(mem, addr, vl, test, ps)
  {
    assert (ps + [p])[..|ps|] == ps;
  }

  ghost predicate Whole(ps: seq<nat>, vl: nat, len: nat)
  {
    forall p :: p in ps ==> p + vl <= len
  }

  /** Matches of one chunk held in `readBuf`; `seen` are the positions visited before it. */
  method TestChunk(readBuf: array<byte>, mem: Memory, addr: nat, pos: nat, toRead: nat, vl: nat, step: nat, test: Test,
                   ghost len: nat, ghost seen: seq<nat>, found0: seq<Found>) returns (found: seq<Found>)
    requires 0 < vl <= readBuf.Length && 0 < step && 0 < toRead <= readBuf.Length
    requires readBuf[..toRead] == Slice(mem, addr + pos, toRead)
    requires pos + toRead <= len && (toRead < vl ==> pos + toRead == len)
    requires Whole(seen, vl, len) ==> found0 == Filter(mem, addr, vl, test, seen)
    ensures var ps := seen + Positions(pos, Tested(toRead, vl, step), step);
            Whole(ps, vl, len) ==> found == Filter(mem, addr, vl, test, ps)
  {
    hide Off, Filter, Slice, G.SlotsIn;
    found := found0;
    var limit := if toRead >= vl then toRead - vl else 0;
    var j: nat := 0;
    ghost var k: nat := 0;
    OffZero(step);
    ghost var all := Positions(pos, Tested(toRead, vl, step), step);
    assert seen + all[..0] == seen;
    while j <= limit
      invariant j == Off(k, step) && k <= Tested(toRead, vl, step)
      invariant j <= limit <==> k < Tested(toRead, vl, step)
      invariant Whole(seen + all[..k], vl, len) ==> found == Filter(mem, addr, vl, test, seen + all[..k])
      decreases limit + step - j
    {
      var v := readBuf[j..j + vl];
      VisitStep(mem, addr, pos, toRead, vl, step, test, len, seen, k);
      if j + vl <= toRead {
        SliceOfSlice(mem, addr + pos, toRead, addr + pos + j, vl);
        assert v == readBuf[..toRead][j..j + vl];
      }
      if test(v) { found := found + [Found(addr + (pos + j), v)]; }
      LimitStep(toRead, vl, step, k);
      k := k + 1;
      j := j + step;
    }
    assert all[..k] == all;
  }

  lemma VisitStep(mem: Memory, addr: nat, pos: nat, toRead: nat, vl: nat, step: nat, test: Test, len: nat,
                  seen: seq<nat>, k: nat)
    requires 0 < vl && 0 < step && k < Tested(toRead, vl, step)
    ensures var all := Positions(pos, Tested(toRead, vl, step), step);
            var v := Slice(mem, addr + (pos + Off(k, step)), vl);
            && (Whole(seen + all[..k + 1], vl, len) ==>
              Whole(seen + all[..k], vl, len) && pos + Off(k, step) + vl <= len)
            && Filter(mem, addr, vl, test, seen + all[..k + 1])
               == if test(v) then Filter(mem, addr, vl, test, seen + all[..k]) + [Found(addr + (pos + Off(k, step)), v)]
                  else Filter(mem, addr, vl, test, seen + all[..k])
  {
    hide Off, Filter, Slice, G.SlotsIn;
    var all := Positions(pos, Tested(toRead, vl, step), step);
    assert seen + all[..k + 1] == (seen + all[..k]) + [all[k]];
    FilterSnoc(mem, addr, vl, test, seen + all[..k], all[k]);
    WholeSnoc(seen + all[..k], all[k], vl, len);
  }

  lemma WholeSnoc(ps: seq<nat>, p: nat, vl: nat, len: nat)
    ensures Whole(ps + [p], vl, len) <==> Whole(ps, vl, len) && p + vl <= len
  {
    if Whole(ps + [p], vl, len) {
      assert p in ps + [p];
      forall q | q in ps ensures q + vl <= len { assert q in ps + [p]; }
    }
  }

  lemma LimitStep(toRead: nat, vl: nat, step: nat, k: nat)
    requires 0 < vl && 0 < step && k < Tested(toRead, vl, step)
    ensures Off(k + 1, step) == Off(k, step) + step
    ensures Off(k + 1, step) <= (if toRead >= vl then toRead - vl else 0) <==> k + 1 < Tested(toRead, vl, step)
  {
    if toRead >= vl {
      hide Off;
      G.SlotsInFit(toRead, vl, step, k + 1);
      OffNext(k, step);
    }
  }

  /** turboscan_scan_pass_range with the generic comparator, for any step: when the visits are exactly the whole
      elements, so are the matches. */
  method Pass(mem: Memory, addr: nat, len: nat, vl: nat, step: nat, chunk: nat, test: Test, readBuf: array<byte>)
    returns (found: seq<Found>, ghost visited: seq<nat>)
    requires 0 < vl <= chunk == readBuf.Length && 0 < step && chunk + step < U64
    modifies readBuf
    ensures visited == Visits(0, len, vl, step, chunk)
    ensures VisitsAreFlat(len, vl, step, chunk) ==> found == Filter(mem, addr, vl, test, FlatPositions(len, vl, step))
  {
    hide Off, Filter, Slice, G.SlotsIn, Tested, Positions, FlatPositions, Advance, Visits, Whole, VisitsAreFlat, Splice;
    found, visited := [], [];
    var pos: nat, remaining: nat := 0, len;
    FilterNone(mem, addr, vl, test);
    assert [] + Visits(0, len, vl, step, chunk) == Visits(0, len, vl, step, chunk);
    while remaining > 0
      invariant pos + remaining == len
      invariant visited + Visits(pos, remaining, vl, step, chunk) == Visits(0, len, vl, step, chunk)
      invariant Whole(visited, vl, len) ==> found == Filter(mem, addr, vl, test, visited)
    {
      var toRead := if remaining > chunk then chunk else remaining;
      ghost var stale := readBuf[..];
      Blit(readBuf, 0, Slice(mem, addr + pos, toRead));
      Overwritten(stale, Slice(mem, addr + pos, toRead));
      NextVisits(visited, pos, remaining, vl, step, chunk);
      found := TestChunk(readBuf, mem, addr, pos, toRead, vl, step, test, len, visited, found);
      var advance := Advance(toRead, vl, step);
      visited := visited + Positions(pos, Tested(toRead, vl, step), step);
      pos, remaining := pos + advance, remaining - advance;
    }
    NoVisits(visited, pos, vl, step, chunk);
    VisitsExactlyWhenFlat(len, vl, step, chunk);
    FlatWhole(len, vl, step);
  }

  lemma Overwritten(buf: seq<byte>, src: seq<byte>)
    requires |src| <= |buf|
    ensures Splice(buf, 0, src)[..|src|] == src
  {
  }

  lemma NextVisits(seen: seq<nat>, pos: nat, remaining: nat, vl: nat, step: nat, chunk: nat)
    requires vl > 0 && step > 0 && chunk > 0 && remaining > 0
    ensures var toRead := if remaining > chunk then chunk else remaining;
            var a := Advance(toRead, vl, step);
            seen + Visits(pos, remaining, vl, step, chunk)
            == (seen + Positions(pos, Tested(toRead, vl, step), step)) + Visits(pos + a, remaining - a, vl, step, chunk)
  {
  }

  lemma NoVisits(seen: seq<nat>, pos: nat, vl: nat, step: nat, chunk: nat)
    requires vl > 0 && step > 0 && chunk > 0
    ensures seen + Visits(pos, 0, vl, step, chunk) == seen
  {
  }

  lemma FlatWhole(len: nat, vl: nat, step: nat)
    requires vl > 0 && step > 0
    ensures Whole(FlatPositions(len, vl, step), vl, len)
  {
    hide FlatPositions;
    FlatAreWhole(len, vl, step);
  }

  lemma FilterNone(mem: Memory, addr: nat, vl: nat, test: Test)
    ensures Filter(mem, addr, vl, test, []) == []
  {
  }
}
