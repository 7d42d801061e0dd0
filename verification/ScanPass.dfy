/** The first pass of a scan: the range is read in chunks, matching elements are stored or streamed. */
module ScanPass {
  import opened Bytes
  import opened Compare
  import SF = SimdFind

  datatype Found = Found(addr: nat, val: seq<byte>)

  type Test = seq<byte> -> bool

  /** Specification: the matching elements among the first `n` of a range, in ascending order. */
  function Flat(mem: Memory, addr: nat, vl: nat, test: Test, n: nat): (s: seq<Found>)
    ensures |s| <= n
  {
    if n == 0 then []
    else
      var a := addr + Off(n - 1, vl);
      var v := Slice(mem, a, vl);
      if test(v) then Flat(mem, addr, vl, test, n - 1) + [Found(a, v)] else Flat(mem, addr, vl, test, n - 1)
  }

  /** A range may be scanned in two consecutive parts. */
  lemma {:induction false} FlatSplit(mem: Memory, addr: nat, vl: nat, test: Test, a: nat, b: nat)
    ensures Flat(mem, addr, vl, test, a + b)
         == Flat(mem, addr, vl, test, a) + Flat(mem, addr + Off(a, vl), vl, test, b)
  {
    hide Slice;
    if b > 0 {
      FlatSplit(mem, addr, vl, test, a, b - 1);
      OffSum(a, b - 1, vl);
      assert a + b - 1 == a + (b - 1);
    }
  }

  lemma {:induction false} FlatIn(mem: Memory, addr: nat, vl: nat, test: Test, n: nat, len: nat)
    requires Off(n, vl) <= len
    ensures forall f :: f in Flat(mem, addr, vl, test, n) ==>
            addr <= f.addr && f.addr + vl <= addr + len && |f.val| == vl
  {
    if n > 0 { FlatIn(mem, addr, vl, test, n - 1, len); }
  }

  /** The list holds exactly the elements that pass the test, each with its bytes, at ascending addresses. */
  lemma {:induction false} FlatComplete(mem: Memory, addr: nat, vl: nat, test: Test, n: nat)
    requires vl > 0
    ensures forall k :: 0 <= k < n ==>
              (ElementAt(mem, addr, vl, k) in Flat(mem, addr, vl, test, n) <==> test(ElementAt(mem, addr, vl, k).val))
    ensures forall f :: f in Flat(mem, addr, vl, test, n) ==> exists k :: 0 <= k < n && f == ElementAt(mem, addr, vl, k)
    ensures forall i, j :: 0 <= i < j < |Flat(mem, addr, vl, test, n)| ==>
              Flat(mem, addr, vl, test, n)[i].addr < Flat(mem, addr, vl, test, n)[j].addr
  {
    if n > 0 {
      FlatComplete(mem, addr, vl, test, n - 1);
      FlatIn(mem, addr, vl, test, n - 1, Off(n - 1, vl));
      var p, s, x := Flat(mem, addr, vl, test, n - 1), Flat(mem, addr, vl, test, n), ElementAt(mem, addr, vl, n - 1);
      FlatStep(mem, addr, vl, test, n);
      hide Flat, Slice, Off;
      assert x !in p;
      forall k | 0 <= k < n
        ensures ElementAt(mem, addr, vl, k) in s <==> test(ElementAt(mem, addr, vl, k).val)
      {
        if k < n - 1 { ElementsApart(mem, addr, vl, k, n - 1); }
      }
      forall f | f in s
        ensures exists k :: 0 <= k < n && f == ElementAt(mem, addr, vl, k)
      {
        if f in p { var k :| 0 <= k < n - 1 && f == ElementAt(mem, addr, vl, k); }
      }
    }
  }

  lemma FlatStep(mem: Memory, addr: nat, vl: nat, test: Test, n: nat)
    requires n > 0
    ensures var p, x := Flat(mem, addr, vl, test, n - 1), ElementAt(mem, addr, vl, n - 1);
            && Flat(mem, addr, vl, test, n) == (if test(x.val) then p + [x] else p)
            && x.addr == addr + Off(n - 1, vl)
  {
    OffIsProduct(n - 1, vl);
  }

  lemma ElementsApart(mem: Memory, addr: nat, vl: nat, i: nat, j: nat)
    requires i < j && vl > 0
    ensures ElementAt(mem, addr, vl, i) != ElementAt(mem, addr, vl, j)
  {
    MulDistributes(vl, j, i);
    MulAtLeast(vl, j - i);
  }

  /** Element `k` of a range of `vl`-byte elements. */
  function ElementAt(mem: Memory, addr: nat, vl: nat, k: nat): Found
  {
    Found(addr + k * vl, Slice(mem, addr + k * vl, vl))
  }

  function Equals(val: seq<byte>): Test
  {
    v => v == val
  }

  /** The element list one chunk contributes, from its match offsets. */
  function At(addr: nat, src: seq<byte>, vl: nat, offs: seq<nat>): (s: seq<Found>)
    ensures |s| == |offs|
  {
    if offs == [] then []
    else
      var o := offs[|offs| - 1];
      At(addr, src, vl, offs[..|offs| - 1]) + [Found(addr + o, if o + vl <= |src| then src[o..o + vl] else [])]
  }

  lemma AtSnoc(addr: nat, src: seq<byte>, vl: nat, offs: seq<nat>, o: nat)
    ensures At(addr, src, vl, offs + [o])
         == At(addr, src, vl, offs) + [Found(addr + o, if o + vl <= |src| then src[o..o + vl] else [])]
  {
    assert (offs + [o])[..|offs|] == offs;
  }

  /** The offsets the search reports are the flat list of the chunk. */
  lemma {:induction false} ChunkIsFlat(mem: Memory, addr: nat, len: nat, val: seq<byte>, n: nat)
    requires Off(n, |val|) <= len && |val| > 0
    ensures At(addr, Slice(mem, addr, len), |val|, SF.Offsets(Slice(mem, addr, len), val, |val|, n))
         == Flat(mem, addr, |val|, Equals(val), n)
  {
    hide Slice, At, Flat, SF.Offsets, Off, SF.HoldsAt;
    var src := Slice(mem, addr, len);
    if n > 0 {
      var o := Off(n - 1, |val|);
      OffNext(n - 1, |val|);
      ChunkIsFlat(mem, addr, len, val, n - 1);
      AtSnoc(addr, src, |val|, SF.Offsets(src, val, |val|, n - 1), o);
      StepFlat(mem, addr, len, val, n - 1);
    } else {
      EmptyFlat(mem, addr, len, val);
    }
  }

  lemma EmptyFlat(mem: Memory, addr: nat, len: nat, val: seq<byte>)
    ensures At(addr, Slice(mem, addr, len), |val|, SF.Offsets(Slice(mem, addr, len), val, |val|, 0)) == []
    ensures Flat(mem, addr, |val|, Equals(val), 0) == []
  {
  }

  lemma StepFlat(mem: Memory, addr: nat, len: nat, val: seq<byte>, k: nat)
    requires Off(k, |val|) + |val| <= len
    ensures var src, o := Slice(mem, addr, len), Off(k, |val|);
            var hit := SF.HoldsAt(src, val, o);
            && SF.Offsets(src, val, |val|, k + 1)
               == (if hit then SF.Offsets(src, val, |val|, k) + [o] else SF.Offsets(src, val, |val|, k))
            && Flat(mem, addr, |val|, Equals(val), k + 1)
               == (if hit then Flat(mem, addr, |val|, Equals(val), k) + [Found(addr + o, src[o..o + |val|])]
                   else Flat(mem, addr, |val|, Equals(val), k))
  {
    hide Slice, Off;
    SliceOfSlice(mem, addr, len, addr + Off(k, |val|), |val|);
  }

  lemma OffsetInside(src: seq<byte>, val: seq<byte>, n: nat, i: nat)
    requires i < |SF.Offsets(src, val, |val|, n)|
    ensures SF.Offsets(src, val, |val|, n)[i] + |val| <= |src|
  {
    hide SF.Offsets;
    SF.OffsetsBelow(src, val, |val|, n);
    assert SF.Offsets(src, val, |val|, n)[i] in SF.Offsets(src, val, |val|, n);
  }

  /** Exact scan of one chunk through the vector search. */
  method ChunkMatches(mem: Memory, addr: nat, len: nat, t: IntType, val: seq<byte>, simdOff: array<nat>, max: nat)
    returns (found: seq<Found>)
    requires IsValue(t, val) && max <= simdOff.Length && len / Size(t) <= max && len <= U32
    modifies simdOff
    ensures found == Flat(mem, addr, |val|, Equals(val), len / Size(t))
  {
    hide Off, Flat, Slice, SF.Offsets, SF.HoldsAt;
    var src := Slice(mem, addr, len);
    var cnt := SF.FindExact(t, src, val, simdOff, max);
    QuotientOff(len, Size(t));
    ChunkIsFlat(mem, addr, len, val, len / Size(t));
    ghost var offs := simdOff[..cnt];
    found := [];
    for k := 0 to cnt
      invariant simdOff[..cnt] == offs && found == At(addr, src, |val|, offs[..k])
    {
      var coff := simdOff[k];
      OffsetInside(src, val, len / Size(t), k);
      assert offs[..k + 1] == offs[..k] + [coff];
      AtSnoc(addr, src, |val|, offs[..k], coff);
      found := found + [Found(addr + coff, src[coff..coff + |val|])];
    }
    assert offs[..cnt] == offs;
  }

  /** Resident pass: keep every match unless the session buffer of `cap` records overflows. */
  method ExactPass(mem: Memory, addr: nat, len: nat, t: IntType, val: seq<byte>, chunk: nat, simdOff: array<nat>,
                   cap: nat)
    returns (ok: bool, found: seq<Found>)
    requires IsValue(t, val) && chunk % Size(t) == 0 && 0 < chunk <= U32 && chunk / Size(t) <= simdOff.Length
    modifies simdOff
    ensures ok <==> |Flat(mem, addr, |val|, Equals(val), len / Size(t))| <= cap
    ensures ok ==> found == Flat(mem, addr, |val|, Equals(val), len / Size(t))
  {
    hide Off, Flat, Slice;
    var vl := |val|;
    found := [];
    var pos: nat := 0;
    ghost var done: nat := 0;
    ghost var total := len / vl;
    NothingFound(mem, addr, vl, val);
    while pos < len
      invariant pos <= len && (pos < len ==> pos == Off(done, vl)) && done <= total && (pos == len ==> done == total)
      invariant found == Flat(mem, addr, vl, Equals(val), done) && |found| <= cap
      decreases len - pos
    {
      var toRead := if len - pos > chunk then chunk else len - pos;
      QuotientMono(toRead, chunk, vl);
      var more := ChunkMatches(mem, addr + pos, toRead, t, val, simdOff, chunk / vl);
      FlatSplit(mem, addr, vl, Equals(val), done, toRead / vl);
      ChunkCount(len, vl, done, toRead, chunk);
      FlatPrefix(mem, addr, vl, Equals(val), done + toRead / vl, total);
      if |found| + |more| > cap { return false, found; }
      found := found + more;
      pos, done := pos + toRead, done + toRead / vl;
    }
    ok := true;
  }

  lemma NothingFound(mem: Memory, addr: nat, vl: nat, val: seq<byte>)
    ensures Flat(mem, addr, vl, Equals(val), 0) == [] && Off(0, vl) == 0
  {
  }

  lemma FlatPrefix(mem: Memory, addr: nat, vl: nat, test: Test, a: nat, n: nat)
    requires a <= n
    ensures |Flat(mem, addr, vl, test, a)| <= |Flat(mem, addr, vl, test, n)|
  {
    hide Flat, Off;
    FlatSplit(mem, addr, vl, test, a, n - a);
  }

  lemma QuotientMono(a: nat, b: nat, m: nat)
    requires a <= b && m > 0
    ensures a / m <= b / m
  {
    var qa, qb := a / m, b / m;
    if qa > qb {
      assert m * qb + b % m == b;
      assert m * qa <= a;
      MulAtLeast(m, qa - qb);
      MulDistributes(m, qa, qb);
    }
  }

  /** Whole chunks hold whole elements; only the last chunk may end in a fragment. */
  lemma ChunkCount(len: nat, vl: nat, done: nat, toRead: nat, chunk: nat)
    requires vl > 0 && chunk % vl == 0 && chunk > 0 && Off(done, vl) < len
    requires toRead == if len - Off(done, vl) > chunk then chunk else len - Off(done, vl)
    ensures done + toRead / vl <= len / vl
    ensures Off(done, vl) + toRead < len ==> Off(done, vl) + toRead == Off(done + toRead / vl, vl)
    ensures Off(done, vl) + toRead == len ==> done + toRead / vl == len / vl
  {
    hide Off;
    var q := toRead / vl;
    QuotientOff(toRead, vl);
    OffSum(done, q, vl);
    if toRead == chunk { OffIsProduct(q, vl); }
    if Off(done, vl) + toRead == len {
      QuotientIs(len, vl, done + q);
    } else {
      QuotientOff(len, vl);
      OffNext(len / vl, vl);
      if done + q > len / vl { OffMono(len / vl + 1, done + q, vl); }
    }
  }
}
