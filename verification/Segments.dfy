/** Slot addressing: the slots of a snapshot are the concatenation of its segments' slots. */
module Segments {
  import opened Bytes

  datatype Region = Region(addr: nat, length: nat)
  datatype Segment = Segment(addr: nat, slotStart: nat, nslots: nat)

  /** Whole values of `vl` bytes at multiples of `step` that fit into `len` bytes. */
  function SlotsIn(len: nat, vl: nat, step: nat): (n: nat)
    requires vl > 0 && step > 0
  {
    if len >= vl then (len - vl) / step + 1 else 0
  }

  lemma SlotsInFit(len: nat, vl: nat, step: nat, i: nat)
    requires vl > 0 && step > 0
    ensures i < SlotsIn(len, vl, step) <==> Off(i, step) + vl <= len
  {
    if len >= vl {
      hide Off;
      var q := (len - vl) / step;
      QuotientOff(len - vl, step);
      OffNext(q, step);
      if i <= q {
        OffMono(i, q, step);
      } else {
        OffMono(q + 1, i, step);
      }
    }
  }

  function Total(segs: seq<Segment>): nat
  {
    if segs == [] then 0 else segs[0].nslots + Total(segs[1..])
  }

  /** Each segment starts where the slots of its predecessors end. */
  predicate Numbered(segs: seq<Segment>, from: nat)
  {
    segs == [] || (segs[0].slotStart == from && Numbered(segs[1..], from + segs[0].nslots))
  }

  /** Specification: walk the segments until the one that holds slot `i`. */
  function AddrOf(segs: seq<Segment>, stride: nat, i: nat): nat
    requires i < Total(segs)
  {
    if i < segs[0].nslots then segs[0].addr + Off(i, stride)
    else AddrOf(segs[1..], stride, i - segs[0].nslots)
  }

  function SlotAddrs(segs: seq<Segment>, stride: nat): (a: seq<nat>)
    ensures |a| == Total(segs)
    ensures forall i :: 0 <= i < |a| ==> a[i] == AddrOf(segs, stride, i)
  {
    seq(Total(segs), i requires 0 <= i < Total(segs) => AddrOf(segs, stride, i))
  }

  lemma {:induction false} NumberedAt(segs: seq<Segment>, from: nat, k: nat)
    requires Numbered(segs, from) && k < |segs|
    ensures segs[k].slotStart >= from
    ensures segs[k].slotStart + segs[k].nslots <= from + Total(segs)
    ensures k + 1 < |segs| ==> segs[k + 1].slotStart == segs[k].slotStart + segs[k].nslots
    ensures k + 1 == |segs| ==> segs[k].slotStart + segs[k].nslots == from + Total(segs)
  {
    if k > 0 { NumberedAt(segs[1..], from + segs[0].nslots, k - 1); }
    else if |segs| > 1 { NumberedAt(segs[1..], from + segs[0].nslots, 0); }
  }

  /** The segment whose own slot range holds `i` is the one the walk stops at. */
  lemma {:induction false} WalkStopsAt(segs: seq<Segment>, from: nat, stride: nat, k: nat, i: nat)
    requires Numbered(segs, from) && k < |segs|
    requires from <= i && segs[k].slotStart <= i < segs[k].slotStart + segs[k].nslots
    ensures i - from < Total(segs)
    ensures AddrOf(segs, stride, i - from) == segs[k].addr + Off(i - segs[k].slotStart, stride)
  {
    NumberedAt(segs, from, k);
    if k > 0 {
      NumberedAt(segs[1..], from + segs[0].nslots, k - 1);
      assert segs[1..][k - 1] == segs[k];
      WalkStopsAt(segs[1..], from + segs[0].nslots, stride, k - 1, i);
    }
  }

  /** fs_slot_addr: binary search for the last segment that starts at or before `i`. */
  method SlotAddr(segs: seq<Segment>, stride: nat, i: nat) returns (addr: nat)
    requires Numbered(segs, 0) && i < Total(segs)
    ensures addr == AddrOf(segs, stride, i)
  {
    var lo, hi := 0, |segs|;
    while lo + 1 < hi
      invariant 0 <= lo < hi <= |segs|
      invariant segs[lo].slotStart <= i
      invariant hi < |segs| ==> i < segs[hi].slotStart
    {
      var mid := (lo + hi) / 2;
      if segs[mid].slotStart <= i { lo := mid; } else { hi := mid; }
    }
    NumberedAt(segs, 0, lo);
    WalkStopsAt(segs, 0, stride, lo, i);
    addr := segs[lo].addr + Off(i - segs[lo].slotStart, stride);
  }

  /** Regions in ascending order that do not overlap. */
  predicate Ascending(rs: seq<Region>)
  {
    forall p, q :: 0 <= p < q < |rs| ==> rs[p].addr + rs[p].length <= rs[q].addr
  }

  /** The segment table fs_snapshot_create builds from the requested regions. */
  function TableFrom(rs: seq<Region>, vl: nat, step: nat, from: nat): (segs: seq<Segment>)
    requires vl > 0 && step > 0
    ensures |segs| == |rs|
    ensures Numbered(segs, from)
  {
    if rs == [] then []
    else
      var n := SlotsIn(rs[0].length, vl, step);
      [Segment(rs[0].addr, from, n)] + TableFrom(rs[1..], vl, step, from + n)
  }

  lemma TableStep(rs: seq<Region>, vl: nat, step: nat, from: nat, g: nat)
    requires vl > 0 && step > 0 && g < |rs|
    ensures var n := SlotsIn(rs[g].length, vl, step);
            && TableFrom(rs[g..], vl, step, from)
               == [Segment(rs[g].addr, from, n)] + TableFrom(rs[g + 1..], vl, step, from + n)
            && Total(TableFrom(rs[g..], vl, step, from)) == n + Total(TableFrom(rs[g + 1..], vl, step, from + n))
  {
    var n := SlotsIn(rs[g].length, vl, step);
    assert rs[g..][0] == rs[g] && rs[g..][1..] == rs[g + 1..];
    assert TableFrom(rs[g..], vl, step, from)[1..] == TableFrom(rs[g + 1..], vl, step, from + n);
  }

  method BuildTable(rs: seq<Region>, vl: nat, step: nat) returns (segs: seq<Segment>, slotCount: nat)
    requires vl > 0 && step > 0
    ensures segs == TableFrom(rs, vl, step, 0)
    ensures slotCount == Total(segs)
  {
    hide SlotsIn, TableFrom, Numbered;
    segs, slotCount := [], 0;
    for g := 0 to |rs|
      invariant g <= |rs|
      invariant segs + TableFrom(rs[g..], vl, step, slotCount) == TableFrom(rs, vl, step, 0)
      invariant slotCount + Total(TableFrom(rs[g..], vl, step, slotCount)) == Total(TableFrom(rs, vl, step, 0))
    {
      var ns := SlotsIn(rs[g].length, vl, step);
      TableStep(rs, vl, step, slotCount, g);
      segs := segs + [Segment(rs[g].addr, slotCount, ns)];
      slotCount := slotCount + ns;
    }
  }

  /** Every slot lies inside the region it belongs to. */
  lemma {:induction false} SlotInsideRegion(rs: seq<Region>, vl: nat, step: nat, from: nat, i: nat)
    returns (g: nat, o: nat)
    requires vl > 0 && step > 0 && i < Total(TableFrom(rs, vl, step, from))
    ensures g < |rs| && AddrOf(TableFrom(rs, vl, step, from), step, i) == rs[g].addr + o
    ensures o + vl <= rs[g].length
  {
    var segs := TableFrom(rs, vl, step, from);
    var n := SlotsIn(rs[0].length, vl, step);
    assert segs[1..] == TableFrom(rs[1..], vl, step, from + n);
    if i < n {
      SlotsInFit(rs[0].length, vl, step, i);
      g, o := 0, Off(i, step);
    } else {
      g, o := SlotInsideRegion(rs[1..], vl, step, from + n, i - n);
      g := g + 1;
    }
  }

  /** Does slot `k` of this region lie at `a`, with its whole value inside the region? */
  predicate SlotLiesAt(r: Region, vl: nat, step: nat, k: nat, a: nat)
  {
    a == r.addr + k * step && k * step + vl <= r.length
  }

  ghost predicate WholeSlot(rs: seq<Region>, vl: nat, step: nat, a: nat)
  {
    exists g: nat, k: nat :: g < |rs| && SlotLiesAt(rs[g], vl, step, k, a)
  }

  ghost predicate HasSlot(segs: seq<Segment>, step: nat, a: nat)
  {
    exists i :: 0 <= i < Total(segs) && AddrOf(segs, step, i) == a
  }

  /** Slots are numbered by their place in the region. */
  lemma SlotNumber(r: Region, vl: nat, step: nat, k: nat)
    requires vl > 0 && step > 0
    ensures SlotLiesAt(r, vl, step, k, r.addr + Off(k, step)) <==> k < SlotsIn(r.length, vl, step)
    ensures Off(k, step) == k * step
  {
    OffIsProduct(k, step);
    SlotsInFit(r.length, vl, step, k);
  }

  /** The slots of the table are exactly the whole slots of the regions. */
  lemma {:induction false} SlotsAreWhole(rs: seq<Region>, vl: nat, step: nat, from: nat, a: nat)
    requires vl > 0 && step > 0
    ensures HasSlot(TableFrom(rs, vl, step, from), step, a) <==> WholeSlot(rs, vl, step, a)
  {
    hide SlotsIn, Off;
    var segs := TableFrom(rs, vl, step, from);
    if rs != [] {
      var n := SlotsIn(rs[0].length, vl, step);
      var rest := TableFrom(rs[1..], vl, step, from + n);
      assert segs[1..] == rest;
      SlotsAreWhole(rs[1..], vl, step, from + n, a);
      if HasSlot(segs, step, a) {
        var i :| 0 <= i < Total(segs) && AddrOf(segs, step, i) == a;
        if i < n {
          SlotNumber(rs[0], vl, step, i);
          assert SlotLiesAt(rs[0], vl, step, i, a);
        } else {
          assert AddrOf(rest, step, i - n) == a;
          var g: nat, k: nat :| g < |rs[1..]| && SlotLiesAt(rs[1..][g], vl, step, k, a);
          assert SlotLiesAt(rs[g + 1], vl, step, k, a);
        }
      }
      if WholeSlot(rs, vl, step, a) {
        var g: nat, k: nat :| g < |rs| && SlotLiesAt(rs[g], vl, step, k, a);
        if g == 0 {
          SlotNumber(rs[0], vl, step, k);
          assert AddrOf(segs, step, k) == a;
        } else {
          assert SlotLiesAt(rs[1..][g - 1], vl, step, k, a);
          var i :| 0 <= i < Total(rest) && AddrOf(rest, step, i) == a;
          assert AddrOf(segs, step, i + n) == a;
        }
      }
    }
  }

  /** With ascending disjoint regions slots ascend, and with a stride of at least one value they do not overlap. */
  lemma {:induction false} SlotsAscend(rs: seq<Region>, vl: nat, step: nat, from: nat, i: nat, j: nat)
    requires 0 < vl && 0 < step && Ascending(rs)
    requires i < j < Total(TableFrom(rs, vl, step, from))
    ensures AddrOf(TableFrom(rs, vl, step, from), step, i) + (if vl <= step then vl else step)
         <= AddrOf(TableFrom(rs, vl, step, from), step, j)
  {
    hide SlotsIn, Off;
    var segs := TableFrom(rs, vl, step, from);
    var n := SlotsIn(rs[0].length, vl, step);
    assert segs[1..] == TableFrom(rs[1..], vl, step, from + n);
    if j < n {
      OffNext(i, step);
      OffMono(i + 1, j, step);
    } else if i < n {
      SlotsInFit(rs[0].length, vl, step, i);
      var g, o := SlotInsideRegion(rs[1..], vl, step, from + n, j - n);
      assert rs[1..][g] == rs[g + 1];
    } else {
      SlotsAscend(rs[1..], vl, step, from + n, i - n, j - n);
    }
  }

  /** Documentation promises disjoint regions in any order; slots then still never share a byte. */
  predicate Disjoint(rs: seq<Region>)
  {
    forall p, q :: 0 <= p < q < |rs| ==>
      rs[p].addr + rs[p].length <= rs[q].addr || rs[q].addr + rs[q].length <= rs[p].addr
  }
}
