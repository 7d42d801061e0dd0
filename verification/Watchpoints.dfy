/** Hardware watchpoints: the debug-register block behind the four slots. */
module Watchpoints {

  datatype Watch = Off | On(addr: nat, length: bv64, rw: bv64)

  /** DR0-DR3 and DR7 as the debugger keeps them. */
  datatype Regs = Regs(dr: seq<nat>, dr7: bv64)

  /** A watchpoint request; the packet's length and type fields are 32 bits wide. */
  datatype Request = Request(index: nat, enabled: bool, length: bv64, rw: bv64, addr: nat)

  // ---- reading DR7 as section 17.2.4 of the Intel SDM, Volume 3B lays it out

  function LocalGlobal(dr7: bv64, n: nat): bv64
    requires n < 4
  {
    if n == 0 then dr7 & 3 else if n == 1 then (dr7 >> 2) & 3 else if n == 2 then (dr7 >> 4) & 3 else (dr7 >> 6) & 3
  }

  function ReadWrite(dr7: bv64, n: nat): bv64
    requires n < 4
  {
    if n == 0 then (dr7 >> 16) & 3
    else if n == 1 then (dr7 >> 20) & 3
    else if n == 2 then (dr7 >> 24) & 3
    else (dr7 >> 28) & 3
  }

  function Len(dr7: bv64, n: nat): bv64
    requires n < 4
  {
    if n == 0 then (dr7 >> 18) & 3
    else if n == 1 then (dr7 >> 22) & 3
    else if n == 2 then (dr7 >> 26) & 3
    else (dr7 >> 30) & 3
  }

  /** What the processor watches with breakpoint register n. */
  function Decoded(r: Regs, n: nat): (w: Watch)
    requires |r.dr| == 4 && n < 4
  {
    if LocalGlobal(r.dr7, n) == 0 then Off else On(r.dr[n], Len(r.dr7, n), ReadWrite(r.dr7, n))
  }

  // ---- the handler's arithmetic

  function EnableField(x: bv64, i: nat): bv64
    requires i < 4
  {
    if i == 0 then x else if i == 1 then x << 2 else if i == 2 then x << 4 else x << 6
  }

  function ControlField(x: bv64, i: nat): bv64
    requires i < 4
  {
    if i == 0 then x << 16 else if i == 1 then x << 20 else if i == 2 then x << 24 else x << 28
  }

  function Without(x: bv64, m: bv64): bv64 { x & !m }
  function With(x: bv64, v: bv64): bv64 { x | v }

  /** Both enable bits and the length and type fields of one watchpoint. */
  function Setting(i: nat, length: bv64, rw: bv64): bv64
    requires i < 4
  {
    EnableField(3, i) | ControlField((length << 2) | rw, i)
  }

  function Cleared(dr7: bv64, i: nat): bv64
    requires i < 4
  {
    Without(dr7, Mask(i))
  }

  function Programmed(dr7: bv64, i: nat, length: bv64, rw: bv64): bv64
    requires i < 4
  {
    With(Cleared(dr7, i), Setting(i, length, rw))
  }

  function Apply(r: Regs, q: Request): (r': Regs)
    requires |r.dr| == 4
    ensures |r'.dr| == 4
  {
    if q.index > 3 then r
    else if q.enabled then Regs(r.dr[q.index := q.addr], Programmed(r.dr7, q.index, q.length, q.rw))
    else Regs(r.dr[q.index := 0], Cleared(r.dr7, q.index))
  }

  // ---- field by field

  lemma ClearedOwn(dr7: bv64, i: nat)
    requires i < 4
    ensures LocalGlobal(Cleared(dr7, i), i) == 0
  {
  }

  lemma ProgrammedOwn(dr7: bv64, i: nat, length: bv64, rw: bv64)
    requires i < 4 && length < 4 && rw < 4
    ensures LocalGlobal(Programmed(dr7, i, length, rw), i) == 3
    ensures ReadWrite(Programmed(dr7, i, length, rw), i) == rw && Len(Programmed(dr7, i, length, rw), i) == length
  {
  }

  /** Two control words that agree on every field of watchpoint n. */
  predicate SameFields(x: bv64, y: bv64, n: nat)
    requires n < 4
  {
    LocalGlobal(x, n) == LocalGlobal(y, n) && ReadWrite(x, n) == ReadWrite(y, n) && Len(x, n) == Len(y, n)
  }

  /** All DR7 bits of one watchpoint. */
  function Mask(i: nat): bv64
    requires i < 4
  {
    ControlField(0xF, i) | EnableField(3, i)
  }

  lemma MasksDisjoint(i: nat, n: nat)
    requires i < 4 && n < 4 && n != i
    ensures Bits(Mask(i), Mask(n)) == 0
  {
  }

  function Bits(x: bv64, k: bv64): bv64 { x & k }

  lemma WrittenBits(d: bv64, m: bv64, v: bv64, k: bv64)
    requires Without(v, m) == 0 && Bits(m, k) == 0
    ensures Bits(With(Without(d, m), v), k) == Bits(d, k)
  {
    OrElsewhere(d, m, v, k);
  }

  lemma ClearedBits(d: bv64, m: bv64, k: bv64)
    requires Bits(m, k) == 0
    ensures Bits(Without(d, m), k) == Bits(d, k)
  {
    ClearElsewhere(d, m, k);
  }

  lemma ClearElsewhere(d: bv64, m: bv64, k: bv64)
    requires m & k == 0
    ensures (d & !m) & k == d & k
  {
  }

  lemma OrElsewhere(d: bv64, m: bv64, v: bv64, k: bv64)
    requires v & !m == 0 && m & k == 0
    ensures ((d & !m) | v) & k == d & k
  {
  }

  lemma InsideMask(i: nat, length: bv64, rw: bv64)
    requires i < 4 && length < 4 && rw < 4
    ensures Without(Setting(i, length, rw), Mask(i)) == 0
  {
    hide EnableField, ControlField, Mask;
    FieldsInside(i, length, rw);
  }

  lemma FieldsInside(i: nat, length: bv64, rw: bv64)
    requires i < 4 && length < 4 && rw < 4
    ensures (EnableField(3, i) | ControlField((length << 2) | rw, i)) & !Mask(i) == 0
  {
  }

  lemma EnableByMask(x: bv64, n: nat)
    requires n < 4
    ensures LocalGlobal(x, n) == LocalGlobal(Bits(x, Mask(n)), n)
  {
  }

  lemma ReadWriteByMask(x: bv64, n: nat)
    requires n < 4
    ensures ReadWrite(x, n) == ReadWrite(Bits(x, Mask(n)), n)
  {
  }

  lemma LenByMask(x: bv64, n: nat)
    requires n < 4
    ensures Len(x, n) == Len(Bits(x, Mask(n)), n)
  {
  }

  lemma FieldsByMask(x: bv64, y: bv64, n: nat)
    requires n < 4 && Bits(x, Mask(n)) == Bits(y, Mask(n))
    ensures SameFields(x, y, n)
  {
    hide LocalGlobal, ReadWrite, Len, Mask, Bits;
    EnableByMask(x, n);
    EnableByMask(y, n);
    ReadWriteByMask(x, n);
    ReadWriteByMask(y, n);
    LenByMask(x, n);
    LenByMask(y, n);
  }

  lemma OthersKept(d: bv64, i: nat, n: nat, length: bv64, rw: bv64)
    requires i < 4 && n < 4 && n != i && length < 4 && rw < 4
    ensures SameFields(Cleared(d, i), d, n) && SameFields(Programmed(d, i, length, rw), d, n)
  {
    hide SameFields, Mask, Setting, Bits, With, Without;
    MasksDisjoint(i, n);
    InsideMask(i, length, rw);
    WrittenBits(d, Mask(i), Setting(i, length, rw), Mask(n));
    ClearedBits(d, Mask(i), Mask(n));
    FieldsByMask(Cleared(d, i), d, n);
    FieldsByMask(Programmed(d, i, length, rw), d, n);
  }

  // ---- what the processor watches

  predicate Encodable(q: Request) { q.length < 4 && q.rw < 4 }

  function Asked(q: Request): Watch { if q.enabled then On(q.addr, q.length, q.rw) else Off }

  lemma OwnSlot(r: Regs, q: Request)
    requires |r.dr| == 4 && q.index < 4 && (q.enabled ==> Encodable(q))
    ensures Decoded(Apply(r, q), q.index) == Asked(q)
  {
    hide LocalGlobal, ReadWrite, Len, Cleared, Programmed;
    if q.enabled {
      ProgrammedOwn(r.dr7, q.index, q.length, q.rw);
    } else {
      ClearedOwn(r.dr7, q.index);
    }
  }

  lemma OtherSlots(r: Regs, q: Request, n: nat)
    requires |r.dr| == 4 && n < 4 && q.index != n && (q.enabled ==> Encodable(q))
    ensures Decoded(Apply(r, q), n) == Decoded(r, n)
  {
    hide LocalGlobal, ReadWrite, Len, Cleared, Programmed;
    if q.index < 4 {
      OthersKept(r.dr7, q.index, n, if q.enabled then q.length else 0, if q.enabled then q.rw else 0);
    }
  }

  lemma FieldsAreSmall(dr7: bv64, n: nat)
    requires n < 4
    ensures ReadWrite(dr7, n) < 4 && Len(dr7, n) < 4
  {
  }

  /** A request is honoured, and only that watchpoint changes, exactly when its length and type fit
      their two-bit fields. */
  lemma RequestExact(r: Regs, q: Request)
    requires |r.dr| == 4 && q.index < 4 && q.enabled
    ensures (Decoded(Apply(r, q), q.index) == Asked(q)
             && forall n: nat :: n < 4 && n != q.index ==> Decoded(Apply(r, q), n) == Decoded(r, n))
            <==> Encodable(q)
  {
    hide LocalGlobal, ReadWrite, Len, Cleared, Programmed;
    if Encodable(q) {
      OwnSlot(r, q);
      forall n: nat | n < 4 && n != q.index ensures Decoded(Apply(r, q), n) == Decoded(r, n) { OtherSlots(r, q, n); }
    } else {
      FieldsAreSmall(Apply(r, q).dr7, q.index);
    }
  }

  /** An oversized length reaches into the next watchpoint's fields. */
  lemma LengthSpills()
    ensures var r := Regs([0, 0x1000, 0, 0], Programmed(0, 1, 0, 1));
            Decoded(r, 1) == On(0x1000, 0, 1)
              && Decoded(Apply(r, Request(0, true, 8, 1, 0x2000)), 1) == On(0x1000, 0, 3)
  {
    var d := Programmed(0, 1, 0, 1);
    assert d == 0x10_000C;
    assert Programmed(d, 0, 8, 1) == 0x31_000F;
  }

  // ---- every run

  function ApplyAll(r: Regs, qs: seq<Request>): (r': Regs)
    requires |r.dr| == 4
    ensures |r'.dr| == 4
  {
    if |qs| == 0 then r else Apply(ApplyAll(r, qs[..|qs| - 1]), qs[|qs| - 1])
  }

  /** The last accepted request for a watchpoint, or what it watched before the run. */
  function Latest(before: Watch, qs: seq<Request>, n: nat): (w: Watch)
  {
    if |qs| == 0 then before
    else if qs[|qs| - 1].index == n then Asked(qs[|qs| - 1])
    else Latest(before, qs[..|qs| - 1], n)
  }

  /** After any sequence of requests DR7 and DR0-DR3 decode to exactly the latest request of each watchpoint. */
  lemma {:induction false} RunDecodes(r: Regs, qs: seq<Request>, n: nat)
    requires |r.dr| == 4 && n < 4 && forall k :: 0 <= k < |qs| && qs[k].enabled ==> Encodable(qs[k])
    ensures Decoded(ApplyAll(r, qs), n) == Latest(Decoded(r, n), qs, n)
  {
    hide Decoded, Apply, Asked, Encodable;
    if |qs| > 0 {
      var q, p := qs[|qs| - 1], ApplyAll(r, qs[..|qs| - 1]);
      RunDecodes(r, qs[..|qs| - 1], n);
      if q.index == n { OwnSlot(p, q); } else { OtherSlots(p, q, n); }
    }
  }

  /** The context's register block, rewritten by each request. */
  class Block {
    var dr: seq<nat>
    var dr7: bv64

    /** The register update of debug_set_watchpoint_handle. */
    method Set(q: Request) returns (ok: bool)
      requires |dr| == 4
      modifies this
      ensures |dr| == 4 && Regs(dr, dr7) == Apply(old(Regs(dr, dr7)), q) && (ok <==> q.index < 4)
      ensures ok && (q.enabled ==> Encodable(q)) ==> Decoded(Regs(dr, dr7), q.index) == Asked(q)
    {
      hide Setting, Mask, With, Without, Decoded;
      if q.index > 3 { return false; }
      ok := true;
      if q.enabled ==> Encodable(q) { OwnSlot(Regs(dr, dr7), q); }
      dr7 := Without(dr7, Mask(q.index));
      if q.enabled {
        dr := dr[q.index := q.addr];
        dr7 := With(dr7, Setting(q.index, q.length, q.rw));
      } else {
        dr := dr[q.index := 0];
      }
    }
  }
}
