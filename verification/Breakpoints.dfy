/** Software breakpoints: thirty slots of saved bytes laid over the target's text. */
module Breakpoints {
  import opened Bytes

  const SLOTS: nat := 30
  const TRAP: byte := 0xCC

  datatype Slot = Slot(enabled: bool, addr: nat, saved: byte)

  /** Bytes written by the target itself. */
  type Writes = map<nat, byte>

  /** `own` is the memory the target would have without a debugger. */
  datatype State = State(slots: seq<Slot>, mem: Memory, own: Memory)

  datatype Op =
    | Set(index: nat, enabled: bool, addr: nat)
    | Trapped(rip: nat, step: Writes)
    | Ran(writes: Writes)

  function Poke(m: Memory, a: nat, b: byte): Memory { x => if x == a then b else m(x) }
  function Apply(m: Memory, w: Writes): Memory { x => if x in w then w[x] else m(x) }

  predicate Armed(slots: seq<Slot>, x: nat)
  {
    exists i :: 0 <= i < |slots| && slots[i].enabled && slots[i].addr == x
  }

  // ---- the handlers

  function Enable(s: State, i: nat, a: nat): State
    requires i < |s.slots|
  {
    s.(slots := s.slots[i := Slot(true, a, s.mem(a))], mem := Poke(s.mem, a, TRAP))
  }

  function Disable(s: State, i: nat): State
    requires i < |s.slots|
  {
    var b := s.slots[i];
    s.(slots := s.slots[i := Slot(false, 0, b.saved)],
       mem := if b.enabled && b.addr != 0 then Poke(s.mem, b.addr, b.saved) else s.mem)
  }

  /** First slot whose address is the one before the stopped instruction pointer. */
  function Match(slots: seq<Slot>, at: nat): (i: nat)
    ensures i <= |slots|
    ensures i < |slots| ==> slots[i].addr == at != 0
    ensures forall j :: 0 <= j < i ==> slots[j].addr != at || at == 0
  {
    if |slots| == 0 then 0
    else
      var p := Match(slots[..|slots| - 1], at);
      if p < |slots| - 1 then p else if slots[|slots| - 1].addr == at != 0 then |slots| - 1 else |slots|
  }

  /** Instruction pointer arithmetic is modulo 2^64. */
  function Before(rip: nat): nat { (rip + U64 - 1) % U64 }

  /** A trap reported behind address `a` belongs to `a`, also across the end of the address space. */
  lemma BeforeNext(a: nat)
    requires a < 0x1_0000_0000_0000_0000
    ensures Before((a + 1) % 0x1_0000_0000_0000_0000) == a
  {
  }

  /** Memory while the target executes the single step: the trap is out. */
  function Disarmed(s: State, i: nat): Memory
    requires i < |s.slots|
  {
    Poke(s.mem, s.slots[i].addr, s.slots[i].saved)
  }

  function StepOver(s: State, i: nat, step: Writes): State
    requires i < |s.slots|
  {
    s.(mem := Poke(Apply(Disarmed(s, i), step), s.slots[i].addr, TRAP), own := Apply(s.own, step))
  }

  function Next(s: State, op: Op): (s': State)
    requires |s.slots| == SLOTS
    ensures |s'.slots| == SLOTS
  {
    match op
    case Set(i, on, a) => if i > SLOTS - 1 then s else if on then Enable(s, i, a) else Disable(s, i)
    case Trapped(rip, step) => var i := Match(s.slots, Before(rip)); if i < SLOTS then StepOver(s, i, step) else s
    case Ran(w) => s.(mem := Apply(s.mem, w), own := Apply(s.own, w))
  }

  // ---- the invariant

  /** A slot is in use exactly when its address is set, and used slots have distinct addresses. */
  predicate SlotsOk(slots: seq<Slot>)
  {
    && |slots| == SLOTS
    && (forall i :: 0 <= i < |slots| ==> (slots[i].enabled <==> slots[i].addr != 0))
    && (forall i, j :: 0 <= i < j < |slots| && slots[i].enabled && slots[j].enabled ==> slots[i].addr != slots[j].addr)
  }

  /** Every used slot holds the target's own byte and has a trap in memory. */
  predicate Saved(s: State)
  {
    forall i :: 0 <= i < |s.slots| && s.slots[i].enabled ==>
      s.slots[i].saved == s.own(s.slots[i].addr) && s.mem(s.slots[i].addr) == TRAP
  }

  ghost predicate Untouched(s: State)
  {
    forall x: nat :: !Armed(s.slots, x) ==> s.mem(x) == s.own(x)
  }

  ghost predicate Inv(s: State) { SlotsOk(s.slots) && Saved(s) && Untouched(s) }

  /** Memory with the saved bytes laid over it. */
  function Shown(slots: seq<Slot>, mem: Memory, x: nat): (b: byte)
  {
    if |slots| == 0 then mem(x)
    else
      var s := slots[|slots| - 1];
      if s.enabled && s.addr == x then s.saved else Shown(slots[..|slots| - 1], mem, x)
  }

  lemma {:induction false} ShownIs(slots: seq<Slot>, mem: Memory, x: nat)
    ensures !Armed(slots, x) ==> Shown(slots, mem, x) == mem(x)
    ensures Armed(slots, x) ==>
              exists i :: 0 <= i < |slots| && slots[i].enabled && slots[i].addr == x
                          && Shown(slots, mem, x) == slots[i].saved
  {
    if |slots| > 0 {
      var last := |slots| - 1;
      var p := slots[..last];
      ShownIs(p, mem, x);
      assert forall i :: 0 <= i < last ==> p[i] == slots[i];
      if Armed(slots, x) && !(slots[last].enabled && slots[last].addr == x) {
        var i :| 0 <= i < |slots| && slots[i].enabled && slots[i].addr == x;
        assert p[i].enabled && p[i].addr == x;
      }
    }
  }

  /** The overlay of the saved bytes is the target's own memory. */
  lemma OverlayIsOwn(s: State, x: nat)
    requires Inv(s)
    ensures Shown(s.slots, s.mem, x) == s.own(x)
  {
    ShownIs(s.slots, s.mem, x);
  }

  // ---- exactly the allowed operations keep it

  /** This slot says nothing about address x. */
  predicate Silent(b: Slot, x: nat) { !(b.enabled && b.addr == x) }

  /** Slot `i` may be set at `a`: the address is not 0, no other slot uses it, and the slot holds no byte but a trap. */
  predicate Settable(slots: seq<Slot>, i: nat, a: nat)
    requires i < |slots|
  {
    && a != 0 && (slots[i].enabled ==> slots[i].saved == TRAP)
    && (forall j :: 0 <= j < |slots| && j != i ==> Silent(slots[j], a))
  }

  /** Every trapped byte that is written gets the value saved for it, and all but slot `i`'s stay traps. */
  predicate Rewrites(slots: seq<Slot>, w: Writes, i: nat)
  {
    forall j :: 0 <= j < |slots| && slots[j].enabled && slots[j].addr in w ==>
      w[slots[j].addr] == slots[j].saved && (j == i || slots[j].saved == TRAP)
  }

  predicate Allowed(s: State, op: Op)
    requires |s.slots| == SLOTS
  {
    match op
    case Set(i, on, a) => on && i < SLOTS ==> Settable(s.slots, i, a)
    case Trapped(rip, step) => var i := Match(s.slots, Before(rip)); i < SLOTS ==> Rewrites(s.slots, step, i)
    case Ran(w) => Rewrites(s.slots, w, SLOTS)
  }

  lemma ArmedAfter(slots: seq<Slot>, i: nat, b: Slot, x: nat)
    requires i < |slots|
    ensures b.enabled && b.addr == x ==> Armed(slots[i := b], x)
    ensures Armed(slots[i := b], x) ==> Armed(slots, x) || (b.enabled && b.addr == x)
    ensures Armed(slots, x) ==> Armed(slots[i := b], x) || (slots[i].enabled && slots[i].addr == x)
  {
    var after := slots[i := b];
    if b.enabled && b.addr == x { assert after[i].enabled && after[i].addr == x; }
    if Armed(after, x) {
      var k :| 0 <= k < |after| && after[k].enabled && after[k].addr == x;
      if k != i { assert slots[k].enabled && slots[k].addr == x; }
    }
    if Armed(slots, x) {
      var k :| 0 <= k < |slots| && slots[k].enabled && slots[k].addr == x;
      if k != i { assert after[k].enabled && after[k].addr == x; }
    }
  }

  lemma ArmedBySlot(slots: seq<Slot>, i: nat)
    requires i < |slots| && slots[i].enabled
    ensures Armed(slots, slots[i].addr)
  {
  }

  lemma DisableKeeps(s: State, i: nat)
    requires Inv(s) && i < SLOTS
    ensures Inv(Disable(s, i))
  {
    var s' := Disable(s, i);
    forall x: nat | !Armed(s'.slots, x) ensures s'.mem(x) == s'.own(x) {
      ArmedAfter(s.slots, i, s'.slots[i], x);
    }
  }

  lemma WritesKeep(s: State, w: Writes)
    requires Inv(s)
    ensures Inv(s.(mem := Apply(s.mem, w), own := Apply(s.own, w))) <==> Rewrites(s.slots, w, SLOTS)
  {
  }

  /** Stepping over a trap: the target executes its own byte, its writes take effect, and the trap is back. */
  lemma StepOverKeeps(s: State, i: nat, step: Writes)
    requires Inv(s) && i < SLOTS && s.slots[i].enabled
    ensures Inv(StepOver(s, i, step)) <==> Rewrites(s.slots, step, i)
    ensures StepOver(s, i, step).slots == s.slots && StepOver(s, i, step).mem(s.slots[i].addr) == 0xCC
    ensures Disarmed(s, i)(s.slots[i].addr) == s.own(s.slots[i].addr)
    ensures forall x: nat :: x != s.slots[i].addr ==> StepOver(s, i, step).mem(x) == Apply(s.mem, step)(x)
  {
    var s' := StepOver(s, i, step);
    ArmedBySlot(s.slots, i);
    if Inv(s') {
      forall j | 0 <= j < SLOTS && s.slots[j].enabled && s.slots[j].addr in step
        ensures step[s.slots[j].addr] == s.slots[j].saved && (j == i || s.slots[j].saved == TRAP)
      {
        assert s'.slots[j] == s.slots[j];
      }
    }
  }

  /** Every allowed operation keeps the invariant, and no other does. */
  lemma NextKeeps(s: State, op: Op)
    requires Inv(s)
    ensures Inv(Next(s, op)) <==> Allowed(s, op)
  {
    hide Saved, Untouched, Enable, Disable, StepOver, Settable, Rewrites;
    match op
    case Set(i, on, a) =>
      if i < SLOTS {
        if on { EnableKeeps(s, i, a); } else { DisableKeeps(s, i); }
      }
    case Trapped(rip, step) =>
      var i := Match(s.slots, Before(rip));
      if i < SLOTS {
        UsedSlot(s, i);
        StepOverKeeps(s, i, step);
      }
    case Ran(w) => WritesKeep(s, w);
  }

  /** A breakpoint hit is handled by stepping over that very breakpoint. */
  lemma HitIsOwn(s: State, i: nat, step: Writes)
    requires Inv(s) && i < SLOTS && s.slots[i].enabled && s.slots[i].addr < 0x1_0000_0000_0000_0000
    ensures Next(s, Trapped((s.slots[i].addr + 1) % 0x1_0000_0000_0000_0000, step)) == StepOver(s, i, step)
  {
    hide Before, StepOver, Saved, Untouched;
    var a := s.slots[i].addr;
    BeforeNext(a);
    assert forall j :: 0 <= j < SLOTS && j != i ==> s.slots[j].addr != a;
    assert Match(s.slots, a) == i;
  }

  lemma UsedSlot(s: State, i: nat)
    requires Inv(s) && i < SLOTS && s.slots[i].addr != 0
    ensures s.slots[i].enabled
  {
  }

  function Run(s: State, ops: seq<Op>): (s': State)
    requires |s.slots| == SLOTS
    ensures |s'.slots| == SLOTS
  {
    if |ops| == 0 then s else Next(Run(s, ops[..|ops| - 1]), ops[|ops| - 1])
  }

  predicate AllowedRun(s: State, ops: seq<Op>)
    requires |s.slots| == SLOTS
  {
    |ops| == 0 || (AllowedRun(s, ops[..|ops| - 1]) && Allowed(Run(s, ops[..|ops| - 1]), ops[|ops| - 1]))
  }

  /** After every allowed run, memory overlaid with the saved bytes is the target's own memory. */
  lemma {:induction false} RunKeeps(s: State, ops: seq<Op>)
    requires Inv(s) && AllowedRun(s, ops)
    ensures Inv(Run(s, ops))
    ensures forall x: nat :: Shown(Run(s, ops).slots, Run(s, ops).mem, x) == Run(s, ops).own(x)
  {
    hide Saved, Untouched, Allowed, Next;
    if |ops| > 0 {
      RunKeeps(s, ops[..|ops| - 1]);
      NextKeeps(Run(s, ops[..|ops| - 1]), ops[|ops| - 1]);
    }
    forall x: nat ensures Shown(Run(s, ops).slots, Run(s, ops).mem, x) == Run(s, ops).own(x) {
      OverlayIsOwn(Run(s, ops), x);
    }
  }

  /** The invariant holds all the way through a run exactly when the run is allowed. */
  lemma {:induction false} RunExact(s: State, ops: seq<Op>)
    requires Inv(s)
    ensures (forall k :: 0 <= k <= |ops| ==> Inv(Run(s, ops[..k]))) <==> AllowedRun(s, ops)
  {
    hide Saved, Untouched, Allowed, Next;
    assert ops[..|ops|] == ops;
    if |ops| > 0 {
      var p, last := ops[..|ops| - 1], ops[|ops| - 1];
      RunExact(s, p);
      assert forall k :: 0 <= k <= |p| ==> p[..k] == ops[..k];
      assert p[..|p|] == p;
      if forall k :: 0 <= k <= |p| ==> Inv(Run(s, p[..k])) {
        assert Inv(Run(s, p[..|p|]));
        NextKeeps(Run(s, p), last);
        if AllowedRun(s, ops) {
          forall k | 0 <= k <= |ops| ensures Inv(Run(s, ops[..k])) {
            if k <= |p| { assert Inv(Run(s, p[..k])); }
          }
        } else {
          assert !Inv(Run(s, ops[..|ops|]));
        }
      } else {
        var k :| 0 <= k <= |p| && !Inv(Run(s, p[..k]));
        assert !Inv(Run(s, ops[..k]));
      }
    }
  }

  // ---- beyond the allowed operations: exactly when the overlay survives

  ghost predicate OverlayHolds(s: State)
  {
    forall x: nat :: Shown(s.slots, s.mem, x) == s.own(x)
  }

  /** Enabling slot `i` at `a` is harmless: the slot is not in use for a real byte, and no lower
      slot holds one at `a`. */
  predicate Harmless(slots: seq<Slot>, i: nat, a: nat)
    requires i < |slots|
  {
    && (slots[i].enabled ==> slots[i].saved == TRAP)
    && (forall j :: 0 <= j < i && slots[j].enabled && slots[j].addr == a ==> slots[j].saved == TRAP)
  }

  /** The last slot in use at an address decides what the overlay shows there. */
  lemma {:induction false} LastShows(slots: seq<Slot>, mem: Memory, x: nat, k: nat)
    requires k < |slots| && slots[k].enabled && slots[k].addr == x
    requires forall j :: k < j < |slots| ==> !(slots[j].enabled && slots[j].addr == x)
    ensures Shown(slots, mem, x) == slots[k].saved
  {
    if k < |slots| - 1 {
      LastShows(slots[..|slots| - 1], mem, x, k);
    }
  }

  lemma {:induction false} ShownAgrees(p: seq<Slot>, q: seq<Slot>, m: Memory, n: Memory, x: nat)
    requires |p| == |q| && m(x) == n(x)
    requires forall j :: 0 <= j < |p| ==> p[j] == q[j] || (Silent(p[j], x) && Silent(q[j], x))
    ensures Shown(p, m, x) == Shown(q, n, x)
  {
    if |p| > 0 { ShownAgrees(p[..|p| - 1], q[..|q| - 1], m, n, x); }
  }

  /** Away from the old and the new address of the slot nothing changes. */
  lemma EnableElsewhere(s: State, i: nat, a: nat, x: nat)
    requires Inv(s) && i < SLOTS && x != a && Silent(s.slots[i], x)
    ensures Shown(Enable(s, i, a).slots, Enable(s, i, a).mem, x) == s.own(x)
  {
    ShownAgrees(Enable(s, i, a).slots, s.slots, Enable(s, i, a).mem, s.mem, x);
    OverlayIsOwn(s, x);
  }

  /** The address the slot was used for before keeps a trap that no slot remembers. */
  lemma EnableForgets(s: State, i: nat, a: nat)
    requires Inv(s) && i < SLOTS && s.slots[i].enabled && s.slots[i].addr != a
    ensures Shown(Enable(s, i, a).slots, Enable(s, i, a).mem, s.slots[i].addr) == TRAP
    ensures s.own(s.slots[i].addr) == s.slots[i].saved
  {
    var s', x := Enable(s, i, a), s.slots[i].addr;
    forall k | 0 <= k < SLOTS ensures Silent(s'.slots[k], x) {
      if k < i { assert s.slots[k].enabled ==> s.slots[k].addr != x; }
    }
    ShownIs(s'.slots, s'.mem, x);
  }

  /** At the new address the highest slot in use there decides. */
  lemma EnableAt(s: State, i: nat, a: nat)
    requires Inv(s) && i < SLOTS
    ensures Shown(Enable(s, i, a).slots, Enable(s, i, a).mem, a) == s.own(a) <==>
            (s.slots[i].enabled && s.slots[i].addr == a ==> s.slots[i].saved == TRAP)
            && (forall j :: 0 <= j < i && s.slots[j].enabled && s.slots[j].addr == a ==> s.slots[j].saved == TRAP)
  {
    var s' := Enable(s, i, a);
    if j :| i < j < SLOTS && s.slots[j].enabled && s.slots[j].addr == a {
      LastShows(s'.slots, s'.mem, a, j);
    } else {
      LastShows(s'.slots, s'.mem, a, i);
      if Armed(s.slots, a) {
        var j :| 0 <= j < SLOTS && s.slots[j].enabled && s.slots[j].addr == a;
        assert j <= i && s.mem(a) == TRAP && s.own(a) == s.slots[j].saved;
      }
    }
  }

  /** For every slot and address: enabling keeps the overlay exactly when it is harmless. */
  lemma ReuseExact(s: State, i: nat, a: nat)
    requires Inv(s) && i < SLOTS
    ensures OverlayHolds(Enable(s, i, a)) <==> Harmless(s.slots, i, a)
  {
    hide Saved, Untouched, Shown;
    var s' := Enable(s, i, a);
    EnableAt(s, i, a);
    var b := s.slots[i];
    if b.enabled && b.addr != a { EnableForgets(s, i, a); }
    if Harmless(s.slots, i, a) {
      forall x: nat ensures Shown(s'.slots, s'.mem, x) == s'.own(x) {
        if x != a && Silent(b, x) { EnableElsewhere(s, i, a, x); }
      }
    } else if b.enabled && b.addr != a && b.saved != TRAP {
      assert Shown(s'.slots, s'.mem, b.addr) != s'.own(b.addr);
    } else {
      assert Shown(s'.slots, s'.mem, a) != s'.own(a);
    }
  }

  /** And it keeps the whole invariant exactly when the slot is settable there. */
  lemma EnableKeeps(s: State, i: nat, a: nat)
    requires Inv(s) && i < SLOTS
    ensures Inv(Enable(s, i, a)) <==> Settable(s.slots, i, a)
  {
    var s' := Enable(s, i, a);
    if Settable(s.slots, i, a) {
      EnableKeepsAt(s, i, a);
    } else if Inv(s') {
      assert s'.slots[i].enabled && s'.slots[i].addr == a;
      forall j | 0 <= j < SLOTS && j != i ensures Silent(s.slots[j], a) {
        assert s'.slots[j] == s.slots[j];
      }
      if s.slots[i].enabled {
        ReuseExact(s, i, a);
        forall x: nat ensures Shown(s'.slots, s'.mem, x) == s'.own(x) { OverlayIsOwn(s', x); }
      }
    }
  }

  lemma EnableKeepsAt(s: State, i: nat, a: nat)
    requires Inv(s) && i < SLOTS && Settable(s.slots, i, a)
    ensures Inv(Enable(s, i, a))
  {
    var s' := Enable(s, i, a);
    if s.slots[i].enabled { ArmedBySlot(s.slots, i); }
    forall x: nat | !Armed(s'.slots, x) ensures s'.mem(x) == s'.own(x) {
      ArmedAfter(s.slots, i, Slot(true, a, s.mem(a)), x);
    }
    if Armed(s.slots, a) {
      var j :| 0 <= j < SLOTS && s.slots[j].enabled && s.slots[j].addr == a;
      assert j == i;
    }
  }

  /** Every trapped byte that is written gets the value saved for it. */
  predicate Matches(slots: seq<Slot>, w: Writes)
  {
    forall i :: 0 <= i < |slots| && slots[i].enabled && slots[i].addr in w ==> w[slots[i].addr] == slots[i].saved
  }

  /** The target's writes keep the overlay exactly when every trapped byte they touch is rewritten
      with its saved value. */
  lemma WritesExact(s: State, w: Writes)
    requires Inv(s)
    ensures OverlayHolds(s.(mem := Apply(s.mem, w), own := Apply(s.own, w))) <==>
            Matches(s.slots, w)
  {
    var s' := s.(mem := Apply(s.mem, w), own := Apply(s.own, w));
    forall x: nat
      ensures Armed(s.slots, x) ==> Shown(s'.slots, s'.mem, x) == s.own(x)
      ensures !Armed(s.slots, x) ==> Shown(s'.slots, s'.mem, x) == s'.own(x)
    {
      ShownIs(s.slots, s'.mem, x);
    }
    forall i | 0 <= i < SLOTS && s.slots[i].enabled
      ensures Armed(s.slots, s.slots[i].addr) && Shown(s'.slots, s'.mem, s.slots[i].addr) == s.slots[i].saved
    {
      ArmedBySlot(s.slots, i);
    }
    if Matches(s.slots, w) {
      forall x: nat ensures Shown(s'.slots, s'.mem, x) == s'.own(x) {
        if Armed(s.slots, x) {
          var i :| 0 <= i < SLOTS && s.slots[i].enabled && s.slots[i].addr == x;
        }
      }
    } else {
      var i :| 0 <= i < SLOTS && s.slots[i].enabled && s.slots[i].addr in w && w[s.slots[i].addr] != s.slots[i].saved;
      assert Shown(s'.slots, s'.mem, s.slots[i].addr) != s'.own(s.slots[i].addr);
    }
  }

  /** So do the writes of the instruction stepped over, even if it writes its own first byte. */
  lemma StepOverExact(s: State, i: nat, step: Writes)
    requires Inv(s) && i < SLOTS && s.slots[i].enabled
    ensures OverlayHolds(StepOver(s, i, step)) <==> Matches(s.slots, step)
  {
    var a, b := StepOver(s, i, step), s.(mem := Apply(s.mem, step), own := Apply(s.own, step));
    WritesExact(s, step);
    ArmedBySlot(s.slots, i);
    forall x: nat
      ensures Shown(a.slots, a.mem, x) == Shown(b.slots, b.mem, x) && a.own(x) == b.own(x)
    {
      if Armed(s.slots, x) {
        var k :| 0 <= k < SLOTS && s.slots[k].enabled && s.slots[k].addr == x;
        assert forall j :: k < j < SLOTS ==> Silent(s.slots[j], x);
        LastShows(s.slots, a.mem, x, k);
        LastShows(s.slots, b.mem, x, k);
      } else {
        ShownAgrees(s.slots, s.slots, a.mem, b.mem, x);
      }
    }
    if OverlayHolds(a) {
      forall x: nat ensures Shown(b.slots, b.mem, x) == b.own(x) { assert Shown(a.slots, a.mem, x) == a.own(x); }
    }
    if OverlayHolds(b) {
      forall x: nat ensures Shown(a.slots, a.mem, x) == a.own(x) { assert Shown(b.slots, b.mem, x) == b.own(x); }
    }
  }

  // ---- teardown

  /** Number of used slots before the first empty one: all that teardown visits. */
  function Prefix(slots: seq<Slot>): (n: nat)
    ensures n <= |slots| && (forall i :: 0 <= i < n ==> slots[i].addr != 0) && (n < |slots| ==> slots[n].addr == 0)
  {
    if |slots| == 0 then 0
    else
      var p := Prefix(slots[..|slots| - 1]);
      if p < |slots| - 1 then p else if slots[|slots| - 1].addr == 0 then |slots| - 1 else |slots|
  }

  /** Memory after the saved bytes of the first `n` slots are written back. */
  function Restored(slots: seq<Slot>, mem: Memory, n: nat): Memory
    requires n <= |slots|
  {
    if n == 0 then mem else Poke(Restored(slots, mem, n - 1), slots[n - 1].addr, slots[n - 1].saved)
  }

  lemma {:induction false} RestoredAt(s: State, n: nat, x: nat)
    requires Inv(s) && n <= Prefix(s.slots)
    ensures (exists i :: 0 <= i < n && s.slots[i].addr == x) ==> Restored(s.slots, s.mem, n)(x) == s.own(x)
    ensures !(exists i :: 0 <= i < n && s.slots[i].addr == x) ==> Restored(s.slots, s.mem, n)(x) == s.mem(x)
  {
    if n > 0 {
      RestoredAt(s, n - 1, x);
      UsedSlot(s, n - 1);
    }
  }

  /** A used slot behind a gap whose own byte is not a trap. */
  predicate LeftBehind(slots: seq<Slot>)
  {
    exists i :: Prefix(slots) < i < |slots| && slots[i].enabled && slots[i].saved != TRAP
  }

  /** Teardown gives the target its own memory back exactly when no slot with a real byte lies behind a gap. */
  lemma TeardownExact(s: State)
    requires Inv(s)
    ensures (forall x: nat :: Restored(s.slots, s.mem, Prefix(s.slots))(x) == s.own(x)) <==> !LeftBehind(s.slots)
  {
    var n := Prefix(s.slots);
    if LeftBehind(s.slots) {
      var i :| n < i < |s.slots| && s.slots[i].enabled && s.slots[i].saved != TRAP;
      RestoredAt(s, n, s.slots[i].addr);
      PrefixUsed(s, n);
      assert Restored(s.slots, s.mem, n)(s.slots[i].addr) != s.own(s.slots[i].addr);
    } else {
      forall x: nat ensures Restored(s.slots, s.mem, n)(x) == s.own(x) { RestoredEverywhere(s, x); }
    }
  }

  lemma PrefixUsed(s: State, n: nat)
    requires Inv(s) && n <= Prefix(s.slots)
    ensures forall i :: 0 <= i < n ==> s.slots[i].enabled
  {
  }

  lemma RestoredEverywhere(s: State, x: nat)
    requires Inv(s) && !LeftBehind(s.slots)
    ensures Restored(s.slots, s.mem, Prefix(s.slots))(x) == s.own(x)
  {
    var n := Prefix(s.slots);
    RestoredAt(s, n, x);
    if !(exists i :: 0 <= i < n && s.slots[i].addr == x) && Armed(s.slots, x) {
      var i :| 0 <= i < |s.slots| && s.slots[i].enabled && s.slots[i].addr == x;
      assert n < i;
    }
  }

  /** Slots filled from the front leave nothing behind. */
  lemma PrefixLeavesNothing(slots: seq<Slot>)
    requires SlotsOk(slots) && forall i, j :: 0 <= i < j < |slots| && slots[j].enabled ==> slots[i].enabled
    ensures !LeftBehind(slots)
  {
    var n := Prefix(slots);
    assert forall i :: n < i < |slots| ==> !slots[i].enabled;
  }

  /** The debugger context and the target memory it changes. */
  class Debugger {
    var slots: seq<Slot>
    var mem: Memory
    ghost var own: Memory

    ghost function Now(): State
      reads this
    {
      State(slots, mem, own)
    }

    ghost predicate Valid()
      reads this
    {
      Inv(Now())
    }

    constructor (target: Memory)
      ensures Valid() && mem == target && own == target && forall i :: 0 <= i < SLOTS ==> !slots[i].enabled
    {
      slots := seq(SLOTS, i => Slot(false, 0, 0));
      mem, own := target, target;
    }

    /** debug_set_breakpoint_handle. */
    method SetBreakpoint(index: nat, enabled: bool, addr: nat) returns (ok: bool)
      requires |slots| == SLOTS
      modifies this
      ensures Now() == Next(old(Now()), Set(index, enabled, addr)) && (ok <==> index < 30)
      ensures old(Valid()) ==> (Valid() <==> old(Allowed(Now(), Set(index, enabled, addr))))
    {
      hide Saved, Untouched, Allowed;
      if Valid() { NextKeeps(Now(), Set(index, enabled, addr)); }
      if index > SLOTS - 1 { return false; }
      ok := true;
      if enabled {
        slots := slots[index := slots[index].(enabled := true, addr := addr)];
        slots := slots[index := slots[index].(saved := mem(addr))];
        mem := Poke(mem, addr, TRAP);
        assert slots == old(slots)[index := Slot(true, addr, old(mem)(addr))];
      } else {
        var b := slots[index];
        if b.enabled && b.addr != 0 { mem := Poke(mem, b.addr, b.saved); }
        slots := slots[index := b.(enabled := false, addr := 0)];
      }
    }

    /** The trap path of the event loop: find the slot, write the byte back, step, re-arm. */
    method OnTrap(rip: nat, step: Writes) returns (newRip: nat)
      requires |slots| == SLOTS
      modifies this
      ensures Now() == Next(old(Now()), Trapped(rip, step)) && slots == old(slots)
      ensures old(Valid()) ==> (Valid() <==> old(Allowed(Now(), Trapped(rip, step))))
      ensures old(Valid()) ==> newRip == if Armed(slots, Before(rip)) then Before(rip) else rip
    {
      hide Saved, Untouched, Allowed;
      if Valid() { NextKeeps(Now(), Trapped(rip, step)); }
      ghost var valid := Valid();
      var i := 0;
      while i < SLOTS && !(slots[i].addr != 0 && slots[i].addr == Before(rip))
        invariant i <= SLOTS
        invariant forall j :: 0 <= j < i ==> slots[j].addr != Before(rip) || Before(rip) == 0
      {
        i := i + 1;
      }
      newRip := rip;
      if i < SLOTS {
        if valid {
          UsedSlot(Now(), i);
          ArmedBySlot(slots, i);
        }
        var a := slots[i].addr;
        mem := Poke(mem, a, slots[i].saved);
        newRip := Before(rip);
        mem := Apply(mem, step);
        own := Apply(own, step);
        mem := Poke(mem, a, TRAP);
      }
    }

    /** The restore loop of debug_full_teardown. */
    method Teardown()
      requires Valid()
      modifies this`mem
      ensures mem == Restored(slots, old(mem), Prefix(slots))
      ensures (forall x: nat :: mem(x) == own(x)) <==> !LeftBehind(slots)
    {
      hide Saved, Untouched, LeftBehind;
      TeardownExact(Now());
      var i := 0;
      while i < SLOTS && slots[i].addr != 0
        invariant i <= Prefix(slots) && mem == Restored(slots, old(mem), i)
      {
        mem := Poke(mem, slots[i].addr, slots[i].saved);
        i := i + 1;
      }
    }
  }

  function Fresh(own: Memory): State { State(seq(SLOTS, i => Slot(false, 0, 0)), own, own) }

  lemma ThreeSteps(s: State, a: Op, b: Op, c: Op)
    requires |s.slots| == SLOTS && Allowed(s, a) && Allowed(Next(s, a), b) && Allowed(Next(Next(s, a), b), c)
    ensures AllowedRun(s, [a, b, c]) && Run(s, [a, b, c]) == Next(Next(Next(s, a), b), c)
  {
    hide Next, Allowed;
    var ops := [a, b, c];
    assert ops[..2] == [a, b] && [a, b][..1] == [a] && [a][..0] == [];
    assert Run(s, [a]) == Next(s, a) && AllowedRun(s, [a]);
    assert Run(s, [a, b]) == Next(Next(s, a), b) && AllowedRun(s, [a, b]);
  }

  /** Two breakpoints set, the first removed: the second trap survives teardown. */
  lemma GapLosesText(own: Memory)
    requires own(0x2000) != TRAP
    ensures var ops := [Set(0, true, 0x1000), Set(1, true, 0x2000), Set(0, false, 0)];
            var s := Run(Fresh(own), ops);
            && Inv(Fresh(own)) && AllowedRun(Fresh(own), ops)
            && Restored(s.slots, s.mem, Prefix(s.slots))(0x2000) != own(0x2000)
  {
    var s0 := Fresh(own);
    var s1 := Enable(s0, 0, 0x1000);
    assert s1.slots[0].addr == 0x1000 && forall i :: 1 <= i < SLOTS ==> !s1.slots[i].enabled;
    ThreeSteps(s0, Set(0, true, 0x1000), Set(1, true, 0x2000), Set(0, false, 0));
    var s3 := Disable(Enable(s1, 1, 0x2000), 0);
    assert s3.slots[0].addr == 0;
    assert Prefix(s3.slots) == 0;
  }
}
