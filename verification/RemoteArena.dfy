/** The per-pid arena allocator: free lists, segment tails and splitting, for four tracked processes. */
module RemoteArena {
  import opened Options

  const ALIGN: nat := 0x4000
  const CHUNK: nat := 0x100_0000
  const SLOTS: nat := 4
  const WORD: nat := 0x1_0000_0000_0000_0000
  const USER_END: nat := 0x8000_0000_0000_0000

  datatype Seg = Seg(base: nat, size: nat, used: nat)
  datatype Blk = Blk(addr: nat, size: nat)
  /** One entry of the pid table; the newest segment and the newest free block come first. */
  datatype Slot = Slot(inuse: bool, pid: nat, segs: seq<Seg>, free: seq<Blk>)

  // ---- rounding (64-bit arithmetic, wrap-around written out)

  function Round(n: nat): (r: nat)
    requires n < WORD
    ensures r % ALIGN == 0 && r < WORD
  {
    var sum := (n + (ALIGN - 1)) % WORD;
    sum - sum % ALIGN
  }

  /** The size reserved for a request: a zero length still gets one unit. */
  function Reserved(length: nat): (r: nat)
    requires length < WORD
    ensures r % ALIGN == 0 && r < WORD
  {
    Round(if length == 0 then ALIGN else length)
  }

  /** The reservation is the least aligned size that holds the request, except that the last 0x3fff
      lengths wrap to 0. */
  lemma ReservedExact(length: nat)
    requires length < 0x1_0000_0000_0000_0000
    ensures length <= 0xFFFF_FFFF_FFFF_C000 <==> Reserved(length) > 0
    ensures length <= 0xFFFF_FFFF_FFFF_C000 ==> length <= Reserved(length) < (if length == 0 then 1 else length) + ALIGN
    ensures length > 0xFFFF_FFFF_FFFF_C000 ==> Reserved(length) == 0
  {
    if length > WORD - ALIGN {
      assert (length + (ALIGN - 1)) % WORD == length + (ALIGN - 1) - WORD;
    }
  }

  // ---- coverage: how many blocks hold an address

  predicate Holds(b: Blk, x: int) { b.addr <= x < b.addr + b.size }

  function Cover(bs: seq<Blk>, x: int): (n: nat)
    ensures n > 0 <==> exists i :: 0 <= i < |bs| && Holds(bs[i], x)
  {
    if |bs| == 0 then 0
    else
      var p := bs[..|bs| - 1];
      assert forall i :: 0 <= i < |p| ==> p[i] == bs[i];
      assert bs[|bs| - 1] == bs[|p|];
      Cover(p, x) + (if Holds(bs[|bs| - 1], x) then 1 else 0)
  }

  function One(b: Blk, x: int): (n: nat) { if Holds(b, x) then 1 else 0 }

  lemma {:induction false} CoverConcat(a: seq<Blk>, b: seq<Blk>, x: int)
    ensures Cover(a + b, x) == Cover(a, x) + Cover(b, x)
  {
    if |b| == 0 {
      assert a + b == a;
    } else {
      CoverConcat(a, b[..|b| - 1], x);
      assert (a + b)[..|a + b| - 1] == a + b[..|b| - 1];
    }
  }

  lemma CoverOne(b: Blk, x: int)
    ensures Cover([b], x) == One(b, x)
  {
    assert [b][..0] == [];
  }

  lemma CoverSplit(bs: seq<Blk>, i: nat, x: int)
    requires i < |bs|
    ensures Cover(bs, x) == Cover(bs[..i], x) + One(bs[i], x) + Cover(bs[i + 1..], x)
  {
    assert bs == bs[..i] + ([bs[i]] + bs[i + 1..]);
    CoverConcat(bs[..i], [bs[i]] + bs[i + 1..], x);
    CoverConcat([bs[i]], bs[i + 1..], x);
    CoverOne(bs[i], x);
  }

  function Without(bs: seq<Blk>, i: nat): (r: seq<Blk>)
    requires i < |bs|
  {
    bs[..i] + bs[i + 1..]
  }

  lemma CoverWithout(bs: seq<Blk>, i: nat, x: int)
    requires i < |bs|
    ensures Cover(Without(bs, i), x) == Cover(bs, x) - One(bs[i], x)
  {
    CoverSplit(bs, i, x);
    CoverConcat(bs[..i], bs[i + 1..], x);
  }

  lemma CoverUpdate(bs: seq<Blk>, i: nat, b: Blk, x: int)
    requires i < |bs|
    ensures Cover(bs[i := b], x) == Cover(bs, x) - One(bs[i], x) + One(b, x)
  {
    CoverSplit(bs, i, x);
    CoverSplit(bs[i := b], i, x);
    assert bs[i := b][..i] == bs[..i];
    assert bs[i := b][i + 1..] == bs[i + 1..];
  }

  lemma CoverPush(b: Blk, bs: seq<Blk>, x: int)
    ensures Cover([b] + bs, x) == One(b, x) + Cover(bs, x)
    ensures Cover(bs + [b], x) == One(b, x) + Cover(bs, x)
  {
    CoverConcat([b], bs, x);
    CoverConcat(bs, [b], x);
    CoverOne(b, x);
  }

  function Whole(s: Seg): Blk { Blk(s.base, s.size) }
  function Tail(s: Seg): Blk { Blk(s.base + s.used, if s.used <= s.size then s.size - s.used else 0) }
  function Wholes(segs: seq<Seg>): (r: seq<Blk>) { seq(|segs|, i requires 0 <= i < |segs| => Whole(segs[i])) }
  function Tails(segs: seq<Seg>): (r: seq<Blk>) { seq(|segs|, i requires 0 <= i < |segs| => Tail(segs[i])) }

  // ---- the invariant

  /** Blocks a process holds: with callers (`live`), or dropped because no list node could be allocated (`lost`). */
  datatype Held = Held(live: seq<Blk>, lost: seq<Blk>)

  predicate SegOk(s: Seg)
  {
    s.base % ALIGN == 0 && s.size % ALIGN == 0 && s.used % ALIGN == 0 && s.used <= s.size && s.base + s.size <= USER_END
  }

  predicate Inside(b: Blk, segs: seq<Seg>)
  {
    exists k :: 0 <= k < |segs| && segs[k].base <= b.addr && b.addr + b.size <= segs[k].base + segs[k].size
  }

  predicate BlkOk(b: Blk, segs: seq<Seg>)
  {
    b.addr % ALIGN == 0 && b.size % ALIGN == 0 && Inside(b, segs)
  }

  predicate BlksOk(bs: seq<Blk>, segs: seq<Seg>)
  {
    forall i :: 0 <= i < |bs| ==> BlkOk(bs[i], segs)
  }

  /** How many live, free, lost or unused pieces hold an address. */
  function Pieces(segs: seq<Seg>, free: seq<Blk>, h: Held, x: int): (n: nat)
  {
    Cover(h.live, x) + Cover(free, x) + Cover(h.lost, x) + Cover(Tails(segs), x)
  }

  /** Every segment address is in exactly one piece, every other address in none. */
  ghost predicate Partition(segs: seq<Seg>, free: seq<Blk>, h: Held)
  {
    forall x: int :: Pieces(segs, free, h, x) == Cover(Wholes(segs), x) && Cover(Wholes(segs), x) <= 1
  }

  ghost predicate Conserved(segs: seq<Seg>, free: seq<Blk>, h: Held)
  {
    && (forall i :: 0 <= i < |segs| ==> SegOk(segs[i]))
    && BlksOk(free, segs) && BlksOk(h.live, segs) && BlksOk(h.lost, segs)
    && Partition(segs, free, h)
  }

  // ---- allocation within one process

  function FirstFit(free: seq<Blk>, size: nat): (i: nat)
    ensures i <= |free|
    ensures i < |free| ==> size <= free[i].size
    ensures forall j :: 0 <= j < i ==> free[j].size < size
  {
    if |free| == 0 then 0
    else
      var p := FirstFit(free[..|free| - 1], size);
      if p < |free| - 1 then p else if size <= free[|free| - 1].size then |free| - 1 else |free|
  }

  function FirstTail(segs: seq<Seg>, size: nat): (i: nat)
    ensures i <= |segs|
    ensures i < |segs| ==> size <= segs[i].size - segs[i].used
    ensures forall j :: 0 <= j < i ==> segs[j].size - segs[j].used < size
  {
    if |segs| == 0 then 0
    else
      var p := FirstTail(segs[..|segs| - 1], size);
      var s := segs[|segs| - 1];
      if p < |segs| - 1 then p else if size <= s.size - s.used then |segs| - 1 else |segs|
  }

  /** What the system answers when the arena asks for memory or for a list node. */
  datatype Env = Env(mapped: Option<nat>, nodeOk: bool)

  function SegSize(size: nat): (r: nat)
    ensures r >= size && r >= CHUNK
  {
    if size > CHUNK then size else CHUNK
  }

  datatype Grant = Grant(out: Option<nat>, tracked: bool, slot: Slot)

  function TakeFree(s: Slot, i: nat, size: nat): (g: Grant)
    requires i < |s.free| && size <= s.free[i].size
  {
    var b := s.free[i];
    Grant(Some(b.addr), true,
          s.(free := if b.size >= size + ALIGN
                     then s.free[i := Blk(b.addr + size, b.size - size)]
                     else Without(s.free, i)))
  }

  function TakeTail(s: Slot, k: nat, size: nat): (g: Grant)
    requires k < |s.segs|
  {
    var sg := s.segs[k];
    Grant(Some(sg.base + sg.used), true, s.(segs := s.segs[k := sg.(used := sg.used + size)]))
  }

  function TakeNew(s: Slot, size: nat, env: Env): (g: Grant)
  {
    if env.mapped.None? then Grant(None, false, s)
    else if !env.nodeOk then Grant(env.mapped, false, s)
    else Grant(env.mapped, true, s.(segs := [Seg(env.mapped.value, SegSize(size), size)] + s.segs))
  }

  /** First fitting free block, else first fitting tail, else a new segment. */
  function Grab(s: Slot, size: nat, env: Env): (g: Grant)
  {
    var i := FirstFit(s.free, size);
    var k := FirstTail(s.segs, size);
    if i < |s.free| then TakeFree(s, i, size)
    else if k < |s.segs| then TakeTail(s, k, size)
    else TakeNew(s, size, env)
  }

  /** A fresh mapping is aligned, in the user half and overlaps none of the process's segments. */
  predicate Fresh(segs: seq<Seg>, size: nat, env: Env)
  {
    env.mapped.Some? ==>
      && env.mapped.value % ALIGN == 0 && env.mapped.value + size <= USER_END
      && forall k :: 0 <= k < |segs| ==>
           env.mapped.value + size <= segs[k].base || segs[k].base + segs[k].size <= env.mapped.value
  }

  /** The branch that does not split takes a block of exactly the requested size: no remainder is dropped. */
  lemma WholeTakeIsExact(b: Blk, size: nat)
    requires b.size % ALIGN == 0 && size % ALIGN == 0 && size <= b.size < size + ALIGN
    ensures b.size == size
  {
    AlignedSum(size, b.size - size);
  }

  lemma AlignedSum(a: nat, d: nat)
    requires a % ALIGN == 0
    ensures (a + d) % ALIGN == d % ALIGN
  {
  }

  lemma AlignedDiff(a: nat, b: nat)
    requires a % ALIGN == 0 && b % ALIGN == 0 && b <= a
    ensures (a - b) % ALIGN == 0 && (a + b) % ALIGN == 0
  {
    AlignedSum(b, a);
    AlignedSum(b, a - b);
  }

  /** Segments keep their extents, possibly after new ones are pushed in front. */
  predicate Extends(segs: seq<Seg>, segs': seq<Seg>)
  {
    |segs| <= |segs'| && forall k :: 0 <= k < |segs| ==> Whole(segs[k]) == Whole(segs'[k + (|segs'| - |segs|)])
  }

  lemma BlksStayOk(bs: seq<Blk>, segs: seq<Seg>, segs': seq<Seg>)
    requires BlksOk(bs, segs) && Extends(segs, segs')
    ensures BlksOk(bs, segs')
  {
    forall i | 0 <= i < |bs| ensures BlkOk(bs[i], segs') {
      assert BlkOk(bs[i], segs);
      var k :| 0 <= k < |segs| && segs[k].base <= bs[i].addr && bs[i].addr + bs[i].size <= segs[k].base + segs[k].size;
      var k' := k + (|segs'| - |segs|);
      assert Whole(segs[k]) == Whole(segs'[k']);
    }
  }

  function Give(h: Held, b: Blk): (r: Held) { h.(live := h.live + [b]) }

  lemma BlksPush(bs: seq<Blk>, b: Blk, segs: seq<Seg>)
    requires BlksOk(bs, segs) && BlkOk(b, segs)
    ensures BlksOk(bs + [b], segs) && BlksOk([b] + bs, segs)
  {
  }

  lemma BlksWithout(bs: seq<Blk>, i: nat, segs: seq<Seg>)
    requires BlksOk(bs, segs) && i < |bs|
    ensures BlksOk(Without(bs, i), segs)
  {
  }

  lemma BlksUpdate(bs: seq<Blk>, i: nat, b: Blk, segs: seq<Seg>)
    requires BlksOk(bs, segs) && i < |bs| && BlkOk(b, segs)
    ensures BlksOk(bs[i := b], segs)
  {
  }

  /** A piece of an aligned block is an aligned block of the same segment. */
  lemma PieceOk(b: Blk, size: nat, segs: seq<Seg>)
    requires BlkOk(b, segs) && size <= b.size && size % ALIGN == 0
    ensures BlkOk(Blk(b.addr, size), segs) && BlkOk(Blk(b.addr + size, b.size - size), segs)
  {
    AlignedDiff(b.size, size);
    AlignedSum(b.addr, size);
    var k :| 0 <= k < |segs| && segs[k].base <= b.addr && b.addr + b.size <= segs[k].base + segs[k].size;
    assert segs[k].base <= b.addr + size && b.addr + size + (b.size - size) <= segs[k].base + segs[k].size;
  }

  lemma FreeTakeConserves(s: Slot, h: Held, i: nat, size: nat)
    requires Conserved(s.segs, s.free, h) && i < |s.free| && size <= s.free[i].size && size % ALIGN == 0
    ensures var g := TakeFree(s, i, size);
            Conserved(g.slot.segs, g.slot.free, Give(h, Blk(g.out.value, size)))
  {
    hide Cover, Inside;
    var b := s.free[i];
    var got := Blk(b.addr, size);
    var s' := TakeFree(s, i, size).slot;
    PieceOk(b, size, s.segs);
    BlksPush(h.live, got, s.segs);
    if b.size >= size + ALIGN {
      BlksUpdate(s.free, i, Blk(b.addr + size, b.size - size), s.segs);
    } else {
      WholeTakeIsExact(b, size);
      BlksWithout(s.free, i, s.segs);
    }
    forall x: int
      ensures Pieces(s'.segs, s'.free, Give(h, got), x) == Cover(Wholes(s'.segs), x) && Cover(Wholes(s'.segs), x) <= 1
    {
      assert Pieces(s.segs, s.free, h, x) == Cover(Wholes(s.segs), x);
      CoverPush(got, h.live, x);
      if b.size >= size + ALIGN {
        CoverUpdate(s.free, i, Blk(b.addr + size, b.size - size), x);
      } else {
        CoverWithout(s.free, i, x);
      }
    }
  }

  lemma GrownSeg(segs: seq<Seg>, k: nat, sg: Seg)
    requires k < |segs| && Whole(sg) == Whole(segs[k])
    ensures Extends(segs, segs[k := sg]) && Wholes(segs[k := sg]) == Wholes(segs)
    ensures Tails(segs[k := sg]) == Tails(segs)[k := Tail(sg)]
  {
  }

  lemma TailTakeCovers(segs: seq<Seg>, free: seq<Blk>, h: Held, k: nat, size: nat, x: int)
    requires Pieces(segs, free, h, x) == Cover(Wholes(segs), x) <= 1
    requires k < |segs| && size <= segs[k].size - segs[k].used
    ensures var sg := segs[k].(used := segs[k].used + size);
            Pieces(segs[k := sg], free, Give(h, Blk(segs[k].base + segs[k].used, size)), x)
              == Cover(Wholes(segs[k := sg]), x) <= 1
  {
    hide Cover, Wholes, Extends;
    var sg := segs[k].(used := segs[k].used + size);
    GrownSeg(segs, k, sg);
    CoverPush(Blk(segs[k].base + segs[k].used, size), h.live, x);
    CoverUpdate(Tails(segs), k, Tail(sg), x);
  }

  lemma InsideSeg(b: Blk, segs: seq<Seg>, k: nat)
    requires k < |segs| && segs[k].base <= b.addr && b.addr + b.size <= segs[k].base + segs[k].size
    ensures Inside(b, segs)
  {
  }

  lemma SegTakes(sg: Seg, size: nat)
    requires SegOk(sg) && size <= sg.size - sg.used && size % ALIGN == 0
    ensures SegOk(sg.(used := sg.used + size)) && (sg.base + sg.used) % ALIGN == 0
  {
    AlignedSum(sg.used, size);
    AlignedSum(sg.base, sg.used);
  }

  lemma TailTakeConserves(s: Slot, h: Held, k: nat, size: nat)
    requires Conserved(s.segs, s.free, h) && k < |s.segs| && size <= s.segs[k].size - s.segs[k].used
             && size % ALIGN == 0
    ensures var g := TakeTail(s, k, size);
            Conserved(g.slot.segs, g.slot.free, Give(h, Blk(g.out.value, size)))
  {
    hide Cover, BlksOk, Extends, Wholes, Tails, Pieces, SegOk, Inside;
    var sg := s.segs[k];
    var got := Blk(sg.base + sg.used, size);
    var segs' := TakeTail(s, k, size).slot.segs;
    SegTakes(sg, size);
    GrownSeg(s.segs, k, segs'[k]);
    BlksStayOk(s.free, s.segs, segs');
    BlksStayOk(h.live, s.segs, segs');
    BlksStayOk(h.lost, s.segs, segs');
    InsideSeg(got, segs', k);
    BlksPush(h.live, got, segs');
    forall x: int
      ensures Pieces(segs', s.free, Give(h, got), x) == Cover(Wholes(segs'), x) && Cover(Wholes(segs'), x) <= 1
    {
      assert Pieces(s.segs, s.free, h, x) == Cover(Wholes(s.segs), x);
      TailTakeCovers(s.segs, s.free, h, k, size, x);
    }
  }

  lemma FreshIsUncovered(segs: seq<Seg>, size: nat, env: Env, x: int)
    requires Fresh(segs, size, env) && env.mapped.Some? && Holds(Blk(env.mapped.value, size), x)
    ensures Cover(Wholes(segs), x) == 0
  {
    forall k | 0 <= k < |segs|
      ensures !Holds(Wholes(segs)[k], x)
    {
      assert Wholes(segs)[k] == Whole(segs[k]);
    }
  }

  lemma PushedSegs(segs: seq<Seg>, sg: Seg)
    ensures Extends(segs, [sg] + segs)
    ensures Wholes([sg] + segs) == [Whole(sg)] + Wholes(segs)
    ensures Tails([sg] + segs) == [Tail(sg)] + Tails(segs)
  {
    hide Whole, Tail;
    PushedExtends(segs, sg);
    hide Extends;
  }

  lemma PushedExtends(segs: seq<Seg>, sg: Seg)
    ensures Extends(segs, [sg] + segs)
  {
    hide Whole;
  }

  lemma NewTakeCovers(segs: seq<Seg>, free: seq<Blk>, h: Held, size: nat, env: Env, x: int)
    requires Pieces(segs, free, h, x) == Cover(Wholes(segs), x) <= 1
    requires env.mapped.Some? && Fresh(segs, SegSize(size), env)
    ensures var sg := Seg(env.mapped.value, SegSize(size), size);
            Pieces([sg] + segs, free, Give(h, Blk(sg.base, size)), x) == Cover(Wholes([sg] + segs), x) <= 1
  {
    hide Cover, Fresh, Wholes, Tails;
    var sg := Seg(env.mapped.value, SegSize(size), size);
    PushedSegs(segs, sg);
    CoverPush(Blk(sg.base, size), h.live, x);
    CoverPush(Tail(sg), Tails(segs), x);
    CoverPush(Whole(sg), Wholes(segs), x);
    if Holds(Whole(sg), x) { FreshIsUncovered(segs, SegSize(size), env, x); }
  }

  lemma NewTakeConserves(s: Slot, h: Held, size: nat, env: Env)
    requires Conserved(s.segs, s.free, h) && size % ALIGN == 0
    requires env.mapped.Some? && env.nodeOk && Fresh(s.segs, SegSize(size), env)
    ensures var g := TakeNew(s, size, env);
            Conserved(g.slot.segs, g.slot.free, Give(h, Blk(g.out.value, size)))
  {
    hide Cover, BlksOk, Pieces, Wholes, Tails, Extends;
    var base := env.mapped.value;
    var sg := Seg(base, SegSize(size), size);
    var got := Blk(base, size);
    var segs' := [sg] + s.segs;
    PushedSegs(s.segs, sg);
    BlksStayOk(s.free, s.segs, segs');
    BlksStayOk(h.live, s.segs, segs');
    BlksStayOk(h.lost, s.segs, segs');
    assert segs'[0].base <= got.addr && got.addr + got.size <= segs'[0].base + segs'[0].size;
    BlksPush(h.live, got, segs');
    forall x: int
      ensures Pieces(segs', s.free, Give(h, got), x) == Cover(Wholes(segs'), x) && Cover(Wholes(segs'), x) <= 1
    {
      assert Pieces(s.segs, s.free, h, x) == Cover(Wholes(s.segs), x);
      NewTakeCovers(s.segs, s.free, h, size, env, x);
    }
  }

  /** Whatever branch serves a request, nothing is lost: the block moves from free, tail or system to the caller. */
  lemma GrabConserves(s: Slot, h: Held, size: nat, env: Env)
    requires Conserved(s.segs, s.free, h) && size % ALIGN == 0 && Fresh(s.segs, SegSize(size), env)
    ensures var g := Grab(s, size, env);
            && g.slot.inuse == s.inuse && g.slot.pid == s.pid
            && (g.tracked ==> g.out.Some? && Conserved(g.slot.segs, g.slot.free, Give(h, Blk(g.out.value, size))))
            && (!g.tracked ==> g.slot == s && g.out == env.mapped && (env.mapped.None? || !env.nodeOk))
  {
    hide Conserved;
    var i := FirstFit(s.free, size);
    var k := FirstTail(s.segs, size);
    if i < |s.free| {
      FreeTakeConserves(s, h, i, size);
    } else if k < |s.segs| {
      TailTakeConserves(s, h, k, size);
    } else if env.mapped.Some? && env.nodeOk {
      NewTakeConserves(s, h, size, env);
    }
  }

  // ---- freeing

  predicate Owned(segs: seq<Seg>, addr: int)
  {
    exists k :: 0 <= k < |segs| && segs[k].base <= addr < segs[k].base + segs[k].size
  }

  /** The holdings after a caller returns its i-th block; without a list node the block is gone. */
  function Return(h: Held, i: nat, kept: bool): (r: Held)
    requires i < |h.live|
  {
    Held(Without(h.live, i), if kept then h.lost else h.lost + [h.live[i]])
  }

  lemma LiveIsOwned(segs: seq<Seg>, b: Blk)
    requires BlkOk(b, segs) && b.size > 0
    ensures Owned(segs, b.addr)
  {
    var k :| 0 <= k < |segs| && segs[k].base <= b.addr && b.addr + b.size <= segs[k].base + segs[k].size;
    assert segs[k].base <= b.addr < segs[k].base + segs[k].size;
  }

  lemma FreeConserves(s: Slot, h: Held, i: nat, nodeOk: bool)
    requires Conserved(s.segs, s.free, h) && i < |h.live|
    ensures Conserved(s.segs, if nodeOk then [h.live[i]] + s.free else s.free, Return(h, i, nodeOk))
  {
    hide Cover, Inside;
    var b := h.live[i];
    var free' := if nodeOk then [b] + s.free else s.free;
    var h' := Return(h, i, nodeOk);
    BlksWithout(h.live, i, s.segs);
    BlksPush(s.free, b, s.segs);
    BlksPush(h.lost, b, s.segs);
    forall x: int
      ensures Pieces(s.segs, free', h', x) == Cover(Wholes(s.segs), x) && Cover(Wholes(s.segs), x) <= 1
    {
      assert Pieces(s.segs, s.free, h, x) == Cover(Wholes(s.segs), x);
      CoverWithout(h.live, i, x);
      CoverPush(b, s.free, x);
      CoverPush(b, h.lost, x);
    }
  }

  /** Two entries of one list never share an address when the list covers each address at most once. */
  lemma {:induction false} CoverTwice(bs: seq<Blk>, i: nat, j: nat, x: int)
    requires i < j < |bs| && Holds(bs[i], x) && Holds(bs[j], x)
    ensures Cover(bs, x) >= 2
  {
    CoverSplit(bs, j, x);
    assert bs[..j][i] == bs[i];
    assert Cover(bs[..j], x) > 0;
  }

  function All(segs: seq<Seg>, free: seq<Blk>, h: Held): (r: seq<Blk>) { h.live + free + h.lost + Tails(segs) }

  lemma AllCovers(segs: seq<Seg>, free: seq<Blk>, h: Held, x: int)
    ensures Cover(All(segs, free, h), x) == Pieces(segs, free, h, x)
  {
    CoverConcat(h.live + free + h.lost, Tails(segs), x);
    CoverConcat(h.live + free, h.lost, x);
    CoverConcat(h.live, free, x);
  }

  /** What conservation means: no two pieces share an address, and the pieces fill the segments exactly. */
  lemma ConservedIsDisjoint(segs: seq<Seg>, free: seq<Blk>, h: Held, x: int)
    requires Conserved(segs, free, h)
    ensures var all := All(segs, free, h);
            && (forall i, j :: 0 <= i < j < |all| ==> !(Holds(all[i], x) && Holds(all[j], x)))
            && ((exists i :: 0 <= i < |all| && Holds(all[i], x)) <==> Owned(segs, x))
  {
    hide BlksOk, Inside, SegOk;
    var all := All(segs, free, h);
    AllCovers(segs, free, h, x);
    assert Pieces(segs, free, h, x) == Cover(Wholes(segs), x) <= 1;
    forall i, j | 0 <= i < j < |all|
      ensures !(Holds(all[i], x) && Holds(all[j], x))
    {
      if Holds(all[i], x) && Holds(all[j], x) { CoverTwice(all, i, j, x); }
    }
    if Owned(segs, x) {
      var k :| 0 <= k < |segs| && segs[k].base <= x < segs[k].base + segs[k].size;
      assert Holds(Wholes(segs)[k], x);
    }
    if Cover(Wholes(segs), x) > 0 {
      var k :| 0 <= k < |Wholes(segs)| && Holds(Wholes(segs)[k], x);
      assert segs[k].base <= x < segs[k].base + segs[k].size;
    }
  }

  // ---- the table of four processes

  function Find(slots: seq<Slot>, pid: nat): (i: nat)
    ensures i <= |slots|
    ensures i < |slots| ==> slots[i].inuse && slots[i].pid == pid
    ensures forall j :: 0 <= j < i ==> !(slots[j].inuse && slots[j].pid == pid)
  {
    if |slots| == 0 then 0
    else
      var p := Find(slots[..|slots| - 1], pid);
      var s := slots[|slots| - 1];
      if p < |slots| - 1 then p else if s.inuse && s.pid == pid then |slots| - 1 else |slots|
  }

  predicate OnePidEach(slots: seq<Slot>)
  {
    forall i, j :: 0 <= i < j < |slots| && slots[i].inuse && slots[j].inuse ==> slots[i].pid != slots[j].pid
  }

  lemma FindIs(slots: seq<Slot>, pid: nat, i: nat)
    requires i < |slots| && OnePidEach(slots) && slots[i].inuse && slots[i].pid == pid
    ensures Find(slots, pid) == i
  {
    var f := Find(slots, pid);
    assert f <= i && slots[f].pid == slots[i].pid;
  }

  lemma FindAbsent(slots: seq<Slot>, pid: nat)
    requires forall j :: 0 <= j < |slots| ==> !(slots[j].inuse && slots[j].pid == pid)
    ensures Find(slots, pid) == |slots|
  {
  }

  /** Refilling a slot of the same process does not move anyone. */
  lemma FindStable(slots: seq<Slot>, at: nat, s: Slot)
    requires at < |slots| && s.inuse == slots[at].inuse && s.pid == slots[at].pid
    ensures forall p: nat :: Find(slots[at := s], p) == Find(slots, p)
  {
    hide Find;
    forall p: nat ensures Find(slots[at := s], p) == Find(slots, p) {
      var a, b := Find(slots[at := s], p), Find(slots, p);
      assert a < |slots| ==> slots[a].inuse && slots[a].pid == p;
      assert b < |slots| ==> slots[at := s][b].inuse && slots[at := s][b].pid == p;
    }
  }

  lemma EmptyConserved()
    ensures Conserved([], [], Held([], []))
  {
  }

  lemma LiveOk(s: Slot, h: Held, i: nat)
    requires Conserved(s.segs, s.free, h) && i < |h.live|
    ensures BlkOk(h.live[i], s.segs)
  {
  }

  /** The list searches of arena_alloc. */
  method Serve(s: Slot, size: nat, env: Env) returns (g: Grant)
    ensures g == Grab(s, size, env)
  {
    var i := 0;
    while i < |s.free|
      invariant i <= |s.free|
      invariant forall j :: 0 <= j < i ==> s.free[j].size < size
    {
      if s.free[i].size >= size { return TakeFree(s, i, size); }
      i := i + 1;
    }
    var k := 0;
    while k < |s.segs|
      invariant k <= |s.segs|
      invariant forall j :: 0 <= j < k ==> s.segs[j].size - s.segs[j].used < size
    {
      if s.segs[k].size - s.segs[k].used >= size { return TakeTail(s, k, size); }
      k := k + 1;
    }
    g := TakeNew(s, size, env);
  }

  method Owns(segs: seq<Seg>, addr: nat) returns (owned: bool)
    ensures owned <==> Owned(segs, addr)
  {
    owned := false;
    for k := 0 to |segs|
      invariant forall j :: 0 <= j < k ==> !(segs[j].base <= addr < segs[j].base + segs[j].size)
    {
      if segs[k].base <= addr < segs[k].base + segs[k].size { return true; }
    }
  }

  class Table {
    var slots: seq<Slot>
    ghost var held: seq<Held>

    ghost predicate Valid()
      reads this
    {
      && |slots| == SLOTS && |held| == SLOTS && OnePidEach(slots)
      && forall i :: 0 <= i < SLOTS && slots[i].inuse ==> Conserved(slots[i].segs, slots[i].free, held[i])
    }

    /** The blocks of a process; nothing when it is not in the table. */
    ghost function HeldBy(pid: nat): (h: Held)
      reads this
      requires |slots| == |held|
    {
      var i := Find(slots, pid);
      if i < |slots| then held[i] else Held([], [])
    }

    ghost function SegsOf(pid: nat): (r: seq<Seg>)
      reads this
    {
      var i := Find(slots, pid);
      if i < |slots| then slots[i].segs else []
    }

    ghost predicate Tracks(pid: nat)
      reads this
    {
      Find(slots, pid) < |slots|
    }

    constructor ()
      ensures Valid() && forall pid: nat :: !Tracks(pid)
    {
      slots := seq(SLOTS, i => Slot(false, 0, [], []));
      held := seq(SLOTS, i => Held([], []));
    }

    /** arena_find. */
    method Lookup(pid: nat) returns (at: nat)
      requires Valid()
      ensures at == Find(slots, pid)
    {
      at := 0;
      while at < SLOTS
        invariant at <= SLOTS
        invariant forall j :: 0 <= j < at ==> !(slots[j].inuse && slots[j].pid == pid)
      {
        if slots[at].inuse && slots[at].pid == pid { return; }
        at := at + 1;
      }
    }

    /** arena_get: the process's slot, else the first free slot, else slot 0, whose process is dropped. */
    method Obtain(pid: nat) returns (at: nat)
      requires Valid()
      modifies this
      ensures Valid() && at < SLOTS && at == Find(slots, pid)
      ensures HeldBy(pid) == old(HeldBy(pid)) && SegsOf(pid) == old(SegsOf(pid))
      ensures old(Tracks(pid)) ==> slots == old(slots) && held == old(held)
      ensures forall j :: 0 <= j < SLOTS && j != at ==> slots[j] == old(slots[j]) && held[j] == old(held[j])
      // a process loses its slot only to a newcomer that finds all four taken
      ensures old(Tracks(pid)) || (exists j :: 0 <= j < 4 && !old(slots[j].inuse)) ==>
                forall other: nat :: other != pid ==> Find(slots, other) == old(Find(slots, other))
      ensures old(slots[at].inuse) && !old(Tracks(pid)) ==>
                at == 0 && forall j :: 0 <= j < SLOTS ==> old(slots[j].inuse)
      // a newcomer gets the first free slot
      ensures !old(slots[at].inuse) && !old(Tracks(pid)) ==> forall j :: 0 <= j < at ==> old(slots[j].inuse)
    {
      hide Conserved, Find;
      ghost var was := slots;
      var slot: int := -1;
      at := 0;
      while at < SLOTS
        invariant at <= SLOTS && -1 <= slot < at
        invariant slots == was && held == old(held)
        invariant forall j :: 0 <= j < at ==> !(slots[j].inuse && slots[j].pid == pid)
        invariant if slot < 0 then forall j :: 0 <= j < at ==> slots[j].inuse
                  else !slots[slot].inuse && forall j :: 0 <= j < slot ==> slots[j].inuse
      {
        if slots[at].inuse && slots[at].pid == pid {
          FindIs(slots, pid, at);
          return;
        }
        if !slots[at].inuse && slot < 0 { slot := at; }
        at := at + 1;
      }
      at := if slot < 0 then 0 else slot;
      slots := slots[at := Slot(true, pid, [], [])];
      held := held[at := Held([], [])];
      EmptyConserved();
      FindAbsent(was, pid);
      FindIs(slots, pid, at);
    }

    /** arena_alloc: the new block is the caller's and every other block stays where it was. */
    method Alloc(pid: nat, length: nat, env: Env) returns (out: Option<nat>)
      requires Valid() && length < WORD
      requires Fresh(SegsOf(pid), SegSize(Reserved(length)), env)
      modifies this
      ensures Valid() && Tracks(pid)
      ensures out.None? ==> env.mapped.None?
      ensures HeldBy(pid) == old(HeldBy(pid))
              || (out.Some? && HeldBy(pid) == Give(old(HeldBy(pid)), Blk(out.value, Reserved(length))))
      ensures out.Some? && HeldBy(pid) == old(HeldBy(pid)) ==> !env.nodeOk && out == env.mapped
      // other processes are untouched, unless a newcomer finds all four slots taken
      ensures old(Tracks(pid)) || (exists j :: 0 <= j < 4 && !old(slots[j].inuse)) ==>
                forall other: nat :: other != pid && old(Tracks(other)) ==>
                Tracks(other) && HeldBy(other) == old(HeldBy(other)) && SegsOf(other) == old(SegsOf(other))
    {
      hide Conserved, Fresh, Find, Grab;
      var size := Reserved(length);
      var at := Obtain(pid);
      ghost var s, h := slots[at], held[at];
      GrabConserves(s, h, size, env);
      var g := Serve(slots[at], size, env);
      FindStable(slots, at, g.slot);
      slots := slots[at := g.slot];
      if g.tracked { held := held[at := Give(h, Blk(g.out.value, size))]; }
      out := g.out;
    }

    /** arena_free of a live block: it becomes available again, or is lost if no node can be allocated for it. */
    method Free(pid: nat, addr: nat, length: nat, nodeOk: bool, ghost i: nat) returns (ok: bool)
      requires Valid() && length < WORD
      requires Tracks(pid) && i < |HeldBy(pid).live| && HeldBy(pid).live[i] == Blk(addr, Reserved(length))
      modifies this
      ensures Valid()
      ensures ok <==> Owned(old(SegsOf(pid)), addr)
      ensures 0 < Reserved(length) ==> ok
      ensures HeldBy(pid) == if ok then Return(old(HeldBy(pid)), i, nodeOk) else old(HeldBy(pid))
      ensures forall p: nat :: SegsOf(p) == old(SegsOf(p)) && (p != pid ==> HeldBy(p) == old(HeldBy(p)))
    {
      hide Conserved, Find, Owned, Return, BlkOk, Reserved;
      var at := Lookup(pid);
      ghost var s, h := slots[at], held[at];
      LiveOk(s, h, i);
      if 0 < Reserved(length) { LiveIsOwned(s.segs, h.live[i]); }
      FreeConserves(s, h, i, nodeOk);
      ok := Owns(slots[at].segs, addr);
      if ok {
        var free := if nodeOk then [Blk(addr, Reserved(length))] + slots[at].free else slots[at].free;
        FindStable(slots, at, slots[at].(free := free));
        slots := slots[at := slots[at].(free := free)];
        held := held[at := Return(h, i, nodeOk)];
      }
    }
  }
}
