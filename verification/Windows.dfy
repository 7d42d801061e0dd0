/** Read windows over the survivors of a snapshot: how they grow, and when they cover what they are read for. */
module Windows {
  import opened Bytes

  const GAP_MAX: nat := 0x8000
  const WIN_CAP: nat := 0x10_0000
  const OUT_CAP: nat := 0x4_0000
  const ADDR_TOP: nat := 0x8000_0000_0000_0000

  /** May the window [start, end) grow to the next survivor at `na`, and where does it end then? */
  function Bridge(start: nat, end: nat, na: nat, vl: nat): (bool, nat)
  {
    var gap := if na > end then na - end else 0;
    if gap > GAP_MAX then (false, end)
    else if Sub64(na + vl, start) > WIN_CAP then (false, end)
    else (true, na + vl)
  }

  /** End and last slot of a window that has grown over the survivors below slot `j`. */
  function Grow(addrs: seq<nat>, bits: seq<bool>, vl: nat, start: nat, end: nat, last: nat, j: nat): (w: (nat, nat))
    requires |bits| == |addrs| && j <= |addrs|
    decreases |addrs| - j
  {
    if j == |addrs| then (end, last)
    else if !bits[j] then Grow(addrs, bits, vl, start, end, last, j + 1)
    else
      var g := Bridge(start, end, addrs[j], vl);
      if g.0 then Grow(addrs, bits, vl, start, g.1, j, j + 1) else (end, last)
  }

  /** End and last slot of the window opened at survivor `i`. */
  function WindowOf(addrs: seq<nat>, bits: seq<bool>, vl: nat, i: nat): (w: (nat, nat))
    requires |bits| == |addrs| && i < |addrs|
  {
    Grow(addrs, bits, vl, addrs[i], addrs[i] + vl, i, i + 1)
  }

  lemma {:induction false} GrowSkips(addrs: seq<nat>, bits: seq<bool>, vl: nat, start: nat, end: nat, last: nat,
                                     j: nat, q: nat)
    requires |bits| == |addrs| && j <= q <= |addrs| && forall k :: j <= k < q ==> !bits[k]
    ensures Grow(addrs, bits, vl, start, end, last, j) == Grow(addrs, bits, vl, start, end, last, q)
    decreases q - j
  {
    if j < q { GrowSkips(addrs, bits, vl, start, end, last, j + 1, q); }
  }

  lemma GrowOver(addrs: seq<nat>, bits: seq<bool>, vl: nat, start: nat, end: nat, last: nat, j: nat)
    requires |bits| == |addrs| && j < |addrs| && bits[j]
    ensures Grow(addrs, bits, vl, start, end, last, j)
         == if Bridge(start, end, addrs[j], vl).0
            then Grow(addrs, bits, vl, start, Bridge(start, end, addrs[j], vl).1, j, j + 1)
            else (end, last)
  {
  }

  lemma GrowEnds(addrs: seq<nat>, bits: seq<bool>, vl: nat, start: nat, end: nat, last: nat)
    requires |bits| == |addrs|
    ensures Grow(addrs, bits, vl, start, end, last, |addrs|) == (end, last)
  {
  }

  ghost predicate AddrsOk(addrs: seq<nat>, vl: nat)
  {
    1 <= vl <= 8 && forall i :: 0 <= i < |addrs| ==> addrs[i] + vl <= ADDR_TOP
  }

  /** Every survivor the window was grown over lies inside it. */
  ghost predicate Covers(addrs: seq<nat>, bits: seq<bool>, vl: nat, i: nat)
    requires |bits| == |addrs| && i < |addrs|
  {
    var w := WindowOf(addrs, bits, vl, i);
    forall k :: i <= k <= w.1 && k < |bits| && bits[k] ==> addrs[i] <= addrs[k] && addrs[k] + vl <= w.0
  }

  /** Slot `j` starts before an earlier slot `i` and ends inside it or at its start. */
  predicate Undercuts(addrs: seq<nat>, vl: nat, i: nat, j: nat)
  {
    i < j < |addrs| && addrs[j] < addrs[i] <= addrs[j] + vl
  }

  /** Slot `k` falls back between an earlier slot `i` and a slot `j` that a window from `i` can step to. */
  predicate FallsBack(addrs: seq<nat>, vl: nat, i: nat, j: nat, k: nat)
  {
    i < j < k < |addrs| && addrs[i] <= addrs[k] < addrs[j] <= addrs[i] + vl + 0x8000
  }

  /** No slot undercuts an earlier one and none falls back. */
  ghost predicate Steady(addrs: seq<nat>, vl: nat)
  {
    && (forall i, j :: !Undercuts(addrs, vl, i, j))
    && (forall i, j, k :: !FallsBack(addrs, vl, i, j, k))
  }

  // ---- steady slots are covered

  /** The survivors a window has stepped over, in slot order: addresses ascend in hops of bounded length. */
  ghost predicate Chain(addrs: seq<nat>, bits: seq<bool>, vl: nat, i: nat, ms: seq<nat>, j: nat)
    requires |bits| == |addrs|
  {
    && |ms| > 0 && ms[0] == i && j <= |addrs|
    && (forall t :: 0 <= t < |ms| ==> i <= ms[t] < j)
    && (forall t :: 0 < t < |ms| ==>
          ms[t - 1] < ms[t] && addrs[ms[t - 1]] <= addrs[ms[t]] <= addrs[ms[t - 1]] + vl + GAP_MAX)
    && (forall k :: i <= k < j && bits[k] ==> k in ms)
  }

  lemma {:induction false} ChainAscends(addrs: seq<nat>, bits: seq<bool>, vl: nat, i: nat, ms: seq<nat>, j: nat,
                                        s: nat, t: nat)
    requires |bits| == |addrs| && Chain(addrs, bits, vl, i, ms, j) && s <= t < |ms|
    ensures addrs[ms[s]] <= addrs[ms[t]] && ms[s] <= ms[t]
    decreases t
  {
    if s < t {
      ChainAscends(addrs, bits, vl, i, ms, j, s, t - 1);
    }
  }

  /** The hop of the chain that passes over address `na`. */
  lemma {:induction false} HopOver(addrs: seq<nat>, bits: seq<bool>, vl: nat, i: nat, ms: seq<nat>, j: nat, na: nat,
                                   t: nat)
    returns (s: nat)
    requires |bits| == |addrs| && Chain(addrs, bits, vl, i, ms, j) && t < |ms| && addrs[i] <= na < addrs[ms[t]]
    ensures s < t && addrs[ms[s]] <= na < addrs[ms[s + 1]]
    decreases t
  {
    if addrs[ms[t - 1]] <= na {
      s := t - 1;
    } else {
      s := HopOver(addrs, bits, vl, i, ms, j, na, t - 1);
    }
  }

  /** A steady slot the window may grow to lies at or after everything in the window. */
  lemma NextIsAfter(addrs: seq<nat>, bits: seq<bool>, vl: nat, i: nat, ms: seq<nat>, j: nat)
    requires |bits| == |addrs| && AddrsOk(addrs, vl) && Steady(addrs, vl) && Chain(addrs, bits, vl, i, ms, j)
    requires j < |addrs| && Bridge(addrs[i], addrs[ms[|ms| - 1]] + vl, addrs[j], vl).0
    ensures addrs[ms[|ms| - 1]] <= addrs[j] <= addrs[ms[|ms| - 1]] + vl + GAP_MAX
    ensures addrs[j] + vl <= addrs[i] + WIN_CAP
  {
    hide Steady;
    SteadyAt(addrs, vl, i, i, j);
    if addrs[j] < addrs[ms[|ms| - 1]] {
      var s := HopOver(addrs, bits, vl, i, ms, j, addrs[j], |ms| - 1);
      SteadyAt(addrs, vl, ms[s], ms[s + 1], j);
    }
  }

  lemma SteadyAt(addrs: seq<nat>, vl: nat, i: nat, j: nat, k: nat)
    requires Steady(addrs, vl)
    ensures !Undercuts(addrs, vl, i, k) && !FallsBack(addrs, vl, i, j, k)
  {
  }

  lemma {:induction false} GrowCovers(addrs: seq<nat>, bits: seq<bool>, vl: nat, i: nat, ms: seq<nat>, j: nat)
    requires |bits| == |addrs| && AddrsOk(addrs, vl) && Steady(addrs, vl) && Chain(addrs, bits, vl, i, ms, j)
    requires addrs[ms[|ms| - 1]] + vl <= addrs[i] + WIN_CAP
    ensures var last := ms[|ms| - 1];
            var w := Grow(addrs, bits, vl, addrs[i], addrs[last] + vl, last, j);
            && i <= w.1 < |addrs| && w.0 == addrs[w.1] + vl && addrs[i] <= addrs[w.1] && w.0 <= addrs[i] + WIN_CAP
            && forall k :: i <= k <= w.1 && bits[k] ==> addrs[i] <= addrs[k] && addrs[k] + vl <= w.0
    decreases |addrs| - j
  {
    hide Steady, AddrsOk, Bridge;
    var last := ms[|ms| - 1];
    ChainAscends(addrs, bits, vl, i, ms, j, 0, |ms| - 1);
    if j < |addrs| && !bits[j] {
      GrowCovers(addrs, bits, vl, i, ms, j + 1);
    } else if j < |addrs| && Bridge(addrs[i], addrs[last] + vl, addrs[j], vl).0 {
      NextIsAfter(addrs, bits, vl, i, ms, j);
      ChainGrows(addrs, bits, vl, i, ms, j);
      BridgeEnd(addrs[i], addrs[last] + vl, addrs[j], vl);
      GrowCovers(addrs, bits, vl, i, ms + [j], j + 1);
    } else {
      forall k | i <= k <= last && bits[k]
        ensures addrs[i] <= addrs[k] && addrs[k] + vl <= addrs[last] + vl
      {
        var t :| 0 <= t < |ms| && ms[t] == k;
        ChainAscends(addrs, bits, vl, i, ms, j, 0, t);
        ChainAscends(addrs, bits, vl, i, ms, j, t, |ms| - 1);
      }
    }
  }

  lemma BridgeEnd(start: nat, end: nat, na: nat, vl: nat)
    ensures Bridge(start, end, na, vl).1 == if Bridge(start, end, na, vl).0 then na + vl else end
  {
  }

  lemma ChainGrows(addrs: seq<nat>, bits: seq<bool>, vl: nat, i: nat, ms: seq<nat>, j: nat)
    requires |bits| == |addrs| && Chain(addrs, bits, vl, i, ms, j) && j < |addrs|
    requires addrs[ms[|ms| - 1]] <= addrs[j] <= addrs[ms[|ms| - 1]] + vl + GAP_MAX
    ensures Chain(addrs, bits, vl, i, ms + [j], j + 1)
  {
  }

  lemma SteadyCovers(addrs: seq<nat>, bits: seq<bool>, vl: nat, i: nat)
    requires |bits| == |addrs| && AddrsOk(addrs, vl) && Steady(addrs, vl) && i < |addrs| && bits[i]
    ensures Covers(addrs, bits, vl, i)
    ensures var w := WindowOf(addrs, bits, vl, i);
            i <= w.1 < |addrs| && w.0 == addrs[w.1] + vl && addrs[i] <= addrs[w.1] && w.0 <= addrs[i] + WIN_CAP
  {
    hide Steady;
    assert Chain(addrs, bits, vl, i, [i], i + 1);
    GrowCovers(addrs, bits, vl, i, [i], i + 1);
  }

  // ---- and only they are

  function Only(n: nat, s: set<nat>): (bits: seq<bool>)
    ensures |bits| == n && forall k :: 0 <= k < n ==> bits[k] == (k in s)
  {
    seq(n, k requires 0 <= k < n => k in s)
  }

  /** An undercutting slot is read outside the window of the slot it undercuts. */
  lemma UndercutEscapes(addrs: seq<nat>, vl: nat, i: nat, j: nat)
    requires AddrsOk(addrs, vl) && Undercuts(addrs, vl, i, j)
    ensures var bits := Only(|addrs|, {i, j}); bits[i] && !Covers(addrs, bits, vl, i)
  {
    var n, bits := |addrs|, Only(|addrs|, {i, j});
    GrowSkips(addrs, bits, vl, addrs[i], addrs[i] + vl, i, i + 1, j);
    GrowSkips(addrs, bits, vl, addrs[i], addrs[j] + vl, j, j + 1, n);
    assert WindowOf(addrs, bits, vl, i) == (addrs[j] + vl, j);
    assert bits[j];
  }

  /** A slot that falls back cuts off the end of the slot it falls behind. */
  lemma FallBackCuts(addrs: seq<nat>, vl: nat, i: nat, j: nat, k: nat)
    requires AddrsOk(addrs, vl) && FallsBack(addrs, vl, i, j, k)
    ensures var bits := Only(|addrs|, {i, j, k}); bits[i] && !Covers(addrs, bits, vl, i)
  {
    var n, bits := |addrs|, Only(|addrs|, {i, j, k});
    GrowSkips(addrs, bits, vl, addrs[i], addrs[i] + vl, i, i + 1, j);
    GrowSkips(addrs, bits, vl, addrs[i], addrs[j] + vl, j, j + 1, k);
    GrowSkips(addrs, bits, vl, addrs[i], addrs[k] + vl, k, k + 1, n);
    assert WindowOf(addrs, bits, vl, i) == (addrs[k] + vl, k);
    assert bits[j];
  }

  /** Every window over every set of survivors covers them exactly when the slots are steady. */
  lemma CoversExactly(addrs: seq<nat>, vl: nat)
    requires AddrsOk(addrs, vl)
    ensures (forall bits: seq<bool>, i: nat :: |bits| == |addrs| && i < |addrs| && bits[i] ==>
               Covers(addrs, bits, vl, i))
            <==> Steady(addrs, vl)
  {
    hide Covers, Undercuts, FallsBack;
    if Steady(addrs, vl) {
      forall bits: seq<bool>, i: nat | |bits| == |addrs| && i < |addrs| && bits[i]
        ensures Covers(addrs, bits, vl, i)
      {
        SteadyCovers(addrs, bits, vl, i);
      }
    } else if i: nat, j: nat :| Undercuts(addrs, vl, i, j) {
      Within(addrs, vl, i, j, j);
      UndercutEscapes(addrs, vl, i, j);
      assert !Covers(addrs, Only(|addrs|, {i, j}), vl, i);
    } else {
      var i: nat, j: nat, k: nat :| FallsBack(addrs, vl, i, j, k);
      Within(addrs, vl, i, j, k);
      FallBackCuts(addrs, vl, i, j, k);
      assert !Covers(addrs, Only(|addrs|, {i, j, k}), vl, i);
    }
  }

  lemma Within(addrs: seq<nat>, vl: nat, i: nat, j: nat, k: nat)
    ensures Undercuts(addrs, vl, i, j) ==> i < j < |addrs|
    ensures FallsBack(addrs, vl, i, j, k) ==> i < j < k < |addrs|
  {
  }

  // ---- familiar layouts

  /** Slots ascend and no two share a byte. */
  ghost predicate Spaced(addrs: seq<nat>, vl: nat)
  {
    && (forall i, j :: 0 <= i < j < |addrs| ==> addrs[i] + vl <= addrs[j])
    && (forall i :: 0 <= i < |addrs| ==> addrs[i] + vl <= ADDR_TOP)
  }

  lemma SpacedIsSteady(addrs: seq<nat>, vl: nat)
    requires Spaced(addrs, vl) && 1 <= vl <= 8
    ensures AddrsOk(addrs, vl) && Steady(addrs, vl)
  {
  }

  /** Among disjoint slots an earlier one is undercut exactly by a later one that ends where it starts. */
  lemma DisjointUndercut(addrs: seq<nat>, vl: nat, i: nat, j: nat)
    requires i < j < |addrs| && (addrs[i] + vl <= addrs[j] || addrs[j] + vl <= addrs[i]) && vl > 0
    ensures Undercuts(addrs, vl, i, j) <==> addrs[j] + vl == addrs[i]
  {
  }

  /** So do slots that descend with a gap before each. */
  lemma GappedDescentIsSteady(addrs: seq<nat>, vl: nat)
    requires forall i, j :: 0 <= i < j < |addrs| ==> addrs[j] + vl < addrs[i]
    ensures Steady(addrs, vl)
  {
  }

  /** Slots within one window of each other are few enough for a 1 MiB buffer of baselines. */
  ghost predicate Dense(addrs: seq<nat>, vl: nat)
  {
    forall i, j :: 0 <= i <= j < |addrs| && addrs[i] <= addrs[j] && addrs[j] + vl <= addrs[i] + WIN_CAP ==>
      Off(j - i + 1, vl) <= WIN_CAP
  }

  /** Layouts a windowed rescan handles. */
  ghost predicate Scannable(addrs: seq<nat>, vl: nat)
  {
    AddrsOk(addrs, vl) && Steady(addrs, vl) && Dense(addrs, vl)
  }

  lemma ScannableInRange(addrs: seq<nat>, vl: nat, i: nat)
    requires Scannable(addrs, vl) && i < |addrs|
    ensures addrs[i] + vl <= ADDR_TOP
  {
  }

  /** Spaced slots are at least one value apart per index. */
  lemma {:induction false} SpacedDistance(addrs: seq<nat>, vl: nat, i: nat, j: nat)
    requires Spaced(addrs, vl) && i <= j < |addrs|
    ensures addrs[i] + Off(j - i, vl) <= addrs[j]
  {
    hide Off;
    if i < j {
      SpacedDistance(addrs, vl, i, j - 1);
      OffNext(j - 1 - i, vl);
    } else {
      OffIsProduct(0, vl);
    }
  }

  lemma SpacedIsScannable(addrs: seq<nat>, vl: nat)
    requires Spaced(addrs, vl) && 1 <= vl <= 8
    ensures Scannable(addrs, vl)
  {
    hide Off;
    SpacedIsSteady(addrs, vl);
    forall i, j | 0 <= i <= j < |addrs| && addrs[i] <= addrs[j] && addrs[j] + vl <= addrs[i] + WIN_CAP
      ensures Off(j - i + 1, vl) <= WIN_CAP
    {
      SpacedDistance(addrs, vl, i, j);
      OffNext(j - i, vl);
    }
  }
}
