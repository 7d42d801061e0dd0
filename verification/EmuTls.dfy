/** Emulated thread-local storage: index assignment under a lock, per-thread address arrays, every interleaving. */
module EmuTls {
  import opened Options

  type Thread = nat
  type Control = nat
  /** Object addresses; 0 is the null pointer. */
  type Object = nat

  const HEADER_WORDS: nat := 2

  /** Where a thread stands inside a lookup. */
  datatype Pc =
    | Idle
    | SawZero(c: Control)
    | Locked(c: Control)
    | Unassigned(c: Control)
    | Counted(c: Control, n: nat)
    | Assigned(c: Control, i: nat)
    | HasIndex(c: Control, i: nat)

  datatype State = State(
    index: map<Control, nat>,              // absent: the control word is still 0
    count: nat,
    lock: Option<Thread>,
    pc: map<Thread, Pc>,                   // absent: idle
    data: map<Thread, seq<Object>>,        // absent: no array yet
    newest: nat,
    found: map<(Thread, Control), Object>) // what finished lookups returned

  datatype Step = Call(t: Thread, c: Control) | Lock(t: Thread) | Check(t: Thread) | Count(t: Thread)
                | Publish(t: Thread) | Unlock(t: Thread) | Finish(t: Thread)

  function At(s: State, t: Thread): Pc { if t in s.pc then s.pc[t] else Idle }

  // ---- the address array

  /** Element count of a new array: header plus elements fill a multiple of sixteen words. */
  function NewSize(index: nat): (n: nat)
    ensures index <= n < index + 16 && (n + 2) % 16 == 0
  {
    (index + HEADER_WORDS + 15) - (index + HEADER_WORDS + 15) % 16 - HEADER_WORDS
  }

  /** The array able to hold entry `index`: created zeroed, or extended with zeros. */
  function Grown(a: Option<seq<Object>>, index: nat): (r: seq<Object>)
    ensures index <= |r|
    ensures if a.Some? && index <= |a.value| then r == a.value else |r| == NewSize(index)
    ensures a.Some? ==> |a.value| <= |r| && r[..|a.value|] == a.value
    ensures forall k :: (if a.Some? then |a.value| else 0) <= k < |r| ==> r[k] == 0
  {
    match a
    case None => seq(NewSize(index), k => 0)
    case Some(d) => if index > |d| then d + seq(NewSize(index) - |d|, k => 0) else d
  }

  // ---- steps

  predicate Enabled(s: State, a: Step)
  {
    match a
    case Call(t, c) => At(s, t).Idle?
    case Lock(t) => At(s, t).SawZero? && s.lock.None?
    case Check(t) => At(s, t).Locked?
    case Count(t) => At(s, t).Unassigned?
    case Publish(t) => At(s, t).Counted?
    case Unlock(t) => At(s, t).Assigned?
    case Finish(t) => At(s, t).HasIndex? && At(s, t).i > 0
  }

  /** Growing the array, filling its entry on first use, and returning it. */
  function Finished(s: State, t: Thread, c: Control, i: nat): State
    requires i > 0
  {
    var g := Widened(s.data, t, i);
    WidenedEntries(s.data, t, i, t, i - 1);
    if g[t][i - 1] == 0 then
      s.(data := Stored(g, t, i, s.newest + 1), newest := s.newest + 1, found := s.found[(t, c) := s.newest + 1],
         pc := s.pc[t := Idle])
    else
      s.(data := g, found := s.found[(t, c) := g[t][i - 1]], pc := s.pc[t := Idle])
  }

  function Next(s: State, a: Step): (s': State)
    requires Enabled(s, a)
  {
    match a
    case Call(t, c) => s.(pc := s.pc[t := if c in s.index then HasIndex(c, s.index[c]) else SawZero(c)])
    case Lock(t) => s.(lock := Some(t), pc := s.pc[t := Locked(At(s, t).c)])
    case Check(t) =>
      var c := At(s, t).c;
      s.(pc := s.pc[t := if c in s.index then Assigned(c, s.index[c]) else Unassigned(c)])
    case Count(t) => s.(count := s.count + 1, pc := s.pc[t := Counted(At(s, t).c, s.count + 1)])
    case Publish(t) =>
      var c, n := At(s, t).c, At(s, t).n;
      s.(index := s.index[c := n], pc := s.pc[t := Assigned(c, n)])
    case Unlock(t) => s.(lock := None, pc := s.pc[t := HasIndex(At(s, t).c, At(s, t).i)])
    case Finish(t) => Finished(s, t, At(s, t).c, At(s, t).i)
  }

  // ---- invariants

  predicate InCritical(p: Pc) { p.Locked? || p.Unassigned? || p.Counted? || p.Assigned? }

  /** Exactly the holder of the lock is between lock and unlock. */
  ghost predicate Exclusive(s: State)
  {
    forall t: Thread :: InCritical(At(s, t)) <==> s.lock == Some(t)
  }

  /** Indices start at 1, never exceed the count, and no two controls share one. */
  predicate IndexOk(index: map<Control, nat>, count: nat)
  {
    && (forall c :: c in index ==> 1 <= index[c] <= count)
    && (forall c, d :: c in index && d in index && c != d ==> index[c] != index[d])
  }

  /** What a thread remembers is still true of the shared words. */
  predicate PcOk(s: State, p: Pc)
  {
    match p
    case Unassigned(c) => c !in s.index
    case Counted(c, n) => c !in s.index && n == s.count && n >= 1 && forall d :: d in s.index ==> s.index[d] < n
    case Assigned(c, i) => c in s.index && s.index[c] == i
    case HasIndex(c, i) => c in s.index && s.index[c] == i
    case _ => true
  }

  ghost predicate PcsOk(s: State) { forall t: Thread :: PcOk(s, At(s, t)) }

  type Arrays = map<Thread, seq<Object>>
  type Results = map<(Thread, Control), Object>
  type Indices = map<Control, nat>

  predicate Entry(data: Arrays, t: Thread, k: nat) { t in data && k < |data[t]| && data[t][k] != 0 }

  /** A returned object is still in its thread's array at its control's index. */
  predicate Kept(index: Indices, data: Arrays, t: Thread, c: Control, o: Object)
  {
    c in index && index[c] >= 1 && Entry(data, t, index[c] - 1) && data[t][index[c] - 1] == o
  }

  predicate FoundOk(index: Indices, data: Arrays, found: Results)
  {
    forall x :: x in found ==> Kept(index, data, x.0, x.1, found[x])
  }

  predicate FoundAt(index: Indices, found: Results, t: Thread, k: nat)
  {
    exists c :: (t, c) in found && c in index && index[c] == k + 1
  }

  /** Every array entry was returned by a lookup of the control with that index. */
  ghost predicate EntriesOk(index: Indices, data: Arrays, found: Results)
  {
    forall t: Thread, k: nat :: Entry(data, t, k) ==> FoundAt(index, found, t, k)
  }

  /** Objects are distinct across threads and across variables. */
  predicate ObjectsOk(found: Results, newest: nat)
  {
    && (forall x :: x in found ==> 1 <= found[x] <= newest)
    && (forall x, y :: x in found && y in found && x != y ==> found[x] != found[y])
  }

  ghost predicate Inv(s: State)
  {
    && Exclusive(s) && IndexOk(s.index, s.count) && PcsOk(s)
    && FoundOk(s.index, s.data, s.found) && EntriesOk(s.index, s.data, s.found) && ObjectsOk(s.found, s.newest)
  }

  function Start(): State { State(map[], 0, None, map[], map[], 0, map[]) }

  lemma StartInv()
    ensures Inv(Start())
  {
  }

  /** The shared words do not move: only the program counter (and perhaps the lock) changes. */
  lemma PcOnly(s: State, s': State, t: Thread, p: Pc)
    requires Inv(s) && s' == s.(pc := s.pc[t := p], lock := s'.lock)
    requires PcOk(s, p) && Exclusive(s')
    ensures Inv(s')
  {
    hide FoundOk, EntriesOk, ObjectsOk, Exclusive;
    forall u: Thread ensures PcOk(s', At(s', u)) {
      assert PcOk(s, At(s, u));
    }
  }

  lemma ExclusiveStays(s: State, s': State, t: Thread, p: Pc)
    requires Exclusive(s) && s'.pc == s.pc[t := p]
    requires (s'.lock == s.lock && InCritical(p) == InCritical(At(s, t)))
          || (s.lock.None? && s'.lock == Some(t) && InCritical(p))
          || (s.lock == Some(t) && s'.lock.None? && !InCritical(p))
    ensures Exclusive(s')
  {
    forall u: Thread ensures InCritical(At(s', u)) <==> s'.lock == Some(u) {
      assert InCritical(At(s, u)) <==> s.lock == Some(u);
    }
  }

  lemma CallKeeps(s: State, t: Thread, c: Control)
    requires Inv(s) && Enabled(s, Call(t, c))
    ensures Inv(Next(s, Call(t, c)))
  {
    hide FoundOk, EntriesOk, ObjectsOk;
    var p := if c in s.index then HasIndex(c, s.index[c]) else SawZero(c);
    ExclusiveStays(s, Next(s, Call(t, c)), t, p);
    PcOnly(s, Next(s, Call(t, c)), t, p);
  }

  lemma LockKeeps(s: State, t: Thread)
    requires Inv(s) && Enabled(s, Lock(t))
    ensures Inv(Next(s, Lock(t)))
  {
    hide FoundOk, EntriesOk, ObjectsOk;
    ExclusiveStays(s, Next(s, Lock(t)), t, Locked(At(s, t).c));
    PcOnly(s, Next(s, Lock(t)), t, Locked(At(s, t).c));
  }

  lemma CheckKeeps(s: State, t: Thread)
    requires Inv(s) && Enabled(s, Check(t))
    ensures Inv(Next(s, Check(t)))
  {
    hide FoundOk, EntriesOk, ObjectsOk;
    var c := At(s, t).c;
    var p := if c in s.index then Assigned(c, s.index[c]) else Unassigned(c);
    ExclusiveStays(s, Next(s, Check(t)), t, p);
    PcOnly(s, Next(s, Check(t)), t, p);
  }

  lemma UnlockKeeps(s: State, t: Thread)
    requires Inv(s) && Enabled(s, Unlock(t))
    ensures Inv(Next(s, Unlock(t)))
  {
    hide FoundOk, EntriesOk, ObjectsOk;
    assert PcOk(s, At(s, t));
    assert InCritical(At(s, t));
    var p := HasIndex(At(s, t).c, At(s, t).i);
    ExclusiveStays(s, Next(s, Unlock(t)), t, p);
    PcOnly(s, Next(s, Unlock(t)), t, p);
  }

  lemma CountKeeps(s: State, t: Thread)
    requires Inv(s) && Enabled(s, Count(t))
    ensures Inv(Next(s, Count(t)))
  {
    hide FoundOk, EntriesOk, ObjectsOk;
    var s' := Next(s, Count(t));
    assert InCritical(At(s, t)) && PcOk(s, At(s, t));
    ExclusiveStays(s, s', t, Counted(At(s, t).c, s.count + 1));
    forall u: Thread ensures PcOk(s', At(s', u)) {
      assert PcOk(s, At(s, u));
      assert u != t ==> !InCritical(At(s, u));
    }
  }

  /** A new index for a control that had none leaves the thread-local facts alone. */
  lemma IndexAdded(index: Indices, c: Control, n: nat, data: Arrays, found: Results)
    requires FoundOk(index, data, found) && EntriesOk(index, data, found) && c !in index
    ensures FoundOk(index[c := n], data, found) && EntriesOk(index[c := n], data, found)
  {
    hide Entry, FoundAt, Kept;
    forall x | x in found ensures Kept(index[c := n], data, x.0, x.1, found[x]) {
      KeptStays(index, c, n, data, x.0, x.1, found[x]);
    }
    forall t: Thread, k: nat | Entry(data, t, k) ensures FoundAt(index[c := n], found, t, k) {
      FoundAtStays(index, c, n, found, t, k);
    }
  }

  lemma KeptStays(index: Indices, c: Control, n: nat, data: Arrays, t: Thread, d: Control, o: Object)
    requires c !in index && Kept(index, data, t, d, o)
    ensures Kept(index[c := n], data, t, d, o)
  {
  }

  lemma FoundAtStays(index: Indices, c: Control, n: nat, found: Results, t: Thread, k: nat)
    requires c !in index && FoundAt(index, found, t, k)
    ensures FoundAt(index[c := n], found, t, k)
  {
    var d :| (t, d) in found && d in index && index[d] == k + 1;
    assert (t, d) in found && d in index[c := n] && index[c := n][d] == k + 1;
  }

  lemma PublishKeeps(s: State, t: Thread)
    requires Inv(s) && Enabled(s, Publish(t))
    ensures Inv(Next(s, Publish(t)))
  {
    hide FoundOk, EntriesOk, ObjectsOk;
    var s' := Next(s, Publish(t));
    assert InCritical(At(s, t)) && PcOk(s, At(s, t));
    ExclusiveStays(s, s', t, Assigned(At(s, t).c, At(s, t).n));
    forall u: Thread ensures PcOk(s', At(s', u)) {
      assert PcOk(s, At(s, u));
      assert u != t ==> !InCritical(At(s, u));
    }
    IndexAdded(s.index, At(s, t).c, At(s, t).n, s.data, s.found);
  }

  // ---- the thread-local part

  /** The entry a lookup finds filled was filled for the same control. */
  lemma FilledForUs(s: State, t: Thread, c: Control, i: nat)
    requires Inv(s) && c in s.index && s.index[c] == i && i > 0 && Entry(s.data, t, i - 1)
    ensures (t, c) in s.found && s.found[(t, c)] == s.data[t][i - 1]
  {
    hide Exclusive, PcsOk, ObjectsOk;
    assert FoundAt(s.index, s.found, t, i - 1);
    var d :| (t, d) in s.found && d in s.index && s.index[d] == i;
    assert d == c;
    assert Kept(s.index, s.data, t, c, s.found[(t, c)]);
  }

  lemma EmptyForUs(s: State, t: Thread, c: Control, i: nat)
    requires Inv(s) && c in s.index && s.index[c] == i && i > 0 && !Entry(s.data, t, i - 1)
    ensures (t, c) !in s.found
  {
    hide Exclusive, PcsOk, ObjectsOk, EntriesOk;
    assert forall o :: !Kept(s.index, s.data, t, c, o);
  }

  function ArrayIn(data: Arrays, t: Thread): Option<seq<Object>> { if t in data then Some(data[t]) else None }

  function Widened(data: Arrays, t: Thread, i: nat): (d: Arrays) { data[t := Grown(ArrayIn(data, t), i)] }

  lemma WidenedEntries(data: Arrays, t: Thread, i: nat, u: Thread, k: nat)
    ensures Entry(Widened(data, t, i), u, k) <==> Entry(data, u, k)
    ensures Entry(data, u, k) ==> Widened(data, t, i)[u][k] == data[u][k]
    ensures t in Widened(data, t, i) && i <= |Widened(data, t, i)[t]|
  {
    var d := Grown(ArrayIn(data, t), i);
    if t in data && k < |data[t]| {
      assert d[..|data[t]|][k] == data[t][k];
    }
  }

  /** Growing keeps every entry and adds none. */
  lemma GrowKeeps(index: Indices, data: Arrays, found: Results, t: Thread, i: nat)
    requires FoundOk(index, data, found) && EntriesOk(index, data, found)
    ensures FoundOk(index, Widened(data, t, i), found) && EntriesOk(index, Widened(data, t, i), found)
  {
    hide Grown, Widened, Entry;
    var data' := Widened(data, t, i);
    forall x | x in found ensures Kept(index, data', x.0, x.1, found[x]) {
      assert Kept(index, data, x.0, x.1, found[x]);
      WidenedEntries(data, t, i, x.0, index[x.1] - 1);
    }
    forall u: Thread, k: nat | Entry(data', u, k) ensures FoundAt(index, found, u, k) {
      WidenedEntries(data, t, i, u, k);
    }
  }

  function Stored(data: Arrays, t: Thread, i: nat, o: Object): (d: Arrays)
    requires 0 < i && t in data && i <= |data[t]|
  {
    var d: seq<Object> := data[t];
    data[t := d[i - 1 := o]]
  }

  lemma StoredEntries(data: Arrays, t: Thread, i: nat, o: Object, u: Thread, k: nat)
    requires 0 < i && t in data && i <= |data[t]| && o != 0
    ensures u == t && k == i - 1 ==> Entry(Stored(data, t, i, o), u, k) && Stored(data, t, i, o)[u][k] == o
    ensures !(u == t && k == i - 1) ==> (Entry(Stored(data, t, i, o), u, k) <==> Entry(data, u, k))
    ensures !(u == t && k == i - 1) && Entry(data, u, k) ==> Stored(data, t, i, o)[u][k] == data[u][k]
  {
  }

  /** Storing a fresh object in an empty entry. */
  lemma FillKeeps(index: Indices, data: Arrays, found: Results, newest: nat, t: Thread, c: Control, i: nat)
    requires FoundOk(index, data, found) && EntriesOk(index, data, found)
    requires forall d :: d in index && d != c ==> index[d] != i
    requires c in index && index[c] == i && i > 0 && t in data && i <= |data[t]| && data[t][i - 1] == 0
    ensures FoundOk(index, Stored(data, t, i, newest + 1), found[(t, c) := newest + 1])
    ensures EntriesOk(index, Stored(data, t, i, newest + 1), found[(t, c) := newest + 1])
  {
    hide Entry, Stored, Kept, FoundAt;
    var data', found' := Stored(data, t, i, newest + 1), found[(t, c) := newest + 1];
    forall x | x in found' ensures Kept(index, data', x.0, x.1, found'[x]) {
      FillKept(index, data, found, newest, t, c, i, x);
    }
    forall u: Thread, k: nat | Entry(data', u, k) ensures FoundAt(index, found', u, k) {
      FillFound(index, data, found, newest, t, c, i, u, k);
    }
  }

  lemma FillKept(index: Indices, data: Arrays, found: Results, newest: nat, t: Thread, c: Control, i: nat,
                 x: (Thread, Control))
    requires FoundOk(index, data, found) && x in found[(t, c) := newest + 1]
    requires forall d :: d in index && d != c ==> index[d] != i
    requires c in index && index[c] == i && i > 0 && t in data && i <= |data[t]|
    ensures Kept(index, Stored(data, t, i, newest + 1), x.0, x.1, found[(t, c) := newest + 1][x])
  {
    hide Stored;
    if x == (t, c) {
      StoredEntries(data, t, i, newest + 1, t, i - 1);
    } else {
      assert Kept(index, data, x.0, x.1, found[x]);
      StoredEntries(data, t, i, newest + 1, x.0, index[x.1] - 1);
    }
  }

  lemma FillFound(index: Indices, data: Arrays, found: Results, newest: nat, t: Thread, c: Control, i: nat,
                  u: Thread, k: nat)
    requires EntriesOk(index, data, found) && c in index && index[c] == i && i > 0 && t in data && i <= |data[t]|
    requires Entry(Stored(data, t, i, newest + 1), u, k)
    ensures FoundAt(index, found[(t, c) := newest + 1], u, k)
  {
    hide Entry, Stored;
    var found' := found[(t, c) := newest + 1];
    StoredEntries(data, t, i, newest + 1, u, k);
    if u == t && k == i - 1 {
      assert (t, c) in found';
    } else {
      assert FoundAt(index, found, u, k);
      var d :| (u, d) in found && d in index && index[d] == k + 1;
      assert (u, d) in found';
    }
  }

  lemma NewObject(found: Results, newest: nat, x: (Thread, Control))
    requires ObjectsOk(found, newest)
    ensures ObjectsOk(found[x := newest + 1], newest + 1)
  {
  }

  lemma FinishKeeps(s: State, t: Thread)
    requires Inv(s) && Enabled(s, Finish(t))
    ensures Inv(Next(s, Finish(t)))
  {
    hide FoundOk, EntriesOk, ObjectsOk, Widened, Stored;
    var c, i := At(s, t).c, At(s, t).i;
    assert PcOk(s, At(s, t));
    var g := Widened(s.data, t, i);
    GrowKeeps(s.index, s.data, s.found, t, i);
    WidenedEntries(s.data, t, i, t, i - 1);
    var s' := Next(s, Finish(t));
    if g[t][i - 1] == 0 {
      FillKeeps(s.index, g, s.found, s.newest, t, c, i);
      NewObject(s.found, s.newest, (t, c));
    } else {
      FilledForUs(s, t, c, i);
      assert s'.found == s.found;
    }
    ExclusiveStays(s, s', t, Idle);
    forall u: Thread ensures PcOk(s', At(s', u)) {
      assert PcOk(s, At(s, u));
    }
  }

  /** Every step of every thread keeps the invariant. */
  lemma NextKeeps(s: State, a: Step)
    requires Inv(s) && Enabled(s, a)
    ensures Inv(Next(s, a))
  {
    hide Inv, Enabled, Next;
    match a
    case Call(t, c) => CallKeeps(s, t, c);
    case Lock(t) => LockKeeps(s, t);
    case Check(t) => CheckKeeps(s, t);
    case Count(t) => CountKeeps(s, t);
    case Publish(t) => PublishKeeps(s, t);
    case Unlock(t) => UnlockKeeps(s, t);
    case Finish(t) => FinishKeeps(s, t);
  }

  /** A set index, a grown array and a returned object are never changed by a later step. */
  ghost predicate Later(s: State, s': State)
  {
    && (forall c :: c in s.index ==> c in s'.index && s'.index[c] == s.index[c])
    && (forall x :: x in s.found ==> x in s'.found && s'.found[x] == s.found[x])
    && (forall t :: t in s.data ==> t in s'.data && |s.data[t]| <= |s'.data[t]|)
  }

  lemma FinishIsLater(s: State, t: Thread)
    requires Inv(s) && Enabled(s, Finish(t))
    ensures Later(s, Next(s, Finish(t)))
  {
    hide FoundOk, EntriesOk, Exclusive, ObjectsOk;
    var c, i := At(s, t).c, At(s, t).i;
    assert PcOk(s, At(s, t));
    WidenedEntries(s.data, t, i, t, i - 1);
    if Entry(s.data, t, i - 1) { FilledForUs(s, t, c, i); } else { EmptyForUs(s, t, c, i); }
  }

  lemma NextIsLater(s: State, a: Step)
    requires Inv(s) && Enabled(s, a)
    ensures Later(s, Next(s, a))
  {
    match a
    case Finish(t) => FinishIsLater(s, t);
    case Publish(t) => assert PcOk(s, At(s, t));
    case _ =>
  }

  // ---- no index is skipped, and nobody waits forever

  /** Is index `k` assigned to a control, or about to be? */
  ghost predicate Used(s: State, k: nat)
  {
    || (exists c :: c in s.index && s.index[c] == k)
    || (exists t: Thread :: At(s, t).Counted? && At(s, t).n == k)
  }

  /** The indices are the numbers from 1 to the count, without gaps. */
  ghost predicate NoGaps(s: State)
  {
    forall k: nat :: 1 <= k <= s.count <==> Used(s, k)
  }

  lemma StartNoGaps()
    ensures NoGaps(Start())
  {
  }

  lemma UsedBelow(s: State, k: nat)
    requires Inv(s) && Used(s, k)
    ensures 1 <= k <= s.count
  {
    hide Exclusive, FoundOk, EntriesOk, ObjectsOk;
    if t: Thread :| At(s, t).Counted? && At(s, t).n == k { assert PcOk(s, At(s, t)); }
  }

  lemma NextNoGaps(s: State, a: Step)
    requires Inv(s) && NoGaps(s) && Enabled(s, a)
    ensures NoGaps(Next(s, a))
  {
    NextKeeps(s, a);
    var s' := Next(s, a);
    forall k: nat | 1 <= k <= s'.count ensures Used(s', k) {
      StaysUsed(s, a, k);
    }
    forall k: nat | Used(s', k) ensures 1 <= k <= s'.count {
      UsedBelow(s', k);
    }
  }

  lemma StaysUsed(s: State, a: Step, k: nat)
    requires Inv(s) && NoGaps(s) && Enabled(s, a) && 1 <= k <= Next(s, a).count
    ensures Used(Next(s, a), k)
  {
    hide Exclusive, FoundOk, EntriesOk, ObjectsOk, IndexOk, Widened, Stored;
    var s' := Next(s, a);
    if k <= s.count {
      assert Used(s, k);
      if c :| c in s.index && s.index[c] == k {
        if a.Publish? { assert PcOk(s, At(s, a.t)); }
        assert c in s'.index && s'.index[c] == k;
      } else {
        var t: Thread :| At(s, t).Counted? && At(s, t).n == k;
        if a == Publish(t) {
          assert At(s, t).c in s'.index && s'.index[At(s, t).c] == k;
        } else {
          assert At(s', t) == At(s, t);
        }
      }
    } else {
      assert At(s', a.t).Counted? && At(s', a.t).n == k;
    }
  }

  /** The step a thread in the middle of a lookup takes next. */
  function Pending(s: State, t: Thread): Step
  {
    match At(s, t)
    case Idle => Call(t, 0)
    case SawZero(_) => Lock(t)
    case Locked(_) => Check(t)
    case Unassigned(_) => Count(t)
    case Counted(_, _) => Publish(t)
    case Assigned(_, _) => Unlock(t)
    case HasIndex(_, _) => Finish(t)
  }

  /** A thread can always go on, unless another one holds the lock, and then that one can. */
  lemma Progress(s: State, t: Thread)
    requires Inv(s)
    ensures Enabled(s, Pending(s, t))
         || (s.lock.Some? && s.lock.value != t && Enabled(s, Pending(s, s.lock.value)))
  {
    hide FoundOk, EntriesOk, ObjectsOk;
    assert PcOk(s, At(s, t));
    if s.lock.Some? { assert InCritical(At(s, s.lock.value)); }
  }

  // ---- whole runs, in any interleaving

  predicate Possible(s: State, run: seq<Step>)
    decreases |run|, 0
  {
    |run| == 0 || (Possible(s, run[..|run| - 1]) && Enabled(Run(s, run[..|run| - 1]), run[|run| - 1]))
  }

  function Run(s: State, run: seq<Step>): (s': State)
    requires Possible(s, run)
    decreases |run|, 1
  {
    if |run| == 0 then s else Next(Run(s, run[..|run| - 1]), run[|run| - 1])
  }

  lemma {:induction false} RunKeeps(s: State, run: seq<Step>)
    requires Inv(s) && Possible(s, run)
    ensures Inv(Run(s, run)) && Later(s, Run(s, run))
    ensures NoGaps(s) ==> NoGaps(Run(s, run))
  {
    hide Inv, Enabled, Next, NoGaps;
    if |run| > 0 {
      var r := Run(s, run[..|run| - 1]);
      RunKeeps(s, run[..|run| - 1]);
      NextKeeps(r, run[|run| - 1]);
      NextIsLater(r, run[|run| - 1]);
      if NoGaps(r) { NextNoGaps(r, run[|run| - 1]); }
    }
  }

  /** The object a thread gets from the lookup that finishes here. */
  function Returned(s: State, t: Thread): (o: Object)
    requires Enabled(s, Finish(t))
  {
    Next(s, Finish(t)).found[(t, At(s, t).c)]
  }

  /** In every run from the start, two lookups of one variable by one thread return the same non-null object. */
  lemma SameObject(before: seq<Step>, t: Thread, between: seq<Step>)
    requires Possible(Start(), before) && Enabled(Run(Start(), before), Finish(t))
    requires var s := Run(Start(), before);
             var s1 := Next(s, Finish(t));
             && Possible(s1, between) && Enabled(Run(s1, between), Finish(t))
             && At(Run(s1, between), t).c == At(s, t).c
    ensures var s := Run(Start(), before);
            var s2 := Run(Next(s, Finish(t)), between);
            Returned(s2, t) == Returned(s, t) != 0
  {
    hide Inv, Next, Run, Possible;
    var s := Run(Start(), before);
    StartInv();
    RunKeeps(Start(), before);
    var s1 := Next(s, Finish(t));
    NextKeeps(s, Finish(t));
    RunKeeps(s1, between);
    var s2 := Run(s1, between);
    NextKeeps(s2, Finish(t));
    NextIsLater(s2, Finish(t));
    FinishRecords(s, t);
    NonNull(s1, t, At(s, t).c);
  }

  lemma FinishRecords(s: State, t: Thread)
    requires Enabled(s, Finish(t))
    ensures (t, At(s, t).c) in Next(s, Finish(t)).found
  {
  }

  lemma NonNull(s: State, t: Thread, c: Control)
    requires Inv(s) && (t, c) in s.found
    ensures s.found[(t, c)] != 0
  {
    hide Exclusive, PcsOk, FoundOk, EntriesOk;
  }

  /** Lookups by different threads or of different variables never return the same object. */
  lemma DistinctObjects(run: seq<Step>, t: Thread, c: Control, u: Thread, d: Control)
    requires Possible(Start(), run) && (t, c) in Run(Start(), run).found && (u, d) in Run(Start(), run).found
    requires t != u || c != d
    ensures Run(Start(), run).found[(t, c)] != Run(Start(), run).found[(u, d)]
  {
    StartInv();
    RunKeeps(Start(), run);
  }
}
