/** Merging enumerated ranges into the kernel's own map of a process. */
module VmMerge {

  /** A map entry; `aux` marks the entries that came from the page tables. */
  datatype Ent = Ent(start: nat, end: nat, prot: nat, aux: bool)

  predicate Ascending(s: seq<Ent>)
  {
    forall i, j :: 0 <= i < j < |s| ==> s[i].start < s[j].start
  }

  predicate HasStart(s: seq<Ent>, a: nat)
  {
    exists x :: x in s && x.start == a
  }

  /** All of `v`, and those of `e` whose start `v` does not have. */
  predicate Wanted(v: seq<Ent>, e: seq<Ent>, x: Ent)
  {
    x in v || (x in e && !HasStart(v, x.start))
  }

  /** `out` holds exactly what is wanted of the two prefixes, in order, below everything that is still to come. */
  ghost predicate Merged(v: seq<Ent>, e: seq<Ent>, iv: nat, ie: nat, out: seq<Ent>)
    requires iv <= |v| && ie <= |e|
  {
    && Ascending(out)
    && (forall x :: x in out <==> x in v[..iv] || (x in e[..ie] && !HasStart(v, x.start)))
    && (forall x :: x in out && iv < |v| ==> x.start < v[iv].start)
    && (forall x :: x in out && ie < |e| ==> x.start < e[ie].start)
  }

  /** Starts already passed in one list are below what is left in the other. */
  ghost predicate Aligned(v: seq<Ent>, e: seq<Ent>, iv: nat, ie: nat)
    requires iv <= |v| && ie <= |e|
  {
    && (forall k :: 0 <= k < iv && ie < |e| ==> v[k].start < e[ie].start)
    && (forall k :: 0 <= k < ie && iv < |v| ==> e[k].start < v[iv].start)
  }

  lemma Push(s: seq<Ent>, x: Ent)
    requires Ascending(s) && forall y :: y in s ==> y.start < x.start
    ensures Ascending(s + [x])
  {
    var t := s + [x];
    forall i, j | 0 <= i < j < |t|
      ensures t[i].start < t[j].start
    {
      assert t[i] in s;
    }
  }

  lemma Prefix(s: seq<Ent>, k: nat)
    requires k < |s|
    ensures forall x :: x in s[..k + 1] <==> x in s[..k] || x == s[k]
  {
    assert s[..k + 1] == s[..k] + [s[k]];
  }

  /** Take the next entry of `v`; if `e` starts at the same address, its entry is dropped. */
  lemma TakeV(v: seq<Ent>, e: seq<Ent>, iv: nat, ie: nat, out: seq<Ent>, same: bool)
    requires Ascending(v) && Ascending(e) && iv < |v| && ie <= |e|
    requires same ==> ie < |e| && v[iv].start == e[ie].start
    requires !same && ie < |e| ==> v[iv].start < e[ie].start
    requires Merged(v, e, iv, ie, out) && Aligned(v, e, iv, ie)
    ensures var ie' := if same then ie + 1 else ie;
            Merged(v, e, iv + 1, ie', out + [v[iv]]) && Aligned(v, e, iv + 1, ie')
  {
    hide Ascending;
    var ie' := if same then ie + 1 else ie;
    var out' := out + [v[iv]];
    Push(out, v[iv]);
    Prefix(v, iv);
    if same {
      Prefix(e, ie);
      assert v[iv] in v;
    }
    if iv + 1 < |v| { Next(v, iv); }
    if ie' < |e| && same { Next(e, ie); }
    AlignedV(v, e, iv, ie, same);
  }

  lemma Next(s: seq<Ent>, k: nat)
    requires Ascending(s) && k + 1 < |s|
    ensures s[k].start < s[k + 1].start
  {
  }

  lemma AlignedV(v: seq<Ent>, e: seq<Ent>, iv: nat, ie: nat, same: bool)
    requires Ascending(v) && Ascending(e) && iv < |v| && ie <= |e|
    requires same ==> ie < |e| && v[iv].start == e[ie].start
    requires !same && ie < |e| ==> v[iv].start < e[ie].start
    requires Aligned(v, e, iv, ie)
    ensures Aligned(v, e, iv + 1, if same then ie + 1 else ie)
  {
  }

  /** Take the next entry of `e`: no entry of `v` starts there. */
  lemma TakeE(v: seq<Ent>, e: seq<Ent>, iv: nat, ie: nat, out: seq<Ent>)
    requires Ascending(v) && Ascending(e) && iv <= |v| && ie < |e|
    requires iv < |v| ==> e[ie].start < v[iv].start
    requires Merged(v, e, iv, ie, out) && Aligned(v, e, iv, ie)
    ensures Merged(v, e, iv, ie + 1, out + [e[ie]]) && Aligned(v, e, iv, ie + 1)
  {
    NoSuchStart(v, e, iv, ie);
    Push(out, e[ie]);
    Prefix(e, ie);
    if ie + 1 < |e| { Next(e, ie); }
  }

  lemma NoSuchStart(v: seq<Ent>, e: seq<Ent>, iv: nat, ie: nat)
    requires Ascending(v) && iv <= |v| && ie < |e|
    requires iv < |v| ==> e[ie].start < v[iv].start
    requires Aligned(v, e, iv, ie)
    ensures !HasStart(v, e[ie].start)
  {
    forall x | x in v
      ensures x.start != e[ie].start
    {
      var k :| 0 <= k < |v| && v[k] == x;
      if k > iv { assert v[iv].start < v[k].start; }
    }
  }

  /** ptw_merge. */
  method Merge(v: seq<Ent>, e: seq<Ent>) returns (ok: bool, out: seq<Ent>)
    requires Ascending(v) && Ascending(e)
    ensures ok <==> |v| + |e| > 0
    ensures ok ==> Ascending(out) && forall x :: x in out <==> Wanted(v, e, x)
  {
    hide Ascending, Merged, Aligned, Wanted;
    out := [];
    if |v| + |e| == 0 { return false, out; }
    var iv, ie := 0, 0;
    Start(v, e);
    while iv < |v| && ie < |e|
      invariant 0 <= iv <= |v| && 0 <= ie <= |e| && Merged(v, e, iv, ie, out) && Aligned(v, e, iv, ie)
      decreases |v| - iv + |e| - ie
    {
      if v[iv].start == e[ie].start {
        TakeV(v, e, iv, ie, out, true);
        out := out + [v[iv]];
        iv, ie := iv + 1, ie + 1;
      } else if v[iv].start < e[ie].start {
        TakeV(v, e, iv, ie, out, false);
        out := out + [v[iv]];
        iv := iv + 1;
      } else {
        TakeE(v, e, iv, ie, out);
        out := out + [e[ie]];
        ie := ie + 1;
      }
    }
    while iv < |v|
      invariant 0 <= iv <= |v| && 0 <= ie <= |e| && (iv < |v| ==> ie == |e|)
      invariant Merged(v, e, iv, ie, out) && Aligned(v, e, iv, ie)
    {
      TakeV(v, e, iv, ie, out, false);
      out := out + [v[iv]];
      iv := iv + 1;
    }
    while ie < |e|
      invariant iv == |v| && 0 <= ie <= |e| && Merged(v, e, iv, ie, out) && Aligned(v, e, iv, ie)
    {
      TakeE(v, e, iv, ie, out);
      out := out + [e[ie]];
      ie := ie + 1;
    }
    Finish(v, e, out);
    ok := true;
  }

  lemma Finish(v: seq<Ent>, e: seq<Ent>, out: seq<Ent>)
    requires Merged(v, e, |v|, |e|, out)
    ensures Ascending(out) && forall x :: x in out <==> Wanted(v, e, x)
  {
    assert v[..|v|] == v && e[..|e|] == e;
  }

  lemma Start(v: seq<Ent>, e: seq<Ent>)
    ensures Merged(v, e, 0, 0, []) && Aligned(v, e, 0, 0)
  {
  }

  /** The wanted entries in ascending order are one list: the merge result is determined by its specification. */
  lemma {:induction false} MergeIsUnique(a: seq<Ent>, b: seq<Ent>)
    requires Ascending(a) && Ascending(b) && forall x :: x in a <==> x in b
    ensures a == b
    decreases |a|
  {
    if a == [] {
      HasNone(b);
    } else {
      assert a[0] in a;
      assert b != [];
      assert b[0] in b;
      assert a[0] == b[0] by { SameHead(a, b); }
      forall x
        ensures x in a[1..] <==> x in b[1..]
      {
        TailMember(a, x);
        TailMember(b, x);
      }
      MergeIsUnique(a[1..], b[1..]);
      assert a == [a[0]] + a[1..] && b == [b[0]] + b[1..];
    }
  }

  lemma HasNone(s: seq<Ent>)
    ensures (forall x :: x !in s) ==> s == []
  {
    if s != [] { assert s[0] in s; }
  }

  lemma SameHead(a: seq<Ent>, b: seq<Ent>)
    requires Ascending(a) && Ascending(b) && a != [] && b != [] && a[0] in b && b[0] in a
    ensures a[0] == b[0]
  {
    var i :| 0 <= i < |b| && b[i] == a[0];
    var j :| 0 <= j < |a| && a[j] == b[0];
  }

  lemma TailMember(a: seq<Ent>, x: Ent)
    requires Ascending(a) && a != []
    ensures x in a[1..] <==> x in a && x != a[0]
  {
    if x in a[1..] {
      var i :| 0 <= i < |a[1..]| && a[1..][i] == x;
      assert a[i + 1] == x;
    }
    if x in a && x != a[0] {
      var i :| 0 <= i < |a| && a[i] == x;
      assert a[1..][i - 1] == x;
    }
  }
}
