/** Array-of-bytes search: patterns, matches and the answer a search must give. */
module AobSpec {
  import opened Bytes

  /** A pattern; mask byte 1 means "must match". `target` is the 1-based occurrence to return. */
  datatype Pat = Pat(pat: seq<byte>, msk: seq<byte>, target: nat)

  predicate GoodPat(p: Pat)
  {
    |p.pat| >= 1 && |p.msk| == |p.pat| && p.target < 256
  }

  /** First byte of the pattern if it is fixed, -1 if it is a wildcard. */
  function FirstFixed(p: Pat): (f: int)
    requires GoodPat(p)
    ensures -1 <= f < 256
  {
    if p.msk[0] == 1 then p.pat[0] else -1
  }

  /** Does the pattern match the bytes of `s` at `pos`? */
  predicate MatchIn(s: seq<byte>, pos: nat, p: Pat)
    requires GoodPat(p) && pos + |p.pat| <= |s|
  {
    forall k :: 0 <= k < |p.pat| ==> s[pos + k] == p.pat[k] || p.msk[k] != 1
  }

  /** A one-byte pattern matches unless its byte must match and differs. */
  lemma MatchesByte(s: seq<byte>, pos: nat, p: Pat)
    requires GoodPat(p) && |p.pat| == 1 && pos < |s|
    ensures MatchIn(s, pos, p) <==> p.msk[0] != 1 || s[pos] == p.pat[0]
  {
  }

  function Head(p: Pat, n: nat): (h: Pat)
    requires GoodPat(p) && 0 < n < |p.pat|
    ensures GoodPat(h)
  {
    Pat(p.pat[..n], p.msk[..n], p.target)
  }

  function Rest(p: Pat, n: nat): (t: Pat)
    requires GoodPat(p) && 0 < n < |p.pat|
    ensures GoodPat(t)
  {
    Pat(p.pat[n..], p.msk[n..], p.target)
  }

  /** A region of target memory. */
  datatype Area = Area(mem: Memory, base: nat, length: nat)

  predicate MatchAt(a: Area, g: nat, p: Pat)
    requires GoodPat(p)
  {
    g + |p.pat| <= a.length && MatchIn(Slice(a.mem, a.base + g, |p.pat|), 0, p)
  }

  /** Cut anywhere, a pattern matches exactly when its first part matches and the rest matches right behind. */
  lemma MatchCuts(a: Area, g: nat, p: Pat, n: nat)
    requires GoodPat(p) && 0 < n < |p.pat|
    ensures MatchAt(a, g, p) <==> MatchAt(a, g, Head(p, n)) && MatchAt(a, g + n, Rest(p, n))
  {
    if g + |p.pat| <= a.length {
      var s, h, t := Slice(a.mem, a.base + g, |p.pat|), Slice(a.mem, a.base + g, n),
                     Slice(a.mem, a.base + (g + n), |p.pat| - n);
      assert forall k :: 0 <= k < |p.pat| ==> s[k] == (if k < n then h[k] else t[k - n]);
      if MatchIn(h, 0, Head(p, n)) && MatchIn(t, 0, Rest(p, n)) {
        forall k | 0 <= k < |p.pat|
          ensures s[0 + k] == p.pat[k] || p.msk[k] != 1
        {
          if k < n {
            assert h[0 + k] == Head(p, n).pat[k] || Head(p, n).msk[k] != 1;
          } else {
            assert t[0 + (k - n)] == Rest(p, n).pat[k - n] || Rest(p, n).msk[k - n] != 1;
          }
        }
      }
      if MatchIn(s, 0, p) {
        forall k | 0 <= k < n
          ensures h[0 + k] == Head(p, n).pat[k] || Head(p, n).msk[k] != 1
        {
          assert s[0 + k] == p.pat[k] || p.msk[k] != 1;
        }
        forall k | 0 <= k < |p.pat| - n
          ensures t[0 + k] == Rest(p, n).pat[k] || Rest(p, n).msk[k] != 1
        {
          assert s[0 + (n + k)] == p.pat[n + k] || p.msk[n + k] != 1;
        }
      }
    }
  }

  /** Every byte of the pattern must match. */
  predicate AllFixed(p: Pat) { forall m :: m in p.msk ==> m == 1 }

  /** A pattern without wildcards matches exactly where its bytes are. */
  lemma LiteralMatch(a: Area, g: nat, p: Pat)
    requires GoodPat(p) && AllFixed(p)
    ensures MatchAt(a, g, p) <==> g + |p.pat| <= a.length && Slice(a.mem, a.base + g, |p.pat|) == p.pat
  {
    var s := Slice(a.mem, a.base + g, |p.pat|);
    assert forall k :: 0 <= k < |p.msk| ==> p.msk[k] in p.msk;
    if MatchIn(s, 0, p) {
      assert forall k :: 0 <= k < |p.pat| ==> s[0 + k] == p.pat[k];
    }
  }

  /** Offsets in [lo, hi) where the pattern matches inside the region, ascending. */
  function Matches(a: Area, p: Pat, lo: nat, hi: nat): (s: seq<nat>)
    requires GoodPat(p) && lo <= hi
  {
    if lo == hi then []
    else if MatchAt(a, hi - 1, p) then Matches(a, p, lo, hi - 1) + [hi - 1]
    else Matches(a, p, lo, hi - 1)
  }

  lemma {:induction false} MatchesSplit(a: Area, p: Pat, lo: nat, mid: nat, hi: nat)
    requires GoodPat(p) && lo <= mid <= hi
    ensures Matches(a, p, lo, hi) == Matches(a, p, lo, mid) + Matches(a, p, mid, hi)
  {
    hide MatchAt;
    if mid < hi { MatchesSplit(a, p, lo, mid, hi - 1); }
  }

  predicate Ascending(s: seq<nat>)
  {
    forall i, j :: 0 <= i < j < |s| ==> s[i] < s[j]
  }

  lemma AscendingSnoc(s: seq<nat>, x: nat)
    requires Ascending(s) && forall y :: y in s ==> y < x
    ensures Ascending(s + [x])
  {
    forall i, j | 0 <= i < j < |s + [x]|
      ensures (s + [x])[i] < (s + [x])[j]
    {
      if j == |s| { assert s[i] in s; }
    }
  }

  /** Every matching offset is listed, in ascending order, and nothing else. */
  lemma {:induction false} MatchesComplete(a: Area, p: Pat, lo: nat, hi: nat)
    requires GoodPat(p) && lo <= hi
    ensures forall g :: lo <= g < hi ==> (g in Matches(a, p, lo, hi) <==> MatchAt(a, g, p))
    ensures forall g :: g in Matches(a, p, lo, hi) ==> lo <= g < hi
    ensures Ascending(Matches(a, p, lo, hi))
  {
    hide MatchAt, Ascending;
    if lo < hi {
      MatchesComplete(a, p, lo, hi - 1);
      AscendingSnoc(Matches(a, p, lo, hi - 1), hi - 1);
    } else {
      AscendingNone();
    }
  }

  lemma AscendingNone()
    ensures Ascending([])
  {
  }

  /** The answer: address of the target-th match; 0 if there is none, or if it must be the last and is not. */
  function Answer(a: Area, p: Pat, stopUnique: bool): nat
    requires GoodPat(p)
  {
    var m := Matches(a, p, 0, a.length);
    if p.target == 0 || |m| < p.target then 0
    else if stopUnique && |m| > p.target then 0
    else a.base + m[p.target - 1]
  }

  /** A non-zero answer is the address of a match with exactly target - 1 matches before it; nothing else is missed. */
  lemma AnswerMeans(a: Area, p: Pat, stopUnique: bool)
    requires GoodPat(p)
    ensures var out := Answer(a, p, stopUnique);
            out != 0 ==>
              && a.base <= out && MatchAt(a, out - a.base, p)
              && |Matches(a, p, 0, out - a.base)| + 1 == p.target
              && (stopUnique ==> Matches(a, p, out - a.base + 1, a.length) == [])
  {
    hide MatchAt;
    var m := Matches(a, p, 0, a.length);
    if Answer(a, p, stopUnique) != 0 {
      var k := p.target - 1;
      MatchesComplete(a, p, 0, a.length);
      assert m[k] in m;
      MatchesBefore(a, p, a.length, k);
      MatchesSplit(a, p, 0, m[k], a.length);
      MatchesSplit(a, p, m[k], m[k] + 1, a.length);
    }
  }

  /** Before match number k there are k matches. */
  lemma {:induction false} MatchesBefore(a: Area, p: Pat, hi: nat, k: nat)
    requires GoodPat(p) && k < |Matches(a, p, 0, hi)|
    ensures Matches(a, p, 0, hi)[k] < hi && |Matches(a, p, 0, Matches(a, p, 0, hi)[k])| == k
  {
    hide MatchAt;
    if k < |Matches(a, p, 0, hi - 1)| { MatchesBefore(a, p, hi - 1, k); }
  }

  /** A literal pattern's bytes are found where a search says they are. */
  lemma LiteralAnswer(a: Area, p: Pat, stopUnique: bool)
    requires GoodPat(p)
    ensures AllFixed(p) && Answer(a, p, stopUnique) != 0 ==>
              Slice(a.mem, Answer(a, p, stopUnique), |p.pat|) == p.pat
  {
    hide MatchAt, Matches, Answer;
    AnswerMeans(a, p, stopUnique);
    var out := Answer(a, p, stopUnique);
    if AllFixed(p) && out != 0 { LiteralMatch(a, out - a.base, p); }
  }

  /** Matching against a buffered copy of the region is matching in the region. */
  lemma BufferedMatch(a: Area, win: seq<byte>, off: nat, jj: nat, p: Pat)
    requires GoodPat(p) && win == Slice(a.mem, a.base + off, |win|) && jj + |p.pat| <= |win|
    requires off + jj + |p.pat| <= a.length
    ensures MatchIn(win, jj, p) <==> MatchAt(a, off + jj, p)
  {
    var s := Slice(a.mem, a.base + (off + jj), |p.pat|);
    assert forall k :: 0 <= k < |p.pat| ==> s[k] == win[jj + k];
  }

  /** aob_match_at. */
  method MatchTest(s: seq<byte>, pos: nat, p: Pat) returns (ok: bool)
    requires GoodPat(p) && pos + |p.pat| <= |s|
    ensures ok <==> MatchIn(s, pos, p)
  {
    for k := 0 to |p.pat|
      invariant forall i :: 0 <= i < k ==> s[pos + i] == p.pat[i] || p.msk[i] != 1
    {
      if s[pos + k] != p.pat[k] && p.msk[k] == 1 { return false; }
    }
    return true;
  }
}
