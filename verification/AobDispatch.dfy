/** First-byte dispatch: pattern indices grouped by fixed first byte, wildcards apart. */
module AobDispatch {
  import opened AobSpec

  /** Indices below `n` of the patterns whose first byte is `f` (-1: wildcard), ascending. */
  function Bucket(pats: seq<Pat>, f: int, n: nat): (s: seq<nat>)
    requires n <= |pats| && forall p :: p in pats ==> GoodPat(p)
    ensures |s| <= n
    ensures forall x :: x in s ==> x < n
  {
    if n == 0 then []
    else if FirstFixed(pats[n - 1]) == f then Bucket(pats, f, n - 1) + [n - 1]
    else Bucket(pats, f, n - 1)
  }

  /** A bucket holds exactly its patterns, each once. */
  lemma {:induction false} BucketExact(pats: seq<Pat>, f: int, n: nat)
    requires n <= |pats| && forall p :: p in pats ==> GoodPat(p)
    ensures forall i :: 0 <= i < n ==> (i in Bucket(pats, f, n) <==> FirstFixed(pats[i]) == f)
    ensures Ascending(Bucket(pats, f, n))
  {
    hide Ascending, FirstFixed;
    if n > 0 {
      BucketExact(pats, f, n - 1);
      AscendingSnoc(Bucket(pats, f, n - 1), n - 1);
    } else {
      AscendingNone();
    }
  }

  lemma {:induction false} BucketGrows(pats: seq<Pat>, f: int, k: nat, n: nat)
    requires k <= n <= |pats| && forall p :: p in pats ==> GoodPat(p)
    ensures |Bucket(pats, f, k)| <= |Bucket(pats, f, n)|
  {
    if k < n { BucketGrows(pats, f, k, n - 1); }
  }

  /** Sizes of the buckets of bytes below `b`. */
  function Before(pats: seq<Pat>, b: nat): nat
    requires b <= 256 && forall p :: p in pats ==> GoodPat(p)
  {
    if b == 0 then 0 else Before(pats, b - 1) + |Bucket(pats, b - 1, |pats|)|
  }

  lemma {:induction false} BeforeMonotone(pats: seq<Pat>, b: nat, c: nat)
    requires b <= c <= 256 && forall p :: p in pats ==> GoodPat(p)
    ensures Before(pats, b) <= Before(pats, c)
  {
    if b < c { BeforeMonotone(pats, b, c - 1); }
  }

  /** Patterns among the first `n` with a fixed first byte below `b`. */
  function Fixed(pats: seq<Pat>, b: nat, n: nat): nat
    requires n <= |pats| && forall p :: p in pats ==> GoodPat(p)
  {
    if n == 0 then 0 else Fixed(pats, b, n - 1) + if 0 <= FirstFixed(pats[n - 1]) < b then 1 else 0
  }

  lemma {:induction false} FixedSteps(pats: seq<Pat>, b: nat, n: nat)
    requires n <= |pats| && forall p :: p in pats ==> GoodPat(p)
    ensures Fixed(pats, b + 1, n) == Fixed(pats, b, n) + |Bucket(pats, b, n)|
    ensures Fixed(pats, 0, n) == 0 && Fixed(pats, b, n) <= n
  {
    if n > 0 { FixedSteps(pats, b, n - 1); }
  }

  /** All buckets together fit the index array. */
  lemma {:induction false} BeforeIsFixed(pats: seq<Pat>, b: nat)
    requires b <= 256 && forall p :: p in pats ==> GoodPat(p)
    ensures Before(pats, b) == Fixed(pats, b, |pats|) <= |pats|
  {
    FixedSteps(pats, b, |pats|);
    if b > 0 {
      BeforeIsFixed(pats, b - 1);
      FixedSteps(pats, b - 1, |pats|);
    }
  }

  datatype Dispatch = Dispatch(boff: seq<nat>, bidx: seq<nat>, widx: seq<nat>)

  ghost predicate BucketStored(pats: seq<Pat>, d: Dispatch, b: nat)
    requires forall p :: p in pats ==> GoodPat(p)
    requires |d.boff| == 257 && b < 256
  {
    && d.boff[b] <= d.boff[b + 1] <= |d.bidx|
    && d.bidx[d.boff[b]..d.boff[b + 1]] == Bucket(pats, b, |pats|)
  }

  ghost predicate GoodDispatch(pats: seq<Pat>, d: Dispatch)
    requires forall p :: p in pats ==> GoodPat(p)
  {
    && |d.boff| == 257
    && (forall b :: 0 <= b < 256 ==> BucketStored(pats, d, b))
    && d.widx == Bucket(pats, -1, |pats|)
  }

  /** bcount[]: occurrences of each fixed first byte. */
  method CountFirstBytes(pats: seq<Pat>) returns (bcount: array<nat>)
    requires forall p :: p in pats ==> GoodPat(p)
    ensures fresh(bcount) && bcount.Length == 256
    ensures forall b :: 0 <= b < 256 ==> bcount[b] == |Bucket(pats, b, |pats|)|
  {
    bcount := new nat[256](i => 0);
    for pi := 0 to |pats|
      invariant forall b :: 0 <= b < 256 ==> bcount[b] == |Bucket(pats, b, pi)|
    {
      var f := FirstFixed(pats[pi]);
      if f >= 0 { bcount[f] := bcount[f] + 1; }
    }
  }

  /** Everything below the cursors is in place after `k` patterns. */
  ghost predicate Placed(pats: seq<Pat>, boff: seq<nat>, cursor: seq<nat>, bidx: seq<nat>, k: nat)
    requires k <= |pats| && forall p :: p in pats ==> GoodPat(p)
  {
    && |boff| == 257 && |cursor| == 256 && |bidx| == |pats|
    && (forall b :: 0 <= b <= 256 ==> boff[b] == Before(pats, b))
    && (forall b :: 0 <= b < 256 ==> cursor[b] == boff[b] + |Bucket(pats, b, k)| <= |bidx|)
    && (forall b :: 0 <= b < 256 ==> bidx[boff[b]..cursor[b]] == Bucket(pats, b, k))
  }

  lemma PlaceStep(pats: seq<Pat>, boff: seq<nat>, cursor: seq<nat>, bidx: seq<nat>, k: nat)
    requires k < |pats| && forall p :: p in pats ==> GoodPat(p)
    requires Placed(pats, boff, cursor, bidx, k)
    ensures var f := FirstFixed(pats[k]);
            && |cursor| == 256 && |bidx| == |pats|
            && if f >= 0 then
              && cursor[f] < |bidx|
              && Placed(pats, boff, cursor[f := cursor[f] + 1], bidx[cursor[f] := k], k + 1)
            else Placed(pats, boff, cursor, bidx, k + 1)
  {
    hide FirstFixed;
    var f := FirstFixed(pats[k]);
    if f >= 0 {
      CursorRoom(pats, boff, cursor, bidx, k, f);
      var c, x := cursor[f := cursor[f] + 1], bidx[cursor[f] := k];
      forall b | 0 <= b < 256
        ensures c[b] == boff[b] + |Bucket(pats, b, k + 1)| <= |x| && x[boff[b]..c[b]] == Bucket(pats, b, k + 1)
      {
        PlaceOne(pats, boff, cursor, bidx, k, f, b);
      }
    } else {
      forall b | 0 <= b < 256
        ensures Bucket(pats, b, k + 1) == Bucket(pats, b, k)
      {
      }
    }
  }

  lemma CursorRoom(pats: seq<Pat>, boff: seq<nat>, cursor: seq<nat>, bidx: seq<nat>, k: nat, f: nat)
    requires k < |pats| && forall p :: p in pats ==> GoodPat(p)
    requires Placed(pats, boff, cursor, bidx, k) && f < 256 && FirstFixed(pats[k]) == f
    ensures cursor[f] < boff[f + 1] <= |bidx|
  {
    BucketGrows(pats, f, k + 1, |pats|);
    BeforeIsFixed(pats, f + 1);
  }

  lemma PlaceOne(pats: seq<Pat>, boff: seq<nat>, cursor: seq<nat>, bidx: seq<nat>, k: nat, f: nat, b: nat)
    requires k < |pats| && forall p :: p in pats ==> GoodPat(p)
    requires Placed(pats, boff, cursor, bidx, k) && f < 256 && b < 256 && FirstFixed(pats[k]) == f
    requires cursor[f] < boff[f + 1] <= |bidx|
    ensures var c, x := cursor[f := cursor[f] + 1], bidx[cursor[f] := k];
            c[b] == boff[b] + |Bucket(pats, b, k + 1)| <= |x| && x[boff[b]..c[b]] == Bucket(pats, b, k + 1)
  {
    BucketNext(pats, b, k);
    hide Before, Bucket, FirstFixed;
    if b == f {
      SliceSnoc(bidx, boff[f], cursor[f], k);
    } else {
      BucketApart(pats, boff, cursor, bidx, k, f, b);
      SliceElsewhere(bidx, boff[b], cursor[b], cursor[f], k);
    }
  }

  lemma BucketNext(pats: seq<Pat>, f: int, k: nat)
    requires k < |pats| && forall p :: p in pats ==> GoodPat(p)
    ensures Bucket(pats, f, k + 1)
         == if FirstFixed(pats[k]) == f then Bucket(pats, f, k) + [k] else Bucket(pats, f, k)
  {
  }

  /** The cursor of one bucket never reaches into another. */
  lemma BucketApart(pats: seq<Pat>, boff: seq<nat>, cursor: seq<nat>, bidx: seq<nat>, k: nat, f: nat, b: nat)
    requires k < |pats| && forall p :: p in pats ==> GoodPat(p)
    requires Placed(pats, boff, cursor, bidx, k) && f < 256 && b < 256 && b != f
    requires cursor[f] < boff[f + 1] <= |bidx|
    ensures cursor[f] < boff[b] || cursor[b] <= cursor[f]
  {
    hide Bucket;
    if b < f {
      BucketGrows(pats, b, k, |pats|);
      BeforeMonotone(pats, b + 1, f);
    } else {
      BeforeMonotone(pats, f + 1, b);
    }
  }

  lemma SliceSnoc<T>(s: seq<T>, lo: nat, hi: nat, v: T)
    requires lo <= hi < |s|
    ensures s[hi := v][lo..hi + 1] == s[lo..hi] + [v]
  {
  }

  lemma SliceElsewhere<T>(s: seq<T>, lo: nat, hi: nat, at: nat, v: T)
    requires lo <= hi <= |s| && at < |s| && (at < lo || hi <= at)
    ensures s[at := v][lo..hi] == s[lo..hi]
  {
  }

  /** boff[]: running sums of the bucket sizes. */
  method BucketOffsets(pats: seq<Pat>) returns (boff: array<nat>)
    requires forall p :: p in pats ==> GoodPat(p)
    ensures fresh(boff) && boff.Length == 257
    ensures forall b :: 0 <= b <= 256 ==> boff[b] == Before(pats, b)
  {
    hide FirstFixed, Before, Bucket;
    var bcount := CountFirstBytes(pats);
    boff := new nat[257](i => 0);
    FirstOffset(pats);
    for b := 0 to 256
      invariant forall c :: 0 <= c <= b ==> boff[c] == Before(pats, c)
      invariant forall c :: 0 <= c < 256 ==> bcount[c] == |Bucket(pats, c, |pats|)|
    {
      BeforeStep(pats, b);
      boff[b + 1] := boff[b] + bcount[b];
    }
  }

  /** aob_build_dispatch: a counting sort of the pattern indices by first byte. */
  method Build(pats: seq<Pat>) returns (d: Dispatch)
    requires forall p :: p in pats ==> GoodPat(p)
    ensures GoodDispatch(pats, d)
  {
    hide FirstFixed, Before, Placed, Bucket, BucketStored;
    var boff := BucketOffsets(pats);
    var cursor := new nat[256](b requires 0 <= b < 256 reads boff => boff[b]);
    var bidx := new nat[|pats|](i => 0);
    var widx: seq<nat> := [];
    ghost var bo := boff[..];
    PlacedStart(pats, bo, cursor[..], bidx[..]);
    for pi := 0 to |pats|
      invariant boff[..] == bo
      invariant Placed(pats, bo, cursor[..], bidx[..], pi)
      invariant widx == Bucket(pats, -1, pi)
    {
      PlaceStep(pats, bo, cursor[..], bidx[..], pi);
      WildStep(pats, pi);
      var f := FirstFixed(pats[pi]);
      ghost var c0, x0 := cursor[..], bidx[..];
      if f >= 0 {
        bidx[cursor[f]] := pi;
        cursor[f] := cursor[f] + 1;
        assert cursor[..] == c0[f := c0[f] + 1] && bidx[..] == x0[c0[f] := pi];
      } else {
        widx := widx + [pi];
      }
    }
    d := Dispatch(boff[..], bidx[..], widx);
    forall b | 0 <= b < 256
      ensures BucketStored(pats, d, b)
    {
      AllPlaced(pats, d, cursor[..], b);
    }
  }

  lemma WildStep(pats: seq<Pat>, k: nat)
    requires k < |pats| && forall p :: p in pats ==> GoodPat(p)
    ensures Bucket(pats, -1, 0) == []
    ensures Bucket(pats, -1, k + 1)
         == if FirstFixed(pats[k]) < 0 then Bucket(pats, -1, k) + [k] else Bucket(pats, -1, k)
  {
  }

  lemma AllPlaced(pats: seq<Pat>, d: Dispatch, cursor: seq<nat>, b: nat)
    requires (forall p :: p in pats ==> GoodPat(p)) && b < 256 && Placed(pats, d.boff, cursor, d.bidx, |pats|)
    ensures BucketStored(pats, d, b)
  {
    BeforeStep(pats, b);
  }

  lemma FirstOffset(pats: seq<Pat>)
    requires forall p :: p in pats ==> GoodPat(p)
    ensures Before(pats, 0) == 0
  {
  }

  lemma BeforeStep(pats: seq<Pat>, b: nat)
    requires b < 256 && forall p :: p in pats ==> GoodPat(p)
    ensures Before(pats, b + 1) == Before(pats, b) + |Bucket(pats, b, |pats|)| <= |pats|
  {
    BeforeIsFixed(pats, b + 1);
  }

  lemma PlacedStart(pats: seq<Pat>, boff: seq<nat>, cursor: seq<nat>, bidx: seq<nat>)
    requires forall p :: p in pats ==> GoodPat(p)
    requires |boff| == 257 && |cursor| == 256 && |bidx| == |pats|
    requires forall b :: 0 <= b <= 256 ==> boff[b] == Before(pats, b)
    requires forall b :: 0 <= b < 256 ==> cursor[b] == boff[b]
    ensures Placed(pats, boff, cursor, bidx, 0) && Bucket(pats, -1, 0) == []
  {
    forall b | 0 <= b < 256
      ensures cursor[b] <= |bidx|
    {
      BeforeIsFixed(pats, b);
    }
  }
}
