/** The random stream: a permutation stirred by swaps, and rejection sampling without modulo bias. */
module Arc4 {
  import opened Bytes
  import opened Options

  // ---- the permutation

  /** All 256 byte values, each once. */
  ghost predicate Permutation(s: seq<byte>)
  {
    && |s| == 256
    && (forall a, b :: 0 <= a < b < 256 ==> s[a] != s[b])
    && (forall v: byte :: v in s)
  }

  function Swapped(s: seq<byte>, a: nat, b: nat): (r: seq<byte>)
    requires a < |s| && b < |s|
  {
    s[a := s[b]][b := s[a]]
  }

  lemma SwapKeeps(s: seq<byte>, a: nat, b: nat)
    requires Permutation(s) && a < 256 && b < 256
    ensures Permutation(Swapped(s, a, b))
  {
    var r := Swapped(s, a, b);
    forall v: byte ensures v in r {
      assert v in s;
      var k :| 0 <= k < 256 && s[k] == v;
      assert r[if k == a then b else if k == b then a else k] == v;
    }
  }

  /** Eight-bit arithmetic. */
  function Wrap(x: int): (b: byte) { x % 256 }

  function KeyByte(dat: seq<byte>, n: nat): (b: byte)
    requires |dat| > 0
  {
    dat[n % |dat|]
  }

  /** The key bytes come round and round. */
  lemma KeyRepeats(dat: seq<byte>, n: nat)
    requires |dat| > 0
    ensures n < |dat| ==> KeyByte(dat, n) == dat[n]
    ensures KeyByte(dat, n + |dat|) == KeyByte(dat, n)
  {
    if n < |dat| { ModUnique(n, |dat|, 0, n); }
    DivMod(n, |dat|);
    MulDistributes(|dat|, n / |dat|, 1);
    ModUnique(n + |dat|, |dat|, n / |dat| + 1, n % |dat|);
  }

  datatype State = State(i: byte, j: byte, s: seq<byte>)

  function Initial(): (st: State)
    ensures |st.s| == 256
  {
    State(0, 0, seq(256, n requires 0 <= n < 256 => n))
  }

  lemma InitialIsPermutation()
    ensures Permutation(Initial().s)
  {
    forall v: byte ensures v in Initial().s {
      assert Initial().s[v] == v;
    }
  }

  /** One round of key mixing or of byte drawing: advance, add to j, swap. */
  function Stir(st: State, key: nat): (r: State)
    requires |st.s| == 256
    ensures |r.s| == 256
  {
    var i := Wrap(st.i as int + 1);
    var j := Wrap(st.j as int + st.s[i] as int + key);
    State(i, j, Swapped(st.s, i, j))
  }

  function Mixed(st: State, dat: seq<byte>, n: nat): (r: State)
    requires |st.s| == 256 && |dat| > 0
    ensures |r.s| == 256
  {
    if n == 0 then st.(i := Wrap(st.i as int - 1)) else Stir(Mixed(st, dat, n - 1), KeyByte(dat, n - 1))
  }

  function AddRandom(st: State, dat: seq<byte>): (r: State)
    requires |st.s| == 256 && |dat| > 0
    ensures |r.s| == 256
  {
    var m := Mixed(st, dat, 256);
    m.(j := m.i)
  }

  /** Output of one draw after stirring. */
  function Output(st: State): (b: byte)
    requires |st.s| == 256
  {
    st.s[Wrap(st.s[st.i] as int + st.s[st.j] as int)]
  }

  /** The state after n draws. */
  function Drawn(st: State, n: nat): (r: State)
    requires |st.s| == 256
    ensures |r.s| == 256
  {
    if n == 0 then st else Stir(Drawn(st, n - 1), 0)
  }

  /** What the cipher draws first from the identity table. */
  lemma FirstDraws()
    ensures Output(Drawn(Initial(), 1)) == 2 && Output(Drawn(Initial(), 2)) == 5 && Output(Drawn(Initial(), 3)) == 7
  {
    hide Stir, Drawn;
    var st := Initial();
    DrawAt(st, 1, 1);
    var a := Stir(st, 0);
    DrawAt(a, 2, 3);
    var b := Stir(a, 0);
    DrawAt(b, 3, 5);
    DrawnNext(st, 0);
    DrawnNext(st, 1);
    DrawnNext(st, 2);
  }

  lemma DrawnNext(st: State, n: nat)
    requires |st.s| == 256
    ensures Drawn(st, 0) == st && Drawn(st, n + 1) == Stir(Drawn(st, n), 0)
  {
  }

  lemma DrawAt(st: State, i: nat, j: nat)
    requires |st.s| == 256 && st.i as int + 1 == i < 256 && j < 256 && st.j as int + st.s[i] as int == j
    ensures Stir(st, 0) == State(i, j, st.s[i := st.s[j]][j := st.s[i]])
  {
  }

  lemma StirKeeps(st: State, key: nat)
    requires Permutation(st.s)
    ensures Permutation(Stir(st, key).s)
  {
    var i := Wrap(st.i as int + 1);
    SwapKeeps(st.s, i, Wrap(st.j as int + st.s[i] as int + key));
  }

  lemma {:induction false} MixedKeeps(st: State, dat: seq<byte>, n: nat)
    requires Permutation(st.s) && |dat| > 0
    ensures Permutation(Mixed(st, dat, n).s)
  {
    hide Stir, KeyByte, Wrap;
    if n > 0 {
      MixedKeeps(st, dat, n - 1);
      StirKeeps(Mixed(st, dat, n - 1), KeyByte(dat, n - 1));
    }
  }

  /** Key scheduling as RC4 defines it, on the identity table. */
  function KeySchedule(key: seq<byte>, n: nat): (r: (byte, seq<byte>))
    requires |key| > 0 && n <= 256
    ensures |r.1| == 256
  {
    if n == 0 then (0, Initial().s)
    else
      var p := KeySchedule(key, n - 1);
      var j := Wrap(p.0 as int + p.1[n - 1] as int + key[(n - 1) % |key|] as int);
      (j, Swapped(p.1, n - 1, j))
  }

  lemma FreshCounters()
    ensures Initial().i == 0 && Initial().j == 0 && Wrap(-1) == 255
  {
  }

  lemma StirAt(st: State, n: nat, key: byte)
    requires |st.s| == 256 && n < 256 && st.i as int == (if n == 0 then 255 else n - 1)
    ensures var j := Wrap(st.j as int + st.s[n] as int + key as int); Stir(st, key) == State(n, j, Swapped(st.s, n, j))
  {
    assert Wrap(st.i as int + 1) == n;
  }

  /** Stirring a fresh table is RC4 key scheduling. */
  lemma {:induction false} FreshStirIsKeySchedule(key: seq<byte>, n: nat)
    requires |key| > 0 && n <= 256
    ensures Mixed(Initial(), key, n).s == KeySchedule(key, n).1 && Mixed(Initial(), key, n).j == KeySchedule(key, n).0
    ensures Mixed(Initial(), key, n).i == if n == 0 then 255 else n - 1
  {
    hide Swapped, Initial;
    FreshCounters();
    if n > 0 {
      FreshStirIsKeySchedule(key, n - 1);
      hide Mixed;
      StirAt(Mixed(Initial(), key, n - 1), n - 1, KeyByte(key, n - 1));
    }
  }

  class Stream {
    var i: byte
    var j: byte
    const s: array<byte>

    ghost predicate Valid()
      reads this, s
    {
      s.Length == 256 && Permutation(s[..])
    }

    ghost function Now(): State
      reads this, s
    {
      State(i, j, s[..])
    }

    /** arc4_init. */
    constructor ()
      ensures Valid() && Now() == Initial() && fresh(s)
    {
      s := new byte[256](n requires 0 <= n < 256 => n);
      i, j := 0, 0;
      new;
      InitialIsPermutation();
      assert s[..] == Initial().s;
    }

    /** The swap that mixing a key byte and drawing a byte share; the entries as they are after it. */
    method Step(key: byte) returns (si: byte, sj: byte)
      requires s.Length == 256
      modifies this, s
      ensures Now() == Stir(old(Now()), key as int) && sj == s[i] && si == s[j]
    {
      hide Wrap;
      i := Wrap(i as int + 1);
      si := s[i];
      j := Wrap(j as int + si as int + key as int);
      sj := s[j];
      s[i] := sj;
      s[j] := si;
    }

    /** arc4_addrandom. */
    method Stirred(dat: seq<byte>)
      requires Valid() && |dat| > 0
      modifies this, s
      ensures Valid() && Now() == AddRandom(old(Now()), dat)
    {
      hide Permutation, KeyByte, Wrap;
      ghost var st := Now();
      i := Wrap(i as int - 1);
      for n := 0 to 256
        invariant s.Length == 256 && Now() == Mixed(st, dat, n)
      {
        var _, _ := Step(KeyByte(dat, n));
      }
      j := i;
      MixedKeeps(st, dat, 256);
    }

    /** arc4_getbyte. */
    method GetByte() returns (b: byte)
      requires Valid()
      modifies this, s
      ensures Valid() && Now() == Stir(old(Now()), 0) && b == Output(Now())
    {
      hide Permutation, Wrap;
      StirKeeps(Now(), 0);
      var si, sj := Step(0);
      b := s[Wrap(si as int + sj as int)];
    }

    /** arc4_getword. */
    method GetWord() returns (w: nat)
      requires Valid()
      modifies this, s
      ensures Valid() && w < U32 && Now() == Drawn(old(Now()), 4)
      ensures w == ((Output(Drawn(old(Now()), 1)) as int * 256 + Output(Drawn(old(Now()), 2)) as int) * 256
                    + Output(Drawn(old(Now()), 3)) as int) * 256 + Output(Drawn(old(Now()), 4)) as int
    {
      hide Permutation, Stir, Output;
      var a := GetByte();
      assert Now() == Stir(Drawn(old(Now()), 0), 0);
      var b := GetByte();
      assert Now() == Stir(Drawn(old(Now()), 1), 0);
      var c := GetByte();
      assert Now() == Stir(Drawn(old(Now()), 2), 0);
      var d := GetByte();
      assert Now() == Stir(Drawn(old(Now()), 3), 0);
      w := a as int * 0x100_0000 + b as int * 0x1_0000 + c as int * 0x100 + d as int;
    }

    /** arc4_stir with the seed bytes as input: mix them in, then discard the early key stream. */
    method Reseed(seed: seq<byte>)
      requires Valid() && |seed| > 0
      modifies this, s
      ensures Valid() && Now() == Drawn(AddRandom(old(Now()), seed), 3072)
    {
      hide Permutation, Stir, Output, AddRandom;
      ghost var st := AddRandom(Now(), seed);
      Stirred(seed);
      for n := 0 to 3072
        invariant Valid() && Now() == Drawn(st, n)
      {
        var _ := GetByte();
      }
    }
  }

  // ---- rejection sampling

  /** Words at or above this value are accepted; computed in 32 bits as -bound % bound. */
  function Threshold(bound: nat): (m: nat)
    requires 0 < bound < U32
    ensures m < bound
  {
    (U32 - bound) % bound
  }

  lemma ThresholdIs(bound: nat)
    requires 0 < bound < U32
    ensures Threshold(bound) == U32 % bound && U32 - Threshold(bound) == bound * (U32 / bound)
  {
    ModMinus(U32, bound);
    DivMod(U32, bound);
  }

  lemma ModMinus(m: nat, b: nat)
    requires 0 < b <= m
    ensures (m - b) % b == m % b
  {
    var q, r := (m - b) / b, (m - b) % b;
    DivMod(m - b, b);
    assert m == b * (q + 1) + r;
    ModUnique(m, b, q + 1, r);
  }

  lemma DivMod(m: nat, b: nat)
    requires 0 < b
    ensures m == b * (m / b) + m % b
  {
  }

  /** Words of [lo, hi) that reduce to v. */
  function Preimages(v: nat, bound: nat, lo: nat, hi: nat): (s: set<nat>)
    requires 0 < bound
  {
    set r: nat | lo <= r < hi && r % bound == v
  }

  lemma OneMore(v: nat, bound: nat, lo: nat, hi: nat)
    requires 0 < bound && lo <= hi
    ensures |Preimages(v, bound, lo, hi + 1)| == |Preimages(v, bound, lo, hi)| + (if hi % bound == v then 1 else 0)
  {
    var a, b := Preimages(v, bound, lo, hi), Preimages(v, bound, lo, hi + 1);
    if hi % bound == v {
      assert b == a + {hi};
    } else {
      assert b == a;
    }
  }

  /** From a multiple of the bound, the first v words miss v, then one hits, then the rest of the cycle misses. */
  lemma {:induction false} Cycle(v: nat, bound: nat, lo: nat, q: nat, n: nat)
    requires 0 < bound && v < bound && n <= bound && lo <= bound * q
    ensures |Preimages(v, bound, lo, bound * q + n)| == |Preimages(v, bound, lo, bound * q)| + (if v < n then 1 else 0)
  {
    if n > 0 {
      Cycle(v, bound, lo, q, n - 1);
      OneMore(v, bound, lo, bound * q + n - 1);
      ModUnique(bound * q + n - 1, bound, q, n - 1);
    }
  }

  lemma {:induction false} Cycles(v: nat, bound: nat, q: nat)
    requires v < bound
    ensures |Preimages(v, bound, 0, bound * q)| == q
  {
    if q == 0 {
      assert Preimages(v, bound, 0, bound * q) == {};
    } else {
      Cycles(v, bound, q - 1);
      MulDistributes(bound, q, 1);
      assert bound * q == bound * (q - 1) + bound;
      Cycle(v, bound, 0, q - 1, bound);
    }
  }

  lemma Between(v: nat, bound: nat, lo: nat, hi: nat)
    requires 0 < bound && lo <= hi
    ensures |Preimages(v, bound, lo, hi)| == |Preimages(v, bound, 0, hi)| - |Preimages(v, bound, 0, lo)|
  {
    assert Preimages(v, bound, 0, hi) == Preimages(v, bound, 0, lo) + Preimages(v, bound, lo, hi);
  }

  /** Every result below the bound comes from the same number of accepted words. */
  lemma Uniformity(bound: nat, v: nat)
    requires 0 < bound < U32 && v < bound
    ensures |Preimages(v, bound, Threshold(bound), U32)| == U32 / bound
  {
    hide Preimages;
    var q, min := U32 / bound, Threshold(bound);
    ThresholdIs(bound);
    Cycles(v, bound, q);
    Cycle(v, bound, 0, q, min);
    Cycles(v, bound, 0);
    Cycle(v, bound, 0, 0, min);
    assert bound * q + min == U32 && bound * 0 + min == min;
    Between(v, bound, min, U32);
  }

  function FirstAccepted(bound: nat, words: seq<nat>): (r: Option<nat>)
    requires 0 < bound < U32
    ensures r.Some? ==> r.value < bound
    ensures r.None? <==> forall m :: 0 <= m < |words| ==> words[m] < Threshold(bound)
  {
    if |words| == 0 then None
    else if words[0] >= Threshold(bound) then Some(words[0] % bound)
    else FirstAccepted(bound, words[1..])
  }

  /** arc4random_uniform on a supply of 32-bit words: the first accepted one decides; None when all are rejected. */
  method UniformDraw(bound: nat, words: seq<nat>) returns (r: Option<nat>)
    requires bound < U32
    ensures bound < 2 ==> r == Some(0)
    ensures bound >= 2 ==> r == FirstAccepted(bound, words)
  {
    if bound < 2 { return Some(0); }
    var min := (U32 - bound) % bound;
    for k := 0 to |words|
      invariant FirstAccepted(bound, words) == FirstAccepted(bound, words[k..])
    {
      assert words[k..][1..] == words[k + 1..];
      if words[k] >= min { return Some(words[k] % bound); }
    }
    r := None;
  }
}
