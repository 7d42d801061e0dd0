/** Symbol identifiers: eleven characters that carry the reversed first half-digest of the salted name. */
module Nid {
  import opened Sha1Spec
  import opened Sha1Stream
  import opened Options
  import opened Bytes

  const SALT: Bytes8 := [0x51, 0x8d, 0x64, 0xa6, 0x35, 0xde, 0xd8, 0xc1, 0xe6, 0xb0, 0x39, 0xb1, 0xc3, 0xe5, 0x52, 0x30]
  const UPPER: string := "ABCDEFGHIJKLMNOPQRSTUVWXYZ"
  const LOWER: string := "abcdefghijklmnopqrstuvwxyz"
  const DIGITS: string := "0123456789"
  const CHARSET: string := UPPER + LOWER + DIGITS + "+-"

  type sextet = x: int | 0 <= x < 64
  type octet = x: int | 0 <= x < 256

  function CharOf(v: sextet): (c: char)
  {
    assert |CHARSET| == 64;
    CHARSET[v]
  }

  /** The inverse table, written by character ranges. */
  function ValueOf(c: char): (v: Option<sextet>)
  {
    if 'A' <= c <= 'Z' then Some(c as int - 'A' as int)
    else if 'a' <= c <= 'z' then Some(c as int - 'a' as int + 26)
    else if '0' <= c <= '9' then Some(c as int - '0' as int + 52)
    else if c == '+' then Some(62)
    else if c == '-' then Some(63)
    else None
  }

  lemma UpperAt(v: nat)
    requires v < 26
    ensures UPPER[v] as int == 'A' as int + v
  {
  }

  lemma LowerAt(v: nat)
    requires v < 26
    ensures LOWER[v] as int == 'a' as int + v
  {
  }

  lemma DigitAt(v: nat)
    requires v < 10
    ensures DIGITS[v] as int == '0' as int + v
  {
  }

  lemma CharRoundTrip(v: sextet)
    ensures ValueOf(CharOf(v)) == Some(v)
  {
    if v < 26 {
      assert CharOf(v) == UPPER[v];
      UpperAt(v);
    } else if v < 52 {
      assert CharOf(v) == LOWER[v - 26];
      LowerAt(v - 26);
    } else if v < 62 {
      assert CharOf(v) == DIGITS[v - 52];
      DigitAt(v - 52);
    }
  }

  // ---- three octets as four characters

  function Chars(a: octet, b: octet, c: octet): (s: string)
    ensures |s| == 4
  {
    var abc := a * 0x1_0000 + b * 0x100 + c;
    [CharOf((abc / 0x4_0000) % 64), CharOf((abc / 0x1000) % 64), CharOf((abc / 0x40) % 64), CharOf(abc % 64)]
  }

  function Octets(c0: char, c1: char, c2: char, c3: char): (r: Option<(octet, octet, octet)>)
  {
    match (ValueOf(c0), ValueOf(c1), ValueOf(c2), ValueOf(c3))
    case (Some(v0), Some(v1), Some(v2), Some(v3)) =>
      Some((v0 * 4 + v1 / 16, (v1 % 16) * 16 + v2 / 4, (v2 % 4) * 64 + v3))
    case _ => None
  }

  /** With `abc` cut as `hi * 2^k + lo`, dropping `k` bits and keeping six more leaves the low six of `hi`. */
  lemma Cut(abc: nat, q: nat, r: nat, m: nat, t: sextet)
    requires m > 0 && abc == m * (64 * q + t) + r && r < m
    ensures (abc / m) % 64 == t
  {
    DivModUnique(m, abc / m, abc % m, 64 * q + t, r);
    DivModUnique(64, (abc / m) / 64, (abc / m) % 64, q, t);
  }

  lemma Regroup(a: octet, b: octet, c: octet)
    ensures var abc := a * 0x1_0000 + b * 0x100 + c;
            && (abc / 0x4_0000) % 64 == a / 4 && (abc / 0x1000) % 64 == (a % 4) * 16 + b / 16
            && (abc / 0x40) % 64 == (b % 16) * 4 + c / 64 && abc % 64 == c % 64
  {
    var abc := a * 0x1_0000 + b * 0x100 + c;
    var a1, a0, b1, b0, c1, c0 := a / 4, a % 4, b / 16, b % 16, c / 64, c % 64;
    Cut(abc, 0, a0 * 0x1_0000 + b * 0x100 + c, 0x4_0000, a1);
    Cut(abc, a1, b0 * 0x100 + c, 0x1000, a0 * 16 + b1);
    Cut(abc, a * 16 + b1, c0, 0x40, b0 * 4 + c1);
    Cut(abc, a * 0x400 + b * 4 + c1, 0, 1, c0);
  }

  lemma Ungroup(a: octet, b: octet, c: octet)
    ensures (a / 4) * 4 + ((a % 4) * 16 + b / 16) / 16 == a
    ensures (((a % 4) * 16 + b / 16) % 16) * 16 + ((b % 16) * 4 + c / 64) / 4 == b
    ensures (((b % 16) * 4 + c / 64) % 4) * 64 + c % 64 == c
  {
    assert ((a % 4) * 16 + b / 16) / 16 == a % 4 && ((a % 4) * 16 + b / 16) % 16 == b / 16;
    assert ((b % 16) * 4 + c / 64) / 4 == b % 16 && ((b % 16) * 4 + c / 64) % 4 == c / 64;
  }

  lemma GroupRoundTrip(a: octet, b: octet, c: octet)
    ensures var s := Chars(a, b, c); Octets(s[0], s[1], s[2], s[3]) == Some((a, b, c))
  {
    hide CharOf, ValueOf;
    Regroup(a, b, c);
    Ungroup(a, b, c);
    var s := Chars(a, b, c);
    assert s[0] == CharOf(a / 4) && s[1] == CharOf((a % 4) * 16 + b / 16);
    assert s[2] == CharOf((b % 16) * 4 + c / 64) && s[3] == CharOf(c % 64);
    CharRoundTrip(a / 4);
    CharRoundTrip((a % 4) * 16 + b / 16);
    CharRoundTrip((b % 16) * 4 + c / 64);
    CharRoundTrip(c % 64);
  }

  lemma ZeroEndsInA(a: octet, b: octet)
    ensures Chars(a, b, 0)[3] == 'A'
  {
    Regroup(a, b, 0);
    assert CharOf(0) == UPPER[0];
  }

  // ---- identifiers

  /** Eleven characters hold 66 bits: eight octets and two zero bits, the twelfth character of a
      full group being 'A'. */
  function Decode(s: string): (d: Option<seq<octet>>)
  {
    if |s| != 11 then None
    else
      match (Octets(s[0], s[1], s[2], s[3]), Octets(s[4], s[5], s[6], s[7]), Octets(s[8], s[9], s[10], 'A'))
      case (Some(x), Some(y), Some(z)) => Some([x.0, x.1, x.2, y.0, y.1, y.2, z.0, z.1])
      case _ => None
  }

  function Encode(d: seq<octet>): (s: string)
    requires |d| == 8
    ensures |s| == 11
  {
    Chars(d[0], d[1], d[2]) + Chars(d[3], d[4], d[5]) + Chars(d[6], d[7], 0)[..3]
  }

  lemma NidRoundTrip(d: seq<octet>)
    requires |d| == 8
    ensures Decode(Encode(d)) == Some(d)
  {
    hide Chars, Octets;
    GroupRoundTrip(d[0], d[1], d[2]);
    GroupRoundTrip(d[3], d[4], d[5]);
    GroupRoundTrip(d[6], d[7], 0);
    ZeroEndsInA(d[6], d[7]);
    var s, x, y, z := Encode(d), Chars(d[0], d[1], d[2]), Chars(d[3], d[4], d[5]), Chars(d[6], d[7], 0);
    assert s[0] == x[0] && s[1] == x[1] && s[2] == x[2] && s[3] == x[3];
    assert s[4] == y[0] && s[5] == y[1] && s[6] == y[2] && s[7] == y[3];
    assert s[8] == z[0] && s[9] == z[1] && s[10] == z[2];
    assert [d[0], d[1], d[2], d[3], d[4], d[5], d[6], d[7]] == d;
  }

  function Reversed8(d: Bytes8): (r: seq<octet>)
    requires |d| >= 8
    ensures |r| == 8 && forall i :: 0 <= i < 8 ==> r[i] == d[7 - i] as int
  {
    seq(8, i requires 0 <= i < 8 => d[7 - i] as int)
  }

  /** The first eight digest bytes reversed in place, the next eight cleared. */
  method SwapAndClear(digest: array<bv8>)
    requires digest.Length == 20
    modifies digest
    ensures forall i :: 0 <= i < 8 ==> digest[i] == old(digest[7 - i])
    ensures forall i :: 8 <= i < 16 ==> digest[i] == 0
  {
    forall i | 0 <= i < 8 {
      digest[i] := digest[7 - i];
    }
    forall i | 8 <= i < 16 {
      digest[i] := 0;
    }
  }

  /** The twelve characters the group loop writes. */
  function Groups(d: seq<bv8>, k: nat): (s: string)
    requires 3 * k <= |d|
    ensures |s| == 4 * k
  {
    if k == 0 then [] else Groups(d, k - 1) + Chars(d[3 * k - 3] as int, d[3 * k - 2] as int, d[3 * k - 1] as int)
  }

  lemma GroupsNone(d: seq<bv8>)
    ensures Groups(d, 0) == []
  {
  }

  lemma GroupsNext(d: seq<bv8>, k: nat)
    requires 3 * k + 3 <= |d|
    ensures Groups(d, k + 1)
         == Groups(d, k) + Chars(d[3 * k] as int, d[3 * k + 1] as int, d[3 * k + 2] as int)
  {
  }

  method Characters(digest: array<bv8>) returns (nid: array<char>)
    requires digest.Length == 20
    ensures fresh(nid) && nid.Length == 12 && nid[11] == '\0'
    ensures nid[..11] == Groups(digest[..], 3)[..11]
  {
    hide Chars, Groups;
    nid := new char[12];
    GroupsNone(digest[..]);
    var i, j := 0, 0;
    ghost var g: nat := 0;
    while j < 11
      invariant g <= 3 && i == 3 * g && j == 4 * g
      invariant nid[..j] == Groups(digest[..], g)
    {
      GroupsNext(digest[..], g);
      WriteGroup(nid, j, Chars(digest[i] as int, digest[i + 1] as int, digest[i + 2] as int));
      i, j, g := i + 3, j + 4, g + 1;
    }
    nid[11] := '\0';
  }

  method WriteGroup(nid: array<char>, j: nat, s: string)
    requires j + 4 <= nid.Length && |s| == 4
    modifies nid
    ensures nid[..j + 4] == old(nid[..j]) + s
  {
    nid[j], nid[j + 1], nid[j + 2], nid[j + 3] := s[0], s[1], s[2], s[3];
  }

  lemma GroupsEncode(d: seq<bv8>, r: seq<octet>)
    requires |d| == 20 && |r| == 8 && d[8] == 0 && forall i :: 0 <= i < 8 ==> r[i] == d[i] as int
    ensures Groups(d, 3)[..11] == Encode(r)
  {
    hide Chars;
    assert Groups(d, 1) == Chars(r[0], r[1], r[2]);
    assert Groups(d, 2) == Groups(d, 1) + Chars(r[3], r[4], r[5]);
    assert Groups(d, 3) == Groups(d, 2) + Chars(r[6], r[7], 0);
  }

  /** nid_encode: the identifier decodes to the first eight digest bytes of the salted name, last byte first. */
  method NidEncode(sym: Bytes8) returns (nid: array<char>)
    requires |sym| < 0x1_0000_0000
    ensures fresh(nid) && nid.Length == 12 && nid[11] == '\0'
    ensures Decode(nid[..11]) == Some(Reversed8(Digest(sym + [0x51, 0x8d, 0x64, 0xa6, 0x35, 0xde, 0xd8, 0xc1,
                                                              0xe6, 0xb0, 0x39, 0xb1, 0xc3, 0xe5, 0x52, 0x30])))
  {
    hide Decode, Encode, Digest, Groups, Context.Valid;
    var ctx := new Context();
    ctx.Update(sym);
    ctx.Update(SALT);
    assert ctx.msg == sym + SALT;
    var digest := ctx.Final();
    ghost var was := digest[..];
    SwapAndClear(digest);
    nid := Characters(digest);
    GroupsEncode(digest[..], Reversed8(was));
    NidRoundTrip(Reversed8(was));
  }
}
