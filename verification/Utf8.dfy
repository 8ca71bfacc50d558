/** uv__utf8_decode1 of src/idna.c, and what it makes of UTF-8, RFC 3629. */
module Utf8 {
  import opened Punycode
  import opened Rfc3492
  import opened Common

  // The result -1 of type unsigned.
  const INVALID: nat := UINT_MAX

  predicate Scalar(c: nat) {
    c <= MAX_CODE_POINT && !(0xD800 <= c <= 0xDFFF)
  }

  // The exclusive or of two numbers below 4.
  function Xor(x: nat, y: nat): nat
    requires x < 4 && y < 4
  {
    (if (x < 2) == (y < 2) then 0 else 2) + (if x % 2 == y % 2 then 0 else 1)
  }

  // The upper two bits.
  function Top(b: byte): (t: nat)
    ensures t < 4
  {
    b / 64
  }

  // The test and the assembly at the end of uv__utf8_decode1_slow; the test looks only at the
  // exclusive or of the upper two bits of the three bytes.
  function Assemble(a: nat, b: byte, c: byte, d: byte, min: nat): (r: nat)
    ensures r == INVALID || (Scalar(r) && r >= min)
  {
    var v := ((a * 64 + b % 64) * 64 + c % 64) * 64 + d % 64;
    if Xor(Xor(Top(b), Top(c)), Top(d)) != 2 || v < min || !Scalar(v) then INVALID else v
  }

  // The code point at position p and the position after it; the text ends at pe.
  function Decode1(s: seq<byte>, p: nat, pe: nat): (r: (nat, nat))
    requires p < pe <= |s|
    ensures p < r.1 <= pe && (r.0 == INVALID || Scalar(r.0))
  {
    var a, q, left := s[p], p + 1, pe - p - 1;
    if a < 128 then (a, q)
    else if a > 0xF7 then (INVALID, q)
    else if left >= 3 && a > 0xEF then (Assemble(a % 8, s[q], s[q + 1], s[q + 2], 0x10000), q + 3)
    else if left >= 2 && a > 0xDF then (Assemble(0, 0x80 + a % 16, s[q], s[q + 1], 0x800), q + 2)
    else if left >= 1 && a > 0xBF then (Assemble(0, 0x80, 0x80 + a % 32, s[q], 0x80), q + 1)
    else (INVALID, q)
  }

  // The code points of s[p..pe] up to its end or to the first place that does not decode.
  function Chars(s: seq<byte>, p: nat, pe: nat): (cps: seq<nat>)
    requires p <= pe <= |s|
    ensures CodePoints(cps) && |cps| <= pe - p
    decreases pe - p
  {
    if p == pe || Decode1(s, p, pe).0 == INVALID then []
    else [Decode1(s, p, pe).0] + Chars(s, Decode1(s, p, pe).1, pe)
  }

  predicate Legal(s: seq<byte>, p: nat, pe: nat)
    requires p <= pe <= |s|
    decreases pe - p
  {
    p == pe || (Decode1(s, p, pe).0 != INVALID && Legal(s, Decode1(s, p, pe).1, pe))
  }

  // ---------- UTF-8 ----------

  function Utf8(c: nat): seq<byte>
    requires Scalar(c)
  {
    if c < 0x80 then [c]
    else if c < 0x800 then [0xC0 + c / 64, 0x80 + c % 64]
    else if c < 0x10000 then [0xE0 + c / 64 / 64, 0x80 + c / 64 % 64, 0x80 + c % 64]
    else [0xF0 + c / 64 / 64 / 64, 0x80 + c / 64 / 64 % 64, 0x80 + c / 64 % 64, 0x80 + c % 64]
  }

  ghost predicate Scalars(cps: seq<nat>) {
    forall i :: 0 <= i < |cps| ==> Scalar(cps[i])
  }

  ghost function Utf8All(cps: seq<nat>): seq<byte>
    requires Scalars(cps)
  {
    if cps == [] then [] else Utf8(cps[0]) + Utf8All(cps[1..])
  }

  // Bytes that carry the bits of v in groups of six.
  lemma Assembles(v: nat, b: byte, c: byte, d: byte, min: nat)
    requires Scalar(v) && v >= min && Xor(Xor(Top(b), Top(c)), Top(d)) == 2
    requires b % 64 == v / 64 / 64 % 64 && c % 64 == v / 64 % 64 && d % 64 == v % 64
    ensures Assemble(v / 64 / 64 / 64, b, c, d, min) == v
  {
    hide Xor;
  }

  lemma SixBits(x: nat)
    requires x < 64
    ensures Top(0x80 + x) == 2 && (0x80 + x) % 64 == x
  {
  }

  lemma ThreeContinuations()
    ensures Xor(Xor(2, 2), 2) == 2
  {
  }

  // What a lead byte carries.
  lemma LeadBits(a: byte, x: nat)
    ensures a == 0xC0 + x && x < 32 ==> a % 32 == x
    ensures a == 0xE0 + x && x < 16 ==> a % 16 == x
    ensures a == 0xF0 + x && x < 8 ==> a % 8 == x
  {
  }

  lemma Decodes3(u: seq<byte>, p: nat, pe: nat, c: nat)
    requires 0x800 <= c < 0x10000 && Scalar(c) && p + 3 <= pe <= |u| && u[p] == 0xE0 + c / 64 / 64
    requires u[p + 1] == 0x80 + c / 64 % 64 && u[p + 2] == 0x80 + c % 64
    ensures Decode1(u, p, pe) == (c, p + 3)
  {
    hide Assemble, Xor;
    SixBits(c / 64 / 64);
    SixBits(c / 64 % 64);
    SixBits(c % 64);
    ThreeContinuations();
    Assembles(c, 0x80 + c / 64 / 64, u[p + 1], u[p + 2], 0x800);
    LeadBits(u[p], c / 64 / 64);
  }

  lemma Decodes4(u: seq<byte>, p: nat, pe: nat, c: nat)
    requires 0x10000 <= c && Scalar(c) && p + 4 <= pe <= |u| && u[p] == 0xF0 + c / 64 / 64 / 64
    requires u[p + 1] == 0x80 + c / 64 / 64 % 64 && u[p + 2] == 0x80 + c / 64 % 64 && u[p + 3] == 0x80 + c % 64
    ensures Decode1(u, p, pe) == (c, p + 4)
  {
    hide Assemble, Xor;
    SixBits(c / 64 / 64 % 64);
    SixBits(c / 64 % 64);
    SixBits(c % 64);
    ThreeContinuations();
    Assembles(c, u[p + 1], u[p + 2], u[p + 3], 0x10000);
    LeadBits(u[p], c / 64 / 64 / 64);
  }

  // Well-formed input decodes to what it encodes.
  lemma DecodesUtf8(s: seq<byte>, p: nat, pe: nat, c: nat)
    requires Scalar(c) && p + |Utf8(c)| <= pe <= |s| && s[p..p + |Utf8(c)|] == Utf8(c)
    ensures Decode1(s, p, pe) == (c, p + |Utf8(c)|)
  {
    var u := s[p..p + |Utf8(c)|];
    assert s[p] == u[0];
    if c >= 0x10000 {
      assert s[p + 1] == u[1] && s[p + 2] == u[2] && s[p + 3] == u[3];
      Decodes4(s, p, pe, c);
    } else if c >= 0x800 {
      assert s[p + 1] == u[1] && s[p + 2] == u[2];
      Decodes3(s, p, pe, c);
    } else if c >= 0x80 {
      assert s[p + 1] == u[1];
    }
  }

  lemma {:induction false} CharsUtf8(s: seq<byte>, p: nat, pe: nat, cps: seq<nat>)
    requires Scalars(cps) && p <= pe <= |s| && s[p..pe] == Utf8All(cps)
    ensures Chars(s, p, pe) == cps && Legal(s, p, pe)
    decreases |cps|
  {
    hide Utf8, Decode1;
    if cps != [] {
      var u, rest := Utf8(cps[0]), Utf8All(cps[1..]);
      var q := p + |u|;
      assert |s[p..pe]| == |u| + |rest|;
      assert s[p..q] == s[p..pe][..|u|] == u;
      assert s[q..pe] == s[p..pe][|u|..] == rest;
      DecodesUtf8(s, p, pe, cps[0]);
      CharsUtf8(s, q, pe, cps[1..]);
    }
  }

  predicate Continuation(b: byte) {
    0x80 <= b <= 0xBF
  }

  // The number of bytes that a lead byte announces.
  function Announced(a: byte): nat {
    if a < 0x80 then 1 else if a < 0xE0 then 2 else if a < 0xF0 then 3 else 4
  }

  // What decodes is the UTF-8 form of a code point exactly if its lead byte announces its length
  // and the bytes after it are continuation bytes.
  lemma AcceptsUtf8(s: seq<byte>, p: nat, pe: nat)
    requires p < pe <= |s| && Decode1(s, p, pe).0 != INVALID
    ensures
      var (c, q) := Decode1(s, p, pe);
      s[p..q] == Utf8(c) <==> Announced(s[p]) == q - p && AllContinuation(s, p + 1, q)
  {
    hide Assemble, Utf8;
    var (c, q) := Decode1(s, p, pe);
    var u := s[p..q];
    assert forall i :: p <= i < q ==> s[i] == u[i - p];
    Utf8Form(c);
    if Announced(s[p]) == q - p && AllContinuation(s, p + 1, q) {
      Reassembles(s, p, pe);
    }
  }

  predicate AllContinuation(s: seq<byte>, p: nat, q: nat)
    requires q <= |s|
  {
    forall i :: p <= i < q ==> Continuation(s[i])
  }

  lemma Utf8Form(c: nat)
    requires Scalar(c)
    ensures var u := Utf8(c); Announced(u[0]) == |u| && AllContinuation(u, 1, |u|)
  {
  }

  lemma Reassembles2(s: seq<byte>, p: nat, pe: nat)
    requires p < pe <= |s| && Decode1(s, p, pe).0 != INVALID && Decode1(s, p, pe).1 == p + 2
    requires Announced(s[p]) == 2 && AllContinuation(s, p + 1, p + 2)
    ensures s[p..p + 2] == Utf8(Decode1(s, p, pe).0)
  {
    hide Assemble, Xor;
    var (c, q) := Decode1(s, p, pe);
    assert Continuation(s[p + 1]);
    Assembled(0, 0x80, 0x80 + s[p] % 32, s[p + 1], 0x80);
    SixBits(0);
    SixBits(s[p] % 32);
    SixBits(s[p + 1] - 0x80);
    LeadBits(s[p], s[p] - 0xC0);
    assert s[p..q] == [s[p], s[p + 1]];
  }

  lemma Reassembles3(s: seq<byte>, p: nat, pe: nat)
    requires p < pe <= |s| && Decode1(s, p, pe).0 != INVALID && Decode1(s, p, pe).1 == p + 3
    requires Announced(s[p]) == 3 && AllContinuation(s, p + 1, p + 3)
    ensures s[p..p + 3] == Utf8(Decode1(s, p, pe).0)
  {
    hide Assemble, Xor;
    var (c, q) := Decode1(s, p, pe);
    assert Continuation(s[p + 1]) && Continuation(s[p + 2]);
    Assembled(0, 0x80 + s[p] % 16, s[p + 1], s[p + 2], 0x800);
    SixBits(s[p] % 16);
    SixBits(s[p + 1] - 0x80);
    SixBits(s[p + 2] - 0x80);
    LeadBits(s[p], s[p] - 0xE0);
    assert s[p..q] == [s[p], s[p + 1], s[p + 2]];
  }

  lemma Reassembles4(s: seq<byte>, p: nat, pe: nat)
    requires p < pe <= |s| && Decode1(s, p, pe).0 != INVALID && Decode1(s, p, pe).1 == p + 4
    requires Announced(s[p]) == 4 && AllContinuation(s, p + 1, p + 4)
    ensures s[p..p + 4] == Utf8(Decode1(s, p, pe).0)
  {
    hide Assemble, Xor;
    var (c, q) := Decode1(s, p, pe);
    assert Continuation(s[p + 1]) && Continuation(s[p + 2]) && Continuation(s[p + 3]);
    Assembled(s[p] % 8, s[p + 1], s[p + 2], s[p + 3], 0x10000);
    SixBits(s[p + 1] - 0x80);
    SixBits(s[p + 2] - 0x80);
    SixBits(s[p + 3] - 0x80);
    LeadBits(s[p], s[p] - 0xF0);
    assert s[p..q] == [s[p], s[p + 1], s[p + 2], s[p + 3]];
  }

  lemma Reassembles(s: seq<byte>, p: nat, pe: nat)
    requires p < pe <= |s| && Decode1(s, p, pe).0 != INVALID
    requires var q := Decode1(s, p, pe).1; Announced(s[p]) == q - p && AllContinuation(s, p + 1, q)
    ensures var (c, q) := Decode1(s, p, pe); s[p..q] == Utf8(c)
  {
    hide Assemble, Xor;
    var (c, q) := Decode1(s, p, pe);
    if q == p + 2 {
      Reassembles2(s, p, pe);
    } else if q == p + 3 {
      Reassembles3(s, p, pe);
    } else if q == p + 4 {
      Reassembles4(s, p, pe);
    }
  }

  // The bits of an assembled code point are those of its bytes.
  lemma Assembled(a: nat, b: byte, c: byte, d: byte, min: nat)
    requires Assemble(a, b, c, d, min) != INVALID
    ensures
      var v := Assemble(a, b, c, d, min);
      && v / 64 / 64 / 64 == a && v / 64 / 64 % 64 == b % 64 && v / 64 % 64 == c % 64 && v % 64 == d % 64
      && v == ((a * 64 + b % 64) * 64 + c % 64) * 64 + d % 64 && v >= min
  {
    hide Xor;
  }

  lemma MoreTops()
    ensures Xor(Xor(Top(0x84), Top(0x01)), Top(0x01)) == 2 && Xor(Xor(Top(0x80), Top(0x84)), Top(0x81)) == 2
  {
    SixBits(0);
    SixBits(1);
    SixBits(4);
    assert Top(1) == 0;
  }

  // Two of the ill-formed inputs that decode: ASCII bytes after a lead byte, and a three-byte
  // lead byte before the end of the text.
  lemma AcceptsMore()
    ensures Decode1([0xE4, 0x01, 0x01], 0, 3) == (0x4041, 3)
    ensures Decode1([0xE4, 0x81], 0, 2) == (0x101, 2)
  {
    hide Assemble, Xor;
    MoreTops();
    Assembles(0x4041, 0x84, 1, 1, 0x800);
    Assembles(0x101, 0x80, 0x84, 0x81, 0x80);
    LeadBits(0xE4, 4);
    assert 0xE4 % 32 == 4;
  }

  // ---------- the end of the text ----------

  // A character decodes the same way if the text ends earlier, but not before the character.
  lemma EndsEarlier(s: seq<byte>, p: nat, t: nat, pe: nat)
    requires p < t <= pe <= |s| && Decode1(s, p, pe).0 != INVALID && Decode1(s, p, pe).1 <= t
    ensures Decode1(s, p, t) == Decode1(s, p, pe)
  {
  }

  // cps are the code points of s[p..t] in a text that ends at pe.
  ghost predicate Reads(s: seq<byte>, p: nat, t: nat, pe: nat, cps: seq<nat>)
    requires p <= t <= pe <= |s|
    decreases |cps|
  {
    if cps == [] then p == t
    else
      p < pe && cps[0] != INVALID && Decode1(s, p, pe).0 == cps[0] && Decode1(s, p, pe).1 <= t &&
      Reads(s, Decode1(s, p, pe).1, t, pe, cps[1..])
  }

  lemma {:induction false} ReadsOn(s: seq<byte>, p: nat, t: nat, pe: nat, cps: seq<nat>)
    requires p <= t < pe <= |s| && Reads(s, p, t, pe, cps) && Decode1(s, t, pe).0 != INVALID
    ensures Reads(s, p, Decode1(s, t, pe).1, pe, cps + [Decode1(s, t, pe).0])
    decreases |cps|
  {
    hide Decode1;
    if cps == [] {
      assert ([] + [Decode1(s, t, pe).0])[1..] == [];
    } else {
      ReadsOn(s, Decode1(s, p, pe).1, t, pe, cps[1..]);
      assert (cps + [Decode1(s, t, pe).0])[1..] == cps[1..] + [Decode1(s, t, pe).0];
    }
  }

  lemma {:induction false} ReadsAlone(s: seq<byte>, p: nat, t: nat, pe: nat, cps: seq<nat>)
    requires p <= t <= pe <= |s| && Reads(s, p, t, pe, cps)
    ensures Chars(s, p, t) == cps && Legal(s, p, t)
    decreases |cps|
  {
    hide Decode1;
    if cps != [] {
      EndsEarlier(s, p, t, pe);
      ReadsAlone(s, Decode1(s, p, pe).1, t, pe, cps[1..]);
    }
  }

  lemma {:induction false} ReadsFirst(s: seq<byte>, p: nat, t: nat, pe: nat, cps: seq<nat>)
    requires p <= t <= pe <= |s| && Reads(s, p, t, pe, cps)
    ensures Chars(s, p, pe) == cps + Chars(s, t, pe) && (Legal(s, p, pe) <==> Legal(s, t, pe))
    decreases |cps|
  {
    hide Decode1;
    if cps == [] {
      assert cps + Chars(s, t, pe) == Chars(s, t, pe);
    } else {
      ReadsFirst(s, Decode1(s, p, pe).1, t, pe, cps[1..]);
      assert [cps[0]] + (cps[1..] + Chars(s, t, pe)) == cps + Chars(s, t, pe);
    }
  }
}
