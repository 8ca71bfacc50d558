/** The conversions between UTF-16 and WTF-8 of src/idna.c: what they convert, the exact
    lengths, and the round trip. */
module Wtf8 {
  import opened Punycode
  import opened Rfc3492
  import opened Common
  import opened Utf8

  type unit = x: int | 0 <= x < 0x1_0000

  const UV_ENOBUFS: int := -105

  predicate Lead(u: unit) {
    0xD800 <= u <= 0xDBFF
  }

  predicate Trail(u: unit) {
    0xDC00 <= u <= 0xDFFF
  }

  // ---------- code points ----------

  predicate IsPair(s: seq<unit>) {
    |s| >= 2 && Lead(s[0]) && Trail(s[1])
  }

  function PairValue(u: unit, next: unit): (v: nat)
    requires Lead(u) && Trail(next)
    ensures 0x10000 <= v <= MAX_CODE_POINT
  {
    0x10000 + (u - 0xD800) * 0x400 + (next - 0xDC00)
  }

  // The code point at the front of s: a surrogate that is not part of a pair stands for itself.
  function First(s: seq<unit>): (v: nat)
    requires s != []
    ensures v <= MAX_CODE_POINT
  {
    if IsPair(s) then PairValue(s[0], s[1]) else s[0]
  }

  function Past(s: seq<unit>): (rest: seq<unit>)
    requires s != []
    ensures |rest| < |s|
  {
    if IsPair(s) then s[2..] else s[1..]
  }

  // ---------- WTF-8 ----------

  function CharText(c: nat): (b: seq<byte>)
    requires c <= MAX_CODE_POINT
    ensures 1 <= |b| <= 4
  {
    if c < 0x80 then [c]
    else if c < 0x800 then [0xC0 + c / 64, 0x80 + c % 64]
    else if c < 0x10000 then [0xE0 + c / 64 / 64, 0x80 + c / 64 % 64, 0x80 + c % 64]
    else [0xF0 + c / 64 / 64 / 64, 0x80 + c / 64 / 64 % 64, 0x80 + c / 64 % 64, 0x80 + c % 64]
  }

  // The text of a sequence of UTF-16 units.
  function Text(s: seq<unit>): seq<byte> {
    if s == [] then [] else CharText(First(s)) + Text(Past(s))
  }

  // uv__wtf8_decode1: the code point at p, or -1, and the position of its last byte.
  function ReadChar(s: seq<byte>, p: nat): (r: (int, nat))
    requires p < |s| && s[|s| - 1] == 0
    ensures p <= r.1 < |s| && -1 <= r.0 <= MAX_CODE_POINT
    ensures r.0 >= 0 && s[r.1] == 0 ==> r == (0, p)
  {
    var b1 := s[p];
    if b1 <= 0x7F then (b1, p)
    else if b1 < 0xC2 then (-1, p)
    else if !Continuation(s[p + 1]) then (-1, p + 1)
    else
      var c2 := b1 * 64 + s[p + 1] % 64;
      if b1 <= 0xDF then (c2 % 0x800, p + 1)
      else if !Continuation(s[p + 2]) then (-1, p + 2)
      else
        var c3 := c2 * 64 + s[p + 2] % 64;
        if b1 <= 0xEF then (c3 % 0x10000, p + 2)
        else if !Continuation(s[p + 3]) then (-1, p + 3)
        else
          var c4 := (c3 * 64 + s[p + 3] % 64) % 0x200000;
          if b1 <= 0xF4 && c4 <= MAX_CODE_POINT then (c4, p + 3) else (-1, p + 3)
  }

  function Utf16(c: nat): seq<unit>
    requires c <= MAX_CODE_POINT
  {
    if c > 0xFFFF then [(c - 0x10000) / 0x400 + 0xD800, (c - 0x10000) % 0x400 + 0xDC00] else [c]
  }

  // The units of the text at p up to its first NUL, which is the last of them; None if it does not decode.
  function Units(s: seq<byte>, p: nat): Option<seq<unit>>
    requires p < |s| && s[|s| - 1] == 0
    decreases |s| - p
  {
    var (c, q) := ReadChar(s, p);
    if c < 0 then None
    else if s[q] == 0 then Some(Utf16(c))
    else
      var more := Units(s, q + 1);
      if more.None? then None else Some(Utf16(c) + more.value)
  }

  // ---------- the round trip ----------

  lemma Decodes2(s: seq<byte>, p: nat, c: nat)
    requires 0x80 <= c < 0x800 && p + 2 < |s| && s[|s| - 1] == 0 && s[p] == 0xC0 + c / 64 && s[p + 1] == 0x80 + c % 64
    ensures ReadChar(s, p) == (c, p + 1)
  {
    SixBits(c % 64);
    assert s[p] as int * 64 + s[p + 1] % 64 == 6 * 0x800 + c;
  }

  lemma Decodes3(s: seq<byte>, p: nat, c: nat)
    requires 0x800 <= c < 0x10000 && p + 3 < |s| && s[|s| - 1] == 0 && s[p] == 0xE0 + c / 64 / 64
    requires s[p + 1] == 0x80 + c / 64 % 64 && s[p + 2] == 0x80 + c % 64
    ensures ReadChar(s, p) == (c, p + 2)
  {
    SixBits(c % 64);
    SixBits(c / 64 % 64);
    assert (s[p] as int * 64 + s[p + 1] % 64) * 64 + s[p + 2] % 64 == 14 * 0x10000 + c;
  }

  lemma Decodes4(s: seq<byte>, p: nat, c: nat)
    requires 0x10000 <= c <= MAX_CODE_POINT && p + 4 < |s| && s[|s| - 1] == 0 && s[p] == 0xF0 + c / 64 / 64 / 64
    requires s[p + 1] == 0x80 + c / 64 / 64 % 64 && s[p + 2] == 0x80 + c / 64 % 64 && s[p + 3] == 0x80 + c % 64
    ensures ReadChar(s, p) == (c, p + 3)
  {
    SixBits(c % 64);
    SixBits(c / 64 % 64);
    SixBits(c / 64 / 64 % 64);
    assert ((s[p] as int * 64 + s[p + 1] % 64) * 64 + s[p + 2] % 64) * 64 + s[p + 3] % 64 == 30 * 0x200000 + c;
  }

  lemma DecodesWtf8(s: seq<byte>, p: nat, c: nat)
    requires c <= MAX_CODE_POINT && p + |CharText(c)| < |s| && s[|s| - 1] == 0 && s[p..p + |CharText(c)|] == CharText(c)
    ensures ReadChar(s, p) == (c, p + |CharText(c)| - 1) && (c > 0 ==> s[p + |CharText(c)| - 1] != 0)
  {
    hide ReadChar;
    var u := s[p..p + |CharText(c)|];
    assert s[p] == u[0];
    if c >= 0x10000 {
      assert s[p + 1] == u[1] && s[p + 2] == u[2] && s[p + 3] == u[3];
      Decodes4(s, p, c);
    } else if c >= 0x800 {
      assert s[p + 1] == u[1] && s[p + 2] == u[2];
      Decodes3(s, p, c);
    } else if c >= 0x80 {
      assert s[p + 1] == u[1];
      Decodes2(s, p, c);
    } else {
      Decodes1(s, p, c);
    }
  }

  lemma Decodes1(s: seq<byte>, p: nat, c: nat)
    requires c < 0x80 && p < |s| && s[|s| - 1] == 0 && s[p] == c
    ensures ReadChar(s, p) == (c, p)
  {
  }

  lemma Utf16OfFirst(s: seq<unit>)
    requires s != []
    ensures Utf16(First(s)) + Past(s) == s
  {
    if IsPair(s) {
      var a: int, b: int := s[0] - 0xD800, s[1] - 0xDC00;
      assert First(s) - 0x10000 == a * 0x400 + b;
      assert s == [s[0], s[1]] + s[2..];
    }
  }

  ghost predicate NonZero(s: seq<unit>) {
    forall i :: 0 <= i < |s| ==> s[i] != 0
  }

  lemma TextCut(s: seq<unit>, t: seq<byte>, p: nat)
    requires p <= |t| && t[p..] == Text(s) + [0]
    ensures p < |t| && t[|t| - 1] == 0
    ensures s == [] ==> t[p] == 0
    ensures
      s != [] ==>
        var b := CharText(First(s));
        p + |b| < |t| && t[p..p + |b|] == b && t[p + |b|..] == Text(Past(s)) + [0]
  {
    hide CharText, First, Past;
    if s == [] {
      assert t[p] == t[p..][0];
    } else {
      var b := CharText(First(s));
      assert t[p..] == b + (Text(Past(s)) + [0]);
    }
  }

  // Units that are not zero, converted to WTF-8 and back, are the same units, unpaired surrogates included.
  lemma {:induction false} RoundTrip(s: seq<unit>, t: seq<byte>, p: nat)
    requires NonZero(s) && p <= |t| && t[p..] == Text(s) + [0]
    ensures p < |t| && t[|t| - 1] == 0 && Units(t, p) == Some(s + [0])
    decreases |s|
  {
    hide ReadChar, CharText, Utf16, First, Past, Text;
    TextCut(s, t, p);
    if s == [] {
      Decodes1(t, p, 0);
      Utf16Zero();
    } else {
      var c, rest := First(s), Past(s);
      PastNonZero(s);
      DecodesWtf8(t, p, c);
      RoundTrip(rest, t, p + |CharText(c)|);
      Utf16OfFirst(s);
      assert Utf16(c) + (rest + [0]) == s + [0];
    }
  }

  lemma PastNonZero(s: seq<unit>)
    requires s != [] && NonZero(s)
    ensures First(s) > 0 && NonZero(Past(s))
  {
  }

  lemma Utf16Zero()
    ensures Utf16(0) == [0] && [] + [0] == [0]
  {
  }

  // ---------- the assertion in uv_wtf8_to_utf16 ----------

  // The text holds a code point that the assertion in line 397 rejects.
  ghost predicate HitsAssertion(s: seq<byte>, p: nat)
    requires p < |s| && s[|s| - 1] == 0
    decreases |s| - p
  {
    var (c, q) := ReadChar(s, p);
    c >= 0 && (c == MAX_CODE_POINT || (s[q] != 0 && HitsAssertion(s, q + 1)))
  }

  // The surrogate pair of the last code point.
  ghost predicate HasLastPair(s: seq<unit>) {
    exists i :: 0 <= i < |s| - 1 && LastPairAt(s, i)
  }

  ghost predicate LastPairAt(s: seq<unit>, i: nat)
    requires i < |s| - 1
  {
    s[i] == 0xDBFF && s[i + 1] == 0xDFFF
  }

  lemma LastPairPast(s: seq<unit>)
    requires s != []
    ensures HasLastPair(s) <==> First(s) == MAX_CODE_POINT || HasLastPair(Past(s))
  {
    var r := Past(s);
    var n := |s| - |r|;
    if HasLastPair(s) {
      var i :| 0 <= i < |s| - 1 && LastPairAt(s, i);
      if i >= n {
        assert LastPairAt(r, i - n);
      }
    }
    if HasLastPair(r) {
      var i :| 0 <= i < |r| - 1 && LastPairAt(r, i);
      assert LastPairAt(s, i + n);
    }
    if First(s) == MAX_CODE_POINT {
      assert IsPair(s) && (s[0] as int - 0xD800) * 0x400 + (s[1] - 0xDC00) == 0xFFFFF;
      assert LastPairAt(s, 0);
    }
  }

  // The text of units that are not zero hits it exactly if they contain that pair.
  lemma {:induction false} AssertionHit(s: seq<unit>, t: seq<byte>, p: nat)
    requires NonZero(s) && p <= |t| && t[p..] == Text(s) + [0]
    ensures p < |t| && t[|t| - 1] == 0 && (HitsAssertion(t, p) <==> HasLastPair(s))
    decreases |s|
  {
    hide ReadChar, CharText, Utf16, HasLastPair, First, Past, Text;
    TextCut(s, t, p);
    if s == [] {
      Decodes1(t, p, 0);
      NoLastPair();
    } else {
      PastNonZero(s);
      DecodesWtf8(t, p, First(s));
      AssertionHit(Past(s), t, p + |CharText(First(s))|);
      LastPairPast(s);
    }
  }

  lemma NoLastPair()
    ensures !HasLastPair([])
  {
  }

  lemma AssertionExample()
    ensures Text([0xDBFF, 0xDFFF]) == [0xF4, 0x8F, 0xBF, 0xBF] && HitsAssertion([0xF4, 0x8F, 0xBF, 0xBF, 0x00], 0)
  {
    var s: seq<unit> := [0xDBFF, 0xDFFF];
    var t: seq<byte> := [0xF4, 0x8F, 0xBF, 0xBF];
    assert First(s) == MAX_CODE_POINT && Past(s) == [];
    assert MAX_CODE_POINT / 64 == 0x43FF && 0x43FF / 64 == 0x10F && 0x10F / 64 == 4;
    assert CharText(MAX_CODE_POINT) == t && Text(s) == t;
    assert t + [0] == [0xF4, 0x8F, 0xBF, 0xBF, 0x00];
    Decodes4(t + [0], 0, MAX_CODE_POINT);
  }
}
