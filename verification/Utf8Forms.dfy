/** Which byte sequences uv__utf8_decode1 of src/idna.c takes for a character, well-formed or not,
    and which character it makes of them. */
module Utf8Forms {
  import opened Rfc3492
  import opened Punycode
  import opened Common
  import opened Utf8

  // The two marking bits of a byte.
  function High(b: byte): nat {
    if b >= 0x80 then 1 else 0
  }

  function Second(b: byte): nat {
    if b % 0x80 >= 0x40 then 1 else 0
  }

  // The part of a byte below m.
  function Low(b: byte, m: nat): nat
    requires m > 0
  {
    b % m
  }

  // The bytes b, with after bytes behind them, are read as the code point c. The lead byte asks for a
  // length, but only as far as there are bytes. Two bytes after a lead byte may have any marking bits
  // if they have the same, and of three only the parities count. No form is longer than needed, and no
  // surrogate has one.
  predicate Form(b: seq<byte>, after: nat, c: nat) {
    c <= 0x10FFFF && (c < 0xD800 || c > 0xDFFF) &&
    match |b|
    case 1 => b[0] < 0x80 && c == b[0]
    case 2 =>
      && 0xC0 <= b[0] < 0xF8 && (b[0] >= 0xE0 ==> after == 0)
      && High(b[1]) == 1 && Second(b[1]) == 0
      && c == Low(b[0], 0x20) * 0x40 + Low(b[1], 0x40) && c >= 0x80
    case 3 =>
      && 0xE0 <= b[0] < 0xF8 && (b[0] >= 0xF0 ==> after == 0)
      && High(b[1]) == High(b[2]) && Second(b[1]) == Second(b[2])
      && c == Low(b[0], 0x10) * 0x1000 + Low(b[1], 0x40) * 0x40 + Low(b[2], 0x40) && c >= 0x800
    case 4 =>
      && 0xF0 <= b[0] < 0xF8
      && (High(b[1]) + High(b[2]) + High(b[3])) % 2 == 1 && (Second(b[1]) + Second(b[2]) + Second(b[3])) % 2 == 0
      && c == Low(b[0], 8) * 0x40000 + Low(b[1], 0x40) * 0x1000 + Low(b[2], 0x40) * 0x40 + Low(b[3], 0x40)
        && c >= 0x10000
    case _ => false
  }

  // The test of the exclusive or, on the marking bits.
  lemma TopBits(b: byte)
    ensures Top(b) == 2 * High(b) + Second(b) && High(b) < 2 && Second(b) < 2
  {
  }

  lemma Marks(b: byte, c: byte, d: byte)
    ensures
      Xor(Xor(Top(b), Top(c)), Top(d)) == 2 <==>
      (High(b) + High(c) + High(d)) % 2 == 1 && (Second(b) + Second(c) + Second(d)) % 2 == 0
  {
    hide Top, High, Second;
    TopBits(b);
    TopBits(c);
    TopBits(d);
  }

  // A byte that the decoder puts in front of the others is a continuation byte.
  lemma Front(x: nat)
    requires x < 64
    ensures High(0x80 + x) == 1 && Second(0x80 + x) == 0 && (0x80 + x) % 64 == x
  {
  }

  lemma Cut(s: seq<byte>, p: nat, q: nat)
    requires p <= q <= |s|
    ensures |s[p..q]| == q - p && forall i :: p <= i < q ==> s[p..q][i - p] == s[i]
  {
  }

  // What Assemble accepts, and the value.
  lemma AssembleIs(a: nat, b: byte, c: byte, d: byte, min: nat, v: nat)
    ensures
      Assemble(a, b, c, d, min) == v && v != INVALID <==>
      && (High(b) + High(c) + High(d)) % 2 == 1 && (Second(b) + Second(c) + Second(d)) % 2 == 0
      && v == a * 0x40000 + b % 64 * 0x1000 + c % 64 * 0x40 + d % 64 && Scalar(v) && v >= min
  {
    hide Top, High, Second, Xor;
    Marks(b, c, d);
  }

  lemma Reads2(s: seq<byte>, p: nat, pe: nat, c: nat)
    requires p + 1 < pe <= |s| && 0xC0 <= s[p] < 0xF8 && (s[p] >= 0xE0 ==> p + 2 == pe)
    ensures Decode1(s, p, pe).1 == p + 2
    ensures Decode1(s, p, pe).0 == c && c != INVALID <==> Form(s[p..p + 2], pe - p - 2, c)
  {
    hide Assemble, High, Second;
    Cut(s, p, p + 2);
    Front(0);
    Front(s[p] % 32);
    TopBits(s[p + 1]);
    AssembleIs(0, 0x80, 0x80 + s[p] % 32, s[p + 1], 0x80, c);
  }

  lemma Reads3(s: seq<byte>, p: nat, pe: nat, c: nat)
    requires p + 2 < pe <= |s| && 0xE0 <= s[p] < 0xF8 && (s[p] >= 0xF0 ==> p + 3 == pe)
    ensures Decode1(s, p, pe).1 == p + 3
    ensures Decode1(s, p, pe).0 == c && c != INVALID <==> Form(s[p..p + 3], pe - p - 3, c)
  {
    hide Assemble, High, Second;
    Cut(s, p, p + 3);
    Front(s[p] % 16);
    TopBits(s[p + 1]);
    TopBits(s[p + 2]);
    AssembleIs(0, 0x80 + s[p] % 16, s[p + 1], s[p + 2], 0x800, c);
  }

  lemma Reads4(s: seq<byte>, p: nat, pe: nat, c: nat)
    requires p + 3 < pe <= |s| && 0xF0 <= s[p] < 0xF8
    ensures Decode1(s, p, pe).1 == p + 4
    ensures Decode1(s, p, pe).0 == c && c != INVALID <==> Form(s[p..p + 4], pe - p - 4, c)
  {
    hide Assemble, High, Second;
    Cut(s, p, p + 4);
    AssembleIs(s[p] % 8, s[p + 1], s[p + 2], s[p + 3], 0x10000, c);
  }

  // The character at p is c and ends before q exactly if the bytes from p to q have this form.
  lemma ReadsForms(s: seq<byte>, p: nat, pe: nat, c: nat, q: nat)
    requires p < pe <= |s|
    ensures
      Decode1(s, p, pe) == (c, q) && c != INVALID <==>
      p <= q <= pe && Form(s[p..q], pe - q, c)
  {
    hide Assemble, High, Second;
    var a, left := s[p], pe - p - 1;
    if p <= q <= pe {
      Cut(s, p, q);
    }
    if 0xF0 <= a < 0xF8 && left >= 3 {
      Reads4(s, p, pe, c);
    } else if 0xE0 <= a < 0xF8 && left >= 2 {
      Reads3(s, p, pe, c);
    } else if 0xC0 <= a < 0xF8 && left >= 1 {
      Reads2(s, p, pe, c);
    }
  }

  // U+0041, U+00E9, U+20AC and U+1F600 in UTF-8, as RFC 3629 has them.
  lemma Answers()
    ensures Utf8.Utf8(0x41) == [0x41] && Utf8.Utf8(0xE9) == [0xC3, 0xA9] && Utf8.Utf8(0x20AC) == [0xE2, 0x82, 0xAC]
    ensures Utf8.Utf8(0x1F600) == [0xF0, 0x9F, 0x98, 0x80]
  {
  }
}
