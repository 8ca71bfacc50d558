/** Which byte sequences the WTF-8 reader of src/idna.c takes for a character, byte range by byte
    range, and known answers for both directions of the conversion. */
module Wtf8Forms {
  import opened Rfc3492
  import opened Punycode
  import opened Common
  import opened Utf8
  import opened Wtf8

  predicate Tail(b: byte) {
    0x80 <= b < 0xC0
  }

  // What a byte or a unit holds beyond its marking bits.
  function Over(b: int, mark: int): int {
    b - mark
  }

  // The bytes b are read as the code point c: a lead byte, tail bytes of six bits each, and the bits
  // of both in order. Nothing asks for the shortest form beyond the first two lead bytes of two.
  predicate Form(b: seq<byte>, c: nat) {
    match |b|
    case 1 => b[0] < 0x80 && c == b[0]
    case 2 => 0xC2 <= b[0] < 0xE0 && Tail(b[1]) && c == Over(b[0], 0xC0) * 0x40 + Over(b[1], 0x80)
    case 3 =>
      && 0xE0 <= b[0] < 0xF0 && Tail(b[1]) && Tail(b[2])
      && c == Over(b[0], 0xE0) * 0x1000 + Over(b[1], 0x80) * 0x40 + Over(b[2], 0x80)
    case 4 =>
      && 0xF0 <= b[0] < 0xF5 && Tail(b[1]) && Tail(b[2]) && Tail(b[3])
      && c == Over(b[0], 0xF0) * 0x40000 + Over(b[1], 0x80) * 0x1000 + Over(b[2], 0x80) * 0x40 + Over(b[3], 0x80)
      && c <= 0x10FFFF
    case _ => false
  }

  // The bits that the masks of the reader keep.
  lemma Bits(b: byte)
    ensures Tail(b) ==> b % 64 == b - 0x80
    ensures Continuation(b) <==> Tail(b)
  {
  }

  lemma Kept2(b: int, x: int, v: int)
    requires 0xC0 <= b < 0xE0 && 0 <= x < 0x40 && v == (b - 0xC0) * 0x40 + x
    ensures (b * 64 + x) % 0x800 == v
  {
    assert b * 64 + x == 6 * 0x800 + v;
  }

  lemma Kept3(b: int, x: int, y: int, v: int)
    requires 0xE0 <= b < 0xF0 && 0 <= x < 0x40 && 0 <= y < 0x40 && v == (b - 0xE0) * 0x1000 + x * 0x40 + y
    ensures ((b * 64 + x) * 64 + y) % 0x10000 == v
  {
    assert (b * 64 + x) * 64 + y == 14 * 0x10000 + v;
  }

  lemma Kept4(b: int, x: int, y: int, z: int, v: int)
    requires 0xF0 <= b < 0xF5 && 0 <= x < 0x40 && 0 <= y < 0x40 && 0 <= z < 0x40
    requires v == (b - 0xF0) * 0x40000 + x * 0x1000 + y * 0x40 + z
    ensures (((b * 64 + x) * 64 + y) * 64 + z) % 0x200000 == v
  {
    assert ((b * 64 + x) * 64 + y) * 64 + z == 30 * 0x200000 + v;
  }

  // The text ends with NUL, which is no tail byte: a tail byte has a byte after it.
  lemma Inside(s: seq<byte>, i: nat)
    requires i < |s| && s[|s| - 1] == 0
    ensures Tail(s[i]) ==> i + 1 < |s|
  {
  }

  lemma Cut(s: seq<byte>, p: nat, q: nat)
    requires p <= q < |s|
    ensures |s[p..q + 1]| == q + 1 - p && forall i :: p <= i < q + 1 ==> s[p..q + 1][i - p] == s[i]
  {
  }

  lemma Taken(s: seq<byte>, p: nat)
    requires p < |s| && s[|s| - 1] == 0
    ensures var (c, q) := ReadChar(s, p); c >= 0 ==> q < |s| && Form(s[p..q + 1], c)
  {
    var (c, q) := ReadChar(s, p);
    if c >= 0 {
      Span(s, p);
      if q == p {
        Cut(s, p, q);
      } else if q == p + 1 {
        Taken2(s, p);
      } else if q == p + 2 {
        Taken3(s, p);
      } else {
        Taken4(s, p);
      }
    }
  }

  lemma Span(s: seq<byte>, p: nat)
    requires p < |s| && s[|s| - 1] == 0
    ensures ReadChar(s, p).1 <= p + 3
  {
  }

  lemma Taken2(s: seq<byte>, p: nat)
    requires p < |s| && s[|s| - 1] == 0 && ReadChar(s, p).0 >= 0 && ReadChar(s, p).1 == p + 1
    ensures p + 1 < |s| && Form(s[p..p + 2], ReadChar(s, p).0)
  {
    var b, x := Over(s[p], 0xC0), Over(s[p + 1], 0x80);
    Cut(s, p, p + 1);
    Bits(s[p + 1]);
    Kept2(s[p], x, b * 0x40 + x);
  }

  lemma Taken3(s: seq<byte>, p: nat)
    requires p < |s| && s[|s| - 1] == 0 && ReadChar(s, p).0 >= 0 && ReadChar(s, p).1 == p + 2
    ensures p + 2 < |s| && Form(s[p..p + 3], ReadChar(s, p).0)
  {
    var b, x, y := Over(s[p], 0xE0), Over(s[p + 1], 0x80), Over(s[p + 2], 0x80);
    Cut(s, p, p + 2);
    Bits(s[p + 1]);
    Bits(s[p + 2]);
    Kept3(s[p], x, y, b * 0x1000 + x * 0x40 + y);
  }

  lemma Taken4(s: seq<byte>, p: nat)
    requires p < |s| && s[|s| - 1] == 0 && ReadChar(s, p).0 >= 0 && ReadChar(s, p).1 == p + 3
    ensures p + 3 < |s| && Form(s[p..p + 4], ReadChar(s, p).0)
  {
    var b, x, y, z := Over(s[p], 0xF0), Over(s[p + 1], 0x80), Over(s[p + 2], 0x80), Over(s[p + 3], 0x80);
    Cut(s, p, p + 3);
    Bits(s[p + 1]);
    Bits(s[p + 2]);
    Bits(s[p + 3]);
    Kept4(s[p], x, y, z, b * 0x40000 + x * 0x1000 + y * 0x40 + z);
  }

  lemma Takes(s: seq<byte>, p: nat, c: nat, q: nat)
    requires p <= q < |s| && s[|s| - 1] == 0 && Form(s[p..q + 1], c)
    ensures ReadChar(s, p) == (c, q)
  {
    Cut(s, p, q);
    var b := s[p];
    if q == p + 1 {
      Bits(s[p + 1]);
      Inside(s, p + 1);
      Kept2(b, s[p + 1] - 0x80, c);
    } else if q == p + 2 {
      Bits(s[p + 1]);
      Bits(s[p + 2]);
      Kept3(b, s[p + 1] - 0x80, s[p + 2] - 0x80, c);
    } else if q == p + 3 {
      Takes4(s, p, c);
    }
  }

  lemma Takes4(s: seq<byte>, p: nat, c: nat)
    requires p + 3 < |s| && s[|s| - 1] == 0 && Form(s[p..p + 4], c)
    ensures ReadChar(s, p) == (c, p + 3)
  {
    var b, x, y, z := s[p], s[p + 1], s[p + 2], s[p + 3];
    Cut(s, p, p + 3);
    Bits(x);
    Bits(y);
    Bits(z);
    Kept4(b, x - 0x80, y - 0x80, z - 0x80, c);
  }

  // The reader takes the bytes from p to q for c exactly if they have this form.
  lemma ReadsForms(s: seq<byte>, p: nat, c: nat, q: nat)
    requires p < |s| && s[|s| - 1] == 0
    ensures ReadChar(s, p) == (c, q) <==> p <= q < |s| && Form(s[p..q + 1], c)
  {
    hide ReadChar, Form;
    Taken(s, p);
    if p <= q < |s| && Form(s[p..q + 1], c) {
      Takes(s, p, c, q);
    }
  }

  // Nothing is read at a tail byte without a lead byte, nor at a lead byte that no form has.
  lemma Strays(s: seq<byte>, p: nat)
    requires p < |s| && s[|s| - 1] == 0
    requires Tail(s[p]) || s[p] == 0xC0 || s[p] == 0xC1 || s[p] >= 0xF5
    ensures ReadChar(s, p).0 == -1
  {
    hide ReadChar;
    Taken(s, p);
    var (c, q) := ReadChar(s, p);
    Cut(s, p, q);
  }

  // The least code point whose own form has n bytes.
  function Least(n: nat): nat {
    if n <= 1 then 0 else if n == 2 then 0x80 else if n == 3 then 0x800 else 0x10000
  }

  // A form is the text that the writer gives exactly if it is not longer than needed.
  lemma FormsWritten(b: seq<byte>, c: nat)
    requires Form(b, c) && c <= MAX_CODE_POINT
    ensures b == CharText(c) <==> c >= Least(|b|)
  {
    if |b| == 2 {
      Six2(b[0] - 0xC0, b[1] - 0x80, c);
    } else if |b| == 3 {
      Six3(b[0] - 0xE0, b[1] - 0x80, b[2] - 0x80, c);
    } else if |b| == 4 {
      Six4(b[0] - 0xF0, b[1] - 0x80, b[2] - 0x80, b[3] - 0x80, c);
    }
  }

  lemma Six2(h: nat, x: nat, c: nat)
    requires x < 64 && c == h * 64 + x
    ensures c / 64 == h && c % 64 == x
  {
  }

  lemma Six3(h: nat, x: nat, y: nat, c: nat)
    requires x < 64 && y < 64 && c == h * 0x1000 + x * 64 + y
    ensures c / 64 / 64 == h && c / 64 % 64 == x && c % 64 == y
  {
    Six2(h * 64 + x, y, c);
    Six2(h, x, c / 64);
  }

  lemma Six4(h: nat, x: nat, y: nat, z: nat, c: nat)
    requires x < 64 && y < 64 && z < 64 && c == h * 0x40000 + x * 0x1000 + y * 64 + z
    ensures c / 64 / 64 / 64 == h && c / 64 / 64 % 64 == x && c / 64 % 64 == y && c % 64 == z
  {
    Six2(h * 0x1000 + x * 64 + y, z, c);
    Six3(h, x, y, c / 64);
  }

  // What the writer gives for a code point is a form of it.
  lemma Written(c: nat)
    requires c <= MAX_CODE_POINT
    ensures Form(CharText(c), c)
  {
    hide CharText, ReadChar, Form;
    var s := CharText(c) + [0];
    assert s[0..0 + |CharText(c)|] == CharText(c);
    DecodesWtf8(s, 0, c);
    ReadsForms(s, 0, c, |CharText(c)| - 1);
  }

  // U+0041, U+00E9, U+20AC and U+1F600 in UTF-16 and in WTF-8, and a lone surrogate.
  lemma Answers()
    ensures Text([0x41]) == [0x41] && Text([0xE9]) == [0xC3, 0xA9] && Text([0x20AC]) == [0xE2, 0x82, 0xAC]
    ensures Text([0xD83D, 0xDE00]) == [0xF0, 0x9F, 0x98, 0x80] && Text([0xD83D]) == [0xED, 0xA0, 0xBD]
  {
  }

  // ---------- whole texts ----------

  // The UTF-16 form of a code point beyond the first plane, in numbers.
  lemma Utf16Is(c: nat)
    requires 0x10000 <= c <= 0x10FFFF
    ensures
      var u := Utf16(c);
      && |u| == 2 && 0xD800 <= u[0] <= 0xDBFF && 0xDC00 <= u[1] <= 0xDFFF
      && c == 0x10000 + Over(u[0], 0xD800) * 0x400 + Over(u[1], 0xDC00)
  {
  }

  ghost predicate Points(cs: seq<nat>) {
    forall i :: 0 <= i < |cs| ==> cs[i] <= 0x10FFFF
  }

  // No lead surrogate stands before a trail surrogate.
  ghost predicate PairFree(cs: seq<nat>) {
    forall i :: 0 <= i < |cs| - 1 ==> !(0xD800 <= cs[i] <= 0xDBFF && 0xDC00 <= cs[i + 1] <= 0xDFFF)
  }

  ghost function Utf16All(cs: seq<nat>): seq<unit>
    requires Points(cs)
  {
    if cs == [] then [] else Utf16(cs[0]) + Utf16All(cs[1..])
  }

  ghost function TextAll(cs: seq<nat>): seq<byte>
    requires Points(cs)
  {
    if cs == [] then [] else CharText(cs[0]) + TextAll(cs[1..])
  }

  // For any two units that are a pair, and no others, the reader of UTF-16 takes both.
  lemma PairIs(s: seq<unit>)
    ensures IsPair(s) <==> |s| >= 2 && 0xD800 <= s[0] <= 0xDBFF && 0xDC00 <= s[1] <= 0xDFFF
  {
  }

  lemma TakesPoint(c: nat, rest: seq<unit>)
    requires c <= 0x10FFFF
    requires !(0xD800 <= c <= 0xDBFF && rest != [] && 0xDC00 <= rest[0] <= 0xDFFF)
    ensures var s := Utf16(c) + rest; First(s) == c && Past(s) == rest
  {
    var s := Utf16(c) + rest;
    PairIs(s);
    if c > 0xFFFF {
      Utf16Is(c);
    }
  }

  lemma FirstUnit(cs: seq<nat>)
    requires Points(cs) && cs != []
    ensures Utf16All(cs) != []
    ensures 0xDC00 <= Utf16All(cs)[0] <= 0xDFFF || 0xDC00 <= cs[0] <= 0xDFFF ==> cs[0] == Utf16All(cs)[0]
  {
    if cs[0] > 0xFFFF {
      Utf16Is(cs[0]);
    }
  }

  // The WTF-8 text of the UTF-16 form of any code points, unpaired surrogates included, is the
  // sequence of their forms.
  lemma {:induction false} TextIs(cs: seq<nat>)
    requires Points(cs) && PairFree(cs)
    ensures Text(Utf16All(cs)) == TextAll(cs)
    decreases |cs|
  {
    hide CharText, Utf16, First, Past;
    if cs != [] {
      var rest := cs[1..];
      assert PairFree(rest);
      TextIs(rest);
      if rest != [] {
        FirstUnit(rest);
      }
      FirstUnit(cs);
      TakesPoint(cs[0], Utf16All(rest));
    }
  }

  // Every sequence of units is the UTF-16 form of such code points.
  lemma {:induction false} PointsOf(s: seq<unit>) returns (cs: seq<nat>)
    ensures Points(cs) && PairFree(cs) && Utf16All(cs) == s
    decreases |s|
  {
    hide Utf16, First, Past;
    if s == [] {
      cs := [];
    } else {
      var rest := PointsOf(Past(s));
      Utf16OfFirst(s);
      cs := [First(s)] + rest;
      assert cs[1..] == rest;
      if rest != [] {
        FirstUnit(rest);
        LoneLead(s);
      }
    }
  }

  lemma LoneLead(s: seq<unit>)
    requires s != [] && Past(s) != []
    ensures 0xD800 <= First(s) <= 0xDBFF ==> !(0xDC00 <= Past(s)[0] <= 0xDFFF)
  {
    PairIs(s);
  }

  // For the code points of Unicode it is UTF-8.
  lemma {:induction false} TextUtf8(cs: seq<nat>)
    requires Scalars(cs)
    ensures Points(cs) && PairFree(cs) && TextAll(cs) == Utf8All(cs)
    decreases |cs|
  {
    if cs != [] {
      assert Scalars(cs[1..]);
      TextUtf8(cs[1..]);
    }
  }

  predicate FormAt(s: seq<byte>, p: nat, c: nat, q: nat) {
    p <= q < |s| && Form(s[p..q + 1], c)
  }

  // The text from p to its first NUL is a sequence of forms of the code points cs, NUL being the last.
  ghost predicate Spells(s: seq<byte>, p: nat, cs: seq<nat>)
    decreases |cs|
  {
    cs != [] && exists q: nat :: FormAt(s, p, cs[0], q) && (if s[q] == 0 then |cs| == 1 else Spells(s, q + 1, cs[1..]))
  }

  lemma FormBound(b: seq<byte>, c: nat)
    requires Form(b, c)
    ensures c <= 0x10FFFF
  {
  }

  lemma {:induction false} SpelledUnits(s: seq<byte>, p: nat, cs: seq<nat>)
    requires p < |s| && s[|s| - 1] == 0 && Spells(s, p, cs)
    ensures Points(cs) && Units(s, p) == Some(Utf16All(cs))
    decreases |cs|
  {
    hide ReadChar, Form, Utf16;
    var q: nat :| FormAt(s, p, cs[0], q) && (if s[q] == 0 then |cs| == 1 else Spells(s, q + 1, cs[1..]));
    FormBound(s[p..q + 1], cs[0]);
    ReadsForms(s, p, cs[0], q);
    if s[q] == 0 {
      assert cs[1..] == [] && Utf16(cs[0]) + [] == Utf16(cs[0]);
    } else {
      SpelledUnits(s, q + 1, cs[1..]);
    }
  }

  lemma {:induction false} UnitsSpelled(s: seq<byte>, p: nat) returns (cs: seq<nat>)
    requires p < |s| && s[|s| - 1] == 0 && Units(s, p).Some?
    ensures Spells(s, p, cs)
    decreases |s| - p
  {
    hide ReadChar, Form, Utf16;
    var (c, q) := ReadChar(s, p);
    ReadsForms(s, p, c, q);
    if s[q] == 0 {
      cs := [c];
    } else {
      var rest := UnitsSpelled(s, q + 1);
      cs := [c] + rest;
      assert cs[1..] == rest;
    }
    assert FormAt(s, p, cs[0], q);
  }

  // A text converts to UTF-16 exactly if it is a sequence of forms, and to their code points.
  lemma Converts(s: seq<byte>, p: nat, u: seq<unit>)
    requires p < |s| && s[|s| - 1] == 0
    ensures Units(s, p) == Some(u) <==> exists cs :: Points(cs) && Spells(s, p, cs) && Utf16All(cs) == u
  {
    hide Units, Spells, Points;
    if Units(s, p) == Some(u) {
      var cs := UnitsSpelled(s, p);
      SpelledUnits(s, p, cs);
    }
    forall cs | Points(cs) && Spells(s, p, cs) ensures Units(s, p) == Some(Utf16All(cs)) {
      SpelledUnits(s, p, cs);
    }
  }

  // ---------- from WTF-8 to UTF-16 and back ----------

  ghost predicate StartsWith(s: seq<byte>, p: nat, t: seq<byte>) {
    p + |t| <= |s| && s[p..p + |t|] == t
  }

  // Each form of the spelling is the text that the writer gives.
  ghost predicate Shortest(s: seq<byte>, p: nat, cs: seq<nat>)
    requires Points(cs)
    decreases |cs|
  {
    cs != [] ==> StartsWith(s, p, CharText(cs[0])) && Shortest(s, p + |CharText(cs[0])|, cs[1..])
  }

  lemma {:induction false} ShortestText(s: seq<byte>, p: nat, cs: seq<nat>)
    requires p <= |s| && Points(cs)
    ensures Shortest(s, p, cs) <==> StartsWith(s, p, TextAll(cs))
    decreases |cs|
  {
    hide CharText;
    if cs == [] {
      assert s[p..p] == [];
    } else {
      var a, b := CharText(cs[0]), TextAll(cs[1..]);
      if p + |a| <= |s| {
        ShortestText(s, p + |a|, cs[1..]);
      }
      if p + |a| + |b| <= |s| {
        assert s[p..p + |a + b|] == s[p..p + |a|] + s[p + |a|..p + |a| + |b|];
        assert (a + b)[..|a|] == a && (a + b)[|a|..] == b;
      }
    }
  }

  // A character of the writer at p is what the reader finds there.
  lemma ReadBack(s: seq<byte>, p: nat, c: nat)
    requires p < |s| && s[|s| - 1] == 0 && c <= 0x10FFFF && StartsWith(s, p, CharText(c))
    ensures ReadChar(s, p) == (c, p + |CharText(c)| - 1)
  {
    hide ReadChar, Form;
    Written(c);
    ReadsForms(s, p, c, p + |CharText(c)| - 1);
  }

  // A text whose units are those of ds, and that starts with the text of ds, is spelled by ds.
  lemma {:induction false} SameSpelling(s: seq<byte>, p: nat, cs: seq<nat>, ds: seq<nat>)
    requires p < |s| && s[|s| - 1] == 0 && Points(cs) && Points(ds)
    requires Spells(s, p, cs) && Shortest(s, p, ds) && Utf16All(cs) == Utf16All(ds)
    ensures cs == ds
    decreases |cs|
  {
    hide ReadChar, Form, Utf16, CharText;
    var q: nat :| FormAt(s, p, cs[0], q) && (if s[q] == 0 then |cs| == 1 else Spells(s, q + 1, cs[1..]));
    ReadsForms(s, p, cs[0], q);
    FirstUnit(cs);
    assert ds != [];
    ReadBack(s, p, ds[0]);
    assert cs[0] == ds[0] && q + 1 == p + |CharText(ds[0])|;
    Cancel(Utf16(cs[0]), Utf16All(cs[1..]), Utf16All(ds[1..]));
    if s[q] == 0 {
      if ds[1..] != [] {
        FirstUnit(ds[1..]);
      }
    } else {
      SameSpelling(s, q + 1, cs[1..], ds[1..]);
    }
    assert cs == [cs[0]] + cs[1..] && ds == [ds[0]] + ds[1..];
  }

  lemma Cancel<T>(a: seq<T>, b: seq<T>, c: seq<T>)
    requires a + b == a + c
    ensures b == c
  {
    assert b == (a + b)[|a|..] && c == (a + c)[|a|..];
  }

  // A text that converts comes back from UTF-16 as it was exactly if no form in it is longer than needed
  // and no form of a lead surrogate stands before that of a trail surrogate.
  lemma BackTrip(s: seq<byte>, p: nat, cs: seq<nat>)
    requires p < |s| && s[|s| - 1] == 0 && Spells(s, p, cs)
    ensures Points(cs) && Units(s, p) == Some(Utf16All(cs))
    ensures StartsWith(s, p, Text(Utf16All(cs))) <==> PairFree(cs) && Shortest(s, p, cs)
  {
    hide Spells, Points, Text, Units, PairFree, Shortest;
    SpelledUnits(s, p, cs);
    var u := Utf16All(cs);
    if PairFree(cs) {
      TextIs(cs);
      ShortestText(s, p, cs);
    }
    if StartsWith(s, p, Text(u)) {
      var ds := PointsOf(u);
      TextIs(ds);
      ShortestText(s, p, ds);
      SameSpelling(s, p, cs, ds);
    }
  }
}
