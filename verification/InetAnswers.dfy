/** The printed forms of addresses in full: the digits of the numbers, and the places of the colons and dots. */
module InetAnswers {
  import opened Common
  import opened Inet
  import opened Inet6

  const DIGITS := "0123456789abcdef"

  lemma DigitCharIs(d: nat)
    requires d < 16
    ensures DigitChar(d) == DIGITS[d]
  {
  }

  // Octets are printed in decimal without leading zeros.
  lemma DecIs(v: byte)
    ensures Dec(v) ==
      if v < 10 then [DIGITS[v]]
      else if v < 100 then [DIGITS[v / 10], DIGITS[v % 10]]
      else [DIGITS[v / 100], DIGITS[v / 10 % 10], DIGITS[v % 10]]
  {
    hide DigitChar;
    DigitCharIs(v % 10);
    DigitCharIs(v / 10 % 10);
    if v >= 100 {
      DigitCharIs(v / 100);
      assert v / 10 / 10 == v / 100;
      assert Number(v / 100, 10) == [DigitChar(v / 100)];
      assert Number(v / 10, 10) == [DigitChar(v / 100)] + [DigitChar(v / 10 % 10)];
    } else if v >= 10 {
      assert Number(v / 10, 10) == [DigitChar(v / 10)];
    }
  }

  // Words are printed in hexadecimal, in lower case and without leading zeros.
  lemma HexIs(w: word)
    ensures Hex(w) ==
      if w < 0x10 then [DIGITS[w]]
      else if w < 0x100 then [DIGITS[w / 0x10], DIGITS[w % 0x10]]
      else if w < 0x1000 then [DIGITS[w / 0x100], DIGITS[w / 0x10 % 0x10], DIGITS[w % 0x10]]
      else [DIGITS[w / 0x1000], DIGITS[w / 0x100 % 0x10], DIGITS[w / 0x10 % 0x10], DIGITS[w % 0x10]]
  {
    hide DigitChar;
    DigitCharIs(w % 0x10);
    DigitCharIs(w / 0x10 % 0x10);
    DigitCharIs(w / 0x100 % 0x10);
    DigitCharIs(w / 0x1000);
    HexUp(w);
    HexUp(w / 0x10);
    HexUp(w / 0x100);
    assert w / 0x10 / 0x10 == w / 0x100 && w / 0x100 / 0x10 == w / 0x1000;
  }

  lemma HexUp(w: nat)
    ensures Number(w, 16) == if w < 16 then [DigitChar(w)] else Number(w / 16, 16) + [DigitChar(w % 16)]
  {
  }

  // Four octets with dots between them.
  lemma Text4Is(a: byte, b: byte, c: byte, d: byte)
    ensures Text4([a, b, c, d]) == Dec(a) + "." + Dec(b) + "." + Dec(c) + "." + Dec(d)
  {
    hide Dec;
    DottedStep([], a);
    DottedStep([a], b);
    DottedStep([a, b], c);
    assert [a, b, c, d][..3] == [a, b] + [c] && [a, b] == [a] + [b] && [] + [a] == [a];
  }

  // After the two colons an embedded IPv4 address is printed with dots: if the first six words are left out,
  // or the first five and ffff follows.
  lemma EmbeddedText(ws: seq<word>, len: nat)
    requires |ws| == 8 && (len == 6 || (len == 5 && ws[5] == 0xffff))
    ensures Text6(ws, 0, len) == (if len == 6 then "::" else "::ffff:")
      + Dec(ws[6] / 0x100) + "." + Dec(ws[6] % 0x100) + "." + Dec(ws[7] / 0x100) + "." + Dec(ws[7] % 0x100)
  {
    hide Dec, Text4;
    var a, b, c, d := ws[6] / 0x100, ws[6] % 0x100, ws[7] / 0x100, ws[7] % 0x100;
    assert ws[6..] == [ws[6], ws[7]] && [ws[6], ws[7]][1..] == [ws[7]] && [ws[7]][1..] == [];
    assert Bytes([ws[7]]) == [c, d];
    assert Bytes(ws[6..]) == [a, b] + [c, d] == [a, b, c, d];
    Text4Is(a, b, c, d);
    assert Join(ws[..0]) == "";
  }

  // Every other address is printed with hexadecimal words and colons only: those before the run that is left
  // out, and those after it.
  lemma PlainText(ws: seq<word>, base: nat, len: nat)
    requires |ws| == 8 && base + len <= 8 && !(base == 0 && (len == 6 || (len == 5 && ws[5] == 0xffff)))
    ensures Text6(ws, base, len) == if len == 0 then Join(ws) else Join(ws[..base]) + "::" + Join(ws[base + len..])
    ensures forall i :: 0 <= i < |Text6(ws, base, len)| ==>
      Text6(ws, base, len)[i] == ':' || Text6(ws, base, len)[i] in DIGITS
  {
    hide Join;
    JoinPlain(ws);
    JoinPlain(ws[..base]);
    JoinPlain(ws[base + len..]);
  }

  lemma {:induction false} JoinPlain(ws: seq<word>)
    ensures forall i :: 0 <= i < |Join(ws)| ==> Join(ws)[i] == ':' || Join(ws)[i] in DIGITS
  {
    hide Hex;
    if ws != [] {
      HexPlain(ws[0]);
      JoinPlain(ws[1..]);
    }
  }

  lemma HexPlain(w: word)
    ensures forall i :: 0 <= i < |Hex(w)| ==> Hex(w)[i] in DIGITS
  {
    hide Hex;
    HexIs(w);
  }

  // Words with a colon between each two.
  lemma JoinMore(w: word, ws: seq<word>)
    requires ws != []
    ensures Join([w] + ws) == Hex(w) + ":" + Join(ws) && Join([w]) == Hex(w)
  {
    hide Hex;
    assert ([w] + ws)[1..] == ws;
  }

  // 2001:db8:0:0:1:0:0:1, where two runs of zeros have the same length.
  const TWO_RUNS: seq<word> := [0x2001, 0xdb8, 0, 0, 1, 0, 0, 1]

  // The first of them is left out.
  lemma FirstRun()
    ensures BestRun(TWO_RUNS, 2, 2) && !BestRun(TWO_RUNS, 5, 2)
  {
    var ws := TWO_RUNS;
    assert ws[0] != 0 && ws[1] != 0 && ws[4] != 0 && ws[7] != 0;
    assert ZeroRun(ws, 2, 2);
    forall b: nat, l: nat | ZeroRun(ws, b, l) && l >= 2 ensures l < 2 || (l == 2 && 2 <= b) {
      assert ws[b] == 0 && ws[b + 1] == 0;
      assert b == 2 || b == 5;
    }
  }

  lemma FirstRunText()
    ensures Text6(TWO_RUNS, 2, 2) == "2001:db8::1:0:0:1"
  {
    hide Hex, Join;
    var ws := TWO_RUNS;
    PlainText(ws, 2, 2);
    assert ws[..2] == [0x2001] + [0xdb8];
    assert ws[4..] == [1] + ([0] + ([0] + [1]));
    FrontText();
    BackText();
  }

  lemma FrontText()
    ensures Join([0x2001] + [0xdb8]) == "2001:db8"
  {
    hide Hex, Join;
    HexIs(0x2001);
    HexIs(0xdb8);
    JoinMore(0x2001, [0xdb8]);
    JoinMore(0xdb8, [1]);
  }

  lemma BackText()
    ensures Join([1] + ([0] + ([0] + [1]))) == "1:0:0:1"
  {
    hide Hex, Join;
    HexIs(1);
    HexIs(0);
    JoinMore(1, [0] + ([0] + [1]));
    JoinMore(0, [0] + [1]);
    JoinMore(0, [1]);
    JoinMore(1, [1]);
  }
}
