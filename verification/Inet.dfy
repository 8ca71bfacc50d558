/** The text forms of IPv4 and IPv6 addresses and the parsers of src/inet.c, with the round trips. */
module Inet {
  import opened Common

  type word = x: int | 0 <= x < 0x1_0000

  // ---------- numbers ----------

  function DigitChar(d: nat): (c: char)
    requires d < 16
  {
    if d < 10 then '0' + d as char else 'a' + (d - 10) as char
  }

  function DigitValue(c: char): (d: Option<nat>)
    ensures d.Some? ==> d.value < 10
  {
    if '0' <= c <= '9' then Some((c - '0') as nat) else None
  }

  function HexValue(c: char): (d: Option<nat>)
    ensures d.Some? ==> d.value < 16
  {
    if '0' <= c <= '9' then Some((c - '0') as nat)
    else if 'a' <= c <= 'f' then Some((c - 'a') as nat + 10)
    else if 'A' <= c <= 'F' then Some((c - 'A') as nat + 10)
    else None
  }

  // The conversions %u and %x.
  function Number(v: nat, radix: nat): (s: string)
    requires radix == 10 || radix == 16
    ensures s != []
  {
    if v < radix then [DigitChar(v)] else Number(v / radix, radix) + [DigitChar(v % radix)]
  }

  function Dec(v: nat): (s: string)
    ensures s != []
  {
    Number(v, 10)
  }

  function Hex(v: nat): (s: string)
    ensures s != []
  {
    Number(v, 16)
  }

  lemma DigitOf(d: nat)
    requires d < 16
    ensures HexValue(DigitChar(d)) == Some(d)
    ensures d < 10 ==> DigitValue(DigitChar(d)) == Some(d)
  {
  }

  lemma NumberLengths(v: nat)
    ensures v < 0x100 ==> |Dec(v)| <= 3
    ensures v < 0x1_0000 ==> |Hex(v)| <= 4
  {
    if v < 0x100 {
      assert |Number(v / 10 / 10, 10)| <= 1;
      assert |Number(v / 10, 10)| <= 2;
    }
    if v < 0x1_0000 {
      assert |Number(v / 16 / 16 / 16, 16)| <= 1;
      assert |Number(v / 16 / 16, 16)| <= 2;
      assert |Number(v / 16, 16)| <= 3;
    }
  }

  // ---------- IPv4 ----------

  // Octets with a dot after each.
  function Dotted(b: seq<byte>): string {
    if b == [] then "" else Dotted(b[..|b| - 1]) + Dec(b[|b| - 1]) + "."
  }

  // What inet_ntop4 prints.
  function Text4(b: seq<byte>): string
    requires |b| == 4
  {
    Dotted(b[..3]) + Dec(b[3])
  }

  // The loop of inet_pton4: the octets that are complete, and the one that is being read.
  function Parse4(src: string, i: nat, done: seq<byte>, saw: bool, cur: byte): (r: Option<seq<byte>>)
    requires i <= |src| && |done| <= 3
    ensures r.Some? ==> |r.value| == 4
    decreases |src| - i
  {
    var octets := |done| + if saw then 1 else 0;
    if i == |src| then
      if octets < 4 then None else Some(done + [cur])
    else
      var digit := DigitValue(src[i]);
      if digit.Some? then
        var nw := cur * 10 + digit.value;
        if (saw && cur == 0) || nw > 255 || (!saw && octets + 1 > 4) then None
        else Parse4(src, i + 1, done, true, nw)
      else if src[i] == '.' && saw then
        if octets == 4 then None else Parse4(src, i + 1, done + [cur], false, 0)
      else None
  }

  function Pton4(src: string): (r: Option<seq<byte>>)
    ensures r.Some? ==> |r.value| == 4
  {
    Parse4(src, 0, [], false, 0)
  }

  lemma DecStep(cur: nat, d: nat)
    requires d < 10
    ensures cur > 0 ==> Dec(cur * 10 + d) == Dec(cur) + [DigitChar(d)]
    ensures Dec(d) == [DigitChar(d)]
  {
    assert (cur * 10 + d) / 10 == cur && (cur * 10 + d) % 10 == d;
  }

  // What inet_pton4 has read so far is what inet_ntop4 would have printed.
  lemma {:induction false} Parse4Exact(src: string, i: nat, done: seq<byte>, saw: bool, cur: byte)
    requires i <= |src| && |done| <= 3 && Parse4(src, i, done, saw, cur).Some? && (!saw ==> cur == 0)
    requires src[..i] == Dotted(done) + if saw then Dec(cur) else ""
    ensures src == Text4(Parse4(src, i, done, saw, cur).value)
    decreases |src| - i
  {
    hide Dec, Dotted;
    if i == |src| {
      assert src[..i] == src && (done + [cur])[..3] == done;
    } else {
      assert src[..i + 1] == src[..i] + [src[i]];
      var digit := DigitValue(src[i]);
      if digit.Some? {
        DecStep(cur, digit.value);
        assert saw ==> Dotted(done) + Dec(cur) + [src[i]] == Dotted(done) + (Dec(cur) + [src[i]]);
        Parse4Exact(src, i + 1, done, true, cur * 10 + digit.value);
      } else {
        DottedStep(done, cur);
        assert Dotted(done) + Dec(cur) + [src[i]] == Dotted(done) + Dec(cur) + ".";
        assert Dotted(done + [cur]) == Dotted(done + [cur]) + "";
        Parse4Exact(src, i + 1, done + [cur], false, 0);
      }
    }
  }

  lemma DottedStep(b: seq<byte>, x: byte)
    ensures Dotted(b + [x]) == Dotted(b) + Dec(x) + "."
  {
    assert (b + [x])[..|b|] == b;
  }

  lemma SliceSnoc(src: string, i: nat, j: nat, a: string, c: char)
    requires i <= j <= |src| && src[i..j] == a + [c]
    ensures i < j && src[i..j - 1] == a && src[j - 1] == c
  {
    assert src[i..j - 1] == src[i..j][..j - 1 - i];
    assert src[j - 1] == src[i..j][j - 1 - i];
  }

  // An octet at position i is read.
  lemma {:induction false} Reads4(src: string, i: nat, done: seq<byte>, v: byte)
    requires i + |Dec(v)| <= |src| && |done| <= 3 && src[i..i + |Dec(v)|] == Dec(v)
    ensures Parse4(src, i, done, false, 0) == Parse4(src, i + |Dec(v)|, done, true, v)
    decreases v
  {
    var n := |Dec(v)|;
    if v < 10 {
      DigitOf(v);
      assert src[i] == src[i..i + n][0];
    } else {
      var q, r := v / 10, v % 10;
      DigitOf(r);
      assert Dec(v) == Dec(q) + [DigitChar(r)];
      SliceSnoc(src, i, i + n, Dec(q), DigitChar(r));
      Reads4(src, i, done, q);
      assert q * 10 + r == v;
    }
  }

  lemma ReadsDot(src: string, i: nat, done: seq<byte>, v: byte)
    requires i + |Dec(v)| < |src| && |done| <= 2 && src[i..i + |Dec(v)| + 1] == Dec(v) + "."
    ensures Parse4(src, i, done, false, 0) == Parse4(src, i + |Dec(v)| + 1, done + [v], false, 0)
  {
    var n := |Dec(v)|;
    assert src[i..i + n] == src[i..i + n + 1][..n] == Dec(v);
    assert src[i + n] == src[i..i + n + 1][n] == '.';
    Reads4(src, i, done, v);
  }

  lemma Parses4(b: seq<byte>)
    requires |b| == 4
    ensures Pton4(Text4(b)) == Some(b)
  {
    hide Dec, Parse4;
    var s := Text4(b);
    DottedStep([], b[0]);
    DottedStep([b[0]], b[1]);
    DottedStep([b[0], b[1]], b[2]);
    assert b[..3] == [b[0], b[1]] + [b[2]] && [b[0], b[1]] == [b[0]] + [b[1]] && [] + [b[0]] == [b[0]];
    var p1 := |Dec(b[0])| + 1;
    var p2 := p1 + |Dec(b[1])| + 1;
    var p3 := p2 + |Dec(b[2])| + 1;
    assert s == "" + Dec(b[0]) + "." + Dec(b[1]) + "." + Dec(b[2]) + "." + Dec(b[3]);
    assert s[0..p1] == Dec(b[0]) + ".";
    assert s[p1..p2] == Dec(b[1]) + ".";
    assert s[p2..p3] == Dec(b[2]) + ".";
    assert s[p3..] == Dec(b[3]);
    ReadsDot(s, 0, [], b[0]);
    ReadsDot(s, p1, [b[0]], b[1]);
    ReadsDot(s, p2, [b[0], b[1]], b[2]);
    Reads4(s, p3, b[..3], b[3]);
    Ends4(s, b[..3], b[3]);
    assert b[..3] + [b[3]] == b;
  }

  lemma Ends4(s: string, done: seq<byte>, v: byte)
    requires |done| == 3
    ensures Parse4(s, |s|, done, true, v) == Some(done + [v])
  {
  }

  // inet_pton4 accepts a text exactly if it is what inet_ntop4 prints for the result.
  lemma Exact4(s: string, b: seq<byte>)
    requires |b| == 4
    ensures Pton4(s) == Some(b) <==> s == Text4(b)
  {
    if Pton4(s) == Some(b) {
      assert s[..0] == Dotted([]) + "";
      Parse4Exact(s, 0, [], false, 0);
    }
    Parses4(b);
  }
}
