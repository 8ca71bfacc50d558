/** IPv6 addresses: the text that inet_ntop6 of src/inet.c prints, the parser inet_pton6, and the
    round trip. */
module Inet6 {
  import opened Inet
  import opened Common

  // ---------- what is printed ----------

  // The words of an address, and the bytes of words.
  function Words(b: seq<byte>): (ws: seq<word>)
    requires |b| % 2 == 0
    ensures |ws| == |b| / 2
  {
    if b == [] then [] else [b[0] as int * 0x100 + b[1]] + Words(b[2..])
  }

  function Bytes(ws: seq<word>): (b: seq<byte>)
    ensures |b| == 2 * |ws|
  {
    if ws == [] then [] else [ws[0] / 0x100, ws[0] % 0x100] + Bytes(ws[1..])
  }

  ghost predicate ZeroRun(ws: seq<word>, base: nat, len: nat) {
    base + len <= |ws| && forall i :: base <= i < base + len ==> ws[i] == 0
  }

  // The run of zeros that is compressed: the first of the longest ones, of at least two words;
  // len is 0 if there is none.
  ghost predicate BestRun(ws: seq<word>, base: nat, len: nat) {
    && ZeroRun(ws, base, len) && len != 1
    && forall b: nat, l: nat :: ZeroRun(ws, b, l) && l >= 2 ==> l < len || (l == len && base <= b)
  }

  // Words in hexadecimal with colons between them.
  function Join(ws: seq<word>): string {
    if ws == [] then "" else if |ws| == 1 then Hex(ws[0]) else Hex(ws[0]) + ":" + Join(ws[1..])
  }

  // An IPv4 address is embedded.
  predicate Embeds(ws: seq<word>, base: nat, len: nat)
    requires |ws| == 8
  {
    base == 0 && (len == 6 || (len == 5 && ws[5] == 0xffff))
  }

  // What follows the two colons.
  function Tail(ws: seq<word>, base: nat, len: nat): string
    requires |ws| == 8 && base + len <= 8
  {
    if Embeds(ws, base, len) then (if len == 5 then "ffff:" else "") + Text4(Bytes(ws[6..])) else Join(ws[base + len..])
  }

  function Text6(ws: seq<word>, base: nat, len: nat): string
    requires |ws| == 8 && base + len <= 8
  {
    if len == 0 then Join(ws) else Join(ws[..base]) + "::" + Tail(ws, base, len)
  }

  // ---------- the parser ----------

  // out is what is written to tmp before tp; colon the position of colonp; token that of curtok.
  datatype State = State(out: seq<byte>, colon: Option<nat>, seen: nat, val: nat, token: nat)

  function Push(st: State): State {
    st.(out := st.out + [st.val / 0x100 % 0x100, st.val % 0x100], seen := 0, val := 0)
  }

  function Zeros(n: nat): (s: seq<byte>)
    ensures |s| == n && forall i :: 0 <= i < n ==> s[i] == 0
  {
    if n == 0 then [] else [0] + Zeros(n - 1)
  }

  // Lines 272-297.
  function Finish(st: State): (r: Option<seq<byte>>)
    requires |st.out| <= 16 && (st.colon.Some? ==> st.colon.value <= |st.out|)
    ensures r.Some? ==> |r.value| == 16
  {
    if st.seen > 0 && |st.out| + 2 > 16 then None
    else
      var out := if st.seen > 0 then Push(st).out else st.out;
      if st.colon.Some? then
        if |out| == 16 then None
        else Some(out[..st.colon.value] + Zeros(16 - |out|) + out[st.colon.value..])
      else if |out| != 16 then None else Some(out)
  }

  // The loop of lines 232-271 from position i on.
  function Parse(src: string, i: nat, st: State): (r: Option<seq<byte>>)
    requires i <= |src| && st.token <= i && |st.out| <= 16 && (st.colon.Some? ==> st.colon.value <= |st.out|)
    ensures r.Some? ==> |r.value| == 16
    decreases |src| - i
  {
    if i == |src| then Finish(st)
    else
      var ch, digit := src[i], HexValue(src[i]);
      if digit.Some? then
        if st.seen + 1 > 4 then None
        else Parse(src, i + 1, st.(seen := st.seen + 1, val := st.val * 16 + digit.value))
      else if ch == ':' then
        if st.seen == 0 then
          if st.colon.Some? then None
          else Parse(src, i + 1, st.(colon := Some(|st.out|), token := i + 1))
        else if i + 1 == |src| then None
        else if |st.out| + 2 > 16 then None
        else Parse(src, i + 1, Push(st).(token := i + 1))
      else if ch == '.' && |st.out| + 4 <= 16 then
        var v4 := Pton4(src[st.token..]);
        if v4.None? then None else Finish(st.(out := st.out + v4.value, seen := 0))
      else None
  }

  function Start(token: nat): State {
    State([], None, 0, 0, token)
  }

  function Pton6(src: string): (r: Option<seq<byte>>)
    ensures r.Some? ==> |r.value| == 16
  {
    if src != "" && src[0] == ':' then
      if |src| == 1 || src[1] != ':' then None else Parse(src, 1, Start(1))
    else Parse(src, 0, Start(0))
  }

  // ---------- reading what was printed ----------

  ghost predicate StateOk(src: string, i: nat, st: State) {
    i <= |src| && st.token <= i && |st.out| <= 16 && (st.colon.Some? ==> st.colon.value <= |st.out|)
  }

  // A number in hexadecimal at position i is read.
  lemma {:induction false} ReadsNumber(src: string, i: nat, st: State, v: nat, radix: nat) returns (val: nat)
    requires (radix == 10 || radix == 16) && StateOk(src, i, st) && st.seen == 0 && st.val == 0
    requires var n := |Number(v, radix)|; n <= 4 && i + n <= |src| && src[i..i + n] == Number(v, radix)
    ensures radix == 16 ==> val == v
    ensures var n := |Number(v, radix)|; Parse(src, i, st) == Parse(src, i + n, st.(seen := n, val := val))
    decreases v
  {
    hide Finish, Push, DigitChar, HexValue;
    var n := |Number(v, radix)|;
    if v < radix {
      DigitOf(v);
      assert src[i] == src[i..i + n][0];
      val := v;
    } else {
      var q, r := v / radix, v % radix;
      DigitOf(r);
      assert Number(v, radix) == Number(q, radix) + [DigitChar(r)];
      SliceSnoc(src, i, i + n, Number(q, radix), DigitChar(r));
      val := ReadsNumber(src, i, st, q, radix);
      val := val * 16 + r;
    }
  }

  lemma ReadsHex(src: string, i: nat, st: State, w: word)
    requires StateOk(src, i, st) && st.seen == 0 && st.val == 0
    requires i + |Hex(w)| <= |src| && src[i..i + |Hex(w)|] == Hex(w)
    ensures Parse(src, i, st) == Parse(src, i + |Hex(w)|, st.(seen := |Hex(w)|, val := w))
  {
    NumberLengths(w);
    var val := ReadsNumber(src, i, st, w, 16);
  }

  lemma PushIs(st: State, w: word)
    requires st.val == w
    ensures Push(st).out == st.out + Bytes([w])
  {
    assert Bytes([w][1..]) == [];
  }

  lemma Assoc<T>(a: seq<T>, b: seq<T>, c: seq<T>)
    ensures (a + b) + c == a + (b + c)
  {
  }

  // A word with a colon that is not the end of the text.
  lemma ReadsWord(src: string, i: nat, st: State, w: word, more: string)
    requires StateOk(src, i, st) && st.seen == 0 && st.val == 0 && |st.out| <= 14
    requires src[i..] == Hex(w) + ":" + more && more != ""
    ensures
      var j := i + |Hex(w)| + 1;
      && j <= |src| && src[j..] == more
      && Parse(src, i, st) == Parse(src, j, st.(out := st.out + Bytes([w]), token := j))
  {
    hide Hex;
    var n := |Hex(w)|;
    assert src[i..i + n] == src[i..][..n] == Hex(w);
    assert src[i + n] == src[i..][n] == ':';
    assert src[i + n + 1..] == src[i..][n + 1..] == more;
    ReadsHex(src, i, st, w);
    PushIs(st.(seen := n, val := w), w);
  }

  // Words up to the end of the text.
  lemma {:induction false} ReadsLast(src: string, i: nat, st: State, ws: seq<word>)
    requires StateOk(src, i, st) && st.seen == 0 && st.val == 0 && |st.out| + 2 * |ws| <= 16 && src[i..] == Join(ws)
    ensures Parse(src, i, st) == Finish(st.(out := st.out + Bytes(ws)))
    decreases |ws|
  {
    hide Hex, Parse, Bytes, Push, Finish;
    if ws == [] {
      assert st.out + [] == st.out && i == |src|;
      AtEnd(src, st);
    } else {
      assert ws == [ws[0]] + ws[1..];
      BytesSplit([ws[0]], ws[1..]);
      if |ws| > 1 {
        ReadsWord(src, i, st, ws[0], Join(ws[1..]));
        var j := i + |Hex(ws[0])| + 1;
        var u := st.(out := st.out + Bytes([ws[0]]), token := j);
        ReadsLast(src, j, u, ws[1..]);
        Assoc(st.out, Bytes([ws[0]]), Bytes(ws[1..]));
        SameEnd(u.(out := u.out + Bytes(ws[1..])), st.(out := st.out + Bytes(ws)));
      } else {
        assert src[i..|src|] == Hex(ws[0]);
        ReadsHex(src, i, st, ws[0]);
        var u := st.(seen := |Hex(ws[0])|, val := ws[0]);
        PushIs(u, ws[0]);
        AtEnd(src, u);
        assert ws == [ws[0]];
        PushedEnd(u, st.(out := st.out + Bytes(ws)));
      }
    }
  }

  lemma SameEnd(a: State, b: State)
    requires a.out == b.out && a.colon == b.colon && a.seen == b.seen == 0
    requires |a.out| <= 16 && (a.colon.Some? ==> a.colon.value <= |a.out|)
    ensures Finish(a) == Finish(b)
  {
  }

  lemma AtEnd(src: string, st: State)
    requires StateOk(src, |src|, st)
    ensures Parse(src, |src|, st) == Finish(st)
  {
  }

  lemma PushedEnd(a: State, b: State)
    requires a.seen > 0 && b.seen == 0 && b.out == Push(a).out && a.colon == b.colon && |b.out| <= 16
    requires a.colon.Some? ==> a.colon.value <= |a.out|
    ensures Finish(a) == Finish(b)
  {
  }

  lemma SecondColon(src: string, j: nat, st: State, rest: string)
    requires StateOk(src, j, st) && src[j..] == ":" + rest && st.seen == 0 && st.colon == None
    ensures j < |src| && src[j + 1..] == rest
    ensures Parse(src, j, st) == Parse(src, j + 1, st.(colon := Some(|st.out|), token := j + 1))
  {
    assert src[j] == src[j..][0] == ':';
    assert src[j + 1..] == src[j..][1..];
  }

  lemma JoinThen(ws: seq<word>, rest: string)
    requires ws != []
    ensures
      Join(ws) + "::" + rest
      == Hex(ws[0]) + ":" + (if |ws| > 1 then Join(ws[1..]) + "::" + rest else ":" + rest)
    ensures |Join(ws)| == |Hex(ws[0])| + if |ws| > 1 then 1 + |Join(ws[1..])| else 0
  {
    hide Hex;
  }

  // Words before the two colons.
  lemma {:induction false} ReadsFirst(src: string, i: nat, st: State, ws: seq<word>, rest: string)
    requires StateOk(src, i, st) && st.seen == 0 && st.val == 0 && st.colon == None && ws != []
      && |st.out| + 2 * |ws| <= 16
    requires src[i..] == Join(ws) + "::" + rest
    ensures
      var j := i + |Join(ws)| + 2;
      var out := st.out + Bytes(ws);
      j <= |src| && src[j..] == rest && Parse(src, i, st) == Parse(src, j, State(out, Some(|out|), 0, 0, j))
    decreases |ws|
  {
    hide Hex, Parse, Join, Bytes, Push, Finish;
    assert ws == [ws[0]] + ws[1..];
    BytesSplit([ws[0]], ws[1..]);
    var more := if |ws| > 1 then Join(ws[1..]) + "::" + rest else ":" + rest;
    JoinThen(ws, rest);
    ReadsWord(src, i, st, ws[0], more);
    var j := i + |Hex(ws[0])| + 1;
    var u := st.(out := st.out + Bytes([ws[0]]), token := j);
    if |ws| > 1 {
      ReadsFirst(src, j, u, ws[1..], rest);
      Assoc(st.out, Bytes([ws[0]]), Bytes(ws[1..]));
    } else {
      assert ws == [ws[0]];
      SecondColon(src, j, u, rest);
    }
  }

  // An embedded IPv4 address at the end of the text.
  lemma Reads4At(src: string, i: nat, st: State, b: seq<byte>)
    requires StateOk(src, i, st) && st.seen == 0 && st.val == 0 && st.token == i && |st.out| <= 12 && |b| == 4
    requires src[i..] == Text4(b)
    ensures Parse(src, i, st) == Finish(st.(out := st.out + b))
  {
    hide Finish;
    var n := |Dec(b[0])|;
    FirstOctet(b);
    assert src[i..i + n] == src[i..][..n] == Dec(b[0]);
    assert src[i + n] == src[i..][n] == '.';
    NumberLengths(b[0]);
    var val := ReadsNumber(src, i, st, b[0], 10);
    SameEnd(st.(out := st.out + b, val := val), st.(out := st.out + b));
    Parses4(b);
  }

  lemma FirstOctet(b: seq<byte>)
    requires |b| == 4
    ensures var n := |Dec(b[0])|; |Text4(b)| > n && Text4(b)[..n] == Dec(b[0]) && Text4(b)[n] == '.'
  {
    hide Dec;
    DottedStep([], b[0]);
    DottedStep([b[0]], b[1]);
    DottedStep([b[0], b[1]], b[2]);
    assert b[..3] == [b[0], b[1]] + [b[2]] && [b[0], b[1]] == [b[0]] + [b[1]] && [] + [b[0]] == [b[0]];
    assert Text4(b) == Dec(b[0]) + ("." + Dec(b[1]) + "." + Dec(b[2]) + "." + Dec(b[3]));
  }

  // ---------- the round trip ----------

  lemma {:induction false} BytesSplit(a: seq<word>, b: seq<word>)
    ensures Bytes(a + b) == Bytes(a) + Bytes(b)
  {
    if a == [] {
      assert a + b == b;
    } else {
      assert (a + b)[1..] == a[1..] + b;
      BytesSplit(a[1..], b);
    }
  }

  lemma {:induction false} BytesOfZeros(ws: seq<word>)
    requires forall i :: 0 <= i < |ws| ==> ws[i] == 0
    ensures Bytes(ws) == Zeros(2 * |ws|)
  {
    if ws != [] {
      BytesOfZeros(ws[1..]);
      assert Zeros(2 * |ws|) == [0] + ([0] + Zeros(2 * |ws| - 2));
    }
  }

  lemma Between<T>(a: seq<T>, z: seq<T>, c: seq<T>)
    ensures (a + c)[..|a|] == a && (a + c)[|a|..] == c && a + (z + c) == a + z + c
  {
  }

  // The parser fills the gap with the zeros that were left out.
  lemma FillsGap(ws: seq<word>, base: nat, len: nat)
    requires |ws| == 8 && ZeroRun(ws, base, len) && len > 0
    ensures
      var a, c := Bytes(ws[..base]), Bytes(ws[base + len..]);
      Finish(State(a + c, Some(|a|), 0, 0, 0)) == Some(Bytes(ws))
  {
    hide Zeros;
    var a, c := ws[..base], ws[base + len..];
    var z := ws[base..base + len];
    assert ws == a + (z + c);
    BytesSplit(a, z + c);
    BytesSplit(z, c);
    BytesOfZeros(z);
    Between(Bytes(a), Zeros(2 * len), Bytes(c));
  }

  lemma ReadsTail(src: string, j: nat, a: seq<byte>, ws: seq<word>, base: nat, len: nat)
    requires |ws| == 8 && base + len <= 8 && len > 0 && |a| == 2 * base
    requires j <= |src| && src[j..] == Tail(ws, base, len)
    ensures Parse(src, j, State(a, Some(|a|), 0, 0, j))
      == Finish(State(a + Bytes(ws[base + len..]), Some(|a|), 0, 0, 0))
  {
    hide Hex, Finish, Parse;
    var st := State(a, Some(|a|), 0, 0, j);
    if !Embeds(ws, base, len) {
      ReadsLast(src, j, st, ws[base + len..]);
      SameEnd(st.(out := a + Bytes(ws[base + len..])), State(a + Bytes(ws[base + len..]), Some(|a|), 0, 0, 0));
    } else if len == 6 {
      assert "" + Text4(Bytes(ws[6..])) == Text4(Bytes(ws[6..]));
      Reads4At(src, j, st, Bytes(ws[6..]));
      SameEnd(st.(out := a + Bytes(ws[6..])), State(a + Bytes(ws[6..]), Some(|a|), 0, 0, 0));
    } else {
      assert a == [] && a + Bytes(ws[5..]) == Bytes(ws[5..]);
      ReadsMapped(src, j, st, ws);
      SameEnd(st.(out := a + Bytes(ws[5..])), State(a + Bytes(ws[5..]), Some(|a|), 0, 0, 0));
    }
  }

  lemma ReadsMapped(src: string, j: nat, st: State, ws: seq<word>)
    requires |ws| == 8 && ws[5] == 0xffff && st == State([], Some(0), 0, 0, j)
    requires j <= |src| && src[j..] == "ffff:" + Text4(Bytes(ws[6..]))
    ensures Parse(src, j, st) == Finish(st.(out := Bytes(ws[5..])))
  {
    hide Finish, Parse, Push, Bytes, Text4, Hex, Words;
    var b := Bytes(ws[6..]);
    HexFfff();
    Text4Nonempty(b);
    assert "ffff:" + Text4(b) == Hex(0xffff) + ":" + Text4(b);
    ReadsWord(src, j, st, 0xffff, Text4(b));
    var u := st.(out := st.out + Bytes([0xffff]), token := j + 5);
    Reads4At(src, j + 5, u, b);
    assert ws[5..] == [ws[5]] + ws[6..];
    BytesSplit([ws[5]], ws[6..]);
    assert u.out + b == Bytes(ws[5..]);
    SameEnd(u.(out := Bytes(ws[5..])), st.(out := Bytes(ws[5..])));
  }

  lemma Text4Nonempty(b: seq<byte>)
    requires |b| == 4
    ensures Text4(b) != ""
  {
    hide Dec;
  }

  lemma HexFfff()
    ensures Hex(0xffff) == "ffff"
  {
    assert Number(0xf, 16) == "f";
    assert Number(0xff, 16) == "ff";
    assert Number(0xfff, 16) == "fff";
  }

  // What inet_pton6 makes of the text is the address, whichever run of zeros was compressed.
  lemma RoundTrip(ws: seq<word>, base: nat, len: nat)
    requires |ws| == 8 && ZeroRun(ws, base, len)
    ensures Pton6(Text6(ws, base, len)) == Some(Bytes(ws))
  {
    hide Hex, Finish, Parse, Tail;
    var s := Text6(ws, base, len);
    if len == 0 {
      StartsWithDigit(ws);
      assert s[0..] == s && [] + Bytes(ws) == Bytes(ws);
      ReadsLast(s, 0, Start(0), ws);
      FinishFull(Start(0).(out := Bytes(ws)));
    } else {
      FillsGap(ws, base, len);
      var rest := Tail(ws, base, len);
      if base == 0 {
        assert s == "::" + rest by { assert ws[..0] == []; }
        assert s[2..] == rest && s[0] == ':' && s[1] == ':';
        LeadingColons(s);
        ReadsTail(s, 2, [], ws, 0, len);
        assert Bytes(ws[..0]) == [];
      } else {
        StartsWithDigit(ws[..base]);
        assert s[0] == Join(ws[..base])[0] && s[0..] == s;
        ReadsFirst(s, 0, Start(0), ws[..base], rest);
        assert [] + Bytes(ws[..base]) == Bytes(ws[..base]);
        ReadsTail(s, |Join(ws[..base])| + 2, Bytes(ws[..base]), ws, base, len);
      }
    }
  }

  lemma FinishFull(st: State)
    requires |st.out| == 16 && st.seen == 0 && st.colon == None
    ensures Finish(st) == Some(st.out)
  {
  }

  lemma LeadingColons(s: string)
    requires |s| >= 2 && s[0] == ':' && s[1] == ':'
    ensures Pton6(s) == Parse(s, 2, State([], Some(0), 0, 0, 2))
  {
  }

  lemma {:induction false} NumberStarts(v: nat, radix: nat)
    requires radix == 10 || radix == 16
    ensures HexValue(Number(v, radix)[0]).Some?
    decreases v
  {
    if v < radix {
      DigitOf(v);
    } else {
      NumberStarts(v / radix, radix);
    }
  }

  lemma StartsWithDigit(ws: seq<word>)
    requires ws != []
    ensures Join(ws) != "" && Join(ws)[0] != ':'
  {
    NumberStarts(ws[0], 16);
  }

  lemma {:induction false} BytesOfWords(b: seq<byte>)
    requires |b| % 2 == 0
    ensures Bytes(Words(b)) == b
  {
    if b != [] {
      BytesOfWords(b[2..]);
      assert (b[0] as int * 0x100 + b[1]) / 0x100 == b[0] && (b[0] as int * 0x100 + b[1]) % 0x100 == b[1];
      assert b == [b[0], b[1]] + b[2..];
      assert Words(b)[1..] == Words(b[2..]);
    }
  }

  // inet_pton6 gives back each address that inet_ntop6 has printed.
  lemma AddressRoundTrip(b: seq<byte>, base: nat, len: nat)
    requires |b| == 16 && BestRun(Words(b), base, len)
    ensures Pton6(Text6(Words(b), base, len)) == Some(b)
  {
    RoundTrip(Words(b), base, len);
    BytesOfWords(b);
  }

  // ---------- the length of the text ----------

  lemma {:induction false} JoinLength(ws: seq<word>)
    ensures |Join(ws)| <= 5 * |ws| && (ws != [] ==> |Join(ws)| < 5 * |ws|)
  {
    if ws != [] {
      NumberLengths(ws[0]);
      JoinLength(ws[1..]);
    }
  }

  lemma Text4Length(b: seq<byte>)
    requires |b| == 4
    ensures |Text4(b)| <= 15
  {
    hide Dec;
    DottedStep([], b[0]);
    DottedStep([b[0]], b[1]);
    DottedStep([b[0], b[1]], b[2]);
    assert b[..3] == [b[0], b[1]] + [b[2]] && [b[0], b[1]] == [b[0]] + [b[1]] && [] + [b[0]] == [b[0]];
    NumberLengths(b[0]);
    NumberLengths(b[1]);
    NumberLengths(b[2]);
    NumberLengths(b[3]);
  }

  // The text and its NUL fit into 46 characters.
  lemma Text6Length(ws: seq<word>, base: nat, len: nat)
    requires |ws| == 8 && base + len <= 8 && len != 1
    ensures |Text6(ws, base, len)| <= 39
  {
    JoinLength(ws);
    JoinLength(ws[..base]);
    JoinLength(ws[base + len..]);
    Text4Length(Bytes(ws[6..]));
  }
}
