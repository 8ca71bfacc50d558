/** The functions of src/inet.c that print and parse addresses in fixed buffers. */
module InetConvert {
  import opened Inet
  import opened Inet6
  import opened Common

  const UV_ENOSPC: int := -28
  const ADDRSTRLEN := 16
  const ADDRSTRLEN6 := 46

  // ---------- printing ----------

  // snprintf with the characters of a number or an address: s and a NUL go to position tp.
  method Print(tmp: array<char>, tp: nat, s: string) returns (q: nat)
    requires tp + |s| < tmp.Length
    modifies tmp
    ensures q == tp + |s| && tmp[..q] == old(tmp[..tp]) + s && tmp[q] == '\0'
  {
    q := tp;
    for k := 0 to |s|
      invariant q == tp + k && tmp[..q] == old(tmp[..tp]) + s[..k]
    {
      tmp[q] := s[k];
      q := q + 1;
    }
    tmp[q] := '\0';
  }

  // uv__strscpy to position at, for a text that fits.
  method Copy(dst: array<char>, at: nat, text: string, size: nat)
    requires |text| < size && at + size <= dst.Length
    modifies dst
    ensures dst[..at + |text|] == old(dst[..at]) + text && dst[at + |text|] == '\0'
  {
    var q := Print(dst, at, text);
  }

  // inet_ntop4, for a destination at position at.
  method Ntop4(src: seq<byte>, dst: array<char>, at: nat, size: nat) returns (rc: int)
    requires |src| == 4 && at + size <= dst.Length
    modifies dst
    ensures rc == if |Text4(src)| < size then 0 else UV_ENOSPC
    ensures
      if rc == 0 then dst[..at + |Text4(src)|] == old(dst[..at]) + Text4(src) && dst[at + |Text4(src)|] == '\0'
      else dst[..] == old(dst[..])
  {
    hide Dec;
    var tmp := new char[ADDRSTRLEN];
    Text4Length(src);
    Text4Parts(src);
    var l := Print(tmp, 0, Dec(src[0]));
    l := Print(tmp, l, ".");
    l := Print(tmp, l, Dec(src[1]));
    l := Print(tmp, l, ".");
    l := Print(tmp, l, Dec(src[2]));
    l := Print(tmp, l, ".");
    l := Print(tmp, l, Dec(src[3]));
    assert tmp[..0] == [];
    assert tmp[..l] == Text4(src);
    if l >= size {
      return UV_ENOSPC;
    }
    Copy(dst, at, tmp[..l], size);
    rc := 0;
  }

  lemma Text4Parts(b: seq<byte>)
    requires |b| == 4
    ensures Text4(b) == [] + Dec(b[0]) + "." + Dec(b[1]) + "." + Dec(b[2]) + "." + Dec(b[3])
  {
    hide Dec;
    DottedStep([], b[0]);
    DottedStep([b[0]], b[1]);
    DottedStep([b[0], b[1]], b[2]);
    assert b[..3] == [b[0], b[1]] + [b[2]] && [b[0], b[1]] == [b[0]] + [b[1]] && [] + [b[0]] == [b[0]];
  }

  // Lines 80-82.
  method ToWords(src: seq<byte>) returns (words: array<word>)
    requires |src| == 16
    ensures fresh(words) && words.Length == 8 && words[..] == Words(src)
  {
    words := new word[8](i => 0);
    for i := 0 to 16
      invariant forall k :: 0 <= k < 8 ==>
        words[k] == (if 2 * k < i then src[2 * k] as int * 0x100 else 0) + (if 2 * k + 1 < i then src[2 * k + 1] else 0)
    {
      if i % 2 == 0 {
        words[i / 2] := words[i / 2] + src[i] as int * 0x100;
      } else {
        words[i / 2] := words[i / 2] + src[i];
      }
    }
    forall k | 0 <= k < 8 ensures words[k] == Words(src)[k] {
      WordAt(src, k);
    }
  }

  lemma {:induction false} WordAt(b: seq<byte>, k: nat)
    requires |b| % 2 == 0 && k < |b| / 2
    ensures Words(b)[k] == b[2 * k] as int * 0x100 + b[2 * k + 1]
  {
    if k > 0 {
      WordAt(b[2..], k - 1);
    }
  }

  // Of the runs of zeros that end by position i, base and len are the first of the longest; base
  // is -1 if there is none.
  ghost predicate BestBy(ws: seq<word>, i: nat, base: int, len: nat) {
    && (if base == -1 then len == 0 else base >= 0 && len > 0 && base + len <= i && ZeroRun(ws, base, len))
    && forall b: nat, l: nat :: ZeroRun(ws, b, l) && l > 0 && b + l <= i ==> l < len || (l == len && base <= b)
  }

  // A run that ends at i and starts at c, after a word that is not zero or at the start.
  ghost predicate RunTo(ws: seq<word>, c: nat, i: nat) {
    c < i <= |ws| && ZeroRun(ws, c, i - c) && (c > 0 ==> ws[c - 1] != 0)
  }

  lemma Better(ws: seq<word>, c: nat, i: nat, base: int, len: nat)
    requires BestBy(ws, c, base, len) && RunTo(ws, c, i)
    ensures if base == -1 || i - c > len then BestBy(ws, i, c, i - c) else BestBy(ws, i, base, len)
  {
    forall b: nat, l: nat | ZeroRun(ws, b, l) && l > 0 && c < b + l <= i ensures b >= c {
    }
  }

  lemma NoneEndsHere(ws: seq<word>, i: nat, base: int, len: nat)
    requires BestBy(ws, i, base, len) && i < |ws| && ws[i] != 0
    ensures BestBy(ws, i + 1, base, len)
  {
    forall b: nat, l: nat | ZeroRun(ws, b, l) && l > 0 && b + l <= i + 1 ensures b + l <= i {
    }
  }

  // Lines 83-106.
  method FindBest(words: array<word>) returns (base: int, len: nat)
    requires words.Length == 8
    ensures if base == -1 then BestRun(words[..], 0, 0) else base >= 0 && len >= 2 && BestRun(words[..], base, len)
  {
    hide ZeroRun, BestBy, RunTo;
    ghost var ws := words[..];
    base, len := -1, 0;
    var curBase, curLen := -1, 0;
    NoRuns(ws);
    var i := 0;
    while i < 8
      invariant 0 <= i <= 8
      invariant curBase == -1 ==> BestBy(ws, i, base, len) && (i > 0 ==> ws[i - 1] != 0)
      invariant curBase != -1 ==>
        0 <= curBase < i && RunTo(ws, curBase, i) && curLen == i - curBase && BestBy(ws, curBase, base, len)
    {
      if words[i] == 0 {
        RunGrows(ws, if curBase == -1 then i else curBase, i);
        if curBase == -1 {
          curBase, curLen := i, 1;
        } else {
          curLen := curLen + 1;
        }
      } else {
        if curBase != -1 {
          Better(ws, curBase, i, base, len);
          if base == -1 || curLen > len {
            base, len := curBase, curLen;
          }
          curBase := -1;
        }
        NoneEndsHere(ws, i, base, len);
      }
      i := i + 1;
    }
    if curBase != -1 {
      Better(ws, curBase, i, base, len);
      if base == -1 || curLen > len {
        base, len := curBase, curLen;
      }
    }
    BestIsBest(ws, base, len);
    if base != -1 && len < 2 {
      base := -1;
    }
  }

  lemma NoRuns(ws: seq<word>)
    ensures BestBy(ws, 0, -1, 0)
  {
  }

  lemma RunGrows(ws: seq<word>, c: nat, i: nat)
    requires i < |ws| && ws[i] == 0 && (c == i || RunTo(ws, c, i)) && (c == i && i > 0 ==> ws[i - 1] != 0)
    ensures RunTo(ws, c, i + 1)
  {
  }

  lemma BestIsBest(ws: seq<word>, base: int, len: nat)
    requires |ws| == 8 && BestBy(ws, 8, base, len)
    ensures base == -1 || base >= 0
    ensures base == -1 || len < 2 ==> BestRun(ws, 0, 0)
    ensures base != -1 && len >= 2 ==> BestRun(ws, base, len)
  {
  }

  // What is printed before word i; len is 0 if no run is compressed.
  ghost function Printed(ws: seq<word>, base: nat, len: nat, i: nat): string
    requires |ws| == 8 && base + len <= 8 && i <= 8
  {
    if len == 0 || i <= base then Join(ws[..i])
    else if i <= base + len then Join(ws[..base]) + ":"
    else Join(ws[..base]) + "::" + Join(ws[base + len..i])
  }

  lemma {:induction false} JoinSnoc(ws: seq<word>, w: word)
    ensures Join(ws + [w]) == Join(ws) + (if ws == [] then "" else ":") + Hex(w)
  {
    hide Hex;
    var u := ws + [w];
    if ws == [] {
      assert u == [w];
    } else {
      JoinSnoc(ws[1..], w);
      assert u[1..] == ws[1..] + [w];
      assert Join(u) == Hex(ws[0]) + ":" + Join(ws[1..] + [w]);
    }
  }

  lemma PrintedWord(ws: seq<word>, base: nat, len: nat, i: nat)
    requires |ws| == 8 && base + len <= 8 && i < 8 && !(len > 0 && base <= i < base + len)
    ensures Printed(ws, base, len, i + 1) == Printed(ws, base, len, i) + (if i == 0 then "" else ":") + Hex(ws[i])
  {
    hide Hex, Join;
    if len == 0 || i < base {
      assert ws[..i + 1] == ws[..i] + [ws[i]];
      JoinSnoc(ws[..i], ws[i]);
    } else {
      var m := ws[base + len..i];
      assert ws[base + len..i + 1] == m + [ws[i]];
      JoinSnoc(m, ws[i]);
      var a, h := Join(ws[..base]), Hex(ws[i]);
      if i == base + len {
        JoinEmpty();
        assert (a + ":") + ":" + h == a + "::" + ("" + "" + h);
      } else {
        assert (a + "::" + Join(m)) + ":" + h == a + "::" + (Join(m) + ":" + h);
      }
    }
  }

  lemma JoinEmpty()
    ensures Join([]) == ""
  {
  }

  lemma PrintedEnd(ws: seq<word>, base: nat, len: nat)
    requires |ws| == 8 && base + len <= 8 && (len == 0 || !Embeds(ws, base, len))
    ensures Text6(ws, base, len) == Printed(ws, base, len, 8) + if len > 0 && base + len == 8 then ":" else ""
  {
    hide Hex, Join;
    JoinEmpty();
    assert ws[..8] == ws;
    var a := Join(ws[..base]);
    if len > 0 {
      if base + len == 8 {
        assert ws[8..] == [];
        assert (a + ":") + ":" == a + "::" + "";
      } else {
        assert ws[base + len..8] == ws[base + len..];
        assert a + "::" + Join(ws[base + len..]) + "" == a + "::" + Join(ws[base + len..]);
      }
    } else {
      assert Join(ws) + "" == Join(ws);
    }
  }

  lemma PrintedEmbedded(ws: seq<word>, base: nat, len: nat)
    requires |ws| == 8 && base + len <= 8 && Embeds(ws, base, len)
    ensures Text6(ws, base, len) == Printed(ws, base, len, 6) + ":" + Text4(Bytes(ws[6..]))
  {
    hide Text4;
    var t := Text4(Bytes(ws[6..]));
    assert ws[..0] == [];
    if len == 6 {
      assert "" + "::" + ("" + t) == ("" + ":") + ":" + t;
    } else {
      HexFfff();
      assert ws[5..6] == [ws[5]];
      assert "" + "::" + ("ffff:" + t) == ("" + "::" + "ffff") + ":" + t;
    }
  }

  lemma {:induction false} JoinPrefix(ws: seq<word>, i: nat)
    requires i <= |ws|
    ensures |Join(ws[..i])| <= |Join(ws)|
    decreases |ws|
  {
    hide Hex;
    if i > 0 {
      assert ws[..i][1..] == ws[1..][..i - 1];
      JoinPrefix(ws[1..], i - 1);
    }
  }

  // Before and while the run is compressed, the text is short enough for all that follows.
  lemma PrintedLength(ws: seq<word>, base: nat, len: nat, i: nat)
    requires |ws| == 8 && base + len <= 8 && i <= 8 && len != 1
    ensures |Printed(ws, base, len, i)| <= 5 * i + 1 && |Printed(ws, base, len, i)| <= 39
  {
    hide Hex, Join;
    JoinLength(ws[..i]);
    JoinLength(ws[..base]);
    if len > 0 && i > base + len {
      JoinLength(ws[base + len..i]);
    }
  }

  ghost predicate NoNul(s: string) {
    forall i :: 0 <= i < |s| ==> s[i] != '\0'
  }

  lemma {:induction false} NumberNoNul(v: nat, radix: nat)
    requires radix == 10 || radix == 16
    ensures NoNul(Number(v, radix))
    decreases v
  {
    if v >= radix {
      NumberNoNul(v / radix, radix);
    }
  }

  lemma Text4NoNul(b: seq<byte>)
    requires |b| == 4
    ensures NoNul(Text4(b))
  {
    hide Dec;
    Text4Parts(b);
    NumberNoNul(b[0], 10);
    NumberNoNul(b[1], 10);
    NumberNoNul(b[2], 10);
    NumberNoNul(b[3], 10);
    DecIs(b);
  }

  lemma DecIs(b: seq<byte>)
    requires |b| == 4
    ensures forall i :: 0 <= i < 4 ==> Dec(b[i]) == Number(b[i], 10)
  {
  }

  // tp += strlen(tp), after text was stored at tp.
  method Strlen(tmp: array<char>, tp: nat, ghost text: string) returns (q: nat)
    requires NoNul(text) && tp + |text| < tmp.Length && tmp[tp..tp + |text|] == text && tmp[tp + |text|] == '\0'
    ensures q == tp + |text|
  {
    q := tp;
    assert forall k :: tp <= k < tp + |text| ==> tmp[k] == tmp[tp..tp + |text|][k - tp];
    while tmp[q] != '\0'
      invariant tp <= q <= tp + |text|
      invariant forall k :: tp <= k < tp + |text| ==> tmp[k] != '\0'
      decreases tp + |text| - q
    {
      q := q + 1;
    }
  }

  lemma BestFits(ws: seq<word>, base: nat, len: nat)
    requires |ws| == 8 && BestRun(ws, base, len)
    ensures base + len <= 8 && len != 1 && Printed(ws, base, len, 0) == ""
  {
    assert ws[..0] == [];
  }

  lemma PrintedColon(ws: seq<word>, base: nat, len: nat, i: nat)
    requires |ws| == 8 && base + len <= 8 && len > 0 && base <= i < base + len
    ensures Printed(ws, base, len, i + 1) == Printed(ws, base, len, i) + if i == base then ":" else ""
  {
  }

  lemma LastBytes(b: seq<byte>)
    requires |b| == 16
    ensures Bytes(Words(b)[6..]) == b[12..]
  {
    BytesOfWords(b);
    var ws := Words(b);
    assert ws == ws[..6] + ws[6..];
    BytesSplit(ws[..6], ws[6..]);
  }

  // One round of the loop of lines 112-134 outside of the run that is compressed; done if it
  // printed an embedded IPv4 address.
  method PrintWord(src: seq<byte>, words: array<word>, i: nat, base: int, len: nat, tmp: array<char>, tp0: nat)
    returns (done: bool, tp: nat)
    requires |src| == 16 && words.Length == 8 && words[..] == Words(src) && i < 8 && tmp.Length == ADDRSTRLEN6
    requires (base == -1 ==> len == 0) && -1 <= base && base + len <= 8 && len != 1
    requires base != -1 ==> !(base <= i < base + len)
    requires var b := if base == -1 then 0 else base; tp0 <= 39 && tmp[..tp0] == Printed(words[..], b, len, i)
    modifies tmp
    ensures tp <= 39
    ensures
      var ws, b := words[..], if base == -1 then 0 else base;
      && (done <==> i == 6 && len > 0 && Embeds(ws, b, len))
      && tmp[..tp] == if done then Text6(ws, b, len) else Printed(ws, b, len, i + 1)
  {
    hide Words, Printed, Hex, Text6, Bytes, Text4;
    ghost var ws, b: nat := words[..], if base == -1 then 0 else base;
    PrintedWord(ws, b, len, i);
    PrintedLength(ws, b, len, i);
    PrintedLength(ws, b, len, i + 1);
    NumberLengths(ws[i]);
    tp := tp0;
    if i != 0 {
      tmp[tp] := ':';
      tp := tp + 1;
    }
    assert tmp[..tp] == Printed(ws, b, len, i) + if i == 0 then "" else ":";
    var last := words[7];
    if i == 6 && base == 0 && (len == 6 || (len == 7 && last != 0x0001) || (len == 5 && words[5] == 0xffff)) {
      LastBytes(src);
      PrintedEmbedded(ws, b, len);
      Text6Length(ws, b, len);
      Text4Length(src[12..]);
      Text4NoNul(src[12..]);
      var err := Ntop4(src[12..], tmp, tp, ADDRSTRLEN6 - tp);
      tp := Strlen(tmp, tp, Text4(src[12..]));
      return true, tp;
    }
    tp := Print(tmp, tp, Hex(words[i]));
    done := false;
  }

  // inet_ntop6: the buffer of 46 characters suffices, and what is compressed is the first of the
  // longest runs of at least two zero words.
  method Ntop6(src: seq<byte>, dst: array<char>, size: nat) returns (rc: int, ghost base: nat, ghost len: nat)
    requires |src| == 16 && size <= dst.Length
    modifies dst
    ensures base + len <= 8 && BestRun(Words(src), base, len)
    ensures rc == if |Text6(Words(src), base, len)| < size then 0 else UV_ENOSPC
    ensures
      var text := Text6(Words(src), base, len);
      if rc == 0 then dst[..|text|] == text && dst[|text|] == '\0' else dst[..] == old(dst[..])
  {
    hide Words, BestRun, Printed, Text6, Embeds;
    var words := ToWords(src);
    ghost var ws := words[..];
    var best, bestLen := FindBest(words);
    if best == -1 {
      bestLen := 0;
    }
    base, len := if best == -1 then 0 else best, bestLen;
    BestFits(ws, base, len);
    var tmp := new char[ADDRSTRLEN6];
    var tp, i: nat, done := 0, 0, false;
    assert tmp[..0] == "";
    while i < 8 && !done
      invariant i <= 8 && 0 <= tp <= 39 && words[..] == ws
      invariant tmp[..tp] == if done then Text6(ws, base, len) else Printed(ws, base, len, i)
      invariant !done && i > 6 && len > 0 ==> !Embeds(ws, base, len)
      invariant done ==> len > 0 && Embeds(ws, base, len)
      modifies tmp
      decreases 8 - i, if done then 0 else 1
    {
      PrintedLength(ws, base, len, i + 1);
      if best != -1 && i >= best && i < best + bestLen {
        PrintedColon(ws, base, len, i);
        NotEmbedded(ws, base, len, i);
        if i == best {
          tmp[tp] := ':';
          tp := tp + 1;
        }
        i := i + 1;
        continue;
      }
      done, tp := PrintWord(src, words, i, best, bestLen, tmp, tp);
      if !done {
        i := i + 1;
      }
    }
    if !done {
      PrintedEnd(ws, base, len);
    } else {
      EmbeddedEnd(ws, base, len);
    }
    Text6Length(ws, base, len);
    if best != -1 && best + bestLen == 8 {
      tmp[tp] := ':';
      tp := tp + 1;
    }
    assert tmp[..tp] == Text6(ws, base, len);
    tmp[tp] := '\0';
    tp := tp + 1;
    if tp > size {
      return UV_ENOSPC, base, len;
    }
    assert dst[..0] == "";
    Copy(dst, 0, tmp[..tp - 1], size);
    rc := 0;
  }

  // Word 6 is compressed, so no IPv4 address is embedded.
  lemma NotEmbedded(ws: seq<word>, base: nat, len: nat, i: nat)
    requires |ws| == 8 && base + len <= 8 && base <= i < base + len
    ensures i >= 6 ==> !Embeds(ws, base, len)
  {
  }

  lemma EmbeddedEnd(ws: seq<word>, base: nat, len: nat)
    requires |ws| == 8 && Embeds(ws, base, len)
    ensures base + len < 8
  {
  }

  // ---------- parsing ----------

  method Memcpy(dst: array<byte>, at: nat, s: seq<byte>)
    requires at + |s| <= dst.Length
    modifies dst
    ensures dst[..] == old(dst[..at]) + s + old(dst[at + |s|..])
  {
    for k := 0 to |s|
      invariant dst[..] == old(dst[..at]) + s[..k] + old(dst[at + k..])
    {
      dst[at + k] := s[k];
    }
  }

  // inet_pton4 for the text at position start; the result goes to position at of dst.
  method Pton4At(src: string, start: nat, dst: array<byte>, at: nat) returns (rc: int)
    requires start <= |src| && at + 4 <= dst.Length
    modifies dst
    ensures rc == if Pton4(src[start..]).Some? then 0 else UV_EINVAL
    ensures
      if rc == 0 then dst[..] == old(dst[..at]) + Pton4(src[start..]).value + old(dst[at + 4..])
      else dst[..] == old(dst[..])
  {
    ghost var s := src[start..];
    var tmp := new byte[4](i => 0);
    var sawDigit, octets, tp, i := false, 0, 0, 0;
    assert tmp[..0] == [];
    while start + i < |src|
      invariant 0 <= i <= |s| && 0 <= tp <= 3 && octets == tp + (if sawDigit then 1 else 0)
      invariant !sawDigit ==> tmp[tp] == 0
      invariant Pton4(s) == Parse4(s, i, tmp[..tp], sawDigit, tmp[tp])
      modifies tmp
      decreases |s| - i
    {
      var ch := src[start + i];
      assert ch == s[i];
      var digit := DigitValue(ch);
      if digit.Some? {
        var nw := tmp[tp] as int * 10 + digit.value;
        if sawDigit && tmp[tp] == 0 {
          return UV_EINVAL;
        }
        if nw > 255 {
          return UV_EINVAL;
        }
        tmp[tp] := nw;
        if !sawDigit {
          octets := octets + 1;
          if octets > 4 {
            return UV_EINVAL;
          }
          sawDigit := true;
        }
      } else if ch == '.' && sawDigit {
        if octets == 4 {
          return UV_EINVAL;
        }
        assert tmp[..tp + 1] == tmp[..tp] + [tmp[tp]];
        tp := tp + 1;
        tmp[tp] := 0;
        sawDigit := false;
      } else {
        return UV_EINVAL;
      }
      i := i + 1;
    }
    if octets < 4 {
      return UV_EINVAL;
    }
    assert tmp[..] == tmp[..3] + [tmp[3]];
    Memcpy(dst, at, tmp[..]);
    rc := 0;
  }

  // Lines 283-291: the bytes from colonp on move to the end of the 16 bytes, one by one from the last.
  method Shift(tmp: array<byte>, colonp: nat, tp: nat)
    requires tmp.Length == 16 && colonp <= tp < 16 && forall k :: tp <= k < 16 ==> tmp[k] == 0
    modifies tmp
    ensures tmp[..] == old(tmp[..colonp]) + Zeros(16 - tp) + old(tmp[colonp..tp])
  {
    ghost var was := tmp[..];
    var n := tp - colonp;
    for i := 1 to n + 1
      invariant forall k :: 0 <= k < tp - (i - 1) ==> tmp[k] == was[k]
      invariant forall k :: tp - (i - 1) <= k < 16 - (i - 1) ==> tmp[k] == 0
      invariant forall k :: 16 - (i - 1) <= k < 16 ==> tmp[k] == was[k - (16 - tp)]
    {
      tmp[16 - i] := tmp[colonp + n - i];
      tmp[colonp + n - i] := 0;
    }
    assert tmp[..colonp] == was[..colonp];
    assert tmp[colonp..colonp + 16 - tp] == Zeros(16 - tp);
    assert tmp[colonp + 16 - tp..] == was[colonp..tp];
  }

  // What tmp holds before tp, and the other variables, as a state of the parser.
  ghost function StateOf(tmp: seq<byte>, tp: nat, colonp: int, seen: nat, val: nat, curtok: nat): State
    requires tp <= |tmp|
  {
    State(tmp[..tp], if colonp < 0 then None else Some(colonp), seen, val, curtok)
  }

  // *tp++ = val >> 8; *tp++ = val;
  method PutWord(tmp: array<byte>, tp: nat, val: nat) returns (q: nat)
    requires tp + 2 <= tmp.Length
    modifies tmp
    ensures q == tp + 2 && tmp[..q] == old(tmp[..tp]) + [val / 0x100 % 0x100, val % 0x100]
    ensures old(ZeroFrom(tmp[..], tp)) ==> ZeroFrom(tmp[..], q)
  {
    tmp[tp] := val / 0x100 % 0x100;
    tmp[tp + 1] := val % 0x100;
    q := tp + 2;
  }

  ghost predicate ZeroFrom(s: seq<byte>, k: nat) {
    k <= |s| && forall i :: k <= i < |s| ==> s[i] == 0
  }

  // The loop of lines 232-271.
  method ParseLoop(src: string, start: nat, tmp: array<byte>)
    returns (ok: bool, tp: nat, colonp: int, seen: nat, val: nat, ghost curtok: nat)
    requires start <= |src| && tmp.Length == 16 && ZeroFrom(tmp[..], 0)
    modifies tmp
    ensures tp <= 16 && colonp <= tp && ZeroFrom(tmp[..], tp)
    ensures
      if ok then Parse(src, start, Start(start)) == Finish(StateOf(tmp[..], tp, colonp, seen, val, curtok))
      else Parse(src, start, Start(start)) == None
  {
    hide Finish, HexValue;
    var i, token: nat := start, start;
    ok, tp, colonp, seen, val, curtok := true, 0, -1, 0, 0, start;
    assert tmp[..0] == [];
    while i < |src|
      invariant start <= i <= |src| && token <= i && tp <= 16 && colonp <= tp && ZeroFrom(tmp[..], tp) && ok
        && curtok == token
      invariant Parse(src, start, Start(start)) == Parse(src, i, StateOf(tmp[..], tp, colonp, seen, val, token))
      decreases |src| - i
    {
      ghost var st := StateOf(tmp[..], tp, colonp, seen, val, token);
      var ch := src[i];
      i := i + 1;
      var digit := HexValue(ch);
      if digit.Some? {
        val := val * 16 + digit.value;
        seen := seen + 1;
        if seen > 4 {
          ok := false;
          return;
        }
        continue;
      }
      if ch == ':' {
        token, curtok := i, i;
        if seen == 0 {
          if colonp >= 0 {
            ok := false;
            return;
          }
          colonp := tp;
          continue;
        } else if i == |src| {
          ok := false;
          return;
        }
        if tp + 2 > 16 {
          ok := false;
          return;
        }
        tp := PutWord(tmp, tp, val);
        seen, val := 0, 0;
        continue;
      }
      if ch == '.' && tp + 4 <= 16 {
        ghost var was := tmp[..];
        var err := Pton4At(src, token, tmp, tp);
        if err == 0 {
          tp := tp + 4;
          seen := 0;
          break;
        }
      }
      ok := false;
      return;
    }
  }

  // Lines 272-295.
  method Complete(tmp: array<byte>, tp0: nat, colonp: int, seen: nat, val: nat, ghost curtok: nat) returns (ok: bool)
    requires tmp.Length == 16 && tp0 <= 16 && colonp <= tp0 && ZeroFrom(tmp[..], tp0)
    modifies tmp
    ensures
      var r := Finish(old(StateOf(tmp[..], tp0, colonp, seen, val, curtok)));
      (ok <==> r.Some?) && (ok ==> tmp[..] == r.value)
  {
    hide Finish;
    FinishIs(StateOf(tmp[..], tp0, colonp, seen, val, curtok));
    var tp := tp0;
    ghost var out := tmp[..tp];
    if seen > 0 {
      if tp + 2 > 16 {
        return false;
      }
      tp := PutWord(tmp, tp, val);
      out := tmp[..tp];
    }
    if colonp >= 0 {
      if tp == 16 {
        return false;
      }
      Shift(tmp, colonp, tp);
      tp := 16;
    }
    assert tmp[..16] == tmp[..];
    ok := tp == 16;
  }

  // inet_pton6: the result is written only if the text is an address.
  method Pton6To(src: string, dst: array<byte>) returns (rc: int)
    requires dst.Length == 16
    modifies dst
    ensures rc == if Pton6(src).Some? then 0 else UV_EINVAL
    ensures dst[..] == if rc == 0 then Pton6(src).value else old(dst[..])
  {
    hide Parse, HexValue, Finish;
    var tmp := new byte[16](i => 0);
    var start := 0;
    if |src| > 0 && src[0] == ':' {
      start := 1;
      if |src| == 1 || src[1] != ':' {
        return UV_EINVAL;
      }
    }
    var ok, tp, colonp, seen, val, curtok := ParseLoop(src, start, tmp);
    if !ok {
      return UV_EINVAL;
    }
    ok := Complete(tmp, tp, colonp, seen, val, curtok);
    if !ok {
      return UV_EINVAL;
    }
    Memcpy(dst, 0, tmp[..]);
    rc := 0;
  }

  lemma FinishIs(st: State)
    requires |st.out| <= 16 && (st.colon.Some? ==> st.colon.value <= |st.out|)
    ensures
      var full := st.seen > 0 && |st.out| + 2 > 16;
      var out := if st.seen > 0 then st.out + [st.val / 0x100 % 0x100, st.val % 0x100] else st.out;
      Finish(st) == if full then None
                    else if st.colon.Some? then
                      if |out| == 16 then None
                      else Some(out[..st.colon.value] + Zeros(16 - |out|) + out[st.colon.value..])
                    else if |out| != 16 then None else Some(out)
  {
  }

  // The address in src: what precedes a '%', if there is one.
  function Zoneless(src: string): (s: string)
    ensures s <= src && '%' !in s && (|s| < |src| ==> src[|s|] == '%')
  {
    if src == "" || src[0] == '%' then ""
    else
      assert src == [src[0]] + src[1..];
      [src[0]] + Zoneless(src[1..])
  }

  // uv_inet_pton for AF_INET6, which ignores a zone; it accepts none after 46 or more characters.
  method Pton6Zone(src: string, dst: array<byte>) returns (rc: int)
    requires dst.Length == 16
    modifies dst
    ensures
      var s := Zoneless(src);
      var ok := (|s| == |src| || |s| <= 45) && Pton6(s).Some?;
      rc == (if ok then 0 else UV_EINVAL) && dst[..] == if ok then Pton6(s).value else old(dst[..])
  {
    hide Pton6;
    var p := 0;
    while p < |src| && src[p] != '%'
      invariant 0 <= p <= |src| && '%' !in src[..p]
    {
      p := p + 1;
    }
    ZonelessIs(src, p);
    if p < |src| && p > ADDRSTRLEN6 - 1 {
      return UV_EINVAL;
    }
    rc := Pton6To(src[..p], dst);
  }

  lemma {:induction false} ZonelessIs(src: string, p: nat)
    requires p <= |src| && '%' !in src[..p] && (p < |src| ==> src[p] == '%')
    ensures Zoneless(src) == src[..p]
  {
    if p > 0 {
      assert src[0] == src[..p][0];
      assert src[1..][..p - 1] == src[..p][1..];
      ZonelessIs(src[1..], p - 1);
      assert src[..p] == [src[0]] + src[1..][..p - 1];
    }
  }
}
