/** The functions of src/idna.c that convert between UTF-16 and WTF-8 in bounded buffers. */
module Wtf8Convert {
  import opened Punycode
  import opened Rfc3492
  import opened Common
  import opened Utf8
  import opened Wtf8

  // ---------- WTF-8 to UTF-16 ----------

  // A NUL-terminated text; the functions read none of it past the first NUL.
  predicate Terminated(src: seq<byte>) {
    src != [] && src[|src| - 1] == 0
  }

  // uv_wtf8_length_as_utf16: the length of the result with its NUL, or -1.
  method LengthAsUtf16(src: seq<byte>) returns (n: int)
    requires Terminated(src)
    ensures var units := Units(src, 0); n == if units.None? then -1 else |units.value|
  {
    hide ReadChar;
    ghost var units := Units(src, 0);
    var p := 0;
    n := 0;
    while true
      invariant p < |src|
      invariant units.None? <==> Units(src, p).None?
      invariant units.Some? ==> |units.value| == n + |Units(src, p).value|
      decreases |src| - p
    {
      var (c, q) := ReadChar(src, p);
      if c < 0 {
        return -1;
      }
      if c > 0xFFFF {
        n := n + 1;
      }
      n := n + 1;
      p := q + 1;
      if src[q] == 0 {
        break;
      }
    }
  }

  // uv_wtf8_to_utf16, for a target of the length that uv_wtf8_length_as_utf16 gives: an
  // assertion fails exactly if the text holds U+10FFFF.
  method ToUtf16(src: seq<byte>, w: array<unit>, len: nat) returns (aborted: bool)
    requires Terminated(src) && Units(src, 0).Some? && len == |Units(src, 0).value| <= w.Length
    modifies w
    ensures aborted <==> HitsAssertion(src, 0)
    ensures !aborted ==> w[..len] == Units(src, 0).value && w[len..] == old(w[len..])
  {
    hide ReadChar, Utf16;
    ghost var units := Units(src, 0).value;
    var p, t, left: int := 0, 0, len;
    while true
      invariant p < |src| && Units(src, p).Some? && t + left == len && t <= len
      invariant units == w[..t] + Units(src, p).value
      invariant HitsAssertion(src, 0) <==> HitsAssertion(src, p)
      invariant w[len..] == old(w[len..])
      decreases |src| - p
    {
      var (c, q) := ReadChar(src, p);
      ghost var more := if src[q] == 0 then [] else Units(src, q + 1).value;
      assert Units(src, p).value == Utf16(c) + more;
      Utf16Parts(c);
      ghost var before := w[..t];
      if c > 0xFFFF {
        if c >= 0x10FFFF {
          return true;
        }
        w[t] := (c - 0x10000) / 0x400 + 0xD800;
        w[t + 1] := (c - 0x10000) % 0x400 + 0xDC00;
        t, left := t + 2, left - 2;
      } else {
        w[t] := c;
        t, left := t + 1, left - 1;
      }
      assert w[..t] == before + Utf16(c);
      p := q + 1;
      if src[q] == 0 {
        break;
      }
    }
    if left != 0 {
      return true;
    }
    aborted := false;
  }

  lemma Utf16Parts(c: nat)
    requires c <= MAX_CODE_POINT
    ensures Utf16(c) == if c > 0xFFFF then [(c - 0x10000) / 0x400 + 0xD800, (c - 0x10000) % 0x400 + 0xDC00] else [c]
  {
  }

  // ---------- UTF-16 to WTF-8 ----------

  // A source at position i is len units long, or ends before the first zero if len is negative.
  ghost predicate Readable(w: seq<unit>, i: nat, len: int) {
    i <= |w| && if len >= 0 then i + len <= |w| else HasZero(w, i)
  }

  ghost predicate HasZero(w: seq<unit>, i: nat) {
    exists j :: i <= j < |w| && w[j] == 0
  }

  ghost function Content(w: seq<unit>, i: nat, len: int): seq<unit>
    requires Readable(w, i, len)
    decreases |w| - i
  {
    if len >= 0 then w[i..i + len] else if w[i] == 0 then [] else [w[i]] + Content(w, i + 1, len)
  }

  // uv__get_surrogate_value
  function SurrogateValue(w: seq<unit>, i: nat, len: int): (v: nat)
    requires Readable(w, i, len) && len != 0
    ensures v <= MAX_CODE_POINT
  {
    if Lead(w[i]) && len != 1 then
      if Trail(w[i + 1]) then PairValue(w[i], w[i + 1]) else w[i]
    else w[i]
  }

  // The position and the length after k units of the source.
  function Less(len: int, k: nat): int
    requires k <= 2
  {
    if len >= k then len - k else if len > 0 then 0 else len
  }

  lemma ContentStep(w: seq<unit>, i: nat, len: int)
    requires Readable(w, i, len) && len != 0
    ensures
      var s, v := Content(w, i, len), SurrogateValue(w, i, len);
      if s == [] then len < 0 && v == 0 && w[i] == 0
      else
        var k := if v >= 0x10000 then 2 else 1;
        && v == First(s) && (v == 0 ==> len > 0) && (len > 0 ==> k <= len)
        && Readable(w, i + k, Less(len, k)) && Content(w, i + k, Less(len, k)) == Past(s)
  {
    if len < 0 && Lead(w[i]) {
      assert w[i + 1] != 0 ==> Content(w, i + 1, len) == [w[i + 1]] + Content(w, i + 2, len);
    }
  }

  // uv_utf16_length_as_wtf8
  method LengthAsWtf8(w: seq<unit>, i0: nat, len0: int) returns (n: nat)
    requires Readable(w, i0, len0)
    ensures n == |Text(Content(w, i0, len0))|
  {
    hide Content, SurrogateValue, Readable, First, Past, CharText;
    var i, len := i0, len0;
    n := 0;
    while len != 0
      invariant Readable(w, i, len) && n + |Text(Content(w, i, len))| == |Text(Content(w, i0, len0))|
      decreases |Content(w, i, len)|
    {
      ContentStep(w, i, len);
      var c := SurrogateValue(w, i, len);
      if len < 0 && c == 0 {
        break;
      }
      Wtf8Length(c);
      if c < 0x80 {
        n := n + 1;
      } else if c < 0x800 {
        n := n + 2;
      } else if c < 0x10000 {
        n := n + 3;
      } else {
        n := n + 4;
        i := i + 1;
        if len > 0 {
          len := len - 1;
        }
      }
      i := i + 1;
      if len > 0 {
        len := len - 1;
      }
    }
    ContentEnd(w, i, len);
  }

  lemma ContentNul(w: seq<unit>, i: nat, len: int)
    requires Readable(w, i, len) && len < 0 && SurrogateValue(w, i, len) == 0
    ensures Content(w, i, len) == [] && Readable(w, i, 0) && Content(w, i, 0) == []
  {
  }

  lemma ContentEnd(w: seq<unit>, i: nat, len: int)
    requires Readable(w, i, len) && (len == 0 || SurrogateValue(w, i, len) == 0)
    ensures len <= 0 ==> Content(w, i, len) == []
  {
  }

  lemma Wtf8Length(c: nat)
    requires c <= MAX_CODE_POINT
    ensures |CharText(c)| == if c < 0x80 then 1 else if c < 0x800 then 2 else if c < 0x10000 then 3 else 4
  {
  }

  // The first bytes of text are stored from position p on, up to position q.
  ghost predicate Stored(was: seq<byte>, now: seq<byte>, p: nat, q: nat, text: seq<byte>) {
    p <= q <= |was| == |now| && q - p <= |text| && now == was[..p] + text[..q - p] + was[q..]
  }

  method Store(buf: array<byte>, q: nat, b: byte, ghost was: seq<byte>, ghost p: nat, ghost text: seq<byte>)
    returns (r: nat)
    requires Stored(was, buf[..], p, q, text) && q < buf.Length && q - p < |text| && b == text[q - p]
    modifies buf
    ensures r == q + 1 && Stored(was, buf[..], p, r, text)
  {
    buf[q] := b;
    r := q + 1;
  }

  // The bytes of a code point, as far as they fit before position end.
  method PutChar(c: nat, buf: array<byte>, p: nat, end: nat) returns (done: bool, q: nat)
    requires c <= MAX_CODE_POINT && p < end <= buf.Length
    modifies buf
    ensures done <==> p + |CharText(c)| <= end
    ensures q == if p + |CharText(c)| <= end then p + |CharText(c)| else end
    ensures Stored(old(buf[..]), buf[..], p, q, CharText(c))
  {
    hide Stored;
    ghost var was, text := buf[..], CharText(c);
    done, q := false, p;
    if c < 0x80 {
      q := Store(buf, q, c, was, p, text);
    } else if c < 0x800 {
      q := Store(buf, q, 0xC0 + c / 64, was, p, text);
      if q == end {
        return;
      }
      q := Store(buf, q, 0x80 + c % 64, was, p, text);
    } else if c < 0x10000 {
      q := Store(buf, q, 0xE0 + c / 64 / 64, was, p, text);
      if q == end {
        return;
      }
      q := Store(buf, q, 0x80 + c / 64 % 64, was, p, text);
      if q == end {
        return;
      }
      q := Store(buf, q, 0x80 + c % 64, was, p, text);
    } else {
      q := Store(buf, q, 0xF0 + c / 64 / 64 / 64, was, p, text);
      if q == end {
        return;
      }
      q := Store(buf, q, 0x80 + c / 64 / 64 % 64, was, p, text);
      if q == end {
        return;
      }
      q := Store(buf, q, 0x80 + c / 64 % 64, was, p, text);
      if q == end {
        return;
      }
      q := Store(buf, q, 0x80 + c % 64, was, p, text);
    }
    done := true;
  }

  // The text but for that of rest was written, up to position target.
  ghost predicate Progress(was: seq<byte>, now: seq<byte>, text: seq<byte>, rest: seq<unit>, target: nat) {
    && target <= |was| == |now| && now[target..] == was[target..]
    && text == now[..target] + Text(rest)
  }

  lemma ProgressStart(was: seq<byte>, s: seq<unit>)
    ensures Progress(was, was, Text(s), s, 0)
  {
  }

  lemma ProgressStep(was: seq<byte>, now: seq<byte>, after: seq<byte>, text: seq<byte>, rest: seq<unit>, p: nat, q: nat)
    requires Progress(was, now, text, rest, p) && rest != []
    requires Stored(now, after, p, q, CharText(First(rest))) && q == p + |CharText(First(rest))|
    ensures Progress(was, after, text, Past(rest), q)
  {
    hide First, Past, CharText;
    var b, tail := CharText(First(rest)), Text(Past(rest));
    assert b[..q - p] == b;
    assert text == (now[..p] + b) + tail;
  }

  // A part of the text of rest fits.
  lemma ProgressPart(was: seq<byte>, now: seq<byte>, after: seq<byte>, text: seq<byte>, rest: seq<unit>, p: nat, q: nat)
    requires Progress(was, now, text, rest, p) && rest != []
    requires Stored(now, after, p, q, CharText(First(rest))) && q < p + |CharText(First(rest))|
    ensures q < |text| && after[..q] == text[..q] && after[q..] == was[q..] && |text| == p + |Text(rest)|
  {
    hide First, Past, CharText;
    var b, tail := CharText(First(rest)), Text(Past(rest));
    assert text == (now[..p] + b) + tail;
    assert text[..q] == now[..p] + b[..q - p];
  }

  lemma ProgressEnd(was: seq<byte>, now: seq<byte>, text: seq<byte>, rest: seq<unit>, target: nat)
    requires Progress(was, now, text, rest, target)
    ensures |text| == target + |Text(rest)| && now[..target] == text[..target] && now[target..] == was[target..]
    ensures if rest == [] then target == |text| else target < |text|
  {
  }

  // The loop of lines 496-539: full is the value of target_len after it.
  method Fill(w: seq<unit>, len0: int, buf: array<byte>, cap: nat) returns (i: nat, len: int, target: nat, full: nat)
    requires Readable(w, 0, len0) && cap < buf.Length
    modifies buf
    ensures Readable(w, i, len) && target <= cap && (target != cap ==> len == 0)
    ensures
      var s, rest := Content(w, 0, len0), Content(w, i, len);
      && target <= |Text(s)| && buf[..target] == Text(s)[..target] && buf[target..] == old(buf[target..])
      && (if rest == [] then target == |Text(s)| else target == cap < |Text(s)|)
      && (rest != [] ==> full + |Text(rest)| >= |Text(s)|)
      && (rest != [] ==> (full + |Text(rest)| == |Text(s)| <==> cap == 0 || |CharText(First(s))| <= cap))
  {
    hide Content, SurrogateValue, Readable, First, Past, CharText, Stored, Text, Progress;
    ghost var was := buf[..];
    ghost var s := Content(w, 0, len0);
    ghost var text := Text(s);
    i, len, target, full := 0, len0, 0, cap;
    ProgressStart(was, s);
    while target != cap && len != 0
      invariant Readable(w, i, len) && target <= cap
      invariant Progress(was, buf[..], text, Content(w, i, len), target)
      invariant target == 0 ==> i == 0 && len == len0 && full == cap
      invariant target > 0 ==> full == target && s != [] && |CharText(First(s))| <= cap
      decreases |Content(w, i, len)|
    {
      ContentStep(w, i, len);
      var c := SurrogateValue(w, i, len);
      if len < 0 && c == 0 {
        ContentNul(w, i, len);
        len := 0;
        break;
      }
      ghost var rest, before := Content(w, i, len), buf[..];
      var done, q := PutChar(c, buf, target, cap);
      if !done {
        ProgressPart(was, before, buf[..], text, rest, target, q);
        target := q;
        return;
      }
      ProgressStep(was, before, buf[..], text, rest, target, q);
      target := q;
      if c >= 0x10000 {
        i := i + 1;
        if len > 0 {
          len := len - 1;
        }
      }
      full := target;
      i := i + 1;
      if len > 0 {
        len := len - 1;
      }
    }
    ContentSome(w, i, len);
    ProgressEnd(was, buf[..], text, Content(w, i, len), target);
  }

  // Lines 494-559, for a target with room for cap bytes and a NUL.  If the text does not fit,
  // the length that is reported is never too small, and it is exact unless the target was not
  // empty and yet too small for the first character.
  method Copy(w: seq<unit>, len0: int, buf: array<byte>, cap: nat) returns (rc: int, n: nat)
    requires Readable(w, 0, len0) && cap < buf.Length
    modifies buf
    ensures
      var s := Content(w, 0, len0);
      var text := Text(s);
      if |text| <= cap then
        rc == 0 && n == |text| && buf[..] == text + [0] + old(buf[|text| + 1..])
      else
        && rc == UV_ENOBUFS && buf[..] == text[..cap] + [0] + old(buf[cap + 1..])
        && n >= |text| && (n == |text| <==> cap == 0 || |CharText(First(s))| <= cap)
  {
    hide Content, SurrogateValue, First, Past, CharText, Text;
    ghost var was := buf[..];
    var i, len, target, full := Fill(w, len0, buf, cap);
    n := if target != cap then target else cap;
    ContentSome(w, i, len);
    if len < 0 && target == cap && w[i] == 0 {
      len := 0;
    }
    buf[target] := 0;
    if len != 0 {
      var more := LengthAsWtf8(w, i, len);
      return UV_ENOBUFS, full + more;
    }
    rc := 0;
  }

  lemma ContentSome(w: seq<unit>, i: nat, len: int)
    requires Readable(w, i, len)
    ensures len >= 0 ==> |Content(w, i, len)| == len
    ensures len < 0 ==> i < |w| && (Content(w, i, len) == [] <==> w[i] == 0)
  {
  }

  // The three uses of uv_utf16_to_wtf8: only to measure, with a new buffer, with a given one.
  datatype Target = Measure | Allocate | Given(buf: array<byte>, cap: nat)

  // uv_utf16_to_wtf8, where allocation does not fail.
  method Utf16ToWtf8(w: seq<unit>, len: int, target: Target) returns (rc: int, out: array?<byte>, n: nat)
    requires Readable(w, 0, len) && (target.Given? ==> target.cap < target.buf.Length)
    modifies if target.Given? then {target.buf} else {}
    ensures
      var text := Text(Content(w, 0, len));
      match target
      case Measure => rc == 0 && n == |text| && out == null
      case Allocate => rc == 0 && n == |text| && out != null && fresh(out) && out[..] == text + [0]
      case Given(buf, cap) =>
        && out == buf && n >= |text|
        && (rc == 0 <==> |text| <= cap) && (rc == 0 ==> n == |text| && buf[..n + 1] == text + [0])
        && (rc != 0 ==> rc == UV_ENOBUFS && buf[..cap + 1] == text[..cap] + [0])
  {
    hide Content, Text, First, CharText, Readable;
    match target
    case Measure =>
      n := LengthAsWtf8(w, 0, len);
      rc, out := 0, null;
    case Allocate =>
      n := LengthAsWtf8(w, 0, len);
      var buf := new byte[n + 1](i => 0);
      out := buf;
      rc, n := Copy(w, len, buf, n);
    case Given(buf, cap) =>
      out := buf;
      rc, n := Copy(w, len, buf, cap);
  }
}
