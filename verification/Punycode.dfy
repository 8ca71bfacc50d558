/** The encoding of the code points of a label as src/idna.c computes it, on numbers of any size, and
    that the decoder of RFC 3492 gives the label back. */
module Punycode {
  import opened Common
  import opened Rfc3492

  const MAX_CODE_POINT := 0x10FFFF

  // ---------- bias and thresholds ----------

  function Shrink(delta: nat, k: nat): nat
    decreases delta
  {
    if delta > 455 then Shrink(delta / 35, k + 36) else k + 36 * delta / (delta + 38)
  }

  function Adapt(delta: nat, points: nat, first: bool): nat
    requires points > 0
  {
    var half := delta / 2;
    var d := if first then half / 350 else half;
    Quotient(d, points);
    Shrink(d + d / points, 0)
  }

  function Threshold(k: nat, bias: nat): (t: nat)
    ensures 1 <= t <= 26
  {
    if k <= bias then 1 else if k - bias > 26 then 26 else k - bias
  }

  lemma {:induction false} SameShrink(delta: nat, k: nat)
    ensures Shrink(delta, k) == Divided(delta, k)
    decreases delta
  {
    if delta > 455 {
      SameShrink(delta / 35, k + 36);
    }
  }

  // Halving and dividing by 350 is the damping of section 6.1, and the rest is its loop.
  lemma SameAdapt(delta: nat, points: nat, first: bool)
    requires points > 0
    ensures Adapt(delta, points, first) == Adaptation(delta, points, first)
  {
    hide Shrink, Divided;
    assert delta / 2 / 350 == delta / 700;
    var d := if first then delta / 700 else delta / 2;
    Quotient(d, points);
    SameShrink(d + d / points, 0);
  }

  // The threshold of the encoder is that of section 6.2 at each position.
  lemma SameThreshold(k: nat, bias: nat)
    ensures Threshold(k, bias) == Bound(k, bias)
  {
  }

  // ---------- digits ----------

  const ALPHABET := "abcdefghijklmnopqrstuvwxyz0123456789"

  function Digit(v: nat): (b: byte)
    requires v < 36
    ensures ValueOf(b) == Some(v)
  {
    if v < 26 then 0x61 + v else 0x30 + v - 26
  }

  lemma DigitIs(v: nat)
    requires v < 36
    ensures Digit(v) as char == ALPHABET[v]
  {
    assert ALPHABET[..26] == "abcdefghijklmnopqrstuvwxyz" && ALPHABET[26..] == "0123456789";
    if v < 26 {
      assert ALPHABET[v] == ALPHABET[..26][v];
    } else {
      assert ALPHABET[v] == ALPHABET[26..][v - 26];
    }
  }

  // ---------- generalized variable-length integers, section 3.3 ----------

  function IntText(q: nat, k: nat, bias: nat): (text: seq<byte>)
    decreases q
  {
    var t := Threshold(k, bias);
    if q < t then [Digit(q)]
    else [Digit(Low(q, t))] + IntText(High(q, t), k + 36, bias)
  }

  // The digit of q and what remains of q, for threshold t.
  function Low(q: nat, t: nat): (d: nat)
    requires 1 <= t <= 26 && t <= q
    ensures t <= d < 36
  {
    Quotient(q - t, 36 - t);
    t + (q - t) % (36 - t)
  }

  function High(q: nat, t: nat): (r: nat)
    requires 1 <= t <= 26 && t <= q
    ensures r < q && Low(q, t) + Scaled(36 - t, r) == q
  {
    var x, y := q - t, 36 - t;
    Quotient(x, y);
    x / y
  }

  lemma {:induction false} ReadIntText(q: nat, k: nat, bias: nat, rest: seq<byte>)
    ensures ReadInt(IntText(q, k, bias) + rest, k, bias) == Some((q, rest))
    decreases q
  {
    hide Low, High, Threshold, Scaled, Bound;
    var t := Threshold(k, bias);
    SameThreshold(k, bias);
    var text := IntText(q, k, bias) + rest;
    if q < t {
      assert text[1..] == rest;
    } else {
      assert text[1..] == IntText(High(q, t), k + 36, bias) + rest;
      ReadIntText(High(q, t), k + 36, bias, rest);
    }
  }

  // ---------- the encoder, section 6.3 ----------

  ghost predicate CodePoints(cps: seq<nat>) {
    forall i :: 0 <= i < |cps| ==> cps[i] <= MAX_CODE_POINT
  }

  // The code points below n.
  function Below(cps: seq<nat>, n: nat): seq<nat> {
    if cps == [] then [] else (if cps[0] < n then [cps[0]] else []) + Below(cps[1..], n)
  }

  // m or the least code point that is at least n, whichever is less.
  function LeastFrom(cps: seq<nat>, n: nat, m: nat): nat {
    if cps == [] then m else LeastFrom(cps[1..], n, if n <= cps[0] < m then cps[0] else m)
  }

  // What the step from the round for n to the round for m adds to delta.
  function Skip(n: nat, m: nat, h: nat): nat
    requires n <= m
  {
    (m - n) * (h + 1)
  }

  // The digits for the code points of cps from n on; None if delta does not fit in 32 bits.
  function RoundText(cps: seq<nat>, n: nat, delta: nat, bias: nat, h: nat, first: bool): Option<seq<byte>>
    requires n <= MAX_CODE_POINT + 1
    decreases MAX_CODE_POINT + 1 - n, |cps| + 1
  {
    var m := LeastFrom(cps, n, UINT_MAX);
    if m > MAX_CODE_POINT || m < n then Some([])
    else if delta + Skip(n, m, h) > UINT_MAX then None
    else ScanText(cps, 0, m, delta + Skip(n, m, h), bias, h, first)
  }

  // The digits for the code points n of cps from position pos on, and for the later rounds.
  function ScanText(cps: seq<nat>, pos: nat, n: nat, delta: nat, bias: nat, h: nat, first: bool): Option<seq<byte>>
    requires pos <= |cps| && n <= MAX_CODE_POINT
    decreases MAX_CODE_POINT + 1 - n, |cps| - pos
  {
    if pos == |cps| then RoundText(cps, n + 1, delta + 1, bias, h, first)
    else if cps[pos] < n then
      if delta == UINT_MAX then None else ScanText(cps, pos + 1, n, delta + 1, bias, h, first)
    else if cps[pos] > n then ScanText(cps, pos + 1, n, delta, bias, h, first)
    else
      var more := ScanText(cps, pos + 1, n, 0, Adapt(delta, h + 1, first), h + 1, false);
      if more.None? then None else Some(IntText(delta, 36, bias) + more.value)
  }

  // The text of a label without the prefix "xn--".
  function Encode(cps: seq<nat>): Option<seq<byte>> {
    var basic := Basic(cps);
    var digits := RoundText(cps, 128, 0, 72, |basic|, true);
    if digits.None? then None else Some(basic + (if basic == [] then [] else [DELIMITER]) + digits.value)
  }

  // The ASCII characters of a label.
  function Basic(cps: seq<nat>): (b: seq<byte>)
    ensures b == Below(cps, 128) && AllBasic(b)
  {
    if cps == [] then [] else (if cps[0] < 128 then [cps[0]] else []) + Basic(cps[1..])
  }

  // ---------- the round trip ----------

  lemma {:induction false} BelowSplit(a: seq<nat>, b: seq<nat>, n: nat)
    ensures Below(a + b, n) == Below(a, n) + Below(b, n)
  {
    if a == [] {
      assert a + b == b;
    } else {
      assert (a + b)[1..] == a[1..] + b;
      BelowSplit(a[1..], b, n);
    }
  }

  lemma {:induction false} BelowAll(cps: seq<nat>, n: nat)
    requires forall i :: 0 <= i < |cps| ==> cps[i] < n
    ensures Below(cps, n) == cps
  {
    if cps != [] {
      assert forall i :: 0 <= i < |cps[1..]| ==> cps[1..][i] == cps[i + 1];
      BelowAll(cps[1..], n);
    }
  }

  // No code point lies between n and m.
  lemma {:induction false} BelowGap(cps: seq<nat>, n: nat, m: nat)
    requires n <= m && forall i :: 0 <= i < |cps| ==> cps[i] < n || cps[i] >= m
    ensures Below(cps, n) == Below(cps, m)
  {
    if cps != [] {
      assert forall i :: 0 <= i < |cps[1..]| ==> cps[1..][i] == cps[i + 1];
      BelowGap(cps[1..], n, m);
    }
  }

  lemma {:induction false} LeastFromIs(cps: seq<nat>, n: nat, m: nat)
    ensures var r := LeastFrom(cps, n, m);
      && r <= m && (r == m || (n <= r && r in cps))
      && forall i :: 0 <= i < |cps| ==> cps[i] < n || cps[i] >= r
  {
    if cps != [] {
      LeastFromIs(cps[1..], n, if n <= cps[0] < m then cps[0] else m);
      assert forall i :: 0 < i < |cps| ==> cps[1..][i - 1] == cps[i];
    }
  }

  // What the decoder has put out when the encoder is at position pos of the round for n.
  function Sofar(cps: seq<nat>, pos: nat, n: nat): seq<nat>
    requires pos <= |cps|
  {
    Below(cps[..pos], n + 1) + Below(cps[pos..], n)
  }

  lemma SofarStep(cps: seq<nat>, pos: nat, n: nat)
    requires pos < |cps|
    ensures Below(cps[..pos + 1], n + 1) == Below(cps[..pos], n + 1) + if cps[pos] <= n then [cps[pos]] else []
    ensures Below(cps[pos..], n) == (if cps[pos] < n then [cps[pos]] else []) + Below(cps[pos + 1..], n)
  {
    assert cps[..pos + 1] == cps[..pos] + [cps[pos]];
    BelowSplit(cps[..pos], [cps[pos]], n + 1);
    assert cps[pos..][1..] == cps[pos + 1..];
  }

  // The two forms of the same distance: delta leads from the decoder's (n0, i0) to the
  // encoder's (n, i), where a value of n lasts for h + 1 values of i.
  ghost predicate Distance(delta: nat, n0: nat, i0: nat, n: nat, i: nat, h: nat) {
    n0 <= n && i0 + delta == (n - n0) * (h + 1) + i
  }

  lemma DistanceZero(n: nat, i: nat, h: nat)
    ensures Distance(0, n, i, n, i, h)
  {
    assert (n - n) * (h + 1) == 0;
  }

  lemma DistanceStep(delta: nat, n0: nat, i0: nat, n: nat, i: nat, h: nat)
    requires Distance(delta, n0, i0, n, i, h)
    ensures Distance(delta + 1, n0, i0, n, i + 1, h)
  {
  }

  lemma DistanceTurn(delta: nat, n0: nat, i0: nat, n: nat, h: nat)
    requires Distance(delta, n0, i0, n, h, h)
    ensures Distance(delta + 1, n0, i0, n + 1, 0, h)
  {
    assert (n + 1 - n0) * (h + 1) == (n - n0) * (h + 1) + (h + 1);
  }

  lemma DistanceSkip(delta: nat, n0: nat, i0: nat, n: nat, m: nat, h: nat)
    requires Distance(delta, n0, i0, n, 0, h) && n <= m
    ensures Distance(delta + Skip(n, m, h), n0, i0, m, 0, h)
  {
    var d := h + 1;
    assert (m - n0) * d == ((m - n) + (n - n0)) * d;
    Distribute(m - n, n - n0, d);
  }

  lemma Distribute(a: int, b: int, d: int)
    ensures (a + b) * d == a * d + b * d
  {
  }

  // An encoder's delta makes a decoder land where the encoder is.
  lemma Landing(delta: nat, n0: nat, i0: nat, n: nat, i: nat, h: nat)
    requires Distance(delta, n0, i0, n, i, h) && i <= h
    ensures n0 + (i0 + delta) / (h + 1) == n && (i0 + delta) % (h + 1) == i
  {
    DivMod(n - n0, i, h + 1);
  }

  lemma {:induction false} DivMod(q: nat, r: nat, d: nat)
    requires r < d
    ensures (q * d + r) / d == q && (q * d + r) % d == r
  {
    var a := q * d + r;
    Quotient(a, d);
    Unique(q, r, a / d, a % d, d);
  }

  lemma Unique(q: nat, r: nat, p: nat, s: nat, d: nat)
    requires r < d && s < d && q * d + r == p * d + s
    ensures q == p && r == s
  {
    if q > p {
      Distribute(p, q - p, d);
      Distribute(q - p - 1, 1, d);
    } else if q < p {
      Distribute(q, p - q, d);
      Distribute(p - q - 1, 1, d);
    }
  }

  // The decoder, in the state that corresponds to the encoder's, turns the digits that the
  // encoder still produces into the whole label.
  lemma {:induction false} ScanRoundTrip(cps: seq<nat>, pos: nat, n: nat, delta: nat, bias: nat, h: nat, first: bool,
    n0: nat, i0: nat)
    requires CodePoints(cps) && pos <= |cps| && n <= MAX_CODE_POINT && h == |Sofar(cps, pos, n)|
    requires Distance(delta, n0, i0, n, |Below(cps[..pos], n + 1)|, h) && (first <==> i0 == 0)
    ensures
      var text := ScanText(cps, pos, n, delta, bias, h, first);
      text.Some? ==> DecodeDigits(text.value, Sofar(cps, pos, n), n0, i0, bias) == Some(cps)
    decreases MAX_CODE_POINT + 1 - n, |cps| - pos
  {
    hide IntText, ReadInt, Adapt, Adaptation, Below, Distance;
    var i, out := |Below(cps[..pos], n + 1)|, Sofar(cps, pos, n);
    if pos == |cps| {
      assert cps[..pos] == cps && cps[pos..] == [];
      assert Below([], n) == [] by { BelowAll([], n); }
      assert out == Below(cps, n + 1);
      DistanceTurn(delta, n0, i0, n, h);
      RoundRoundTrip(cps, n + 1, delta + 1, bias, h, first, n0, i0);
    } else {
      SofarStep(cps, pos, n);
      if cps[pos] < n {
        assert Sofar(cps, pos + 1, n) == out;
        if delta != UINT_MAX {
          DistanceStep(delta, n0, i0, n, i, h);
          ScanRoundTrip(cps, pos + 1, n, delta + 1, bias, h, first, n0, i0);
        }
      } else if cps[pos] > n {
        assert Sofar(cps, pos + 1, n) == out;
        ScanRoundTrip(cps, pos + 1, n, delta, bias, h, first, n0, i0);
      } else {
        assert Sofar(cps, pos + 1, n) == Insert(out, i, n);
        DistanceZero(n, i + 1, h + 1);
        ScanRoundTrip(cps, pos + 1, n, 0, Adapt(delta, h + 1, first), h + 1, false, n, i + 1);
        var more := ScanText(cps, pos + 1, n, 0, Adapt(delta, h + 1, first), h + 1, false);
        if more.Some? {
          ReadIntText(delta, 36, bias, more.value);
          SameAdapt(delta, h + 1, first);
          Landing(delta, n0, i0, n, i, h);
        }
      }
    }
  }

  lemma {:induction false} RoundRoundTrip(cps: seq<nat>, n: nat, delta: nat, bias: nat, h: nat, first: bool, n0: nat,
    i0: nat)
    requires CodePoints(cps) && n <= MAX_CODE_POINT + 1 && h == |Below(cps, n)|
    requires Distance(delta, n0, i0, n, 0, h) && (first <==> i0 == 0)
    ensures
      var text := RoundText(cps, n, delta, bias, h, first);
      text.Some? ==> DecodeDigits(text.value, Below(cps, n), n0, i0, bias) == Some(cps)
    decreases MAX_CODE_POINT + 1 - n, |cps| + 1
  {
    hide IntText, ReadInt, Adapt, Below, LeastFrom, Distance, Skip;
    var m := LeastFrom(cps, n, UINT_MAX);
    LeastFromIs(cps, n, UINT_MAX);
    if m > MAX_CODE_POINT {
      BelowAll(cps, n);
    } else if delta + Skip(n, m, h) <= UINT_MAX {
      BelowGap(cps, n, m);
      assert cps[..0] == [] && cps[0..] == cps;
      assert Below([], m + 1) == [] by { BelowAll([], m + 1); }
      assert Sofar(cps, 0, m) == Below(cps, m);
      DistanceSkip(delta, n0, i0, n, m, h);
      ScanRoundTrip(cps, 0, m, delta + Skip(n, m, h), bias, h, first, n0, i0);
    }
  }

  // ---------- the delimiter ----------

  // The text consists of digits.
  ghost predicate Plain(text: seq<byte>) {
    forall i :: 0 <= i < |text| ==> ValueOf(text[i]).Some?
  }

  lemma {:induction false} IntTextPlain(q: nat, k: nat, bias: nat)
    ensures Plain(IntText(q, k, bias))
    decreases q
  {
    hide Low, High;
    var t := Threshold(k, bias);
    if q >= t {
      IntTextPlain(High(q, t), k + 36, bias);
    }
  }

  lemma {:induction false} ScanTextPlain(cps: seq<nat>, pos: nat, n: nat, delta: nat, bias: nat, h: nat, first: bool)
    requires pos <= |cps| && n <= MAX_CODE_POINT
    ensures var text := ScanText(cps, pos, n, delta, bias, h, first); text.Some? ==> Plain(text.value)
    decreases MAX_CODE_POINT + 1 - n, |cps| - pos
  {
    hide IntText, Adapt;
    if pos == |cps| {
      RoundTextPlain(cps, n + 1, delta + 1, bias, h, first);
    } else if cps[pos] < n {
      if delta != UINT_MAX {
        ScanTextPlain(cps, pos + 1, n, delta + 1, bias, h, first);
      }
    } else if cps[pos] > n {
      ScanTextPlain(cps, pos + 1, n, delta, bias, h, first);
    } else {
      IntTextPlain(delta, 36, bias);
      ScanTextPlain(cps, pos + 1, n, 0, Adapt(delta, h + 1, first), h + 1, false);
    }
  }

  lemma {:induction false} RoundTextPlain(cps: seq<nat>, n: nat, delta: nat, bias: nat, h: nat, first: bool)
    requires n <= MAX_CODE_POINT + 1
    ensures var text := RoundText(cps, n, delta, bias, h, first); text.Some? ==> Plain(text.value)
    decreases MAX_CODE_POINT + 1 - n, |cps| + 1
  {
    hide LeastFrom, Skip;
    var m := LeastFrom(cps, n, UINT_MAX);
    if n <= m <= MAX_CODE_POINT && delta + Skip(n, m, h) <= UINT_MAX {
      ScanTextPlain(cps, 0, m, delta + Skip(n, m, h), bias, h, first);
    }
  }

  lemma {:induction false} LastDelimiterAt(a: seq<byte>, b: seq<byte>)
    requires Plain(b)
    ensures LastDelimiter(a + [DELIMITER] + b) == |a|
    ensures LastDelimiter(b) == 0
  {
    var s := a + [DELIMITER] + b;
    if b != [] {
      var c := b[..|b| - 1];
      assert s[..|s| - 1] == a + [DELIMITER] + c;
      LastDelimiterAt(a, c);
    }
  }

  // Decoding what Encode makes of a label gives the label back.
  lemma RoundTrip(cps: seq<nat>)
    requires CodePoints(cps) && Encode(cps).Some?
    ensures Decode(Encode(cps).value) == Some(cps)
  {
    hide RoundText, Below;
    var basic := Basic(cps);
    var digits := RoundText(cps, 128, 0, 72, |basic|, true).value;
    DistanceZero(128, 0, |basic|);
    RoundRoundTrip(cps, 128, 0, 72, |basic|, true, 128, 0);
    RoundTextPlain(cps, 128, 0, 72, |basic|, true);
    LastDelimiterAt(basic, digits);
    var text := Encode(cps).value;
    if basic == [] {
      assert text == digits && text[..0] == [];
    } else {
      assert text[..|basic|] == basic && text[|basic| + 1..] == digits;
    }
  }

  // ---------- the limits of 32-bit arithmetic ----------

  lemma {:induction false} BelowLength(cps: seq<nat>, n: nat)
    ensures |Below(cps, n)| <= |cps|
  {
    if cps != [] {
      BelowLength(cps[1..], n);
    }
  }

  // The advance of delta to the round for m fits if the label is not too long.
  lemma SkipFits(delta: nat, n0: nat, i0: nat, n: nat, m: nat, h: nat)
    requires Distance(delta, n0, i0, n, 0, h) && n <= m <= MAX_CODE_POINT && h <= 3854
    ensures delta + Skip(n, m, h) <= MAX_CODE_POINT * 3855 <= UINT_MAX
  {
    DistanceSkip(delta, n0, i0, n, m, h);
    Grows(m - n0, MAX_CODE_POINT, h + 1, 3855);
  }

  lemma Grows(a: nat, b: nat, c: nat, d: nat)
    requires a <= b && c <= d
    ensures a * c <= b * d
  {
    Distribute(a, b - a, c);
    Distribute(c, d - c, b);
  }

  lemma {:induction false} ScanFits(cps: seq<nat>, pos: nat, n: nat, delta: nat, bias: nat, h: nat, first: bool,
    n0: nat, i0: nat)
    requires CodePoints(cps) && |cps| <= 3854 && pos <= |cps| && n <= MAX_CODE_POINT && h == |Sofar(cps, pos, n)|
    requires Distance(delta, n0, i0, n, |Below(cps[..pos], n + 1)|, h)
    requires delta <= MAX_CODE_POINT * 3855 + pos
    ensures ScanText(cps, pos, n, delta, bias, h, first).Some?
    decreases MAX_CODE_POINT + 1 - n, |cps| - pos
  {
    hide IntText, ReadInt, Adapt, Adaptation, Below, Distance;
    var i, out := |Below(cps[..pos], n + 1)|, Sofar(cps, pos, n);
    if pos == |cps| {
      assert cps[..pos] == cps && cps[pos..] == [];
      assert Below([], n) == [] by { BelowAll([], n); }
      assert out == Below(cps, n + 1);
      DistanceTurn(delta, n0, i0, n, h);
      RoundFits(cps, n + 1, delta + 1, bias, h, first, n0, i0);
    } else {
      SofarStep(cps, pos, n);
      if cps[pos] < n {
        assert Sofar(cps, pos + 1, n) == out;
        DistanceStep(delta, n0, i0, n, i, h);
        ScanFits(cps, pos + 1, n, delta + 1, bias, h, first, n0, i0);
      } else if cps[pos] > n {
        assert Sofar(cps, pos + 1, n) == out;
        ScanFits(cps, pos + 1, n, delta, bias, h, first, n0, i0);
      } else {
        assert Sofar(cps, pos + 1, n) == Insert(out, i, n);
        DistanceZero(n, i + 1, h + 1);
        ScanFits(cps, pos + 1, n, 0, Adapt(delta, h + 1, first), h + 1, false, n, i + 1);
      }
    }
  }

  lemma {:induction false} RoundFits(cps: seq<nat>, n: nat, delta: nat, bias: nat, h: nat, first: bool, n0: nat,
    i0: nat)
    requires CodePoints(cps) && |cps| <= 3854 && n <= MAX_CODE_POINT + 1 && h == |Below(cps, n)|
    requires Distance(delta, n0, i0, n, 0, h)
    ensures RoundText(cps, n, delta, bias, h, first).Some?
    decreases MAX_CODE_POINT + 1 - n, |cps| + 1
  {
    hide IntText, ReadInt, Adapt, Below, LeastFrom, Distance, Skip;
    var m := LeastFrom(cps, n, UINT_MAX);
    LeastFromIs(cps, n, UINT_MAX);
    BelowLength(cps, n);
    if m <= MAX_CODE_POINT {
      BelowGap(cps, n, m);
      assert cps[..0] == [] && cps[0..] == cps;
      assert Below([], m + 1) == [] by { BelowAll([], m + 1); }
      assert Sofar(cps, 0, m) == Below(cps, m);
      SkipFits(delta, n0, i0, n, m, h);
      DistanceSkip(delta, n0, i0, n, m, h);
      ScanFits(cps, 0, m, delta + Skip(n, m, h), bias, h, first, n0, i0);
    }
  }

  // No label of at most 3854 code points is too big.
  lemma Fits(cps: seq<nat>)
    requires CodePoints(cps) && |cps| <= 3854
    ensures Encode(cps).Some?
  {
    hide RoundText, Below;
    var basic := Basic(cps);
    DistanceZero(128, 0, |basic|);
    RoundFits(cps, 128, 0, 72, |basic|, true, 128, 0);
  }
}
