/** The decoder of RFC 3492, section 6.2, with the overflow checks that it prescribes for 32-bit
    numbers, and the labels that it gives back. */
module Punycode32 {
  import opened Common
  import opened Punycode
  import opened Rfc3492

  // ---------- the weight of a digit fits ----------

  const MAX_BIAS := 215

  // The greatest delta that so many divisions by 35 bring down to at most 455.
  function Limit(turns: nat): nat {
    if turns == 0 then 455 else 35 * Limit(turns - 1) + 34
  }

  lemma {:induction false} ShrinkBound(delta: nat, k: nat, turns: nat)
    requires delta <= Limit(turns)
    ensures Shrink(delta, k) <= k + 36 * turns + 35
    decreases turns
  {
    if delta > 455 {
      ShrinkBound(delta / 35, k + 36, turns - 1);
    } else {
      assert 36 * delta / (delta + 38) <= 35;
    }
  }

  lemma AdaptBound(delta: nat, points: nat, first: bool)
    requires delta <= UINT_MAX && points > 0
    ensures Adapt(delta, points, first) <= MAX_BIAS
  {
    hide Shrink;
    var d := if first then delta / 2 / 350 else delta / 2;
    Quotient(d, points);
    assert Limit(5) >= UINT_MAX by {
      assert Limit(2) == 35 * (35 * 455 + 34) + 34;
      assert Limit(4) == 35 * (35 * Limit(2) + 34) + 34;
    }
    ShrinkBound(d + d / points, 0, 5);
  }

  function Weight(j: nat): nat {
    if j == 0 then 1 else 35 * Weight(j - 1)
  }

  // w can be the weight of digit j.
  ghost predicate Weighs(j: nat, w: nat) {
    w >= 1 && (j <= 6 ==> w <= Weight(j))
  }

  lemma WeightGrows(j: nat, bias: nat, w: nat, digit: nat)
    requires bias <= MAX_BIAS && Weighs(j, w)
    requires Threshold(36 * (j + 1), bias) <= digit && Scaled(digit, w) <= UINT_MAX
    ensures var next := Scaled(36 - Threshold(36 * (j + 1), bias), w); next <= UINT_MAX && Weighs(j + 1, next)
  {
    var t := Threshold(36 * (j + 1), bias);
    Grows(1, 36 - t, w, w);
    if j <= 5 {
      Grows(36 - t, 35, w, Weight(j));
      WeightMonotone(j + 1, 6);
      assert Weight(2) == 1225 && Weight(4) == 1225 * 1225 && Weight(6) == 1225 * Weight(4);
    } else {
      assert t == 26;
      Grows(36 - t, digit, w, w);
    }
  }

  lemma {:induction false} WeightMonotone(i: nat, j: nat)
    requires i <= j
    ensures Weight(i) <= Weight(j)
    decreases j
  {
    if i < j {
      WeightMonotone(i, j - 1);
    }
  }

  // An integer is read back if and only if the sum fits.
  lemma {:induction false} ReadIntText32(q: nat, j: nat, bias: nat, rest: seq<byte>, i: nat, w: nat)
    requires bias <= MAX_BIAS && Weighs(j, w)
    ensures
      var k, sum: nat := 36 * (j + 1), i + Scaled(q, w);
      ReadInt32(IntText(q, k, bias) + rest, k, bias, i, w) == if sum <= UINT_MAX then Some((sum, rest)) else None
    decreases q
  {
    hide Low, High, Threshold, Bound, Scaled, Weighs;
    var k := 36 * (j + 1);
    SameThreshold(k, bias);
    var t, text := Threshold(k, bias), IntText(q, k, bias) + rest;
    if q < t {
      assert text[1..] == rest;
    } else {
      var low, high := Low(q, t), High(q, t);
      assert text[1..] == IntText(high, k + 36, bias) + rest;
      Parts(low, 36 - t, high, w);
      if i + Scaled(low, w) <= UINT_MAX {
        WeightGrows(j, bias, w, low);
        ReadIntText32(high, j + 1, bias, rest, i + Scaled(low, w), Scaled(36 - t, w));
      }
    }
  }

  lemma Parts(low: nat, base: nat, high: nat, w: nat)
    ensures Scaled(low + Scaled(base, high), w) == Scaled(low, w) + Scaled(high, Scaled(base, w))
  {
    Distribute(low, base * high, w);
    assert base * high * w == high * (base * w);
  }

  // ---------- the labels that the decoder gives back ----------

  // 128 or the greatest code point of s, whichever is greater.
  function Greatest(s: seq<nat>): (g: nat)
    ensures g >= 128 && (g == 128 || g in s) && forall i :: 0 <= i < |s| ==> s[i] <= g
  {
    if s == [] then 128
    else
      var g := Greatest(s[1..]);
      assert forall i :: 0 < i < |s| ==> s[1..][i - 1] == s[i];
      if s[0] > g then s[0] else g
  }

  // Where i stands in the decoder when it inserts the code point at pos: it has put out the code
  // points that are less and the equal ones on the left, and n has come to the greatest of these.
  function Reach(cps: seq<nat>, pos: nat): int
    requires pos < |cps|
  {
    var c := cps[pos];
    var out := Sofar(cps, pos, c);
    (c - Greatest(out)) * (|out| + 1) + |Below(cps[..pos], c + 1)|
  }

  // The decoder does not overflow before it has put out the code points of round n from pos on, and
  // those of the later rounds.
  ghost predicate Reaches(cps: seq<nat>, pos: nat, n: nat) {
    forall p :: 0 <= p < |cps| && (cps[p] > n || (cps[p] == n && p >= pos)) ==> Reach(cps, p) <= UINT_MAX
  }

  // The same for the whole label.
  ghost predicate Within32(cps: seq<nat>) {
    forall p :: 0 <= p < |cps| && cps[p] >= 128 ==> Reach(cps, p) <= UINT_MAX
  }

  lemma GreatestIs(s: seq<nat>, g: nat)
    requires g >= 128 && g in s && forall i :: 0 <= i < |s| ==> s[i] <= g
    ensures Greatest(s) == g
  {
  }

  lemma {:induction false} BelowBound(cps: seq<nat>, n: nat)
    ensures forall i :: 0 <= i < |Below(cps, n)| ==> Below(cps, n)[i] < n
  {
    if cps != [] {
      BelowBound(cps[1..], n);
    }
  }

  // The decoder makes the label of text, or fails.
  ghost predicate Gives(text: seq<byte>, out: seq<nat>, n0: nat, i0: nat, bias: nat, cps: seq<nat>, fits: bool) {
    DecodeDigits32(text, out, n0, i0, bias) == if fits then Some(cps) else None
  }

  // After its insertion n is the greatest code point of what was put out.
  lemma InsertedGreatest(cps: seq<nat>, pos: nat, n: nat)
    requires pos < |cps| && cps[pos] == n >= 128
    ensures Greatest(Sofar(cps, pos + 1, n)) == n
  {
    hide Below, Greatest;
    SofarStep(cps, pos, n);
    BelowBound(cps[..pos + 1], n + 1);
    BelowBound(cps[pos + 1..], n);
    var out := Sofar(cps, pos + 1, n);
    assert out[|Below(cps[..pos], n + 1)|] == n;
    GreatestIs(out, n);
  }

  // One turn of the decoder.
  lemma DecodeTurn(delta: nat, rest: seq<byte>, out: seq<nat>, n0: nat, i0: nat, n: nat, i: nat, bias: nat)
    requires bias <= MAX_BIAS && n <= MAX_CODE_POINT && i <= |out| && Distance(delta, n0, i0, n, i, |out|)
    ensures
      var text := IntText(delta, 36, bias) + rest;
      DecodeDigits32(text, out, n0, i0, bias)
        == if i0 + delta > UINT_MAX then None
           else DecodeDigits32(rest, Insert(out, i, n), n, i + 1, Adapt(delta, |out| + 1, i0 == 0))
  {
    hide IntText, ReadInt32, Adapt, Adaptation, Distance, Insert;
    SameAdapt(delta, |out| + 1, i0 == 0);
    ReadIntText32(delta, 0, bias, rest, i0, 1);
    assert Scaled(delta, 1) == delta;
    Landing(delta, n0, i0, n, i, |out|);
    IntTextSome(delta, 36, bias);
  }

  lemma IntTextSome(q: nat, k: nat, bias: nat)
    ensures IntText(q, k, bias) != []
  {
    hide Low, High;
  }

  lemma {:induction false} ScanRoundTrip32(cps: seq<nat>, pos: nat, n: nat, delta: nat, bias: nat, h: nat, first: bool,
    n0: nat, i0: nat)
    requires CodePoints(cps) && pos <= |cps| && 128 <= n <= MAX_CODE_POINT && bias <= MAX_BIAS
    requires h == |Sofar(cps, pos, n)| && n0 == Greatest(Sofar(cps, pos, n)) && (first <==> i0 == 0)
    requires Distance(delta, n0, i0, n, |Below(cps[..pos], n + 1)|, h)
    ensures
      var text := ScanText(cps, pos, n, delta, bias, h, first);
      text.Some? ==> Gives(text.value, Sofar(cps, pos, n), n0, i0, bias, cps, Reaches(cps, pos, n))
    decreases MAX_CODE_POINT + 1 - n, |cps| - pos
  {
    hide IntText, ReadInt32, Adapt, Below, Distance, DecodeDigits32, Greatest, Reach;
    var i, out := |Below(cps[..pos], n + 1)|, Sofar(cps, pos, n);
    if pos == |cps| {
      assert cps[..pos] == cps && cps[pos..] == [];
      assert Below([], n) == [] by { BelowAll([], n); }
      assert out == Below(cps, n + 1);
      DistanceTurn(delta, n0, i0, n, h);
      RoundRoundTrip32(cps, n + 1, delta + 1, bias, h, first, n0, i0);
      assert Reaches(cps, pos, n) == Reaches(cps, 0, n + 1);
    } else {
      SofarStep(cps, pos, n);
      if cps[pos] < n {
        assert Sofar(cps, pos + 1, n) == out;
        if delta != UINT_MAX {
          DistanceStep(delta, n0, i0, n, i, h);
          ScanRoundTrip32(cps, pos + 1, n, delta + 1, bias, h, first, n0, i0);
          ReachesStep(cps, pos, n);
        }
      } else if cps[pos] > n {
        assert Sofar(cps, pos + 1, n) == out;
        ScanRoundTrip32(cps, pos + 1, n, delta, bias, h, first, n0, i0);
        ReachesStep(cps, pos, n);
      } else {
        ScanInsert32(cps, pos, n, delta, bias, h, first, n0, i0);
      }
    }
  }

  lemma ReachesStep(cps: seq<nat>, pos: nat, n: nat)
    requires pos < |cps|
    ensures Reaches(cps, pos, n) <==> Reaches(cps, pos + 1, n) && (cps[pos] == n ==> Reach(cps, pos) <= UINT_MAX)
  {
    hide Reach;
    if Reaches(cps, pos + 1, n) && (cps[pos] == n ==> Reach(cps, pos) <= UINT_MAX) {
      forall p | 0 <= p < |cps| && (cps[p] > n || (cps[p] == n && p >= pos)) ensures Reach(cps, p) <= UINT_MAX {
        assert p == pos || p >= pos + 1 || cps[p] > n;
      }
    }
  }

  lemma {:induction false} ScanInsert32(cps: seq<nat>, pos: nat, n: nat, delta: nat, bias: nat, h: nat, first: bool,
    n0: nat, i0: nat)
    requires CodePoints(cps) && pos < |cps| && 128 <= n <= MAX_CODE_POINT && bias <= MAX_BIAS && cps[pos] == n
    requires h == |Sofar(cps, pos, n)| && n0 == Greatest(Sofar(cps, pos, n)) && (first <==> i0 == 0)
    requires Distance(delta, n0, i0, n, |Below(cps[..pos], n + 1)|, h)
    ensures
      var text := ScanText(cps, pos, n, delta, bias, h, first);
      text.Some? ==> Gives(text.value, Sofar(cps, pos, n), n0, i0, bias, cps, Reaches(cps, pos, n))
    decreases MAX_CODE_POINT + 1 - n, |cps| - pos, 0
  {
    hide IntText, ReadInt32, Adapt, Below, Distance, DecodeDigits32, Greatest, Reach, Reaches;
    var i, out, next := |Below(cps[..pos], n + 1)|, Sofar(cps, pos, n), Adapt(delta, h + 1, first);
    SofarStep(cps, pos, n);
    assert Sofar(cps, pos + 1, n) == Insert(out, i, n);
    ReachesStep(cps, pos, n);
    ReachIs(cps, pos, delta, n0, i0);
    var more := ScanText(cps, pos + 1, n, 0, next, h + 1, false);
    if more.Some? {
      DecodeTurn(delta, more.value, out, n0, i0, n, i, bias);
      if i0 + delta <= UINT_MAX {
        AdaptBound(delta, h + 1, first);
        InsertedGreatest(cps, pos, n);
        DistanceZero(n, i + 1, h + 1);
        ScanRoundTrip32(cps, pos + 1, n, 0, next, h + 1, false, n, i + 1);
      }
    }
  }

  lemma ReachIs(cps: seq<nat>, pos: nat, delta: nat, n0: nat, i0: nat)
    requires pos < |cps| && n0 == Greatest(Sofar(cps, pos, cps[pos]))
    requires
      var n := cps[pos];
      Distance(delta, n0, i0, n, |Below(cps[..pos], n + 1)|, |Sofar(cps, pos, n)|)
    ensures Reach(cps, pos) == i0 + delta
  {
    hide Sofar, Below, Greatest;
  }

  lemma {:induction false} RoundRoundTrip32(cps: seq<nat>, n: nat, delta: nat, bias: nat, h: nat, first: bool,
    n0: nat, i0: nat)
    requires CodePoints(cps) && 128 <= n <= MAX_CODE_POINT + 1 && bias <= MAX_BIAS
    requires h == |Below(cps, n)| && n0 == Greatest(Below(cps, n)) && (first <==> i0 == 0)
    requires Distance(delta, n0, i0, n, 0, h)
    ensures
      var text := RoundText(cps, n, delta, bias, h, first);
      text.Some? ==> Gives(text.value, Below(cps, n), n0, i0, bias, cps, Reaches(cps, 0, n))
    decreases MAX_CODE_POINT + 1 - n, |cps| + 1
  {
    hide IntText, ReadInt32, Adapt, Below, LeastFrom, Distance, Skip, Greatest, Reach;
    var m := LeastFrom(cps, n, UINT_MAX);
    LeastFromIs(cps, n, UINT_MAX);
    if m > MAX_CODE_POINT {
      BelowAll(cps, n);
    } else if delta + Skip(n, m, h) <= UINT_MAX {
      BelowGap(cps, n, m);
      assert cps[..0] == [] && cps[0..] == cps;
      assert Below([], m + 1) == [] by { BelowAll([], m + 1); }
      assert Sofar(cps, 0, m) == Below(cps, m);
      DistanceSkip(delta, n0, i0, n, m, h);
      ScanRoundTrip32(cps, 0, m, delta + Skip(n, m, h), bias, h, first, n0, i0);
      assert Reaches(cps, 0, n) == Reaches(cps, 0, m);
    }
  }

  // The decoder gives a label back if and only if it is within 32 bits, and fails on any other.
  lemma RoundTrip32(cps: seq<nat>)
    requires CodePoints(cps) && Encode(cps).Some?
    ensures Decode32(Encode(cps).value) == if Within32(cps) then Some(cps) else None
  {
    hide RoundText, Below, DecodeDigits32, Reach, Greatest;
    var basic := Basic(cps);
    var digits := RoundText(cps, 128, 0, 72, |basic|, true).value;
    DistanceZero(128, 0, |basic|);
    BasicGreatest(basic);
    RoundRoundTrip32(cps, 128, 0, 72, |basic|, true, 128, 0);
    assert Reaches(cps, 0, 128) == Within32(cps);
    RoundTextPlain(cps, 128, 0, 72, |basic|, true);
    LastDelimiterAt(basic, digits);
    var text := Encode(cps).value;
    if basic == [] {
      assert text == digits && text[..0] == [];
    } else {
      assert text[..|basic|] == basic && text[|basic| + 1..] == digits;
    }
  }

  lemma BasicGreatest(basic: seq<byte>)
    requires AllBasic(basic)
    ensures Greatest(basic) == 128
  {
  }

  // ---------- short labels ----------

  lemma ShortReach(cps: seq<nat>, pos: nat)
    requires CodePoints(cps) && |cps| <= 3854 && pos < |cps|
    ensures Reach(cps, pos) <= UINT_MAX
  {
    hide Below, Greatest;
    var c := cps[pos];
    SofarStep(cps, pos, c);
    BelowLength(cps[..pos], c + 1);
    BelowLength(cps[pos + 1..], c);
    Product(c, Greatest(Sofar(cps, pos, c)), |Sofar(cps, pos, c)| + 1);
  }

  lemma Product(c: nat, g: nat, len: nat)
    requires c <= MAX_CODE_POINT && len <= 3854
    ensures (c - g) * len <= MAX_CODE_POINT * 3854
  {
    if c >= g {
      Grows(c - g, MAX_CODE_POINT, len, 3854);
    } else {
      assert (c - g) * len <= 0;
    }
  }

  // Every label of at most 3854 code points is encoded and given back.
  lemma ShortRoundTrip32(cps: seq<nat>)
    requires CodePoints(cps) && |cps| <= 3854
    ensures Encode(cps).Some? && Decode32(Encode(cps).value) == Some(cps)
  {
    hide Encode, Decode32, Reach;
    Fits(cps);
    RoundTrip32(cps);
    forall p | 0 <= p < |cps| ensures Reach(cps, p) <= UINT_MAX {
      ShortReach(cps, p);
    }
  }

  // ---------- a label that is encoded but not given back ----------

  const HIGH := 0x1061C2

  // A high code point, 3999 letters and the first code point that is not ASCII.
  function LongLabel(): seq<nat> {
    [HIGH] + seq(3999, i => 0x61) + [0x80]
  }

  // The encoder passes over a run of lesser code points.
  lemma {:induction false} ScanRun(cps: seq<nat>, pos: nat, end: nat, n: nat, delta: nat, bias: nat, h: nat,
    first: bool)
    requires pos <= end <= |cps| && n <= MAX_CODE_POINT && delta + (end - pos) <= UINT_MAX
    requires forall p :: pos <= p < end ==> cps[p] < n
    ensures ScanText(cps, pos, n, delta, bias, h, first) == ScanText(cps, end, n, delta + (end - pos), bias, h, first)
    decreases end - pos
  {
    hide IntText, Adapt, RoundText;
    if pos < end {
      ScanRun(cps, pos + 1, end, n, delta + 1, bias, h, first);
    }
  }

  lemma {:induction false} BelowNone(cps: seq<nat>, n: nat)
    requires forall i :: 0 <= i < |cps| ==> cps[i] >= n
    ensures Below(cps, n) == []
  {
    if cps != [] {
      assert forall i :: 0 <= i < |cps[1..]| ==> cps[1..][i] == cps[i + 1];
      BelowNone(cps[1..], n);
    }
  }

  // The letters of the label, with or without the last code point.
  lemma LongLabelParts()
    ensures var cps, letters := LongLabel(), seq(3999, i => 0x61 as nat);
      Below(cps, 128) == letters && Below(cps, HIGH) == letters + [0x80]
  {
    hide Below;
    var letters: seq<nat> := seq(3999, i => 0x61);
    var tail := letters + [0x80];
    assert LongLabel() == [HIGH] + tail;
    BelowSplit([HIGH], tail, 128);
    BelowSplit([HIGH], tail, HIGH);
    BelowSplit(letters, [0x80], 128);
    BelowAll(letters, 128);
    BelowAll(tail, HIGH);
    BelowNone([HIGH], 128);
    BelowNone([HIGH], HIGH);
    BelowNone([0x80], 128);
  }

  lemma LongLabelReach()
    ensures Reach(LongLabel(), 0) == 4294969474
  {
    hide Below;
    var cps := LongLabel();
    LongLabelParts();
    assert cps[..0] == [] && cps[0..] == cps;
    BelowAll([], HIGH + 1);
    var out := Below(cps, HIGH);
    assert out[3999] == 0x80;
    GreatestIs(out, 128);
  }

  lemma LastRound(bias: nat)
    ensures RoundText(LongLabel(), HIGH + 1, 4001, bias, 4001, false).Some?
  {
    hide LeastFrom;
    LeastFromIs(LongLabel(), HIGH + 1, UINT_MAX);
  }

  lemma HighRound(bias: nat)
    ensures RoundText(LongLabel(), 129, 1, bias, 4000, false).Some?
  {
    hide LeastFrom, IntText, Adapt, RoundText;
    var cps := LongLabel();
    var delta := 4294965474;
    var next := Adapt(delta, 4001, false);
    LastRound(next);
    ScanRun(cps, 1, 4001, HIGH, 0, next, 4001, false);
    assert ScanText(cps, 1, HIGH, 0, next, 4001, false).Some?;
    assert ScanText(cps, 0, HIGH, delta, bias, 4000, false).Some?;
    HighRoundText(bias);
  }

  lemma HighRoundText(bias: nat)
    ensures RoundText(LongLabel(), 129, 1, bias, 4000, false)
      == ScanText(LongLabel(), 0, HIGH, 4294965474, bias, 4000, false)
  {
    hide LeastFrom, ScanText;
    LeastFromIs(LongLabel(), 129, UINT_MAX);
    assert LongLabel()[0] == HIGH;
  }

  lemma FirstRoundText()
    ensures RoundText(LongLabel(), 128, 0, 72, 3999, true) == ScanText(LongLabel(), 0, 128, 0, 72, 3999, true)
  {
    hide LeastFrom, ScanText;
    LeastFromIs(LongLabel(), 128, UINT_MAX);
    assert LongLabel()[4000] == 128;
  }

  // The encoder encodes this label, and the decoder overflows on what it makes of it.
  lemma LongLabelOverflows()
    ensures CodePoints(LongLabel()) && Encode(LongLabel()).Some? && Decode32(Encode(LongLabel()).value) == None
  {
    hide RoundText, IntText, Adapt, Reach, Below, Decode32;
    var cps := LongLabel();
    LongLabelParts();
    LongLabelReach();
    var next := Adapt(3999, 4000, true);
    HighRound(next);
    assert ScanText(cps, 4001, 128, 0, next, 4000, false).Some?;
    assert ScanText(cps, 4000, 128, 3999, 72, 3999, true).Some?;
    ScanRun(cps, 1, 4000, 128, 0, 72, 3999, true);
    assert ScanText(cps, 0, 128, 0, 72, 3999, true).Some?;
    FirstRoundText();
    RoundTrip32(cps);
    assert cps[0] == HIGH;
  }
}
