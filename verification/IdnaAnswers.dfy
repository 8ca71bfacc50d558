/** Known answers: texts of labels from section 7.1 of RFC 3492 and test/test-idna.c, and what separates
    the labels of a host name. */
module IdnaAnswers {
  import opened Common
  import opened Idna
  import opened Punycode
  import opened Rfc3492

  // The bytes of ASCII characters.
  function Ascii(s: string): seq<byte> {
    seq(|s|, i requires 0 <= i < |s| => s[i] as int % 0x100)
  }

  // The scan passes over lesser and greater code points.
  lemma {:induction false} ScanPast(cps: seq<nat>, pos: nat, end: nat, n: nat, delta: nat, bias: nat, h: nat,
    first: bool)
    requires pos <= end <= |cps| && n <= MAX_CODE_POINT && n !in cps[pos..end]
    requires delta + |Below(cps[pos..end], n)| <= UINT_MAX
    ensures ScanText(cps, pos, n, delta, bias, h, first)
      == ScanText(cps, end, n, delta + |Below(cps[pos..end], n)|, bias, h, first)
    decreases end - pos
  {
    hide IntText, Adapt, RoundText;
    if pos < end {
      assert cps[pos..end][1..] == cps[pos + 1..end] && cps[pos..end][0] == cps[pos];
      ScanPast(cps, pos + 1, end, n, delta + if cps[pos] < n then 1 else 0, bias, h, first);
    }
  }

  // The code point n occurs once and is the least from n0 on.
  ghost predicate Once(cps: seq<nat>, before: seq<nat>, n: nat, after: seq<nat>, n0: nat) {
    && cps == before + [n] + after && n0 <= n <= MAX_CODE_POINT && n !in before && n !in after
    && forall i :: 0 <= i < |cps| ==> cps[i] < n0 || cps[i] >= n
  }

  // The round for such a code point.
  lemma OnceRound(cps: seq<nat>, before: seq<nat>, n: nat, after: seq<nat>, n0: nat, delta: nat, bias: nat, h: nat,
    first: bool, d: nat)
    requires Once(cps, before, n, after, n0)
    requires d == delta + Skip(n0, n, h) + |Below(before, n)| <= UINT_MAX && |after| < UINT_MAX
    ensures
      var more := RoundText(cps, n + 1, |Below(after, n)| + 1, Adapt(d, h + 1, first), h + 1, false);
      RoundText(cps, n0, delta, bias, h, first)
        == if more.None? then None else Some(IntText(d, 36, bias) + more.value)
  {
    hide IntText, Adapt, LeastFrom, Below;
    var p := |before|;
    LeastFromIs(cps, n0, UINT_MAX);
    assert cps[p] == n;
    assert LeastFrom(cps, n0, UINT_MAX) == n;
    assert cps[0..p] == before && cps[p + 1..|cps|] == after;
    BelowLength(after, n);
    ScanPast(cps, 0, p, n, delta + Skip(n0, n, h), bias, h, first);
    ScanPast(cps, p + 1, |cps|, n, 0, Adapt(d, h + 1, first), h + 1, false);
  }

  lemma BelowFirst(s: seq<nat>, rest: seq<nat>, n: nat)
    requires s != [] && s[1..] == rest
    ensures |Below(s, n)| == |Below(rest, n)| + if s[0] < n then 1 else 0
  {
  }

  lemma BelowNone(n: nat)
    ensures |Below([], n)| == 0
  {
  }

  lemma LastRound(cps: seq<nat>, n: nat, delta: nat, bias: nat, h: nat, first: bool)
    requires n <= MAX_CODE_POINT + 1 && forall i :: 0 <= i < |cps| ==> cps[i] < n
    ensures RoundText(cps, n, delta, bias, h, first) == Some([])
  {
    hide LeastFrom;
    LeastFromIs(cps, n, UINT_MAX);
  }

  // Two umlauts.
  function Umlauts(): seq<nat> {
    [0xE4, 0xF6]
  }

  lemma UmlautsBias1()
    ensures Adapt(36, 2, false) == 14
  {
    assert Shrink(27, 0) == 14;
  }

  lemma UmlautsDigits1()
    ensures IntText(36, 36, 0) == Ascii("0b")
  {
  }

  lemma UmlautsParts1()
    ensures Once(Umlauts(), [0xE4], 0xF6, [], 0xE5)
    ensures |Below([0xE4], 0xF6)| == 1 && |Below([], 0xF6)| == 0
  {
    hide Below;
    BelowNone(0xF6);
    BelowFirst([0xE4], [], 0xF6);
  }

  lemma UmlautsBias0()
    ensures Adapt(100, 1, true) == 0
  {
    assert Shrink(0, 0) == 0;
  }

  lemma UmlautsDigits0()
    ensures IntText(100, 36, 72) == Ascii("4ca")
  {
  }

  lemma UmlautsParts0()
    ensures Once(Umlauts(), [], 0xE4, [0xF6], 0x80)
    ensures |Below([], 0xE4)| == 0 && |Below([0xF6], 0xE4)| == 0
  {
    hide Below;
    BelowNone(0xE4);
    BelowFirst([0xF6], [], 0xE4);
  }

  lemma Umlauts2()
    ensures RoundText(Umlauts(), 0xF7, 1, 14, 2, false) == Some([])
  {
    hide RoundText;
    LastRound(Umlauts(), 0xF7, 1, 14, 2, false);
  }

  lemma Umlauts1()
    ensures RoundText(Umlauts(), 0xE5, 1, 0, 1, false) == Some(Ascii("0b"))
  {
    hide RoundText, IntText, Adapt, Below, Once, Umlauts;
    Umlauts2();
    UmlautsBias1();
    UmlautsDigits1();
    UmlautsParts1();
    OnceRound(Umlauts(), [0xE4], 0xF6, [], 0xE5, 1, 0, 1, false, 36);
    assert Ascii("0b") + Ascii("") == Ascii("0b");
  }

  lemma Umlauts0()
    ensures RoundText(Umlauts(), 0x80, 0, 72, 0, true) == Some(Ascii("4ca0b"))
  {
    hide RoundText, IntText, Adapt, Below, Once, Umlauts;
    Umlauts1();
    UmlautsBias0();
    UmlautsDigits0();
    UmlautsParts0();
    OnceRound(Umlauts(), [], 0xE4, [0xF6], 0x80, 0, 72, 0, true, 100);
    assert Ascii("4ca") + Ascii("0b") == Ascii("4ca0b");
  }

  // Sample (L) of section 7.1: two ASCII characters among six ideographs.
  function SampleL(): seq<nat> {
    [0x33, 0x5E74, 0x42, 0x7D44, 0x91D1, 0x516B, 0x5148, 0x751F]
  }

  lemma SampleLBias5()
    ensures Adapt(42088, 8, false) == 84
  {
    assert Shrink(19, 72) == 84;
    assert Shrink(676, 36) == 84;
    assert Shrink(23674, 0) == 84;
  }

  lemma SampleLDigits5()
    ensures IntText(42088, 36, 67) == Ascii("sy2b")
  {
  }

  lemma SampleLParts5()
    ensures Once(SampleL(), [0x33, 0x5E74, 0x42, 0x7D44], 0x91D1, [0x516B, 0x5148, 0x751F], 0x7D45)
    ensures |Below([0x33, 0x5E74, 0x42, 0x7D44], 0x91D1)| == 4 && |Below([0x516B, 0x5148, 0x751F], 0x91D1)| == 3
  {
    hide Below;
    BelowNone(0x91D1);
    BelowFirst([0x7D44], [], 0x91D1);
    BelowFirst([0x42, 0x7D44], [0x7D44], 0x91D1);
    BelowFirst([0x5E74, 0x42, 0x7D44], [0x42, 0x7D44], 0x91D1);
    BelowFirst([0x33, 0x5E74, 0x42, 0x7D44], [0x5E74, 0x42, 0x7D44], 0x91D1);
    BelowFirst([0x751F], [], 0x91D1);
    BelowFirst([0x5148, 0x751F], [0x751F], 0x91D1);
    BelowFirst([0x516B, 0x5148, 0x751F], [0x5148, 0x751F], 0x91D1);
  }

  lemma SampleLBias4()
    ensures Adapt(14592, 7, false) == 67
  {
    assert Shrink(238, 36) == 67;
    assert Shrink(8338, 0) == 67;
  }

  lemma SampleLDigits4()
    ensures IntText(14592, 36, 82) == Ascii("65l")
  {
  }

  lemma SampleLParts4()
    ensures Once(SampleL(), [0x33, 0x5E74, 0x42], 0x7D44, [0x91D1, 0x516B, 0x5148, 0x751F], 0x7520)
    ensures |Below([0x33, 0x5E74, 0x42], 0x7D44)| == 3 && |Below([0x91D1, 0x516B, 0x5148, 0x751F], 0x7D44)| == 3
  {
    hide Below;
    BelowNone(0x7D44);
    BelowFirst([0x42], [], 0x7D44);
    BelowFirst([0x5E74, 0x42], [0x42], 0x7D44);
    BelowFirst([0x33, 0x5E74, 0x42], [0x5E74, 0x42], 0x7D44);
    BelowFirst([0x751F], [], 0x7D44);
    BelowFirst([0x5148, 0x751F], [0x751F], 0x7D44);
    BelowFirst([0x516B, 0x5148, 0x751F], [0x5148, 0x751F], 0x7D44);
    BelowFirst([0x91D1, 0x516B, 0x5148, 0x751F], [0x516B, 0x5148, 0x751F], 0x7D44);
  }

  lemma SampleLBias3()
    ensures Adapt(34821, 6, false) == 82
  {
    assert Shrink(16, 72) == 82;
    assert Shrink(580, 36) == 82;
    assert Shrink(20311, 0) == 82;
  }

  lemma SampleLDigits3()
    ensures IntText(34821, 36, 67) == Ascii("575a")
  {
  }

  lemma SampleLParts3()
    ensures Once(SampleL(), [0x33, 0x5E74, 0x42, 0x7D44, 0x91D1, 0x516B, 0x5148], 0x751F, [], 0x5E75)
    ensures |Below([0x33, 0x5E74, 0x42, 0x7D44, 0x91D1, 0x516B, 0x5148], 0x751F)| == 5 && |Below([], 0x751F)| == 0
  {
    hide Below;
    BelowNone(0x751F);
    BelowFirst([0x5148], [], 0x751F);
    BelowFirst([0x516B, 0x5148], [0x5148], 0x751F);
    BelowFirst([0x91D1, 0x516B, 0x5148], [0x516B, 0x5148], 0x751F);
    BelowFirst([0x7D44, 0x91D1, 0x516B, 0x5148], [0x91D1, 0x516B, 0x5148], 0x751F);
    BelowFirst([0x42, 0x7D44, 0x91D1, 0x516B, 0x5148], [0x7D44, 0x91D1, 0x516B, 0x5148], 0x751F);
    BelowFirst([0x5E74, 0x42, 0x7D44, 0x91D1, 0x516B, 0x5148], [0x42, 0x7D44, 0x91D1, 0x516B, 0x5148], 0x751F);
    BelowFirst([0x33, 0x5E74, 0x42, 0x7D44, 0x91D1, 0x516B, 0x5148], [0x5E74, 0x42, 0x7D44, 0x91D1, 0x516B, 0x5148],
      0x751F);
  }

  lemma SampleLBias2()
    ensures Adapt(16683, 5, false) == 67
  {
    assert Shrink(285, 36) == 67;
    assert Shrink(10009, 0) == 67;
  }

  lemma SampleLDigits2()
    ensures IntText(16683, 36, 24) == Ascii("180e")
  {
  }

  lemma SampleLParts2()
    ensures Once(SampleL(), [0x33], 0x5E74, [0x42, 0x7D44, 0x91D1, 0x516B, 0x5148, 0x751F], 0x516C)
    ensures |Below([0x33], 0x5E74)| == 1 && |Below([0x42, 0x7D44, 0x91D1, 0x516B, 0x5148, 0x751F], 0x5E74)| == 3
  {
    hide Below;
    BelowNone(0x5E74);
    BelowFirst([0x33], [], 0x5E74);
    BelowFirst([0x751F], [], 0x5E74);
    BelowFirst([0x5148, 0x751F], [0x751F], 0x5E74);
    BelowFirst([0x516B, 0x5148, 0x751F], [0x5148, 0x751F], 0x5E74);
    BelowFirst([0x91D1, 0x516B, 0x5148, 0x751F], [0x516B, 0x5148, 0x751F], 0x5E74);
    BelowFirst([0x7D44, 0x91D1, 0x516B, 0x5148, 0x751F], [0x91D1, 0x516B, 0x5148, 0x751F], 0x5E74);
    BelowFirst([0x42, 0x7D44, 0x91D1, 0x516B, 0x5148, 0x751F], [0x7D44, 0x91D1, 0x516B, 0x5148, 0x751F], 0x5E74);
  }

  lemma SampleLBias1()
    ensures Adapt(139, 4, false) == 24
  {
    assert Shrink(86, 0) == 24;
  }

  lemma SampleLDigits1()
    ensures IntText(139, 36, 27) == Ascii("5e")
  {
  }

  lemma SampleLParts1()
    ensures Once(SampleL(), [0x33, 0x5E74, 0x42, 0x7D44, 0x91D1], 0x516B, [0x5148, 0x751F], 0x5149)
    ensures |Below([0x33, 0x5E74, 0x42, 0x7D44, 0x91D1], 0x516B)| == 2 && |Below([0x5148, 0x751F], 0x516B)| == 1
  {
    hide Below;
    BelowNone(0x516B);
    BelowFirst([0x91D1], [], 0x516B);
    BelowFirst([0x7D44, 0x91D1], [0x91D1], 0x516B);
    BelowFirst([0x42, 0x7D44, 0x91D1], [0x7D44, 0x91D1], 0x516B);
    BelowFirst([0x5E74, 0x42, 0x7D44, 0x91D1], [0x42, 0x7D44, 0x91D1], 0x516B);
    BelowFirst([0x33, 0x5E74, 0x42, 0x7D44, 0x91D1], [0x5E74, 0x42, 0x7D44, 0x91D1], 0x516B);
    BelowFirst([0x751F], [], 0x516B);
    BelowFirst([0x5148, 0x751F], [0x751F], 0x516B);
  }

  lemma SampleLBias0()
    ensures Adapt(62042, 3, true) == 27
  {
    assert Shrink(117, 0) == 27;
  }

  lemma SampleLDigits0()
    ensures IntText(62042, 36, 72) == Ascii("ww4c")
  {
  }

  lemma SampleLParts0()
    ensures Once(SampleL(), [0x33, 0x5E74, 0x42, 0x7D44, 0x91D1, 0x516B], 0x5148, [0x751F], 0x80)
    ensures |Below([0x33, 0x5E74, 0x42, 0x7D44, 0x91D1, 0x516B], 0x5148)| == 2 && |Below([0x751F], 0x5148)| == 0
  {
    hide Below;
    BelowNone(0x5148);
    BelowFirst([0x516B], [], 0x5148);
    BelowFirst([0x91D1, 0x516B], [0x516B], 0x5148);
    BelowFirst([0x7D44, 0x91D1, 0x516B], [0x91D1, 0x516B], 0x5148);
    BelowFirst([0x42, 0x7D44, 0x91D1, 0x516B], [0x7D44, 0x91D1, 0x516B], 0x5148);
    BelowFirst([0x5E74, 0x42, 0x7D44, 0x91D1, 0x516B], [0x42, 0x7D44, 0x91D1, 0x516B], 0x5148);
    BelowFirst([0x33, 0x5E74, 0x42, 0x7D44, 0x91D1, 0x516B], [0x5E74, 0x42, 0x7D44, 0x91D1, 0x516B], 0x5148);
    BelowFirst([0x751F], [], 0x5148);
  }

  lemma SampleL6()
    ensures RoundText(SampleL(), 0x91D2, 4, 84, 8, false) == Some([])
  {
    hide RoundText;
    LastRound(SampleL(), 0x91D2, 4, 84, 8, false);
  }

  lemma SampleL5()
    ensures RoundText(SampleL(), 0x7D45, 4, 67, 7, false) == Some(Ascii("sy2b"))
  {
    hide RoundText, IntText, Adapt, Below, Once, SampleL;
    SampleL6();
    SampleLBias5();
    SampleLDigits5();
    SampleLParts5();
    OnceRound(SampleL(), [0x33, 0x5E74, 0x42, 0x7D44], 0x91D1, [0x516B, 0x5148, 0x751F], 0x7D45, 4, 67, 7, false,
      42088);
    assert Ascii("sy2b") + Ascii("") == Ascii("sy2b");
  }

  lemma SampleL4()
    ensures RoundText(SampleL(), 0x7520, 1, 82, 6, false) == Some(Ascii("65lsy2b"))
  {
    hide RoundText, IntText, Adapt, Below, Once, SampleL;
    SampleL5();
    SampleLBias4();
    SampleLDigits4();
    SampleLParts4();
    OnceRound(SampleL(), [0x33, 0x5E74, 0x42], 0x7D44, [0x91D1, 0x516B, 0x5148, 0x751F], 0x7520, 1, 82, 6, false,
      14592);
    assert Ascii("65l") + Ascii("sy2b") == Ascii("65lsy2b");
  }

  lemma SampleL3()
    ensures RoundText(SampleL(), 0x5E75, 4, 67, 5, false) == Some(Ascii("575a65lsy2b"))
  {
    hide RoundText, IntText, Adapt, Below, Once, SampleL;
    SampleL4();
    SampleLBias3();
    SampleLDigits3();
    SampleLParts3();
    OnceRound(SampleL(), [0x33, 0x5E74, 0x42, 0x7D44, 0x91D1, 0x516B, 0x5148], 0x751F, [], 0x5E75, 4, 67, 5, false,
      34821);
    assert Ascii("575a") + Ascii("65lsy2b") == Ascii("575a65lsy2b");
  }

  lemma SampleL2()
    ensures RoundText(SampleL(), 0x516C, 2, 24, 4, false) == Some(Ascii("180e575a65lsy2b"))
  {
    hide RoundText, IntText, Adapt, Below, Once, SampleL;
    SampleL3();
    SampleLBias2();
    SampleLDigits2();
    SampleLParts2();
    OnceRound(SampleL(), [0x33], 0x5E74, [0x42, 0x7D44, 0x91D1, 0x516B, 0x5148, 0x751F], 0x516C, 2, 24, 4, false,
      16683);
    assert Ascii("180e") + Ascii("575a65lsy2b") == Ascii("180e575a65lsy2b");
  }

  lemma SampleL1()
    ensures RoundText(SampleL(), 0x5149, 1, 27, 3, false) == Some(Ascii("5e180e575a65lsy2b"))
  {
    hide RoundText, IntText, Adapt, Below, Once, SampleL;
    SampleL2();
    SampleLBias1();
    SampleLDigits1();
    SampleLParts1();
    OnceRound(SampleL(), [0x33, 0x5E74, 0x42, 0x7D44, 0x91D1], 0x516B, [0x5148, 0x751F], 0x5149, 1, 27, 3, false, 139);
    assert Ascii("5e") + Ascii("180e575a65lsy2b") == Ascii("5e180e575a65lsy2b");
  }

  lemma SampleL0()
    ensures RoundText(SampleL(), 0x80, 0, 72, 2, true) == Some(Ascii("ww4c5e180e575a65lsy2b"))
  {
    hide RoundText, IntText, Adapt, Below, Once, SampleL;
    SampleL1();
    SampleLBias0();
    SampleLDigits0();
    SampleLParts0();
    OnceRound(SampleL(), [0x33, 0x5E74, 0x42, 0x7D44, 0x91D1, 0x516B], 0x5148, [0x751F], 0x80, 0, 72, 2, true, 62042);
    assert Ascii("ww4c") + Ascii("5e180e575a65lsy2b") == Ascii("ww4c5e180e575a65lsy2b");
  }

  lemma BasicFirst(s: seq<nat>, rest: seq<nat>)
    requires s != [] && s[1..] == rest
    ensures Basic(s) == (if s[0] < 128 then [s[0]] else []) + Basic(rest)
  {
    hide Below;
  }

  lemma {:induction false} BasicAbove(s: seq<nat>)
    requires forall i :: 0 <= i < |s| ==> s[i] >= 128
    ensures Basic(s) == []
  {
    hide Below;
    if s != [] {
      BasicAbove(s[1..]);
    }
  }

  lemma SampleLBasic()
    ensures Basic(SampleL()) == [0x33, 0x42]
  {
    hide Basic, Below;
    var rest := [0x7D44, 0x91D1, 0x516B, 0x5148, 0x751F];
    BasicAbove(rest);
    BasicFirst([0x42] + rest, rest);
    BasicFirst([0x5E74] + ([0x42] + rest), [0x42] + rest);
    BasicFirst(SampleL(), [0x5E74] + ([0x42] + rest));
  }

  // The encoder writes these labels as RFC 3492 does.
  lemma UmlautsText()
    ensures Encode([0xE4, 0xF6]) == Some(Ascii("4ca0b"))
  {
    hide RoundText, Below, Basic;
    Umlauts0();
    BasicAbove(Umlauts());
    assert [] + [] + Ascii("4ca0b") == Ascii("4ca0b");
  }

  lemma SampleLText()
    ensures Encode([0x33, 0x5E74, 0x42, 0x7D44, 0x91D1, 0x516B, 0x5148, 0x751F])
      == Some(Ascii("3B-ww4c5e180e575a65lsy2b"))
  {
    hide RoundText, Below, Basic;
    SampleL0();
    SampleLBasic();
    assert Ascii("3B-ww4c5e180e575a65lsy2b") == [0x33, 0x42] + [DELIMITER] + Ascii("ww4c5e180e575a65lsy2b");
  }

  // With the prefix that marks them.
  lemma UmlautsLabel()
    ensures LabelText([0xE4, 0xF6]) == Some(Ascii("xn--4ca0b"))
  {
    hide Encode, Basic, Below;
    BasicAbove(Umlauts());
    UmlautsText();
    assert Ascii("xn--4ca0b") == ACE_PREFIX + Ascii("4ca0b");
  }

  lemma SampleLLabel()
    ensures LabelText([0x33, 0x5E74, 0x42, 0x7D44, 0x91D1, 0x516B, 0x5148, 0x751F])
      == Some(Ascii("xn--3B-ww4c5e180e575a65lsy2b"))
  {
    hide Encode, Basic, Below;
    SampleLBasic();
    SampleLText();
    assert Ascii("xn--3B-ww4c5e180e575a65lsy2b") == ACE_PREFIX + Ascii("3B-ww4c5e180e575a65lsy2b");
  }

  // The full stop and the three full stops of Chinese, Japanese and Korean text separate labels, and
  // nothing else does.
  lemma Dots(a: seq<nat>, dot: nat, b: seq<nat>)
    requires NoDots(a) && NoDots(b)
    ensures Labels(a + [dot] + b) == if dot in {0x2E, 0x3002, 0xFF0E, 0xFF61} then [a, b] else [a + [dot] + b]
  {
    if IsDot(dot) {
      LabelsCut(a, dot, b);
      LabelsCut(b, dot, []);
    } else {
      assert NoDots(a + [dot] + b);
      LabelsCut(a + [dot] + b, 0x2E, []);
    }
  }

  // The texts of the labels are joined by full stops.
  lemma Joined(a: seq<nat>, b: seq<nat>)
    requires LabelText(a).Some? && LabelText(b).Some?
    ensures HostText([a, b]) == Some(LabelText(a).value + Ascii(".") + LabelText(b).value)
  {
    hide LabelText;
    assert [a, b][1..] == [b] && Ascii(".") == [0x2E];
  }
}
