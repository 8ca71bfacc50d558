/** uv__idna_toascii of src/idna.c: host names to ASCII, into a bounded buffer.  The numbers of
    the original that are unsigned are of type uint32 here, so that no operation on them wraps. */
module Idna {
  import opened Punycode
  import opened Rfc3492
  import opened Punycode32
  import opened Common
  import opened Utf8

  newtype uint32 = x: int | 0 <= x < 0x1_0000_0000

  const MAX: uint32 := 0xFFFF_FFFF
  const UV_E2BIG: int := -7
  const ACE_PREFIX: seq<byte> := [0x78, 0x6E, 0x2D, 0x2D]

  // ---------- what is to be written ----------

  // The text of a label.
  function LabelText(cps: seq<nat>): Option<seq<byte>> {
    if |Basic(cps)| == |cps| then Some(Basic(cps))
    else
      var text := Encode(cps);
      if text.None? then None else Some(ACE_PREFIX + text.value)
  }

  predicate IsDot(c: nat) {
    c == 0x2E || c == 0x3002 || c == 0xFF0E || c == 0xFF61
  }

  // The labels of a host name.
  function Labels(cps: seq<nat>): (labels: seq<seq<nat>>)
    ensures |labels| > 0
  {
    if cps == [] then [[]]
    else
      var labels := Labels(cps[1..]);
      if IsDot(cps[0]) then [[]] + labels else [[cps[0]] + labels[0]] + labels[1..]
  }

  function HostText(labels: seq<seq<nat>>): Option<seq<byte>>
    requires |labels| > 0
  {
    var text := LabelText(labels[0]);
    if text.None? || |labels| == 1 then text
    else
      var more := HostText(labels[1..]);
      if more.None? then None else Some(text.value + [0x2E] + more.value)
  }

  ghost predicate ComesBack(cps: seq<nat>, text: seq<nat>) {
    if forall i :: 0 <= i < |cps| ==> cps[i] < 128 then text == cps
    else
      && |text| > 4 && text[..4] == ACE_PREFIX && Bytes(text)
      && Decode(text[4..]) == Some(cps)
      && Decode32(text[4..]) == if Within32(cps) then Some(cps) else None
  }

  ghost predicate Bytes(text: seq<nat>) {
    forall i :: 0 <= i < |text| ==> text[i] < 0x100
  }

  // A label comes back from its text: as it is if it is ASCII, else by decoding what follows "xn--".
  lemma LabelRoundTrip(cps: seq<nat>)
    requires CodePoints(cps) && LabelText(cps).Some?
    ensures ComesBack(cps, LabelText(cps).value)
  {
    hide Decode, Decode32, Within32;
    if forall i :: 0 <= i < |cps| ==> cps[i] < 128 {
      BelowAll(cps, 128);
    } else {
      NotAllBelow(cps, 128);
      RoundTrip(cps);
      RoundTrip32(cps);
      EncodeNonempty(cps);
      assert LabelText(cps).value[4..] == Encode(cps).value;
    }
  }

  lemma {:induction false} NotAllBelow(cps: seq<nat>, n: nat)
    requires exists i :: 0 <= i < |cps| && cps[i] >= n
    ensures |Below(cps, n)| < |cps|
  {
    if cps[0] < n {
      var i :| 0 <= i < |cps| && cps[i] >= n;
      assert cps[1..][i - 1] == cps[i];
      NotAllBelow(cps[1..], n);
    } else {
      BelowLength(cps[1..], n);
    }
  }

  lemma EncodeNonempty(cps: seq<nat>)
    requires Encode(cps).Some? && Decode(Encode(cps).value) == Some(cps) && cps != []
    ensures Encode(cps).value != []
  {
  }

  ghost predicate NoDots(cps: seq<nat>) {
    forall i :: 0 <= i < |cps| ==> !IsDot(cps[i])
  }

  lemma {:induction false} LabelsCut(name: seq<nat>, dot: nat, rest: seq<nat>)
    requires NoDots(name) && IsDot(dot)
    ensures Labels(name + [dot] + rest) == [name] + Labels(rest)
    ensures Labels(name) == [name]
  {
    var cps := name + [dot] + rest;
    if name == [] {
      assert cps[1..] == rest;
    } else {
      assert cps[1..] == name[1..] + [dot] + rest;
      LabelsCut(name[1..], dot, rest);
      assert [name[0]] + name[1..] == name;
    }
  }

  lemma {:induction false} LabelsPlain(cps: seq<nat>)
    ensures forall i :: 0 <= i < |Labels(cps)| ==> NoDots(Labels(cps)[i])
    ensures CodePoints(cps) ==> forall i :: 0 <= i < |Labels(cps)| ==> CodePoints(Labels(cps)[i])
  {
    if cps != [] {
      assert forall i :: 0 <= i < |cps[1..]| ==> cps[1..][i] == cps[i + 1];
      LabelsPlain(cps[1..]);
    }
  }

  lemma {:induction false} BasicPlain(cps: seq<nat>)
    requires NoDots(cps)
    ensures NoDots(Basic(cps))
  {
    if cps != [] {
      BasicPlain(cps[1..]);
    }
  }

  lemma LabelTextPlain(cps: seq<nat>)
    requires NoDots(cps) && LabelText(cps).Some?
    ensures NoDots(LabelText(cps).value)
  {
    hide RoundText, Below, Basic;
    BasicPlain(cps);
    RoundTextPlain(cps, 128, 0, 72, |Basic(cps)|, true);
  }

  lemma {:induction false} HostTextSplits(labels: seq<seq<nat>>)
    requires |labels| > 0 && HostText(labels).Some? && forall i :: 0 <= i < |labels| ==> NoDots(labels[i])
    ensures
      var texts := Labels(HostText(labels).value);
      |texts| == |labels| && forall i :: 0 <= i < |labels| ==> LabelText(labels[i]) == Some(texts[i])
  {
    hide LabelText, Labels;
    var text := LabelText(labels[0]).value;
    LabelTextPlain(labels[0]);
    if |labels| == 1 {
      LabelsCut(text, 0x2E, []);
    } else {
      var more := HostText(labels[1..]).value;
      HostTextSplits(labels[1..]);
      LabelsCut(text, 0x2E, more);
      assert forall i :: 0 <= i < |labels[1..]| ==> labels[1..][i] == labels[i + 1];
    }
  }

  // The text of a host name, split at its dots, gives the text of each label, and from it the
  // label comes back.
  lemma HostRoundTrip(cps: seq<nat>)
    requires CodePoints(cps) && HostText(Labels(cps)).Some?
    ensures
      var labels, texts := Labels(cps), Labels(HostText(Labels(cps)).value);
      && |texts| == |labels|
      && forall i :: 0 <= i < |labels| ==>
           LabelText(labels[i]) == Some(texts[i]) && ComesBack(labels[i], texts[i])
  {
    hide Labels, LabelText, HostText, ComesBack, Decode;
    LabelsPlain(cps);
    var labels, texts := Labels(cps), Labels(HostText(Labels(cps)).value);
    HostTextSplits(labels);
    forall i | 0 <= i < |labels| ensures ComesBack(labels[i], texts[i]) {
      LabelRoundTrip(labels[i]);
    }
  }

  // ---------- the buffer ----------

  // The text was written to position d0 of a buffer as far as the limit de allows; d is the
  // position after it.
  ghost predicate Written(was: seq<byte>, now: seq<byte>, d0: nat, d: nat, de: nat, text: seq<byte>) {
    && d0 <= d <= de <= |was| == |now|
    && d == (if d0 + |text| < de then d0 + |text| else de)
    && now == was[..d0] + text[..d - d0] + was[d..]
  }

  // The statement: if (*d < de) *(*d)++ = b;
  method Put(buf: array<byte>, d: nat, de: nat, b: byte, ghost was: seq<byte>, ghost d0: nat, ghost text: seq<byte>)
    returns (e: nat)
    requires Written(was, buf[..], d0, d, de, text)
    modifies buf
    ensures Written(was, buf[..], d0, e, de, text + [b])
  {
    e := d;
    if e < de {
      buf[e] := b;
      e := e + 1;
    }
  }

  // ---------- a label ----------

  lemma CharsStep(src: seq<byte>, s: nat, se: nat, cps: seq<nat>, k: nat)
    requires s < se <= |src| && k <= |cps| && Legal(src, s, se) && Chars(src, s, se) == cps[k..]
    ensures
      var (c, q) := Decode1(src, s, se);
      && c != INVALID && k < |cps| && c == cps[k]
      && Legal(src, q, se) && Chars(src, q, se) == cps[k + 1..]
  {
    hide Decode1;
    var q := Decode1(src, s, se).1;
    assert Chars(src, s, se)[1..] == Chars(src, q, se);
    assert cps[k..][1..] == cps[k + 1..];
  }

  lemma BasicStep(cps: seq<nat>, k: nat)
    requires k < |cps|
    ensures Basic(cps[..k + 1]) == Basic(cps[..k]) + if cps[k] < 128 then [cps[k]] else []
  {
    assert cps[..k + 1] == cps[..k] + [cps[k]];
    BelowSplit(cps[..k], [cps[k]], 128);
  }

  // The loop of lines 177-187: the numbers of ASCII and other characters.
  method Count(src: seq<byte>, ss: nat, se: nat) returns (ok: bool, h: uint32, todo: uint32)
    requires ss <= se <= |src| && |Chars(src, ss, se)| < 0x8000_0000
    ensures ok <==> Legal(src, ss, se)
    ensures ok ==> var cps := Chars(src, ss, se); h as int == |Basic(cps)| && h as int + todo as int == |cps|
  {
    hide Decode1;
    ghost var cps := Chars(src, ss, se);
    ghost var k := 0;
    var s := ss;
    h, todo := 0, 0;
    while s < se
      invariant ss <= s <= se && k <= |cps| && cps[k..] == Chars(src, s, se)
      invariant Legal(src, ss, se) <==> Legal(src, s, se)
      invariant h as int == |Basic(cps[..k])| && h as int + todo as int == k
      decreases se - s
    {
      var (c, q) := Decode1(src, s, se);
      s := q;
      if c == INVALID {
        return false, h, todo;
      }
      assert cps[k..][0] == c && cps[k..][1..] == cps[k + 1..];
      BasicStep(cps, k);
      if c < 128 {
        h := h + 1;
      } else {
        todo := todo + 1;
      }
      k := k + 1;
    }
    assert cps[..k] == cps;
    ok := true;
  }

  // The loop of lines 198-212, which stops after the last of the h ASCII characters.
  method WriteBasic(src: seq<byte>, ss: nat, se: nat, h: uint32, buf: array<byte>, d: nat, de: nat,
                    ghost was: seq<byte>, ghost d0: nat, ghost text: seq<byte>) returns (e: nat)
    requires ss <= se <= |src| && Legal(src, ss, se) && h as int == |Basic(Chars(src, ss, se))|
    requires Written(was, buf[..], d0, d, de, text)
    modifies buf
    ensures Written(was, buf[..], d0, e, de, text + Basic(Chars(src, ss, se)))
  {
    hide Decode1, Written;
    ghost var cps := Chars(src, ss, se);
    ghost var k := 0;
    var s, x: uint32 := ss, 0;
    e := d;
    assert text + Basic(cps[..0]) == text;
    while s < se
      invariant ss <= s <= se && k <= |cps| && cps[k..] == Chars(src, s, se) && Legal(src, s, se)
      invariant x as int == |Basic(cps[..k])|
      invariant Written(was, buf[..], d0, e, de, text + Basic(cps[..k]))
      decreases se - s
    {
      CharsStep(src, s, se, cps, k);
      BasicStep(cps, k);
      BasicPrefix(cps, k + 1);
      var (c, q) := Decode1(src, s, se);
      s := q;
      k := k + 1;
      if c > 127 {
        assert Basic(cps[..k]) == Basic(cps[..k - 1]);
        continue;
      }
      assert (text + Basic(cps[..k - 1])) + [c] == text + Basic(cps[..k]);
      e := Put(buf, e, de, c, was, d0, text + Basic(cps[..k - 1]));
      x := x + 1;
      if x == h {
        return;
      }
    }
    assert cps[..k] == cps;
  }

  lemma BasicPrefix(cps: seq<nat>, k: nat)
    requires k <= |cps|
    ensures |Basic(cps[..k])| <= |Basic(cps)|
    ensures |Basic(cps[..k])| == |Basic(cps)| ==> Basic(cps[..k]) == Basic(cps)
  {
    assert cps == cps[..k] + cps[k..];
    BelowSplit(cps[..k], cps[k..], 128);
  }

  // The loop of lines 228-238: the least code point that is at least n.
  method Least(src: seq<byte>, ss: nat, se: nat, n: uint32) returns (m: uint32)
    requires ss <= se <= |src| && Legal(src, ss, se)
    ensures m as int == LeastFrom(Chars(src, ss, se), n as int, UINT_MAX)
  {
    hide Decode1;
    ghost var cps := Chars(src, ss, se);
    ghost var k := 0;
    var s := ss;
    m := MAX;
    assert cps[0..] == cps;
    while s < se
      invariant ss <= s <= se && k <= |cps| && cps[k..] == Chars(src, s, se) && Legal(src, s, se)
      invariant LeastFrom(cps[k..], n as int, m as int) == LeastFrom(cps, n as int, UINT_MAX)
      decreases se - s
    {
      CharsStep(src, s, se, cps, k);
      var (c, q) := Decode1(src, s, se);
      s := q;
      assert cps[k..][1..] == cps[k + 1..];
      var c32 := c as uint32;
      if c32 >= n {
        if c32 < m {
          m := c32;
        }
      }
      k := k + 1;
    }
  }

  lemma TextOfInt(q: nat, k: nat, bias: nat)
    ensures
      var t := Threshold(k, bias);
      IntText(q, k, bias) == if q < t then [Digit(q)] else [Digit(Low(q, t))] + IntText(High(q, t), k + 36, bias)
  {
  }

  // The number of decimal digits.
  ghost function Decimals(q: nat): nat {
    if q == 0 then 0 else 1 + Decimals(q / 10)
  }

  lemma {:induction false} DecimalsGrow(p: nat, q: nat)
    requires p <= q
    ensures Decimals(p) <= Decimals(q)
    decreases q
  {
    if p > 0 {
      DecimalsGrow(p / 10, q / 10);
    }
  }

  ghost function Power10(e: nat): nat {
    if e == 0 then 1 else 10 * Power10(e - 1)
  }

  lemma {:induction false} DecimalsBound(q: nat, e: nat)
    requires q < Power10(e)
    ensures Decimals(q) <= e
    decreases e
  {
    if q > 0 && e > 0 {
      DecimalsBound(q / 10, e - 1);
    }
  }

  lemma DecimalsOf32Bits(q: uint32)
    ensures Decimals(q as int) <= 10
  {
    assert Power10(2) == 100;
    assert Power10(4) == 10_000;
    assert Power10(6) == 1_000_000;
    assert Power10(8) == 100_000_000;
    assert Power10(10) == 10_000_000_000;
    DecimalsBound(q as int, 10);
  }

  // Division by more than 10 makes a number shorter.
  lemma Shorter(q: nat, r: nat)
    requires q > 0 && r <= q / 10
    ensures Decimals(r) + 1 <= Decimals(q)
  {
    DecimalsGrow(r, q / 10);
  }

  lemma HighSmall(q: nat, t: nat)
    requires 1 <= t <= 26 && t <= q
    ensures High(q, t) <= q / 10
  {
    var x, y := q - t, 36 - t;
    Quotient(x, y);
    var r := x / y;
    Grows(10, y, r, r);
  }

  // Lines 277-280: the value of a digit and the rest of the number.
  function Split(q: uint32, t: uint32): (r: (uint32, uint32))
    requires 1 <= t <= 26 && t <= q
    ensures r.0 as int == Low(q as int, t as int) && r.1 as int == High(q as int, t as int)
    ensures r.0 < 36 && r.1 as int <= q as int / 10
  {
    HighSmall(q as int, t as int);
    var x := q - t;
    var y := 36 - t;
    (t + x % y, x / y)
  }

  // The loop of lines 261-284 and the digit after it.
  method PutInt(delta: uint32, bias: uint32, buf: array<byte>, d: nat, de: nat,
                ghost was: seq<byte>, ghost d0: nat, ghost text: seq<byte>) returns (e: nat)
    requires Written(was, buf[..], d0, d, de, text) && bias < 0x1000
    modifies buf
    ensures Written(was, buf[..], d0, e, de, text + IntText(delta as int, 36, bias as int))
  {
    hide Written, IntText, Low, High, Digit, Decimals, Split, Scaled, Threshold;
    ghost var all := IntText(delta as int, 36, bias as int);
    ghost var part: seq<byte> := [];
    var k: uint32, q := 36, delta;
    e := d;
    DecimalsOf32Bits(delta);
    assert text + part == text;
    while true
      invariant all == part + IntText(q as int, k as int, bias as int)
      invariant Written(was, buf[..], d0, e, de, text + part)
      invariant k as int + 36 * Decimals(q as int) <= 396
      decreases q
    {
      var t: uint32 := 1;
      if k > bias {
        t := k - bias;
      }
      if t > 26 {
        t := 26;
      }
      ThresholdIs(k as int, bias as int, t as int);
      TextOfInt(q as int, k as int, bias as int);
      if q < t {
        break;
      }
      var r := Split(q, t);
      Shorter(q as int, High(q as int, t as int));
      ghost var more := IntText(High(q as int, t as int), k as int + 36, bias as int);
      t, q := r.0, r.1;
      assert all == (part + [Digit(t as int)]) + more;
      assert (text + part) + [Digit(t as int)] == text + (part + [Digit(t as int)]);
      e := Put(buf, e, de, Digit(t as int), was, d0, text + part);
      part := part + [Digit(t as int)];
      k := k + 36;
    }
    assert (text + part) + [Digit(q as int)] == text + all;
    e := Put(buf, e, de, Digit(q as int), was, d0, text + part);
  }

  lemma ThresholdIs(k: nat, bias: nat, t: nat)
    requires t == if k > bias then (if k - bias > 26 then 26 else k - bias) else 1
    ensures t == Threshold(k, bias)
  {
  }

  // Lines 289-305, without the test of first, for h after its increment.
  method AdaptBias(start: uint32, h: uint32) returns (bias: uint32)
    requires start <= 0x7FFF_FFFF && h > 0
    ensures bias as int == Shrink(start as int + start as int / h as int, 0) && bias < 0x1000
  {
    hide Shrink, Decimals;
    QuotientSmall(start, h);
    var delta := start + start / h;
    ghost var all := Shrink(delta as int, 0);
    bias := 0;
    while delta > 35 * 26 / 2
      invariant Shrink(delta as int, bias as int) == all
      invariant bias as int + 36 * Decimals(delta as int) <= 360
      decreases delta
    {
      ShrinkStep(delta as int, bias as int);
      Shorter(delta as int, delta as int / 35);
      delta := delta / 35;
      bias := bias + 36;
    }
    ShrinkStep(delta as int, bias as int);
    var last := Fraction(delta);
    bias := bias + last;
  }

  lemma QuotientSmall(x: uint32, y: uint32)
    requires y > 0
    ensures x / y <= x && (x / y) as int == x as int / y as int
    ensures x <= 0x7FFF_FFFF ==> Decimals(x as int + (x / y) as int) <= 10
  {
    Quotient(x as int, y as int);
    if x <= 0x7FFF_FFFF {
      DecimalsOf32Bits(x + x / y);
    }
  }

  function Fraction(delta: uint32): (f: uint32)
    requires delta <= 455
    ensures f as int == 36 * delta as int / (delta as int + 38) && f <= 36
  {
    Quotient(36 * delta as int, delta as int + 38);
    36 * delta / (delta + 38)
  }

  lemma ShrinkStep(delta: nat, k: nat)
    ensures Shrink(delta, k) == if delta > 455 then Shrink(delta / 35, k + 36) else k + 36 * delta / (delta + 38)
  {
  }

  // total is part followed by more.
  ghost predicate Rest(total: Option<seq<byte>>, part: seq<byte>, more: Option<seq<byte>>) {
    (total.None? <==> more.None?) && (total.Some? ==> total.value == part + more.value)
  }

  lemma RestOn(total: Option<seq<byte>>, part: seq<byte>, piece: seq<byte>, more: Option<seq<byte>>)
    requires Rest(total, part, if more.None? then None else Some(piece + more.value))
    ensures Rest(total, part + piece, more)
  {
    if more.Some? {
      assert part + (piece + more.value) == (part + piece) + more.value;
    }
  }

  lemma SofarLength(cps: seq<nat>, pos: nat, n: nat)
    requires pos <= |cps|
    ensures |Sofar(cps, pos, n)| <= |cps|
    ensures pos == 0 ==> Sofar(cps, pos, n) == Below(cps, n)
    ensures pos == |cps| ==> Sofar(cps, pos, n) == Below(cps, n + 1)
    ensures pos < |cps| ==> |Sofar(cps, pos + 1, n)| == |Sofar(cps, pos, n)| + if cps[pos] == n then 1 else 0
  {
    hide Below;
    BelowLength(cps[..pos], n + 1);
    BelowLength(cps[pos..], n);
    BelowAll([], n);
    BelowAll([], n + 1);
    assert cps[..|cps|] == cps && cps[0..] == cps && cps[|cps|..] == [] && cps[..0] == [];
    if pos < |cps| {
      SofarStep(cps, pos, n);
    }
  }

  // Lines 289-307: the state after a delta was written.
  method Next(delta: uint32, h: uint32, first: bool) returns (bias: uint32)
    requires h < MAX
    ensures bias as int == Adaptation(delta as int, h as int + 1, first) && bias < 0x1000
    ensures bias as int == Adapt(delta as int, h as int + 1, first)
  {
    SameAdapt(delta as int, h as int + 1, first);
    var start := delta / 2;
    if first {
      start := start / 350;
    }
    bias := AdaptBias(start, h + 1);
  }

  // The loop of lines 250-308.
  method Scan(src: seq<byte>, ss: nat, se: nat, n: uint32, delta0: uint32, bias0: uint32, h0: uint32, first0: bool,
              todo0: uint32, buf: array<byte>, d: nat, de: nat,
              ghost was: seq<byte>, ghost d0: nat, ghost text: seq<byte>)
    returns (ok: bool, delta: uint32, bias: uint32, h: uint32, first: bool, todo: uint32, e: nat, ghost part: seq<byte>)
    requires ss <= se <= |src| && Legal(src, ss, se) && |Chars(src, ss, se)| < 0x8000_0000
    requires n as int <= MAX_CODE_POINT && n as int in Chars(src, ss, se) && bias0 < 0x1000
    requires h0 as int == |Below(Chars(src, ss, se), n as int)| && h0 as int + todo0 as int == |Chars(src, ss, se)|
    requires Written(was, buf[..], d0, d, de, text)
    modifies buf
    ensures Written(was, buf[..], d0, e, de, text + part)
    ensures
      var cps := Chars(src, ss, se);
      var total := ScanText(cps, 0, n as int, delta0 as int, bias0 as int, h0 as int, first0);
      if !ok then total.None?
      else
        && Rest(total, part, RoundText(cps, n as int + 1, delta as int + 1, bias as int, h as int, first))
        && delta as int <= |cps| && bias < 0x1000
        && h as int == |Below(cps, n as int + 1)| && h as int + todo as int == |cps|
  {
    hide Decode1, Written, IntText, Adapt, Below, Sofar, Rest, RoundText, Chars, Legal;
    ghost var cps := Chars(src, ss, se);
    ghost var total := ScanText(cps, 0, n as int, delta0 as int, bias0 as int, h0 as int, first0);
    ghost var k, seen := 0, false;
    var s := ss;
    delta, bias, h, first, todo, e, part := delta0, bias0, h0, first0, todo0, d, [];
    assert text + part == text && cps[0..] == cps;
    RestStart(total);
    SofarLength(cps, 0, n as int);
    while s < se
      invariant ss <= s <= se && k <= |cps| && cps[k..] == Chars(src, s, se) && Legal(src, s, se)
      invariant Rest(total, part, ScanText(cps, k, n as int, delta as int, bias as int, h as int, first))
      invariant Written(was, buf[..], d0, e, de, text + part)
      invariant h as int == |Sofar(cps, k, n as int)| && h as int + todo as int == |cps| && bias < 0x1000
      invariant (seen ==> delta as int <= k) && (seen <==> n as int in cps[..k])
      decreases se - s
    {
      CharsStep(src, s, se, cps, k);
      SofarLength(cps, k, n as int);
      SofarLength(cps, k + 1, n as int);
      assert cps[..k + 1] == cps[..k] + [cps[k]];
      var (c, q) := Decode1(src, s, se);
      s := q;
      var c32 := c as uint32;
      if c32 < n {
        delta := if delta == MAX then 0 else delta + 1;
        if delta == 0 {
          RestNone(total, part);
          ok := false;
          return;
        }
      }
      if c32 != n {
        k := k + 1;
        continue;
      }
      ghost var digits := IntText(delta as int, 36, bias as int);
      RestOn(total, part, digits,
        ScanText(cps, k + 1, n as int, 0, Adapt(delta as int, h as int + 1, first), h as int + 1, false));
      e := PutInt(delta, bias, buf, e, de, was, d0, text + part);
      assert (text + part) + digits == text + (part + digits);
      part := part + digits;
      bias := Next(delta, h, first);
      delta, first, h, todo := 0, false, h + 1, todo - 1;
      seen, k := true, k + 1;
    }
    assert k == |cps| && cps[..k] == cps;
    SofarLength(cps, k, n as int);
    ok := true;
  }

  lemma RestStart(total: Option<seq<byte>>)
    ensures Rest(total, [], total)
  {
  }

  lemma RestNone(total: Option<seq<byte>>, part: seq<byte>)
    requires Rest(total, part, None)
    ensures total == None
  {
  }

  lemma Exceeds(x: nat, y: nat, a: nat)
    requires y > 0
    ensures x > a / y <==> x * y > a
  {
    var q := a / y;
    Quotient(a, y);
    if x > q {
      Distribute(q + 1, x - q - 1, y);
      Distribute(q, 1, y);
    } else {
      Grows(x, q, y, y);
    }
  }

  // Lines 240-246: delta + x * y is computed only if it fits.
  method Advance(delta: uint32, n: uint32, m: uint32, h: uint32) returns (ok: bool, r: uint32)
    requires n <= m && h < MAX
    ensures ok <==> delta as int + Skip(n as int, m as int, h as int) <= UINT_MAX
    ensures ok ==> r as int == delta as int + Skip(n as int, m as int, h as int)
  {
    hide Skip;
    var x := m - n;
    var y := h + 1;
    SkipIs(n as int, m as int, h as int, x as int, y as int);
    Exceeds(x as int, y as int, UINT_MAX - delta as int);
    if x > Quotient32(MAX - delta, y) {
      return false, delta;
    }
    ok, r := true, delta + x * y;
  }

  function Quotient32(a: uint32, y: uint32): (q: uint32)
    requires y > 0
    ensures q as int == a as int / y as int
  {
    Quotient(a as int, y as int);
    a / y
  }

  lemma SkipIs(n: nat, m: nat, h: nat, x: nat, y: nat)
    requires n <= m && x == m - n && y == h + 1
    ensures Skip(n, m, h) == x * y
  {
  }

  // A code point that is still to be written exists as long as todo is positive.
  lemma LeastExists(cps: seq<nat>, n: nat)
    requires CodePoints(cps) && |Below(cps, n)| < |cps|
    ensures var m := LeastFrom(cps, n, UINT_MAX); n <= m <= MAX_CODE_POINT && m in cps && Below(cps, m) == Below(cps, n)
  {
    LeastFromIs(cps, n, UINT_MAX);
    if LeastFrom(cps, n, UINT_MAX) == UINT_MAX {
      BelowAll(cps, n);
    }
    BelowGap(cps, n, LeastFrom(cps, n, UINT_MAX));
  }

  lemma RoundStep(cps: seq<nat>, n: nat, delta: nat, bias: nat, h: nat, first: bool)
    requires CodePoints(cps) && n <= MAX_CODE_POINT + 1 && |Below(cps, n)| < |cps|
    ensures
      var m := LeastFrom(cps, n, UINT_MAX);
      && n <= m <= MAX_CODE_POINT
      && RoundText(cps, n, delta, bias, h, first)
         == if delta + Skip(n, m, h) > UINT_MAX then None
            else ScanText(cps, 0, m, delta + Skip(n, m, h), bias, h, first)
  {
    hide Below, LeastFrom, Skip;
    LeastExists(cps, n);
  }

  lemma RoundEnd(cps: seq<nat>, n: nat, delta: nat, bias: nat, h: nat, first: bool)
    requires n <= MAX_CODE_POINT + 1 && |Below(cps, n)| == |cps|
    ensures RoundText(cps, n, delta, bias, h, first) == Some([])
  {
    LeastFromIs(cps, n, UINT_MAX);
    if exists i :: 0 <= i < |cps| && cps[i] >= n {
      NotAllBelow(cps, n);
    }
  }

  lemma RestThen(total: Option<seq<byte>>, a: seq<byte>, middle: Option<seq<byte>>, b: seq<byte>,
    end: Option<seq<byte>>)
    requires Rest(total, a, middle) && Rest(middle, b, end)
    ensures Rest(total, a + b, end)
  {
    if end.Some? {
      assert a + (b + end.value) == (a + b) + end.value;
    }
  }

  // Lines 222-314: the digits of a label.
  method PutDigits(src: seq<byte>, ss: nat, se: nat, h0: uint32, todo0: uint32, buf: array<byte>, d: nat, de: nat,
                   ghost was: seq<byte>, ghost d0: nat, ghost text: seq<byte>)
    returns (rc: int, e: nat, ghost digits: seq<byte>)
    requires ss <= se <= |src| && Legal(src, ss, se) && |Chars(src, ss, se)| < 0x8000_0000
    requires h0 as int == |Basic(Chars(src, ss, se))| && h0 as int + todo0 as int == |Chars(src, ss, se)|
    requires Written(was, buf[..], d0, d, de, text)
    modifies buf
    ensures Written(was, buf[..], d0, e, de, text + digits)
    ensures
      var all := RoundText(Chars(src, ss, se), 128, 0, 72, h0 as int, true);
      if all.None? then rc == UV_E2BIG else rc == 0 && digits == all.value
  {
    hide Decode1, Written, Below, Rest, RoundText, ScanText, Chars, Legal, Skip;
    ghost var cps := Chars(src, ss, se);
    ghost var all := RoundText(cps, 128, 0, 72, h0 as int, true);
    var h, todo := h0, todo0;
    var n: uint32, bias: uint32, delta: uint32, first := 128, 72, 0, true;
    e, digits := d, [];
    assert text + digits == text;
    RestStart(all);
    while todo > 0
      invariant n as int <= MAX_CODE_POINT + 1 && bias < 0x1000
      invariant Rest(all, digits, RoundText(cps, n as int, delta as int, bias as int, h as int, first))
      invariant Written(was, buf[..], d0, e, de, text + digits)
      invariant h as int == |Below(cps, n as int)| && h as int + todo as int == |cps|
      decreases MAX_CODE_POINT + 1 - n as int
    {
      RoundStep(cps, n as int, delta as int, bias as int, h as int, first);
      LeastExists(cps, n as int);
      var m := Least(src, ss, se, n);
      var ok;
      ok, delta := Advance(delta, n, m, h);
      if !ok {
        RestNone(all, digits);
        rc := UV_E2BIG;
        return;
      }
      n := m;
      ghost var total := ScanText(cps, 0, n as int, delta as int, bias as int, h as int, first);
      ghost var part;
      ok, delta, bias, h, first, todo, e, part :=
        Scan(src, ss, se, n, delta, bias, h, first, todo, buf, e, de, was, d0, text + digits);
      assert (text + digits) + part == text + (digits + part);
      if !ok {
        RestNone(all, digits);
        digits := digits + part;
        rc := UV_E2BIG;
        return;
      }
      RestThen(all, digits, total, part, RoundText(cps, n as int + 1, delta as int + 1, bias as int, h as int, first));
      digits := digits + part;
      delta := delta + 1;
      n := n + 1;
    }
    RoundEnd(cps, n as int, delta as int, bias as int, h as int, first);
    RestEnd(all, digits);
    rc := 0;
  }

  lemma RestEnd(total: Option<seq<byte>>, part: seq<byte>)
    requires Rest(total, part, Some([]))
    ensures total == Some(part)
  {
    assert part + [] == part;
  }

  // Lines 191-194.
  method PutPrefix(buf: array<byte>, d: nat, de: nat, ghost was: seq<byte>, ghost d0: nat) returns (e: nat)
    requires Written(was, buf[..], d0, d, de, [])
    modifies buf
    ensures Written(was, buf[..], d0, e, de, ACE_PREFIX)
  {
    hide Written;
    e := Put(buf, d, de, 0x78, was, d0, []);
    e := Put(buf, e, de, 0x6E, was, d0, [] + [0x78]);
    e := Put(buf, e, de, 0x2D, was, d0, [] + [0x78] + [0x6E]);
    e := Put(buf, e, de, 0x2D, was, d0, [] + [0x78] + [0x6E] + [0x2D]);
    assert [] + [0x78] + [0x6E] + [0x2D] + [0x2D] == ACE_PREFIX;
  }

  // uv__idna_toascii_label: the text of the label src[s..se] goes to position d of the buffer as
  // far as de allows.
  method ToAsciiLabel(src: seq<byte>, s: nat, se: nat, buf: array<byte>, d: nat, de: nat)
    returns (rc: int, e: nat, ghost text: seq<byte>)
    requires s <= se <= |src| && d <= de <= buf.Length && |Chars(src, s, se)| < 0x8000_0000
    modifies buf
    ensures Written(old(buf[..]), buf[..], d, e, de, text)
    ensures !Legal(src, s, se) ==> rc == UV_EINVAL && text == []
    ensures
      Legal(src, s, se) ==>
        var all := LabelText(Chars(src, s, se));
        if all.None? then rc == UV_E2BIG else rc >= 0 && text == all.value
  {
    hide Decode1, Written, Below, RoundText, Chars, Legal, LabelText, Basic;
    ghost var was := buf[..];
    ghost var cps := Chars(src, s, se);
    e, text := d, [];
    WrittenNothing(was, d, de);
    var ok, h, todo := Count(src, s, se);
    if !ok {
      rc := UV_EINVAL;
      return;
    }
    if todo > 0 {
      e := PutPrefix(buf, e, de, was, d);
      text := ACE_PREFIX;
    }
    e := WriteBasic(src, s, se, h, buf, e, de, was, d, text);
    LabelParts(cps);
    text := text + Basic(cps);
    if todo == 0 {
      rc := h as int;
      return;
    }
    ghost var sep: seq<byte> := [];
    if h > 0 {
      e := Put(buf, e, de, DELIMITER, was, d, text);
      sep := [DELIMITER];
    }
    assert text + [] == text;
    text := text + sep;
    ghost var digits;
    rc, e, digits := PutDigits(src, s, se, h, todo, buf, e, de, was, d, text);
    text := text + digits;
  }

  lemma Regroup<T>(a: seq<T>, b: seq<T>, c: seq<T>, d: seq<T>)
    ensures a + b + c + d == a + (b + c + d)
  {
  }

  // The parts of the text of a label in the order in which they are written.
  lemma LabelParts(cps: seq<nat>)
    ensures |Basic(cps)| == |cps| ==> LabelText(cps) == Some([] + Basic(cps))
    ensures
      |Basic(cps)| != |cps| ==>
        var digits := RoundText(cps, 128, 0, 72, |Basic(cps)|, true);
        var delimiter := if |Basic(cps)| == 0 then [] else [DELIMITER];
        LabelText(cps) == if digits.None? then None
                          else Some(ACE_PREFIX + Basic(cps) + delimiter + digits.value)
  {
    hide Basic, RoundText, Below;
    var basic := Basic(cps);
    var digits := RoundText(cps, 128, 0, 72, |basic|, true);
    assert [] + basic == basic;
    if digits.Some? {
      Regroup(ACE_PREFIX, basic, if basic == [] then [] else [DELIMITER], digits.value);
    }
  }

  lemma WrittenNothing(was: seq<byte>, d: nat, de: nat)
    requires d <= de <= |was|
    ensures Written(was, was, d, d, de, [])
  {
    assert was == was[..d] + [] + was[d..];
  }

  // ---------- a host name ----------

  lemma HostCut(name: seq<nat>, dot: nat, rest: seq<nat>)
    requires NoDots(name) && IsDot(dot)
    ensures
      var text, more := LabelText(name), HostText(Labels(rest));
      HostText(Labels(name + [dot] + rest))
      == if text.None? || more.None? then None else Some(text.value + [0x2E] + more.value)
  {
    hide Labels, LabelText;
    LabelsCut(name, dot, rest);
    assert Labels(name + [dot] + rest)[1..] == Labels(rest);
  }

  lemma HostLast(name: seq<nat>)
    requires NoDots(name)
    ensures HostText(Labels(name)) == LabelText(name)
    ensures name == [] ==> LabelText(name) == Some([])
  {
    LabelsCut(name, 0x2E, []);
  }

  // The characters of a name up to a dot and after it.
  lemma HostStep(src: seq<byte>, s: nat, st: nat, se: nat, name: seq<nat>)
    requires s <= st < se <= |src| && Reads(src, s, st, se, name) && Decode1(src, st, se).0 != INVALID
    ensures
      var (c, si) := Decode1(src, st, se);
      && Chars(src, s, se) == name + [c] + Chars(src, si, se) && (Legal(src, s, se) <==> Legal(src, si, se))
      && Chars(src, s, st) == name && Legal(src, s, st)
      && Reads(src, s, si, se, name + [c])
  {
    hide Decode1, Chars, Legal, Reads;
    ReadsOn(src, s, st, se, name);
    ReadsFirst(src, s, Decode1(src, st, se).1, se, name + [Decode1(src, st, se).0]);
    ReadsAlone(src, s, st, se, name);
  }

  lemma ReadsBad(src: seq<byte>, s: nat, st: nat, se: nat, name: seq<nat>)
    requires s <= st < se <= |src| && Reads(src, s, st, se, name) && Decode1(src, st, se).0 == INVALID
    ensures !Legal(src, s, se)
  {
    ReadsFirst(src, s, st, se, name);
  }

  lemma ReadsNothing(src: seq<byte>, s: nat, se: nat)
    requires s <= se <= |src|
    ensures Reads(src, s, s, se, [])
  {
  }

  lemma WrittenZero(was: seq<byte>, now: seq<byte>, d0: nat, d: nat, de: nat, text: seq<byte>)
    requires Written(was, now, d0, d, de, text) && d < de
    ensures d == d0 + |text| && now[d := 0] == was[..d0] + text + [0] + was[d + 1..]
  {
    assert text[..d - d0] == text;
  }

  // A call of uv__idna_toascii_label in mid-text.
  method AppendLabel(src: seq<byte>, s: nat, se: nat, buf: array<byte>, d: nat, de: nat,
                     ghost was: seq<byte>, ghost d0: nat, ghost text: seq<byte>)
    returns (rc: int, e: nat, ghost part: seq<byte>)
    requires s <= se <= |src| && |Chars(src, s, se)| < 0x8000_0000 && Legal(src, s, se)
    requires Written(was, buf[..], d0, d, de, text)
    modifies buf
    ensures Written(was, buf[..], d0, e, de, text + part)
    ensures
      var all := LabelText(Chars(src, s, se));
      if all.None? then rc == UV_E2BIG else rc >= 0 && part == all.value
  {
    hide Chars, Legal, LabelText;
    ghost var mid := buf[..];
    rc, e, part := ToAsciiLabel(src, s, se, buf, d, de);
  }

  // uv__idna_toascii: a result that is not negative means that the whole text of the host name,
  // no byte of any label dropped, and a NUL byte were written, and counts them.
  method ToAscii(src: seq<byte>, s0: nat, se: nat, buf: array<byte>, d0: nat, de: nat) returns (rc: int)
    requires s0 <= se <= |src| && d0 <= de <= buf.Length && |Chars(src, s0, se)| < 0x8000_0000
    modifies buf
    ensures
      var full := HostText(Labels(Chars(src, s0, se)));
      if s0 == se then rc == UV_EINVAL
      else if !Legal(src, s0, se) then rc == UV_EINVAL || (rc == UV_E2BIG && full.None?)
      else if full.None? then rc == UV_E2BIG
      else if d0 + |full.value| >= de then rc == UV_EINVAL
      else rc == |full.value| + 1 && buf[..] == old(buf[..d0]) + full.value + [0] + old(buf[d0 + |full.value| + 1..])
    ensures buf[..d0] == old(buf[..d0]) && buf[de..] == old(buf[de..])
  {
    hide Decode1, Written, Chars, Legal, Reads, Labels, LabelText, HostText, Rest;
    ghost var was := buf[..];
    ghost var full := HostText(Labels(Chars(src, s0, se)));
    ghost var text: seq<byte> := [];
    ghost var name: seq<nat> := [];
    var s: nat, si: nat, d: nat := s0, s0, d0;
    WrittenNothing(was, d0, de);
    if s0 == se {
      WrittenFrame(was, buf[..], d0, d, de, text);
      return UV_EINVAL;
    }
    RestStart(full);
    ReadsNothing(src, s, se);
    while si < se
      invariant s0 <= s <= si <= se && Reads(src, s, si, se, name) && NoDots(name)
      invariant (Legal(src, s0, se) <==> Legal(src, s, se)) && |Chars(src, s, se)| < 0x8000_0000
      invariant Rest(full, text, HostText(Labels(Chars(src, s, se))))
      invariant Written(was, buf[..], d0, d, de, text)
      decreases se - si
    {
      WrittenFrame(was, buf[..], d0, d, de, text);
      var st := si;
      var (c, q) := Decode1(src, si, se);
      si := q;
      if c == INVALID {
        ReadsBad(src, s, st, se, name);
        return UV_EINVAL;
      }
      HostStep(src, s, st, se, name);
      if !IsDot(c) {
        name := name + [c];
        continue;
      }
      ghost var rest := Chars(src, si, se);
      HostCut(name, c, rest);
      ghost var part;
      var e: nat;
      rc, e, part := AppendLabel(src, s, st, buf, d, de, was, d0, text);
      WrittenFrame(was, buf[..], d0, e, de, text + part);
      if rc < 0 {
        RestNone(full, text);
        return;
      }
      d := Put(buf, e, de, 0x2E, was, d0, text + part);
      RestOn(full, text, part + [0x2E], HostText(Labels(rest)));
      assert (text + part) + [0x2E] == text + (part + [0x2E]);
      text := text + (part + [0x2E]);
      s, name := si, [];
      ReadsNothing(src, s, se);
    }
    ReadsAlone(src, s, se, se, name);
    HostLast(name);
    WrittenFrame(was, buf[..], d0, d, de, text);
    if s < se {
      ghost var part;
      var e: nat;
      rc, e, part := AppendLabel(src, s, se, buf, d, de, was, d0, text);
      WrittenFrame(was, buf[..], d0, e, de, text + part);
      if rc < 0 {
        RestNone(full, text);
        return;
      }
      RestLast(full, text, part);
      text := text + part;
      d := e;
    } else {
      NoName(src, se, name);
      RestEnd(full, text);
    }
    WrittenFrame(was, buf[..], d0, d, de, text);
    if d >= de {
      return UV_EINVAL;
    }
    WrittenZero(was, buf[..], d0, d, de, text);
    buf[d] := 0;
    d := d + 1;
    rc := d - d0;
  }

  lemma NoName(src: seq<byte>, se: nat, name: seq<nat>)
    requires se <= |src| && Reads(src, se, se, se, name)
    ensures name == []
  {
  }

  lemma RestLast(total: Option<seq<byte>>, a: seq<byte>, b: seq<byte>)
    requires Rest(total, a, Some(b))
    ensures total == Some(a + b)
  {
  }

  lemma WrittenFrame(was: seq<byte>, now: seq<byte>, d0: nat, d: nat, de: nat, text: seq<byte>)
    requires Written(was, now, d0, d, de, text)
    ensures now[..d0] == was[..d0] && now[de..] == was[de..] && |now| == |was|
    ensures d0 <= d <= de && (d >= de <==> d0 + |text| >= de)
  {
  }
}
