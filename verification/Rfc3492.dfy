/** Punycode as RFC 3492 defines it: the parameters of section 5, the bias adaptation of section 6.1 and
    the decoder of section 6.2, once on numbers of any size and once with the checks for overflow. */
module Rfc3492 {
  import opened Common

  // ---------- the parameters, section 5 ----------

  const BASE := 36
  const TMIN := 1
  const TMAX := 26
  const SKEW := 38
  const DAMP := 700
  const INITIAL_BIAS := 72
  const INITIAL_N := 0x80
  const DELIMITER: byte := 0x2D

  const UINT_MAX := 0xFFFF_FFFF

  // Letters of either case are the digits from 0, numerals those from 26.
  function ValueOf(b: byte): (v: Option<nat>)
    ensures v.Some? ==> v.value < 36
  {
    if 0x61 <= b <= 0x7A then Some(b - 0x61)
    else if 0x41 <= b <= 0x5A then Some(b - 0x41)
    else if 0x30 <= b <= 0x39 then Some(b - 0x30 + 26)
    else None
  }

  lemma Quotient(x: nat, y: nat)
    requires y >= 1
    ensures x / y <= x && x % y < y && x == y * (x / y) + x % y
  {
    var q := x / y;
    assert x == y * q + x % y;
    assert y * q == q + (y - 1) * q;
  }

  // ---------- bias adaptation, section 6.1 ----------

  function Divided(delta: nat, k: nat): nat
    decreases delta
  {
    if delta > (BASE - TMIN) * TMAX / 2 then Divided(delta / (BASE - TMIN), k + BASE)
    else k + (BASE - TMIN + 1) * delta / (delta + SKEW)
  }

  function Adaptation(delta: nat, numPoints: nat, firstTime: bool): nat
    requires numPoints > 0
  {
    var d := if firstTime then delta / DAMP else delta / 2;
    Quotient(d, numPoints);
    Divided(d + d / numPoints, 0)
  }

  // The threshold for position k, section 6.2.
  function Bound(k: nat, bias: nat): (t: nat)
    ensures TMIN <= t <= TMAX
  {
    if k <= bias + TMIN then TMIN else if k >= bias + TMAX then TMAX else k - bias
  }

  // ---------- the decoder, section 6.2 ----------

  function Scaled(a: nat, b: nat): nat {
    a * b
  }

  // Reads an integer from the front of text: the weight of a digit is the product of BASE - t over
  // the thresholds t of the digits before it.
  function ReadInt(text: seq<byte>, k: nat, bias: nat): (r: Option<(nat, seq<byte>)>)
    ensures r.Some? ==> |r.value.1| < |text|
  {
    if text == [] || ValueOf(text[0]).None? then None
    else
      var digit, t := ValueOf(text[0]).value, Bound(k, bias);
      if digit < t then Some((digit, text[1..]))
      else
        var r := ReadInt(text[1..], k + BASE, bias);
        if r.None? then None else Some((digit + Scaled(BASE - t, r.value.0), r.value.1))
  }

  function Insert(out: seq<nat>, i: nat, n: nat): seq<nat>
    requires i <= |out|
  {
    out[..i] + [n] + out[i..]
  }

  function DecodeDigits(text: seq<byte>, out: seq<nat>, n: nat, i: nat, bias: nat): Option<seq<nat>>
    decreases |text|
  {
    if text == [] then Some(out)
    else
      var r := ReadInt(text, BASE, bias);
      if r.None? then None
      else
        var (delta, rest) := r.value;
        var len, i' := |out| + 1, i + delta;
        var at := i' % len;
        DecodeDigits(rest, Insert(out, at, n + i' / len), n + i' / len, at + 1, Adaptation(delta, len, i == 0))
  }

  // The position of the last delimiter, or 0 if there is none.
  function LastDelimiter(text: seq<byte>): (i: nat)
    ensures i < |text| || i == 0
  {
    if text == [] then 0
    else if text[|text| - 1] == DELIMITER then |text| - 1
    else LastDelimiter(text[..|text| - 1])
  }

  predicate AllBasic(text: seq<byte>) {
    forall i :: 0 <= i < |text| ==> text[i] < 128
  }

  function Decode(text: seq<byte>): Option<seq<nat>> {
    var b := LastDelimiter(text);
    if !AllBasic(text[..b]) then None
    else DecodeDigits(if b > 0 then text[b + 1..] else text, text[..b], INITIAL_N, 0, INITIAL_BIAS)
  }

  // ---------- the decoder with the checks for overflow ----------

  // Reads an integer from the front of text and adds it to i; w is the weight of the next digit.
  function ReadInt32(text: seq<byte>, k: nat, bias: nat, i: nat, w: nat): (r: Option<(nat, seq<byte>)>)
    ensures r.Some? ==> i <= r.value.0 && |r.value.1| < |text|
  {
    if text == [] || ValueOf(text[0]).None? then None
    else
      var digit, t := ValueOf(text[0]).value, Bound(k, bias);
      var next := i + Scaled(digit, w);
      if next > UINT_MAX then None
      else if digit < t then Some((next, text[1..]))
      else if Scaled(BASE - t, w) > UINT_MAX then None
      else ReadInt32(text[1..], k + BASE, bias, next, Scaled(BASE - t, w))
  }

  function DecodeDigits32(text: seq<byte>, out: seq<nat>, n: nat, i: nat, bias: nat): Option<seq<nat>>
    decreases |text|
  {
    if text == [] then Some(out)
    else
      var r := ReadInt32(text, BASE, bias, i, 1);
      if r.None? then None
      else
        var (i', rest) := r.value;
        var len := |out| + 1;
        var at, n' := i' % len, n + i' / len;
        if n' > UINT_MAX then None
        else DecodeDigits32(rest, Insert(out, at, n'), n', at + 1, Adaptation(i' - i, len, i == 0))
  }

  function Decode32(text: seq<byte>): Option<seq<nat>> {
    var b := LastDelimiter(text);
    if !AllBasic(text[..b]) then None
    else DecodeDigits32(if b > 0 then text[b + 1..] else text, text[..b], INITIAL_N, 0, INITIAL_BIAS)
  }
}
