/** Which labels src/idna.c refuses as too big: those of which a delta does not fit in 32 bits. */
module PunycodeLimit {
  import opened Common
  import opened Punycode
  import opened Punycode32
  import opened Rfc3492

  // The position behind the last x in s, or 0.
  function Behind(s: seq<nat>, x: nat): (p: nat)
    ensures p <= |s| && (p > 0 ==> s[p - 1] == x) && x !in s[p..]
  {
    if s == [] then 0
    else if s[|s| - 1] == x then |s|
    else
      var p := Behind(s[..|s| - 1], x);
      assert s[p..] == s[..|s| - 1][p..] + [s[|s| - 1]];
      p
  }

  // What the text has to say of the code point at pos: how far the decoder has to count from behind the
  // last insertion, where it has put out the lesser code points and the equal ones on the left.
  function Delta(cps: seq<nat>, pos: nat): int
    requires pos < |cps|
  {
    var out := Sofar(cps, pos, cps[pos]);
    Reach(cps, pos) - Behind(out, Greatest(out))
  }

  // The deltas of round n from pos on and of the later rounds fit.
  ghost predicate DeltasFit(cps: seq<nat>, pos: nat, n: nat) {
    forall p :: 0 <= p < |cps| && (cps[p] > n || (cps[p] == n && p >= pos)) ==> Delta(cps, p) <= UINT_MAX
  }

  // The same for the whole label.
  ghost predicate Encodable(cps: seq<nat>) {
    forall p :: 0 <= p < |cps| && cps[p] >= 128 ==> Delta(cps, p) <= UINT_MAX
  }

  // The decoder's place when the encoder is at pos of round n.
  ghost predicate Place(cps: seq<nat>, pos: nat, n: nat, n0: nat, i0: nat, h: nat)
    requires pos <= |cps|
  {
    var out := Sofar(cps, pos, n);
    h == |out| && n0 == Greatest(out) && i0 == Behind(out, n0)
  }

  lemma DeltaIs(cps: seq<nat>, pos: nat, delta: nat, n0: nat, i0: nat)
    requires pos < |cps| && Place(cps, pos, cps[pos], n0, i0, |Sofar(cps, pos, cps[pos])|)
    requires
      var n := cps[pos];
      Distance(delta, n0, i0, n, |Below(cps[..pos], n + 1)|, |Sofar(cps, pos, n)|)
    ensures Delta(cps, pos) == delta
  {
    hide Sofar, Below, Greatest, Reach, Behind;
    ReachIs(cps, pos, delta, n0, i0);
  }

  lemma Inserted(cps: seq<nat>, pos: nat, n: nat)
    requires pos < |cps| && cps[pos] == n >= 128
    ensures Place(cps, pos + 1, n, n, |Below(cps[..pos], n + 1)| + 1, |Sofar(cps, pos, n)| + 1)
  {
    hide Below, Greatest;
    SofarStep(cps, pos, n);
    InsertedGreatest(cps, pos, n);
    BelowBound(cps[pos + 1..], n);
    var i, out := |Below(cps[..pos], n + 1)|, Sofar(cps, pos + 1, n);
    BehindIs(out, n, i);
  }

  lemma BehindIs(s: seq<nat>, x: nat, i: nat)
    requires i < |s| && s[i] == x && forall j :: i < j < |s| ==> s[j] != x
    ensures Behind(s, x) == i + 1
  {
    var p := Behind(s, x);
    InSlice(s, if p <= i then p else i, i);
  }

  lemma InSlice(s: seq<nat>, p: nat, i: nat)
    requires p <= i < |s|
    ensures s[i] in s[p..]
  {
    assert s[p..][i - p] == s[i];
  }

  // The first n from pos on.
  lemma {:induction false} NextAt(cps: seq<nat>, pos: nat, n: nat) returns (p: nat)
    requires pos <= |cps| && n in cps[pos..]
    ensures pos <= p < |cps| && cps[p] == n && n !in cps[pos..p]
    decreases |cps| - pos
  {
    if cps[pos] == n {
      p := pos;
    } else {
      assert cps[pos..] == [cps[pos]] + cps[pos + 1..];
      p := NextAt(cps, pos + 1, n);
      assert cps[pos..p] == [cps[pos]] + cps[pos + 1..p];
    }
  }

  lemma {:induction false} SofarPast(cps: seq<nat>, pos: nat, p: nat, n: nat)
    requires pos <= p <= |cps| && n !in cps[pos..p]
    ensures Sofar(cps, p, n) == Sofar(cps, pos, n)
    ensures |Below(cps[..p], n + 1)| == |Below(cps[..pos], n + 1)| + |Below(cps[pos..p], n)|
    decreases p - pos
  {
    hide Below;
    if pos < p {
      SofarStep(cps, pos, n);
      assert cps[pos] == cps[pos..p][0];
      assert cps[pos..p][1..] == cps[pos + 1..p];
      SofarPast(cps, pos + 1, p, n);
      BelowOne(cps[pos..p], n);
    } else {
      BelowAll([], n);
      assert cps[pos..p] == [];
    }
  }

  lemma BelowOne(s: seq<nat>, n: nat)
    requires s != []
    ensures |Below(s, n)| == |Below(s[1..], n)| + if s[0] < n then 1 else 0
  {
  }

  // The next delta of a round is what was counted and the lesser code points before it.
  lemma NextDelta(cps: seq<nat>, pos: nat, p: nat, delta: nat, n0: nat, i0: nat, h: nat)
    requires pos <= p < |cps| && cps[p] !in cps[pos..p] && Place(cps, pos, cps[p], n0, i0, h)
    requires Distance(delta, n0, i0, cps[p], |Below(cps[..pos], cps[p] + 1)|, h)
    ensures Delta(cps, p) == delta + |Below(cps[pos..p], cps[p])|
  {
    hide Sofar, Below, Greatest, Behind, Delta;
    var n := cps[p];
    SofarPast(cps, pos, p, n);
    DeltaIs(cps, p, delta + |Below(cps[pos..p], n)|, n0, i0);
  }

  // From the end of round n to the start of the next round, for m.
  lemma RoundPlace(cps: seq<nat>, n: nat, m: nat, n0: nat, i0: nat, h: nat)
    requires n < m && Place(cps, |cps|, n, n0, i0, h) && forall i :: 0 <= i < |cps| ==> cps[i] <= n || cps[i] >= m
    ensures Place(cps, 0, m, n0, i0, h) && Below(cps[..0], m + 1) == []
  {
    hide Below, Greatest, Behind;
    SofarEnds(cps, n, m);
    BelowGap(cps, n + 1, m);
  }

  lemma SofarEnds(cps: seq<nat>, n: nat, m: nat)
    ensures Sofar(cps, |cps|, n) == Below(cps, n + 1) && Sofar(cps, 0, m) == Below(cps, m)
    ensures Below(cps[..0], m + 1) == [] && Below(cps[..|cps|], n + 1) == Below(cps, n + 1)
  {
    assert cps[..|cps|] == cps && cps[|cps|..] == [] && cps[..0] == [] && cps[0..] == cps;
  }

  // The count is full while round n goes on: the next delta does not fit.
  lemma OverfullHere(cps: seq<nat>, pos: nat, n: nat, delta: nat, n0: nat, i0: nat, h: nat)
    requires pos < |cps| && cps[pos] < n && n in cps[pos..] && delta == UINT_MAX
    requires Place(cps, pos, n, n0, i0, h) && Distance(delta, n0, i0, n, |Below(cps[..pos], n + 1)|, h)
    ensures !DeltasFit(cps, pos, n)
  {
    hide Below, Distance, Place, Delta;
    var p := NextAt(cps, pos, n);
    NextDelta(cps, pos, p, delta, n0, i0, h);
    assert p > pos;
    BelowOne(cps[pos..p], n);
  }

  // So it is when the round ends without another n.
  lemma OverfullLater(cps: seq<nat>, pos: nat, n: nat, m: nat, delta: nat, n0: nat, i0: nat, h: nat)
    requires pos < |cps| && n !in cps[pos..] && m in cps && n < m && delta == UINT_MAX
    requires forall i :: 0 <= i < |cps| ==> cps[i] <= n || cps[i] >= m
    requires Place(cps, pos, n, n0, i0, h) && Distance(delta, n0, i0, n, |Below(cps[..pos], n + 1)|, h)
    ensures !DeltasFit(cps, pos, n)
  {
    hide Below, Distance, Greatest, Behind, Delta, Skip;
    var rest := |Below(cps[pos..], n)|;
    assert cps[pos..|cps|] == cps[pos..];
    SofarPast(cps, pos, |cps|, n);
    SofarEnds(cps, n, m);
    RoundPlace(cps, n, m, n0, i0, h);
    DistanceMore(delta, rest, n0, i0, n, |Below(cps[..pos], n + 1)|, h);
    DistanceTurn(delta + rest, n0, i0, n, h);
    DistanceSkip(delta + rest + 1, n0, i0, n + 1, m, h);
    assert cps[0..] == cps;
    var p := NextAt(cps, 0, m);
    NextDelta(cps, 0, p, delta + rest + 1 + Skip(n + 1, m, h), n0, i0, h);
  }

  lemma DistanceMore(delta: nat, k: nat, n0: nat, i0: nat, n: nat, i: nat, h: nat)
    requires Distance(delta, n0, i0, n, i, h)
    ensures Distance(delta + k, n0, i0, n, i + k, h)
  {
  }

  // Behind the last code point of a label the count is short.
  lemma ShortAtEnd(cps: seq<nat>, pos: nat, n: nat, delta: nat, n0: nat, i0: nat, h: nat)
    requires pos < |cps| < UINT_MAX && n in cps && n !in cps[pos..] && n >= 128
    requires forall i :: 0 <= i < |cps| ==> cps[i] <= n
    requires Place(cps, pos, n, n0, i0, h) && Distance(delta, n0, i0, n, |Below(cps[..pos], n + 1)|, h)
    ensures delta < UINT_MAX
  {
    hide Below, Greatest, Behind;
    SofarPast(cps, pos, |cps|, n);
    assert cps[pos..|cps|] == cps[pos..];
    SofarEnds(cps, n, n);
    BelowAll(cps, n + 1);
    GreatestIs(cps, n);
    BelowLength(cps[..pos], n + 1);
    assert (n - n0) * (h + 1) == 0;
  }

  lemma {:induction false} ScanExact(cps: seq<nat>, pos: nat, n: nat, delta: nat, bias: nat, h: nat, first: bool,
    n0: nat, i0: nat)
    requires CodePoints(cps) && pos <= |cps| < UINT_MAX && 128 <= n <= MAX_CODE_POINT && n in cps && delta <= UINT_MAX
    requires Place(cps, pos, n, n0, i0, h) && Distance(delta, n0, i0, n, |Below(cps[..pos], n + 1)|, h)
    ensures ScanText(cps, pos, n, delta, bias, h, first).Some? <==> DeltasFit(cps, pos, n)
    decreases MAX_CODE_POINT + 1 - n, |cps| - pos
  {
    hide IntText, Adapt, Below, Distance, Greatest, Behind, Delta, Sofar;
    var i := |Below(cps[..pos], n + 1)|;
    if pos == |cps| {
      SofarEnds(cps, n, n + 1);
      assert i == h;
      DistanceTurn(delta, n0, i0, n, h);
      RoundExact(cps, n + 1, delta + 1, bias, h, first, n0, i0);
      assert DeltasFit(cps, pos, n) == DeltasFit(cps, 0, n + 1);
    } else {
      SofarStep(cps, pos, n);
      DeltasFitStep(cps, pos, n);
      if cps[pos] == n {
        ScanExactInsert(cps, pos, n, delta, bias, h, first, n0, i0);
      } else {
        SofarSame(cps, pos, n);
        if cps[pos] > n {
          ScanExact(cps, pos + 1, n, delta, bias, h, first, n0, i0);
        } else if delta < UINT_MAX {
          DistanceStep(delta, n0, i0, n, i, h);
          ScanExact(cps, pos + 1, n, delta + 1, bias, h, first, n0, i0);
        } else {
          Overfull(cps, pos, n, delta, n0, i0, h);
        }
      }
    }
  }

  lemma Overfull(cps: seq<nat>, pos: nat, n: nat, delta: nat, n0: nat, i0: nat, h: nat)
    requires CodePoints(cps) && pos < |cps| < UINT_MAX && 128 <= n <= MAX_CODE_POINT && n in cps
    requires cps[pos] < n && delta == UINT_MAX
    requires Place(cps, pos, n, n0, i0, h) && Distance(delta, n0, i0, n, |Below(cps[..pos], n + 1)|, h)
    ensures !DeltasFit(cps, pos, n)
  {
    hide Below, Distance, Place, Delta, LeastFrom;
    if n in cps[pos..] {
      OverfullHere(cps, pos, n, delta, n0, i0, h);
    } else {
      var m := LeastFrom(cps, n + 1, UINT_MAX);
      LeastFromIs(cps, n + 1, UINT_MAX);
      if m <= MAX_CODE_POINT {
        OverfullLater(cps, pos, n, m, delta, n0, i0, h);
      } else {
        ShortAtEnd(cps, pos, n, delta, n0, i0, h);
      }
    }
  }

  lemma SofarSame(cps: seq<nat>, pos: nat, n: nat)
    requires pos < |cps| && cps[pos] != n
    ensures Sofar(cps, pos + 1, n) == Sofar(cps, pos, n)
  {
    hide Below;
    SofarStep(cps, pos, n);
  }

  lemma DeltasFitStep(cps: seq<nat>, pos: nat, n: nat)
    requires pos < |cps|
    ensures DeltasFit(cps, pos, n) <==> DeltasFit(cps, pos + 1, n) && (cps[pos] == n ==> Delta(cps, pos) <= UINT_MAX)
  {
    hide Delta;
    if DeltasFit(cps, pos + 1, n) && (cps[pos] == n ==> Delta(cps, pos) <= UINT_MAX) {
      forall p | 0 <= p < |cps| && (cps[p] > n || (cps[p] == n && p >= pos)) ensures Delta(cps, p) <= UINT_MAX {
        assert p == pos || p >= pos + 1 || cps[p] > n;
      }
    }
  }

  lemma {:induction false} ScanExactInsert(cps: seq<nat>, pos: nat, n: nat, delta: nat, bias: nat, h: nat, first: bool,
    n0: nat, i0: nat)
    requires CodePoints(cps) && pos < |cps| < UINT_MAX && 128 <= n <= MAX_CODE_POINT && cps[pos] == n
    requires delta <= UINT_MAX
    requires Place(cps, pos, n, n0, i0, h) && Distance(delta, n0, i0, n, |Below(cps[..pos], n + 1)|, h)
    ensures ScanText(cps, pos, n, delta, bias, h, first).Some? <==> DeltasFit(cps, pos, n)
    decreases MAX_CODE_POINT + 1 - n, |cps| - pos, 0
  {
    hide IntText, Adapt, Below, Distance, Greatest, Behind, Delta, Sofar, DeltasFit;
    var i := |Below(cps[..pos], n + 1)|;
    SofarStep(cps, pos, n);
    DeltasFitStep(cps, pos, n);
    DeltaIs(cps, pos, delta, n0, i0);
    Inserted(cps, pos, n);
    DistanceZero(n, i + 1, h + 1);
    ScanExact(cps, pos + 1, n, 0, Adapt(delta, h + 1, first), h + 1, false, n, i + 1);
  }

  lemma {:induction false} RoundExact(cps: seq<nat>, n: nat, delta: nat, bias: nat, h: nat, first: bool, n0: nat,
    i0: nat)
    requires CodePoints(cps) && |cps| < UINT_MAX && 128 <= n <= MAX_CODE_POINT + 1
    requires h == |Below(cps, n)| && n0 == Greatest(Below(cps, n)) && i0 == Behind(Below(cps, n), n0)
    requires Distance(delta, n0, i0, n, 0, h)
    ensures RoundText(cps, n, delta, bias, h, first).Some? <==> DeltasFit(cps, 0, n)
    decreases MAX_CODE_POINT + 1 - n, |cps| + 1
  {
    hide IntText, Adapt, Below, LeastFrom, Distance, Skip, Greatest, Behind, Delta, Sofar;
    var m := LeastFrom(cps, n, UINT_MAX);
    LeastFromIs(cps, n, UINT_MAX);
    if m <= MAX_CODE_POINT {
      var next := delta + Skip(n, m, h);
      BelowGap(cps, n, m);
      SofarEnds(cps, n, m);
      DistanceSkip(delta, n0, i0, n, m, h);
      if next <= UINT_MAX {
        ScanExact(cps, 0, m, next, bias, h, first, n0, i0);
        assert DeltasFit(cps, 0, n) == DeltasFit(cps, 0, m);
      } else {
        assert cps[0..] == cps;
        var p := NextAt(cps, 0, m);
        NextDelta(cps, 0, p, next, n0, i0, h);
      }
    }
  }

  // A label is refused if and only if a delta of it does not fit.
  lemma EncodesExactly(cps: seq<nat>)
    requires CodePoints(cps) && |cps| < UINT_MAX
    ensures Encode(cps).Some? <==> Encodable(cps)
  {
    hide RoundText, Below, Delta, Greatest, Behind;
    var basic := Basic(cps);
    DistanceZero(128, 0, |basic|);
    BasicGreatest(basic);
    assert Behind(basic, 128) == 0;
    RoundExact(cps, 128, 0, 72, |basic|, true, 128, 0);
    assert DeltasFit(cps, 0, 128) == Encodable(cps);
  }
}
