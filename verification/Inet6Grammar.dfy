/** The texts that inet_pton6 of src/inet.c accepts, and the address that each stands for. */
module Inet6Grammar {
  import opened Common
  import opened Inet
  import opened Inet6

  // ---------- numbers ----------

  const LOWER := "0123456789abcdef"
  const UPPER := "0123456789ABCDEF"

  // The character is the hexadecimal digit d, in either case.
  predicate IsDigit(c: char, d: nat) {
    d < 16 && (c == LOWER[d] || c == UPPER[d])
  }

  lemma HexValueIs(c: char, d: nat)
    ensures HexValue(c) == Some(d) <==> IsDigit(c, d)
  {
    if d < 16 {
      LowerAt(d);
      UpperAt(d);
    }
  }

  lemma LowerAt(d: nat)
    requires d < 16
    ensures LOWER[d] == if d < 10 then '0' + d as char else 'a' + (d - 10) as char
  {
  }

  lemma UpperAt(d: nat)
    requires d < 16
    ensures UPPER[d] == if d < 10 then '0' + d as char else 'A' + (d - 10) as char
  {
  }

  // The text is the number v in hexadecimal, with any number of leading zeros.
  ghost predicate Spells(text: string, v: nat) {
    if text == "" then v == 0 else IsDigit(text[|text| - 1], v % 16) && Spells(text[..|text| - 1], v / 16)
  }

  // ---------- texts ----------

  // One to four digits and their value.
  datatype Group = Group(text: string, value: word)

  // What stands at the end of a text: nothing, a group, or the four octets of an IPv4 address.
  datatype Ending = Nothing | Last(g: Group) | Quad(b: seq<byte>)

  ghost predicate GroupOk(g: Group) {
    1 <= |g.text| <= 4 && Spells(g.text, g.value)
  }

  ghost predicate AllOk(gs: seq<Group>) {
    forall i :: 0 <= i < |gs| ==> GroupOk(gs[i])
  }

  // Groups with a colon after each.
  function Colons(gs: seq<Group>): string {
    if gs == [] then "" else Colons(gs[..|gs| - 1]) + gs[|gs| - 1].text + ":"
  }

  function GroupBytes(gs: seq<Group>): (b: seq<byte>)
    ensures |b| == 2 * |gs|
  {
    if gs == [] then []
    else
      var v := gs[|gs| - 1].value;
      GroupBytes(gs[..|gs| - 1]) + [v / 0x100, v % 0x100]
  }

  // The text up to the two colons, if the first part is followed by them.
  function Front(gap: Option<seq<Group>>): string {
    match gap
    case None => ""
    case Some(gs) => if gs == [] then "::" else Colons(gs) + ":"
  }

  ghost predicate EndOk(e: Ending) {
    match e
    case Nothing => true
    case Last(g) => GroupOk(g)
    case Quad(b) => |b| == 4
  }

  function EndText(e: Ending): string
    requires e.Quad? ==> |e.b| == 4
  {
    match e
    case Nothing => ""
    case Last(g) => g.text
    case Quad(b) => Text4(b)
  }

  function EndBytes(e: Ending): seq<byte> {
    match e
    case Nothing => []
    case Last(g) => [g.value / 0x100, g.value % 0x100]
    case Quad(b) => b
  }

  ghost predicate PartsOk(gap: Option<seq<Group>>, gs: seq<Group>, e: Ending) {
    (gap.Some? ==> AllOk(gap.value)) && AllOk(gs) && EndOk(e) && (e == Nothing ==> gap.Some? && gs == [])
  }

  function GapBytes(gap: Option<seq<Group>>): seq<byte> {
    if gap.None? then [] else GroupBytes(gap.value)
  }

  // The text stands for the address: without two colons its groups are the eight words, of which the last
  // two may be written as an IPv4 address; with them at least one word is left out, and those left out are 0.
  ghost predicate StandsFor(s: string, gap: Option<seq<Group>>, gs: seq<Group>, e: Ending, b: seq<byte>) {
    && PartsOk(gap, gs, e)
    && s == Front(gap) + Colons(gs) + EndText(e)
    && var first, second := GapBytes(gap), GroupBytes(gs) + EndBytes(e);
       if gap.None? then b == second && |b| == 16
       else |first| + |second| < 16 && b == first + Zeros(16 - |first| - |second|) + second
  }

  ghost predicate IsAddress(s: string, b: seq<byte>) {
    exists gap, gs, e :: StandsFor(s, gap, gs, e, b)
  }

  // ---------- what is accepted stands for an address ----------

  // What the parser has read before position i: a part before two colons or none, groups with colons,
  // and the beginning of a group from st.token on.
  ghost predicate HasRead(src: string, i: nat, st: State, gap: Option<seq<Group>>, gs: seq<Group>) {
    && StateOk(src, i, st) && (gap.Some? ==> AllOk(gap.value)) && AllOk(gs)
    && src[..st.token] == Front(gap) + Colons(gs)
    && st.out == GapBytes(gap) + GroupBytes(gs)
    && st.colon == (if gap.None? then None else Some(|GapBytes(gap)|))
    && st.seen == i - st.token <= 4 && st.val < Power16(st.seen) && Spells(src[st.token..i], st.val)
    && (gap.None? && gs == [] ==> st.token == 0 && (src == "" || src[0] != ':'))
    && (gs != [] ==> st.token < |src|)
  }

  function Power16(n: nat): nat {
    if n == 0 then 1 else 16 * Power16(n - 1)
  }

  lemma SpellsMore(text: string, v: nat, c: char, d: nat)
    requires Spells(text, v) && IsDigit(c, d)
    ensures Spells(text + [c], v * 16 + d)
  {
    assert (text + [c])[..|text|] == text;
    assert (v * 16 + d) / 16 == v && (v * 16 + d) % 16 == d;
  }

  lemma ColonsMore(gs: seq<Group>, g: Group)
    requires AllOk(gs) && GroupOk(g)
    ensures Colons(gs + [g]) == Colons(gs) + g.text + ":" && AllOk(gs + [g])
    ensures GroupBytes(gs + [g]) == GroupBytes(gs) + [g.value / 0x100, g.value % 0x100]
  {
    assert (gs + [g])[..|gs|] == gs;
  }

  lemma DigitRead(src: string, i: nat, st: State, gap: Option<seq<Group>>, gs: seq<Group>)
    requires HasRead(src, i, st, gap, gs) && i < |src| && HexValue(src[i]).Some? && st.seen < 4
    ensures
      var d := HexValue(src[i]).value;
      HasRead(src, i + 1, st.(seen := st.seen + 1, val := st.val * 16 + d), gap, gs)
  {
    hide HexValue, Front, Colons, GapBytes, GroupBytes, AllOk;
    var d := HexValue(src[i]).value;
    HexValueIs(src[i], d);
    assert src[st.token..i + 1] == src[st.token..i] + [src[i]];
    SpellsMore(src[st.token..i], st.val, src[i], d);
  }

  // The group that ends before position i.
  lemma GroupRead(src: string, i: nat, st: State, gap: Option<seq<Group>>, gs: seq<Group>) returns (g: Group)
    requires HasRead(src, i, st, gap, gs) && st.seen > 0
    ensures st.val < 0x1_0000 && g == Group(src[st.token..i], st.val) && GroupOk(g)
  {
    hide Front, Colons, GapBytes, GroupBytes, Spells;
    assert Power16(4) == 0x1_0000;
    PowerGrows(st.seen, 4);
    g := Group(src[st.token..i], st.val);
  }

  lemma {:induction false} PowerGrows(m: nat, n: nat)
    requires m <= n
    ensures Power16(m) <= Power16(n)
    decreases n
  {
    if m < n {
      PowerGrows(m, n - 1);
    }
  }

  lemma {:induction false} Sound(src: string, i: nat, st: State, gap: Option<seq<Group>>, gs: seq<Group>, b: seq<byte>)
    requires StateOk(src, i, st) && HasRead(src, i, st, gap, gs) && Parse(src, i, st) == Some(b)
    ensures IsAddress(src, b)
    decreases |src| - i
  {
    hide HexValue, Finish, HasRead, IsAddress;
    if i == |src| {
      SoundEnd(src, st, gap, gs, b);
    } else if HexValue(src[i]).Some? {
      DigitRead(src, i, st, gap, gs);
      Sound(src, i + 1, st.(seen := st.seen + 1, val := st.val * 16 + HexValue(src[i]).value), gap, gs, b);
    } else if src[i] == ':' {
      if st.seen == 0 {
        GapRead(src, i, st, gap, gs);
        Sound(src, i + 1, st.(colon := Some(|st.out|), token := i + 1), Some(gs), [], b);
      } else {
        ColonRead(src, i, st, gap, gs);
        var g := GroupRead(src, i, st, gap, gs);
        Sound(src, i + 1, Push(st).(token := i + 1), gap, gs + [g], b);
      }
    } else {
      SoundQuad(src, i, st, gap, gs, b);
    }
  }

  lemma GapRead(src: string, i: nat, st: State, gap: Option<seq<Group>>, gs: seq<Group>)
    requires HasRead(src, i, st, gap, gs) && i < |src| && src[i] == ':' && st.seen == 0 && st.colon == None
    ensures HasRead(src, i + 1, st.(colon := Some(|st.out|), token := i + 1), Some(gs), [])
  {
  }

  lemma ColonRead(src: string, i: nat, st: State, gap: Option<seq<Group>>, gs: seq<Group>)
    requires HasRead(src, i, st, gap, gs) && i + 1 < |src| && src[i] == ':' && st.seen > 0 && |st.out| <= 14
    ensures st.val < 0x1_0000
      && HasRead(src, i + 1, Push(st).(token := i + 1), gap, gs + [Group(src[st.token..i], st.val)])
  {
    hide Front, Colons, GapBytes, GroupBytes, Spells, GroupOk, AllOk;
    var g := GroupRead(src, i, st, gap, gs);
    ColonsMore(gs, g);
    PushedBytes(st);
    assert src[..i + 1] == src[..st.token] + src[st.token..i] + ":";
    assert Front(gap) + Colons(gs) + g.text + ":" == Front(gap) + (Colons(gs) + g.text + ":");
    Assoc(GapBytes(gap), GroupBytes(gs), [st.val / 0x100, st.val % 0x100]);
    NoText(src, i + 1);
  }

  lemma PushedBytes(st: State)
    requires st.val < 0x1_0000
    ensures Push(st) == st.(out := st.out + [st.val / 0x100, st.val % 0x100], seen := 0, val := 0)
  {
  }

  lemma NoText(src: string, i: nat)
    requires i <= |src|
    ensures Spells(src[i..i], 0) && Power16(0) == 1
  {
  }

  lemma FinishSome(st: State, b: seq<byte>)
    requires |st.out| <= 16 && (st.colon.Some? ==> st.colon.value <= |st.out|) && Finish(st) == Some(b)
    ensures
      var out := if st.seen > 0 then Push(st).out else st.out;
      if st.colon.None? then |out| == 16 && b == out
      else |out| < 16 && b == out[..st.colon.value] + Zeros(16 - |out|) + out[st.colon.value..]
  {
  }

  // The parts that were read and an ending make an address if the parser's end does.
  lemma Whole(src: string, gap: Option<seq<Group>>, gs: seq<Group>, e: Ending, out: seq<byte>, b: seq<byte>)
    requires PartsOk(gap, gs, e) && src == Front(gap) + Colons(gs) + EndText(e)
    requires out == GapBytes(gap) + GroupBytes(gs) + EndBytes(e)
    requires
      if gap.None? then |out| == 16 && b == out
      else
        var n := |GapBytes(gap)|;
        |out| < 16 && b == out[..n] + Zeros(16 - |out|) + out[n..]
    ensures IsAddress(src, b)
  {
    hide Front, Colons, GroupBytes, EndText, EndBytes, PartsOk, Zeros, IsAddress;
    var first, second := GapBytes(gap), GroupBytes(gs) + EndBytes(e);
    Assoc(first, GroupBytes(gs), EndBytes(e));
    assert out == first + second && out[..|first|] == first && out[|first|..] == second;
    assert gap.None? ==> first == [] && [] + second == second;
    assert StandsFor(src, gap, gs, e, b);
    ThisOne(src, gap, gs, e, b);
  }

  lemma ThisOne(src: string, gap: Option<seq<Group>>, gs: seq<Group>, e: Ending, b: seq<byte>)
    requires StandsFor(src, gap, gs, e, b)
    ensures IsAddress(src, b)
  {
    hide StandsFor;
  }

  lemma SoundEnd(src: string, st: State, gap: Option<seq<Group>>, gs: seq<Group>, b: seq<byte>)
    requires HasRead(src, |src|, st, gap, gs) && Finish(st) == Some(b)
    ensures IsAddress(src, b)
  {
    hide Front, Colons, GapBytes, GroupBytes, Spells, GroupOk, AllOk, IsAddress, Finish, Push, Zeros;
    assert src == src[..st.token] + src[st.token..];
    FinishSome(st, b);
    if st.seen > 0 {
      var g := GroupRead(src, |src|, st, gap, gs);
      PushedBytes(st);
      assert src[st.token..|src|] == src[st.token..];
      Whole(src, gap, gs, Last(g), Push(st).out, b);
    } else {
      assert src[st.token..] == "";
      EmptyEnd(src, st, gap, gs);
      assert st.out + [] == st.out;
      Whole(src, gap, gs, Nothing, st.out, b);
    }
  }

  lemma EmptyEnd(src: string, st: State, gap: Option<seq<Group>>, gs: seq<Group>)
    requires HasRead(src, |src|, st, gap, gs) && st.seen == 0 && (st.colon.None? ==> |st.out| == 16)
    ensures gap.Some? && gs == []
  {
    hide Front, Colons, Spells, GroupOk, AllOk;
  }

  lemma SoundQuad(src: string, i: nat, st: State, gap: Option<seq<Group>>, gs: seq<Group>, b: seq<byte>)
    requires StateOk(src, i, st) && HasRead(src, i, st, gap, gs)
    requires i < |src| && HexValue(src[i]).None? && src[i] != ':' && Parse(src, i, st) == Some(b)
    ensures IsAddress(src, b)
  {
    hide Front, Colons, GapBytes, GroupBytes, Spells, GroupOk, AllOk, IsAddress, Finish, Push, Zeros, Text4, HexValue,
      Pton4;
    var v4 := Pton4(src[st.token..]).value;
    Exact4(src[st.token..], v4);
    assert src == src[..st.token] + src[st.token..];
    var u := st.(out := st.out + v4, seen := 0);
    FinishSome(u, b);
    Whole(src, gap, gs, Quad(v4), u.out, b);
  }

  // ---------- what stands for an address is accepted ----------

  lemma {:induction false} ReadsText(src: string, i: nat, st: State, text: string, v: nat)
    requires StateOk(src, i, st) && st.seen == 0 && st.val == 0 && |text| <= 4 && Spells(text, v)
    requires i + |text| <= |src| && src[i..i + |text|] == text
    ensures Parse(src, i, st) == Parse(src, i + |text|, st.(seen := |text|, val := v))
    decreases |text|
  {
    hide Finish, Push, HexValue, IsDigit;
    if text == "" {
      assert st.(seen := 0, val := 0) == st;
    } else {
      var k := |text| - 1;
      assert src[i..i + k] == text[..k];
      assert src[i + k] == text[k];
      ReadsText(src, i, st, text[..k], v / 16);
      HexValueIs(text[k], v % 16);
      assert v / 16 * 16 + v % 16 == v;
    }
  }

  // A group and its colon, which is not the end of the text.
  lemma ReadsGroup(src: string, i: nat, st: State, g: Group, rest: string)
    requires StateOk(src, i, st) && st.seen == 0 && st.val == 0 && |st.out| <= 14 && GroupOk(g)
    requires src[i..] == g.text + ":" + rest && rest != ""
    ensures
      var j := i + |g.text| + 1;
      && j <= |src| && src[j..] == rest
      && Parse(src, i, st) == Parse(src, j, st.(out := st.out + [g.value / 0x100, g.value % 0x100], token := j))
  {
    hide Finish, Push, HexValue, Spells;
    var n := |g.text|;
    assert src[i..i + n] == src[i..][..n] == g.text;
    assert src[i + n] == src[i..][n] == ':';
    assert src[i + n + 1..] == src[i..][n + 1..] == rest;
    ReadsText(src, i, st, g.text, g.value);
    PushedBytes(st.(seen := n, val := g.value));
    ColonIs(src, i + n, st.(seen := n, val := g.value));
  }

  lemma ColonIs(src: string, i: nat, st: State)
    requires StateOk(src, i, st) && i + 1 < |src| && src[i] == ':' && st.seen > 0 && |st.out| <= 14
    ensures Parse(src, i, st) == Parse(src, i + 1, Push(st).(token := i + 1))
  {
    hide Finish;
  }

  lemma {:induction false} ReadsGroups(src: string, i: nat, st: State, gs: seq<Group>, rest: string)
    requires StateOk(src, i, st) && st.seen == 0 && st.val == 0 && |st.out| + 2 * |gs| <= 16 && AllOk(gs)
    requires src[i..] == Colons(gs) + rest && (gs != [] ==> rest != "")
    ensures
      var j := i + |Colons(gs)|;
      && j <= |src| && src[j..] == rest
      && Parse(src, i, st)
         == Parse(src, j, st.(out := st.out + GroupBytes(gs), token := if gs == [] then st.token else j))
    decreases |gs|
  {
    hide Finish, Push, HexValue, Spells, Parse;
    if gs == [] {
      assert st.out + [] == st.out && st.(out := st.out, token := st.token) == st;
      assert Colons(gs) + rest == rest;
    } else {
      var k := |gs| - 1;
      var g := gs[k];
      var more := g.text + ":" + rest;
      assert Colons(gs) + rest == Colons(gs[..k]) + more;
      ReadsGroups(src, i, st, gs[..k], more);
      var j := i + |Colons(gs[..k])|;
      var u := st.(out := st.out + GroupBytes(gs[..k]), token := if gs[..k] == [] then st.token else j);
      ReadsGroup(src, j, u, g, rest);
      Assoc(st.out, GroupBytes(gs[..k]), [g.value / 0x100, g.value % 0x100]);
    }
  }

  // The ending, from a position where nothing of it was read.
  lemma ReadsEnd(src: string, i: nat, st: State, e: Ending)
    requires StateOk(src, i, st) && st.seen == 0 && st.val == 0 && st.token == i && EndOk(e)
    requires src[i..] == EndText(e) && |st.out| + |EndBytes(e)| <= 16
    ensures Parse(src, i, st) == Finish(st.(out := st.out + EndBytes(e)))
  {
    hide Finish, HexValue, Spells, Parse, Push;
    match e
    case Nothing =>
      assert i == |src| && st.out + [] == st.out;
      AtEnd(src, st);
    case Last(g) =>
      assert src[i..|src|] == g.text;
      ReadsText(src, i, st, g.text, g.value);
      var u := st.(seen := |g.text|, val := g.value);
      AtEnd(src, u);
      PushedBytes(u);
      PushedEnd(u, st.(out := st.out + EndBytes(e)));
    case Quad(b) => Reads4At(src, i, st, b);
  }

  lemma FinishWhole(a: seq<byte>, c: seq<byte>, colon: Option<nat>, token: nat)
    requires if colon.None? then |a| + |c| == 16 else colon.value == |a| && |a| + |c| < 16
    ensures Finish(State(a + c, colon, 0, 0, token))
      == Some(if colon.None? then a + c else a + Zeros(16 - |a| - |c|) + c)
  {
    assert (a + c)[..|a|] == a && (a + c)[|a|..] == c;
  }

  // From behind the two colons, or from the start if there are none.
  lemma RestIs(src: string, i: nat, st: State, gs: seq<Group>, e: Ending)
    requires StateOk(src, i, st) && st.seen == 0 && st.val == 0 && st.token == i && AllOk(gs) && EndOk(e)
    requires (e == Nothing ==> gs == []) && src[i..] == Colons(gs) + EndText(e)
    requires |st.out| + 2 * |gs| + |EndBytes(e)| <= 16
    ensures
      var j := i + |Colons(gs)|;
      Parse(src, i, st) == Finish(st.(out := st.out + (GroupBytes(gs) + EndBytes(e)), token := j))
  {
    hide Finish, HexValue, Spells, Parse, Push, EndBytes, Colons, EndText, GroupBytes, GroupOk, AllOk;
    EndSome(e);
    ReadsGroups(src, i, st, gs, EndText(e));
    var j := i + |Colons(gs)|;
    NoColons();
    var u := st.(out := st.out + GroupBytes(gs), token := j);
    ReadsEnd(src, j, u, e);
    Assoc(st.out, GroupBytes(gs), EndBytes(e));
  }

  lemma CompleteRest(src: string, i: nat, a: seq<byte>, colon: Option<nat>, gs: seq<Group>, e: Ending)
    requires i <= |src| && AllOk(gs) && EndOk(e) && (e == Nothing ==> gs == [])
    requires src[i..] == Colons(gs) + EndText(e)
    requires var n := |a| + 2 * |gs| + |EndBytes(e)|; if colon.None? then n == 16 else colon.value == |a| && n < 16
    ensures
      var c := GroupBytes(gs) + EndBytes(e);
      Parse(src, i, State(a, colon, 0, 0, i)) == Some(if colon.None? then a + c else a + Zeros(16 - |a| - |c|) + c)
  {
    hide Finish, Parse, EndBytes, Zeros, Colons, EndText, GroupBytes, GroupOk, AllOk;
    var st, c, j := State(a, colon, 0, 0, i), GroupBytes(gs) + EndBytes(e), i + |Colons(gs)|;
    RestIs(src, i, st, gs, e);
    assert st.(out := a + c, token := j) == State(a + c, colon, 0, 0, j);
    FinishWhole(a, c, colon, j);
  }

  lemma NoBytes()
    ensures GroupBytes([]) == []
  {
  }

  lemma NoColons()
    ensures Colons([]) == ""
  {
  }

  lemma EndSome(e: Ending)
    requires EndOk(e)
    ensures e != Nothing ==> EndText(e) != ""
  {
    if e.Quad? {
      Text4Nonempty(e.b);
    }
  }

  lemma GroupStarts(text: string, v: nat)
    requires text != "" && Spells(text, v)
    ensures text[0] != ':'
    decreases |text|
  {
    if |text| == 1 {
      HexValueIs(text[0], v % 16);
    } else {
      GroupStarts(text[..|text| - 1], v / 16);
    }
  }

  lemma {:induction false} ColonsStart(gs: seq<Group>)
    requires gs != [] && AllOk(gs)
    ensures Colons(gs) != "" && Colons(gs)[0] != ':'
  {
    var k := |gs| - 1;
    if k == 0 {
      GroupStarts(gs[0].text, gs[0].value);
      assert Colons(gs[..0]) == "";
      assert Colons(gs) == gs[0].text + ":";
    } else {
      ColonsStart(gs[..k]);
    }
  }

  lemma DecStarts(v: nat)
    ensures Dec(v)[0] != ':'
  {
    NumberStarts(v, 10);
  }

  lemma EndStarts(e: Ending)
    requires EndOk(e) && e != Nothing
    ensures EndText(e) != "" && EndText(e)[0] != ':'
  {
    hide Dec;
    if e.Last? {
      GroupStarts(e.g.text, e.g.value);
    } else {
      FirstOctet(e.b);
      DecStarts(e.b[0]);
      assert Text4(e.b)[0] == Text4(e.b)[..|Dec(e.b[0])|][0];
    }
  }

  lemma CompleteWhole(src: string, gs: seq<Group>, e: Ending)
    requires AllOk(gs) && EndOk(e) && e != Nothing && src == Colons(gs) + EndText(e)
    requires 2 * |gs| + |EndBytes(e)| == 16
    ensures Pton6(src) == Some(GroupBytes(gs) + EndBytes(e))
  {
    hide Parse, Colons, EndText, EndBytes, GroupOk, AllOk;
    if gs == [] {
      NoColons();
      EndStarts(e);
    } else {
      ColonsStart(gs);
    }
    assert src[0] == (if gs == [] then EndText(e) else Colons(gs))[0];
    assert src[0..] == src;
    CompleteRest(src, 0, [], None, gs, e);
    assert [] + (GroupBytes(gs) + EndBytes(e)) == GroupBytes(gs) + EndBytes(e);
  }

  lemma PlainStart(src: string)
    requires src == "" || src[0] != ':'
    ensures Pton6(src) == Parse(src, 0, State([], None, 0, 0, 0))
  {
    hide Parse;
  }

  lemma CompleteLeading(src: string, gs: seq<Group>, e: Ending)
    requires AllOk(gs) && EndOk(e) && (e == Nothing ==> gs == [])
    requires src == "::" + (Colons(gs) + EndText(e)) && 2 * |gs| + |EndBytes(e)| < 16
    ensures var c := GroupBytes(gs) + EndBytes(e); Pton6(src) == Some([] + Zeros(16 - |c|) + c)
  {
    hide Parse, Colons, EndText, EndBytes, GroupOk, AllOk, Zeros;
    assert src[0] == ':' && src[1] == ':' && src[2..] == Colons(gs) + EndText(e);
    LeadingColons(src);
    CompleteRest(src, 2, [], Some(0), gs, e);
  }

  lemma CompleteGap(src: string, l: seq<Group>, gs: seq<Group>, e: Ending)
    requires l != [] && AllOk(l) && AllOk(gs) && EndOk(e) && (e == Nothing ==> gs == [])
    requires src == Colons(l) + ":" + (Colons(gs) + EndText(e)) && 2 * |l| + 2 * |gs| + |EndBytes(e)| < 16
    ensures
      var a, c := GroupBytes(l), GroupBytes(gs) + EndBytes(e);
      Pton6(src) == Some(a + Zeros(16 - |a| - |c|) + c)
  {
    hide Parse, Pton6, Colons, EndText, EndBytes, GroupBytes, GroupOk, AllOk, Zeros;
    var rest := Colons(gs) + EndText(e);
    ColonsStart(l);
    assert src[0] == Colons(l)[0];
    PlainStart(src);
    assert src[0..] == src == Colons(l) + (":" + rest);
    ReadsGroups(src, 0, State([], None, 0, 0, 0), l, ":" + rest);
    var j := |Colons(l)|;
    assert [] + GroupBytes(l) == GroupBytes(l);
    SecondColon(src, j, State(GroupBytes(l), None, 0, 0, j), rest);
    CompleteRest(src, j + 1, GroupBytes(l), Some(2 * |l|), gs, e);
  }

  lemma Complete(src: string, gap: Option<seq<Group>>, gs: seq<Group>, e: Ending, b: seq<byte>)
    requires StandsFor(src, gap, gs, e, b)
    ensures Pton6(src) == Some(b)
  {
    hide Pton6, Spells, Zeros, Colons, EndText, EndBytes, GroupOk, AllOk, GroupBytes;
    var rest := Colons(gs) + EndText(e);
    if gap.None? {
      assert "" + Colons(gs) + EndText(e) == rest;
      CompleteWhole(src, gs, e);
    } else {
      assert src == Front(gap) + rest;
      if gap.value == [] {
        assert GroupBytes(gap.value) == [] by { NoBytes(); }
        CompleteLeading(src, gs, e);
      } else {
        CompleteGap(src, gap.value, gs, e);
      }
    }
  }

  lemma SoundStart(src: string, b: seq<byte>)
    requires Pton6(src) == Some(b)
    ensures IsAddress(src, b)
  {
    hide Finish, HexValue, Parse, IsAddress;
    if src != "" && src[0] == ':' {
      LeadingColons(src);
      assert src[..2] == "::" + "";
      assert GroupBytes([]) + GroupBytes([]) == [];
      NoText(src, 2);
      Sound(src, 2, State([], Some(0), 0, 0, 2), Some([]), [], b);
    } else {
      assert src[..0] == "" + "";
      assert GroupBytes([]) + GroupBytes([]) == [];
      NoText(src, 0);
      Sound(src, 0, Start(0), None, [], b);
    }
  }

  // inet_pton6 accepts a text with a result exactly if the text stands for that address.
  lemma Exact6(s: string, b: seq<byte>)
    ensures Pton6(s) == Some(b) <==> IsAddress(s, b)
  {
    hide Pton6, StandsFor;
    if Pton6(s) == Some(b) {
      SoundStart(s, b);
    }
    if IsAddress(s, b) {
      var gap, gs, e :| StandsFor(s, gap, gs, e, b);
      Complete(s, gap, gs, e, b);
    }
  }

  // ---------- upper case ----------

  function LowerChar(c: char): char {
    if 'A' <= c <= 'F' then c - 'A' + 'a' else c
  }

  function Lower(s: string): string {
    seq(|s|, i requires 0 <= i < |s| => LowerChar(s[i]))
  }

  lemma LowerDigit(c: char)
    ensures HexValue(LowerChar(c)) == HexValue(c) && DigitValue(LowerChar(c)) == DigitValue(c)
    ensures (LowerChar(c) == ':' <==> c == ':') && (LowerChar(c) == '.' <==> c == '.')
  {
  }

  lemma {:induction false} Lower4(src: string, i: nat, done: seq<byte>, saw: bool, cur: byte)
    requires i <= |src| && |done| <= 3
    ensures Parse4(Lower(src), i, done, saw, cur) == Parse4(src, i, done, saw, cur)
    decreases |src| - i
  {
    hide HexValue, DigitValue, LowerChar;
    if i < |src| {
      LowerDigit(src[i]);
      var octets := |done| + if saw then 1 else 0;
      var digit := DigitValue(src[i]);
      if digit.Some? {
        if !((saw && cur == 0) || cur * 10 + digit.value > 255 || (!saw && octets + 1 > 4)) {
          Lower4(src, i + 1, done, true, cur * 10 + digit.value);
        }
      } else if src[i] == '.' && saw && octets < 4 {
        Lower4(src, i + 1, done + [cur], false, 0);
      }
    }
  }

  lemma {:induction false} LowerParse(src: string, i: nat, st: State)
    requires StateOk(src, i, st)
    ensures Parse(Lower(src), i, st) == Parse(src, i, st)
    decreases |src| - i
  {
    hide HexValue, LowerChar, Finish, Pton4;
    if i < |src| {
      LowerDigit(src[i]);
      if HexValue(src[i]).Some? {
        if st.seen + 1 <= 4 {
          LowerParse(src, i + 1, st.(seen := st.seen + 1, val := st.val * 16 + HexValue(src[i]).value));
        }
      } else if src[i] == ':' {
        if st.seen == 0 {
          if st.colon.None? {
            LowerParse(src, i + 1, st.(colon := Some(|st.out|), token := i + 1));
          }
        } else if i + 1 < |src| && |st.out| + 2 <= 16 {
          LowerParse(src, i + 1, Push(st).(token := i + 1));
        }
      } else {
        assert Lower(src)[st.token..] == Lower(src[st.token..]);
        LowerQuad(src[st.token..]);
      }
    }
  }

  lemma LowerQuad(s: string)
    ensures Pton4(Lower(s)) == Pton4(s)
  {
    Lower4(s, 0, [], false, 0);
  }

  // The case of the digits does not matter.
  lemma CaseBlind(s: string)
    ensures Pton6(Lower(s)) == Pton6(s)
  {
    hide Parse;
    if s != "" {
      LowerDigit(s[0]);
    }
    if |s| > 1 {
      LowerDigit(s[1]);
    }
    LowerParse(s, 0, Start(0));
    if |s| > 1 {
      LowerParse(s, 1, Start(1));
    }
  }
}
