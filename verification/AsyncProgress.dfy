/** The wake-up protocol of src/unix/async.c comes to rest: when nobody sends, opens or closes any more,
    every handle that is due is visited within a bounded number of steps. */
module AsyncProgress {
  import opened Async
  import opened Common

  // ---------- how much there is to do ----------

  function Times(a: nat, b: nat): nat {
    a * b
  }

  lemma {:induction false} TimesLess(k: nat, a: nat, b: nat)
    requires a < b
    ensures Times(k, a) + k <= Times(k, b)
  {
    assert k * b == k * a + k * (b - a);
    assert k * (b - a) == k + k * (b - a - 1);
  }

  lemma TimesFewer(j: nat, k: nat, a: nat)
    requires j <= k
    ensures Times(j, a) <= Times(k, a)
  {
    assert k * a == j * a + (k - j) * a;
  }

  // A sender that may still write a token.
  function Coming(pc: SenderPc): nat {
    if pc.Loaded? || pc.Busy? || pc.Writing? then 1 else 0
  }

  // The steps of a send that are still to be taken.
  function Stage(pc: SenderPc): nat {
    match pc
    case Away => 0
    case Loaded(_) => 4
    case Busy(_) => 3
    case Writing(_) => 2
    case Leaving(_) => 1
  }

  ghost function Sum(ss: seq<SenderPc>, f: SenderPc -> nat): nat {
    if ss == [] then 0 else Sum(ss[1..], f) + f(ss[0])
  }

  lemma {:induction false} SumSet(ss: seq<SenderPc>, s: nat, pc: SenderPc, f: SenderPc -> nat)
    requires s < |ss|
    ensures Sum(ss[s := pc], f) == Sum(ss, f) + f(pc) - f(ss[s])
  {
    if s == 0 {
      assert ss[0 := pc][1..] == ss[1..];
    } else {
      SumSet(ss[1..], s - 1, pc, f);
      assert ss[s := pc][1..] == ss[1..][s - 1 := pc];
    }
  }

  // The handles that a pass visits.
  function Handles(u: State): nat {
    |u.todo| + |u.queue|
  }

  // The tokens that are there or may come.
  ghost function Tokens(u: State): nat {
    u.tokens + Sum(u.senders, Coming)
  }

  // What is left of the pass that runs; a read that finds nothing still leads to a pass.
  function Pass(u: State): nat {
    match u.pc
    case Polling => 1
    case Reading => if u.tokens == 0 then Handles(u) + 3 else 0
    case Visiting => |u.todo| + 2
  }

  // Each token may cause a pass of its own.
  ghost function Rank(u: State): nat {
    Times(Handles(u) + 4, Tokens(u)) + Sum(u.senders, Stage) + Pass(u) + if u.spin.Some? then 1 else 0
  }

  lemma SendFalls(d: Descriptor, u: State, st: Step)
    requires Enabled(u, st) && (st.Enter? || st.Exchange? || st.Write? || st.Leave?)
    ensures Rank(Apply(d, u, st)) < Rank(u)
  {
    hide Sum, Times;
    var v := Apply(d, u, st);
    SumSet(u.senders, st.s, v.senders[st.s], Coming);
    SumSet(u.senders, st.s, v.senders[st.s], Stage);
    if Tokens(v) < Tokens(u) {
      TimesLess(Handles(u) + 4, Tokens(v), Tokens(u));
    }
  }

  lemma ReadFalls(d: Descriptor, u: State)
    requires Inv(u) && Enabled(u, Read)
    ensures Rank(Apply(d, u, Read)) < Rank(u)
  {
    hide Sum, Times, NoDup, BusyOk, NotLost, Silent;
    var v := Apply(d, u, Read);
    if Tokens(v) < Tokens(u) {
      TimesLess(Handles(u) + 4, Tokens(v), Tokens(u));
    }
  }

  lemma SpunFalls(d: Descriptor, u: State)
    requires Inv(u) && Enabled(u, Spun)
    ensures Rank(Apply(d, u, Spun)) < Rank(u)
  {
    hide Sum, Times, NoDup, BusyOk, NotLost, Silent;
    var v := Apply(d, u, Spun);
    TimesFewer(Handles(v) + 4, Handles(u) + 4, Tokens(u));
  }

  // Every step of the protocol leaves less to do.
  lemma RankFalls(d: Descriptor, u: State, st: Step)
    requires Inv(u) && Helpful(st) && Enabled(u, st)
    ensures Rank(Apply(d, u, st)) < Rank(u)
  {
    hide Sum, Times, Inv;
    match st
    case Read => ReadFalls(d, u);
    case Spun => SpunFalls(d, u);
    case Poll =>
    case Visit =>
    case EndPass =>
    case _ => SendFalls(d, u, st);
  }

  // ---------- runs to the end ----------

  ghost predicate CanAct(u: State) {
    exists st :: Helpful(st) && Enabled(u, st)
  }

  // The threads take these steps from u to e.
  ghost predicate Works(d: Descriptor, u: State, steps: seq<Step>, e: State)
    decreases |steps|
  {
    if steps == [] then e == u
    else Helpful(steps[0]) && Enabled(u, steps[0]) && Works(d, Apply(d, u, steps[0]), steps[1..], e)
  }

  // One of these steps visits the handle.
  ghost predicate Visited(d: Descriptor, u: State, steps: seq<Step>, h: Id)
    decreases |steps|
  {
    && steps != [] && Enabled(u, steps[0])
    && ((steps[0] == Visit && u.todo[0] == h) || Visited(d, Apply(d, u, steps[0]), steps[1..], h))
  }

  // A handle stays due until it is visited.
  lemma StaysDue(d: Descriptor, u: State, st: Step, h: Id)
    requires Inv(u) && Helpful(st) && Enabled(u, st) && Due(u, h) && !(st == Visit && u.todo[0] == h)
    ensures Due(Apply(d, u, st), h)
  {
    hide Queued, BusyOk, NotLost, Silent;
  }

  // However the threads are scheduled, they stop after at most Rank(u) steps, and then every handle
  // that was due when they began has been visited and none is due.
  lemma {:induction false} Drains(d: Descriptor, u: State, steps: seq<Step>, e: State, h: Id)
    requires d.cap >= 1 && Inv(u) && Works(d, u, steps, e)
    ensures |steps| <= Rank(u) && Inv(e)
    ensures !CanAct(e) ==> !Due(e, h) && (Due(u, h) ==> Visited(d, u, steps, h))
    decreases |steps|
  {
    hide Inv, Rank, Apply, Due;
    if steps == [] {
      if Due(e, h) {
        WakeupProgress(e, h);
      }
    } else {
      RankFalls(d, u, steps[0]);
      InvKept(d, u, steps[0]);
      Drains(d, Apply(d, u, steps[0]), steps[1..], e, h);
      if Due(u, h) && !(steps[0] == Visit && u.todo[0] == h) {
        StaysDue(d, u, steps[0], h);
      }
    }
  }

  // And there is such a run to the end from every state.
  lemma {:induction false} Completes(d: Descriptor, u: State) returns (steps: seq<Step>, e: State)
    requires d.cap >= 1 && Inv(u)
    ensures Works(d, u, steps, e) && !CanAct(e) && |steps| <= Rank(u)
    decreases Rank(u)
  {
    hide Inv, Rank, Apply;
    if CanAct(u) {
      var st :| Helpful(st) && Enabled(u, st);
      RankFalls(d, u, st);
      InvKept(d, u, st);
      steps, e := Completes(d, Apply(d, u, st));
      assert ([st] + steps)[1..] == steps;
      steps := [st] + steps;
    } else {
      steps, e := [], u;
    }
  }
}
