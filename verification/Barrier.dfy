/** The barrier of src/thread-common.c for platforms without one: any number of threads, any number
    of uses, spurious wake-ups.  A step is the code that a thread runs with the mutex held, up to
    the next wait or the unlock. */
module Barrier {
  import opened Common

  // g is the number of the generation that a call has joined, an auxiliary value that decides nothing.
  datatype Pc =
    | Outside
    | Entering                            // wants the mutex in line 99
    | First(blocked: bool)                // in the wait of line 102, or woken
    | Second(g: nat, blocked: bool)       // in the wait of line 110, or woken
    | Returned(g: nat, last: bool)

  // The fields in, out and threshold.  The rest is auxiliary: gen is the number of the generation
  // that calls join now; joined, returned and ones count per generation the calls that joined,
  // those that returned, and those that returned 1.
  datatype State = State(
    threshold: nat,
    inside: int,
    out: int,
    threads: seq<Pc>,
    gen: nat,
    joined: seq<nat>,
    returned: seq<nat>,
    ones: seq<nat>)

  datatype Step =
    | Call(t: nat)
    | Enter(t: nat)      // from the lock in line 99 or the wake-up in line 102
    | Leave(t: nat)      // from the wake-up in line 110
    | Spurious(t: nat)

  // uv_barrier_init for a count; None is UV_EINVAL.
  function Init(count: nat, n: nat): (r: Option<State>)
    ensures r.None? <==> count == 0
    ensures r.Some? ==> Inv(r.value) && r.value.threshold == count && r.value.gen == 0
    ensures r.Some? ==> |r.value.threads| == n && forall t :: 0 <= t < n ==> r.value.threads[t] == Outside
  {
    if count == 0 then None
    else
      CountZero(seq(n, i => Outside), 0);
      Some(State(count, 0, 0, seq(n, i => Outside), 0, [0], [0], [0]))
  }

  ghost predicate Sized(s: State) {
    |s.joined| == |s.returned| == |s.ones| == s.gen + 1
  }

  ghost predicate Enabled(s: State, st: Step) {
    Sized(s) &&
    match st
    case Call(t) => t < |s.threads| && (s.threads[t].Outside? || s.threads[t].Returned?)
    case Enter(t) => t < |s.threads| && (s.threads[t] == Entering || s.threads[t] == First(false))
    case Leave(t) => t < |s.threads| && s.threads[t].Second? && !s.threads[t].blocked && s.threads[t].g <= s.gen
    case Spurious(t) =>
      t < |s.threads| && (s.threads[t] == First(true) || (s.threads[t].Second? && s.threads[t].blocked))
  }

  function Woken(pc: Pc): Pc {
    match pc
    case First(_) => First(false)
    case Second(g, _) => Second(g, false)
    case _ => pc
  }

  // uv_cond_broadcast
  function Broadcast(ts: seq<Pc>): (r: seq<Pc>)
    ensures |r| == |ts| && forall i :: 0 <= i < |ts| ==> r[i] == Woken(ts[i])
  {
    seq(|ts|, i requires 0 <= i < |ts| => Woken(ts[i]))
  }

  // Lines 114-119 for a call of generation g.
  function Return(s: State, t: nat, g: nat): State
    requires t < |s.threads| && g < |s.returned| && g < |s.ones|
  {
    var last := s.out - 1 == 0;
    s.(out := s.out - 1,
       threads := (if last then Broadcast(s.threads) else s.threads)[t := Returned(g, last)],
       returned := s.returned[g := s.returned[g] + 1],
       ones := if last then s.ones[g := s.ones[g] + 1] else s.ones)
  }

  // Lines 104-107 for the call that completes a generation.
  function Release(s: State): State
    requires s.gen < |s.joined|
  {
    s.(inside := 0, out := s.threshold, threads := Broadcast(s.threads), gen := s.gen + 1,
       joined := s.joined[s.gen := s.joined[s.gen] + 1] + [0], returned := s.returned + [0], ones := s.ones + [0])
  }

  function Apply(s: State, st: Step): State
    requires Enabled(s, st)
  {
    match st
    case Call(t) => s.(threads := s.threads[t := Entering])
    case Enter(t) =>
      if s.out != 0 then s.(threads := s.threads[t := First(true)])
      else if s.inside + 1 == s.threshold then Return(Release(s), t, s.gen)
      else
        s.(inside := s.inside + 1, joined := s.joined[s.gen := s.joined[s.gen] + 1],
           threads := s.threads[t := Second(s.gen, true)])
    case Leave(t) =>
      var g := s.threads[t].g;
      if s.inside != 0 then s.(threads := s.threads[t := Second(g, true)]) else Return(s, t, g)
    case Spurious(t) => s.(threads := s.threads[t := Woken(s.threads[t])])
  }

  // ---------- the invariant ----------

  // The call waits for generation g to complete, or has yet to leave it.
  predicate In(pc: Pc, g: nat) {
    pc.Second? && pc.g == g
  }

  ghost function Count(ts: seq<Pc>, g: nat): nat {
    if ts == [] then 0 else Count(ts[1..], g) + if In(ts[0], g) then 1 else 0
  }

  // What the counters in and out say about the generations.
  ghost predicate Generations(s: State) {
    && Sized(s) && s.threshold >= 1
    && 0 <= s.out <= s.threshold && 0 <= s.inside < s.threshold && (s.out > 0 ==> s.inside == 0 && s.gen > 0)
    && s.joined[s.gen] == s.inside && s.returned[s.gen] == 0 && s.ones[s.gen] == 0
    && (forall g :: 0 <= g < s.gen ==> s.joined[g] == s.threshold)
    && (forall g :: 0 <= g < s.gen - 1 ==> s.returned[g] == s.threshold && s.ones[g] == 1)
    && (s.gen > 0 ==> s.returned[s.gen - 1] == s.threshold - s.out && s.ones[s.gen - 1] == if s.out == 0 then 1 else 0)
  }

  // Which threads wait, and for what.
  ghost predicate Waits(s: State) {
    && Count(s.threads, s.gen) == s.inside
    && (s.gen > 0 ==> Count(s.threads, s.gen - 1) == s.out)
    && (forall t :: 0 <= t < |s.threads| && s.threads[t].Second? ==>
      s.threads[t].g == s.gen || s.threads[t].g + 1 == s.gen)
    && (forall t :: 0 <= t < |s.threads| && s.threads[t].Second? && s.threads[t].blocked ==> s.threads[t].g == s.gen)
    && (forall t :: 0 <= t < |s.threads| && s.threads[t] == First(true) ==> s.out > 0)
  }

  ghost predicate Inv(s: State) {
    Generations(s) && Waits(s)
  }

  lemma {:induction false} CountSet(ts: seq<Pc>, t: nat, pc: Pc, g: nat)
    requires t < |ts|
    ensures Count(ts[t := pc], g) == Count(ts, g) + (if In(pc, g) then 1 else 0) - (if In(ts[t], g) then 1 else 0)
  {
    if t == 0 {
      assert ts[0 := pc][1..] == ts[1..];
    } else {
      CountSet(ts[1..], t - 1, pc, g);
      assert ts[t := pc][1..] == ts[1..][t - 1 := pc];
    }
  }

  lemma {:induction false} CountSame(ts: seq<Pc>, us: seq<Pc>, g: nat)
    requires |ts| == |us| && forall i :: 0 <= i < |ts| ==> (In(ts[i], g) <==> In(us[i], g))
    ensures Count(ts, g) == Count(us, g)
  {
    if ts != [] {
      assert forall i :: 0 <= i < |ts| - 1 ==> ts[1..][i] == ts[i + 1] && us[1..][i] == us[i + 1];
      CountSame(ts[1..], us[1..], g);
    }
  }

  lemma {:induction false} CountZero(ts: seq<Pc>, g: nat)
    ensures Count(ts, g) > 0 ==> exists t :: 0 <= t < |ts| && In(ts[t], g)
    ensures (forall t :: 0 <= t < |ts| ==> !In(ts[t], g)) ==> Count(ts, g) == 0
  {
    if ts != [] {
      CountZero(ts[1..], g);
      assert forall t :: 0 <= t < |ts| - 1 ==> ts[1..][t] == ts[t + 1];
    }
  }

  lemma CountPositive(ts: seq<Pc>, t: nat, g: nat)
    requires t < |ts| && In(ts[t], g)
    ensures Count(ts, g) > 0
  {
    CountSet(ts, t, Outside, g);
  }

  lemma CountBroadcast(ts: seq<Pc>, g: nat)
    ensures Count(Broadcast(ts), g) == Count(ts, g)
  {
    CountSame(Broadcast(ts), ts, g);
  }

  // A thread changes without entering or leaving a generation.
  lemma WaitsSet(s: State, t: nat, pc: Pc)
    requires Inv(s) && t < |s.threads| && (forall g :: In(pc, g) <==> In(s.threads[t], g))
    requires pc.Second? && pc.blocked ==> pc.g == s.gen
    requires pc == First(true) ==> s.out > 0
    ensures Inv(s.(threads := s.threads[t := pc]))
  {
    hide Count;
    CountSet(s.threads, t, pc, s.gen);
    if s.gen > 0 {
      CountSet(s.threads, t, pc, s.gen - 1);
    }
    if pc.Second? {
      assert In(pc, pc.g);
    }
  }

  // A call of the last complete generation returns.
  lemma ReturnKeeps(s: State, t: nat)
    requires Generations(s) && s.out > 0 && t < |s.threads|
    requires Count(s.threads, s.gen) == s.inside
    requires Count(s.threads, s.gen - 1) == s.out - (if In(s.threads[t], s.gen - 1) then 0 else 1)
      && !In(s.threads[t], s.gen)
    requires forall i :: 0 <= i < |s.threads| && s.threads[i].Second? ==>
      (s.threads[i].g == s.gen || s.threads[i].g + 1 == s.gen) && (s.threads[i].blocked ==> s.threads[i].g == s.gen)
    ensures Inv(Return(s, t, s.gen - 1))
  {
    hide Count;
    var u := Return(s, t, s.gen - 1);
    var b := Broadcast(s.threads);
    CountBroadcast(s.threads, s.gen);
    CountBroadcast(s.threads, s.gen - 1);
    var pc := Returned(s.gen - 1, s.out - 1 == 0);
    CountSet(s.threads, t, pc, s.gen);
    CountSet(s.threads, t, pc, s.gen - 1);
    CountSet(b, t, pc, s.gen);
    CountSet(b, t, pc, s.gen - 1);
  }

  lemma JoinKeeps(s: State, t: nat)
    requires Inv(s) && Enabled(s, Enter(t)) && s.out == 0
    ensures Inv(Apply(s, Enter(t)))
  {
    hide Count;
    if s.inside + 1 == s.threshold {
      var u := Release(s);
      CountBroadcast(s.threads, s.gen);
      CountZero(u.threads, s.gen + 1);
      forall i | 0 <= i < |s.threads| && s.threads[i].Second? ensures s.threads[i].g == s.gen {
        CountPositive(s.threads, i, s.threads[i].g);
      }
      assert forall i :: 0 <= i < |u.threads| ==> u.threads[i] == Woken(s.threads[i]) && !In(u.threads[i], s.gen + 1);
      ReturnKeeps(u, t);
    } else {
      CountSet(s.threads, t, Second(s.gen, true), s.gen);
      if s.gen > 0 {
        CountSet(s.threads, t, Second(s.gen, true), s.gen - 1);
      }
    }
  }

  lemma LeaveKeeps(s: State, t: nat)
    requires Inv(s) && Enabled(s, Leave(t))
    ensures Inv(Apply(s, Leave(t)))
    ensures s.inside == 0 <==> s.threads[t].g + 1 == s.gen
  {
    hide Count;
    var g := s.threads[t].g;
    CountPositive(s.threads, t, g);
    if g == s.gen {
      WaitsSet(s, t, Second(g, true));
    } else {
      ReturnKeeps(s, t);
    }
  }

  lemma InvKept(s: State, st: Step)
    requires Inv(s) && Enabled(s, st)
    ensures Inv(Apply(s, st))
  {
    hide Count, Generations, Waits;
    match st
    case Call(t) => WaitsSet(s, t, Entering);
    case Enter(t) =>
      if s.out == 0 {
        JoinKeeps(s, t);
      } else {
        OutPositive(s);
        WaitsSet(s, t, First(true));
      }
    case Leave(t) => LeaveKeeps(s, t);
    case Spurious(t) => WaitsSet(s, t, Woken(s.threads[t]));
  }

  lemma OutPositive(s: State)
    requires Inv(s)
    ensures s.out >= 0
  {
  }

  // ---------- runs ----------

  ghost predicate Run(count: nat, steps: seq<Step>, states: seq<State>) {
    && |states| == |steps| + 1 && (exists n :: Init(count, n) == Some(states[0]))
    && forall i :: 0 <= i < |steps| ==> Enabled(states[i], steps[i]) && states[i + 1] == Apply(states[i], steps[i])
  }

  lemma {:induction false} RunInv(count: nat, steps: seq<Step>, states: seq<State>, i: nat)
    requires Run(count, steps, states) && i < |states|
    ensures Inv(states[i]) && states[i].threshold == count
  {
    hide Inv;
    if i > 0 {
      RunInv(count, steps, states, i - 1);
      InvKept(states[i - 1], steps[i - 1]);
    }
  }

  // The step makes thread t return from a call of generation g with the given result.
  ghost predicate Returns(s: State, st: Step, t: nat, g: nat, last: bool) {
    Enabled(s, st) && st == (if st.Leave? then Leave(t) else Enter(t)) && t < |s.threads|
      && Apply(s, st).threads[t] == Returned(g, last)
  }

  // No call returns before threshold calls have joined its generation; at most threshold calls of
  // a generation return, and the one that is told so is the last of them.
  lemma ReturnsTogether(count: nat, steps: seq<Step>, states: seq<State>, i: nat, t: nat, g: nat, last: bool)
    requires Run(count, steps, states) && i < |steps| && Returns(states[i], steps[i], t, g, last)
    ensures
      var u := states[i + 1];
      && Sized(u) && g < u.gen && u.joined[g] == count && u.returned[g] <= count
      && (last <==> u.returned[g] == count) && u.ones[g] == (if last then 1 else 0)
  {
    RunInv(count, steps, states, i);
    RunInv(count, steps, states, i + 1);
  }

  // In every state each generation that is over has returned exactly threshold calls and told
  // exactly one of them, and generations do not mix: while calls leave one, none joins the next.
  lemma Generational(count: nat, steps: seq<Step>, states: seq<State>, i: nat, g: nat)
    requires Run(count, steps, states) && i < |states|
    ensures
      var u := states[i];
      && Sized(u) && (u.out > 0 ==> u.inside == 0) && 0 <= u.out <= count && 0 <= u.inside < count
      && (g < u.gen && (g + 1 < u.gen || u.out == 0) ==> u.returned[g] == count && u.ones[g] == 1)
      && (g + 1 == u.gen ==> u.returned[g] == count - u.out)
      && (g == u.gen ==> u.returned[g] == 0 && u.joined[g] == u.inside)
  {
    hide Run, Waits;
    RunLength(count, steps, states);
    RunInv(count, steps, states, i);
  }

  lemma RunLength(count: nat, steps: seq<Step>, states: seq<State>)
    requires Run(count, steps, states)
    ensures |states| == |steps| + 1
  {
  }

  // No wake-up is missed: a thread that is blocked waits for calls that have yet to join its own
  // generation, or for a generation that some thread which is not blocked can and will leave.
  lemma NotStuck(count: nat, steps: seq<Step>, states: seq<State>, i: nat, t: nat)
    requires Run(count, steps, states) && i < |states| && t < |states[i].threads|
    ensures
      var u := states[i];
      && (u.threads[t].Second? && u.threads[t].blocked ==>
        u.threads[t].g == u.gen && u.out == 0 && 0 < u.inside < count)
      && (u.threads[t] == First(true) ==>
            exists r :: 0 <= r < |u.threads| && Enabled(u, Leave(r)) && Apply(u, Leave(r)).threads[r].Returned?)
  {
    hide Run, Count;
    RunLength(count, steps, states);
    RunInv(count, steps, states, i);
    var u := states[i];
    if u.threads[t] == First(true) {
      CountZero(u.threads, u.gen - 1);
      var r :| 0 <= r < |u.threads| && In(u.threads[r], u.gen - 1);
      assert Enabled(u, Leave(r));
      assert Apply(u, Leave(r)).threads[r].Returned?;
    }
    if u.threads[t].Second? && u.threads[t].blocked {
      CountPositive(u.threads, t, u.gen);
    }
  }

  // ---------- progress ----------

  // A step of the barrier's own code; calls come from outside, and spurious wake-ups at any time.
  predicate Own(st: Step) {
    st.Enter? || st.Leave?
  }

  // What a call among n threads still has to do, with the n wake-ups that it can cause when it returns.
  function Weight(pc: Pc, n: nat): nat {
    match pc
    case Outside => 0
    case Entering => n + 3
    case First(blocked) => n + 1 + (if blocked then 0 else 1)
    case Second(_, blocked) => n + (if blocked then 0 else 1)
    case Returned(_, _) => 0
  }

  ghost function Total(ts: seq<Pc>, n: nat): nat {
    if ts == [] then 0 else Total(ts[1..], n) + Weight(ts[0], n)
  }

  ghost function Rank(s: State): nat {
    Total(s.threads, |s.threads|)
  }

  lemma {:induction false} TotalSet(ts: seq<Pc>, t: nat, pc: Pc, n: nat)
    requires t < |ts|
    ensures Total(ts[t := pc], n) == Total(ts, n) + Weight(pc, n) - Weight(ts[t], n)
  {
    hide Weight;
    if t == 0 {
      assert ts[0 := pc][1..] == ts[1..];
    } else {
      TotalSet(ts[1..], t - 1, pc, n);
      assert ts[t := pc][1..] == ts[1..][t - 1 := pc];
    }
  }

  // Each thread that is woken has one step more to take.
  lemma {:induction false} TotalBroadcast(ts: seq<Pc>, n: nat)
    ensures Total(Broadcast(ts), n) <= Total(ts, n) + |ts|
  {
    if ts != [] {
      TotalBroadcast(ts[1..], n);
      assert Broadcast(ts)[1..] == Broadcast(ts[1..]);
    }
  }

  // A call that returns has more weight than it can add to the others.
  lemma ReturnFalls(ts: seq<Pc>, us: seq<Pc>, t: nat, pc: Pc)
    requires t < |ts| && (us == ts || us == Broadcast(ts)) && pc.Returned?
    requires Weight(Woken(ts[t]), |ts|) > |ts|
    ensures |us| == |ts| && Total(us[t := pc], |ts|) < Total(ts, |ts|)
  {
    hide Total, Weight;
    var n := |ts|;
    NothingLeft(pc, n);
    WokenWeight(ts[t], n);
    TotalSet(us, t, pc, n);
    if us != ts {
      TotalBroadcast(ts, n);
    }
  }

  lemma WokenWeight(pc: Pc, n: nat)
    ensures Weight(pc, n) <= Weight(Woken(pc), n) <= Weight(pc, n) + 1
  {
  }

  lemma NothingLeft(pc: Pc, n: nat)
    requires pc.Returned?
    ensures Weight(pc, n) == 0
  {
  }

  lemma RankFalls(s: State, st: Step)
    requires Inv(s) && Own(st) && Enabled(s, st)
    ensures Rank(Apply(s, st)) < Rank(s)
  {
    hide Count, Total;
    var n := |s.threads|;
    if st.Enter? {
      var t := st.t;
      if s.out != 0 {
        TotalSet(s.threads, t, First(true), n);
      } else if s.inside + 1 == s.threshold {
        var b := Broadcast(s.threads);
        assert Broadcast(b) == b;
        ReturnFalls(s.threads, b, t, Returned(s.gen, s.threshold - 1 == 0));
      } else {
        TotalSet(s.threads, t, Second(s.gen, true), n);
      }
    } else {
      LeaveFalls(s, st.t);
    }
  }

  lemma LeaveFalls(s: State, t: nat)
    requires Inv(s) && Enabled(s, Leave(t))
    ensures Rank(Apply(s, Leave(t))) < Rank(s)
  {
    hide Count, Total, Generations, Waits;
    var g := s.threads[t].g;
    if s.inside != 0 {
      TotalSet(s.threads, t, Second(g, true), |s.threads|);
    } else {
      ReturnFalls(s.threads, if s.out - 1
        == 0 then Broadcast(s.threads) else s.threads, t, Returned(g, s.out - 1 == 0));
    }
  }

  ghost predicate CanAct(s: State) {
    exists st :: Own(st) && Enabled(s, st)
  }

  // The threads take these steps from s to e, and nobody calls.
  ghost predicate Works(s: State, steps: seq<Step>, e: State)
    decreases |steps|
  {
    if steps == [] then e == s
    else Own(steps[0]) && Enabled(s, steps[0]) && Works(Apply(s, steps[0]), steps[1..], e)
  }

  // Every call has returned or waits for calls that have yet to come: fewer than the threshold
  // are in the barrier, all in the generation that calls join now.
  ghost predicate Settled(s: State) {
    && s.out == 0 && 0 <= s.inside < s.threshold && Count(s.threads, s.gen) == s.inside
    && forall t :: 0 <= t < |s.threads| ==>
         s.threads[t].Outside? || s.threads[t].Returned? || s.threads[t] == Second(s.gen, true)
  }

  lemma EnterActs(s: State, t: nat)
    requires Sized(s) && t < |s.threads| && (s.threads[t] == Entering || s.threads[t] == First(false))
    ensures CanAct(s)
  {
    assert Own(Enter(t)) && Enabled(s, Enter(t));
  }

  lemma LeaveActs(s: State, t: nat)
    requires Inv(s) && t < |s.threads| && s.threads[t].Second? && !s.threads[t].blocked
    ensures CanAct(s)
  {
    hide Count;
    assert Own(Leave(t)) && Enabled(s, Leave(t));
  }

  // While calls leave a generation, one of them can.
  lemma OutActs(s: State)
    requires Inv(s) && s.out > 0
    ensures CanAct(s)
  {
    hide Count, CanAct;
    CountZero(s.threads, s.gen - 1);
    var r :| 0 <= r < |s.threads| && In(s.threads[r], s.gen - 1);
    LeaveActs(s, r);
  }

  lemma StuckSettled(s: State)
    requires Inv(s) && !CanAct(s)
    ensures Settled(s)
  {
    hide Count, CanAct;
    if s.out > 0 {
      OutActs(s);
    }
    forall t | 0 <= t < |s.threads|
      ensures s.threads[t].Outside? || s.threads[t].Returned? || s.threads[t] == Second(s.gen, true)
    {
      if s.threads[t] == Entering || s.threads[t] == First(false) {
        EnterActs(s, t);
      }
      if s.threads[t].Second? && !s.threads[t].blocked {
        LeaveActs(s, t);
      }
    }
  }

  // Without new calls and spurious wake-ups the calls in the barrier come to rest after at most
  // Rank(s) steps, however the threads are scheduled.
  lemma {:induction false} Drains(s: State, steps: seq<Step>, e: State)
    requires Inv(s) && Works(s, steps, e)
    ensures |steps| <= Rank(s) && Inv(e)
    ensures !CanAct(e) ==> Settled(e)
    decreases |steps|
  {
    hide Inv, Rank, CanAct, Settled, Apply;
    if steps == [] {
      if !CanAct(e) {
        StuckSettled(e);
      }
    } else {
      RankFalls(s, steps[0]);
      InvKept(s, steps[0]);
      Drains(Apply(s, steps[0]), steps[1..], e);
    }
  }

  // And there is such a run to the end from every state.
  lemma {:induction false} Completes(s: State) returns (steps: seq<Step>, e: State)
    requires Inv(s)
    ensures Works(s, steps, e) && Settled(e) && |steps| <= Rank(s)
    decreases Rank(s)
  {
    hide Inv, Rank, Settled, Apply;
    if CanAct(s) {
      var st :| Own(st) && Enabled(s, st);
      RankFalls(s, st);
      InvKept(s, st);
      steps, e := Completes(Apply(s, st));
      assert ([st] + steps)[1..] == steps;
      steps := [st] + steps;
    } else {
      StuckSettled(s);
      steps, e := [], s;
    }
  }
}
