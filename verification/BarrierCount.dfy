/** What the barrier of src/thread-common.c looks like from outside, in numbers of calls and returns
    alone: how many calls must begin before one returns, which returns are told 1, and how many
    calls have returned when the barrier has come to rest. */
module BarrierCount {
  import opened Barrier
  import opened Common

  // The step makes a call return, and the value that it returns.
  ghost predicate Back(s: State, st: Step) {
    Enabled(s, st) && Own(st) && Apply(s, st).threads[st.t].Returned?
  }

  ghost predicate ToldOne(s: State, st: Step) {
    Back(s, st) && Apply(s, st).threads[st.t].last
  }

  // The numbers of calls begun, of calls returned, and of those that returned 1, in the first i steps.
  ghost function Calls(steps: seq<Step>, i: nat): nat
    requires i <= |steps|
  {
    if i == 0 then 0 else Calls(steps, i - 1) + if steps[i - 1].Call? then 1 else 0
  }

  ghost function Backs(steps: seq<Step>, states: seq<State>, i: nat): nat
    requires i <= |steps| && i < |states|
  {
    if i == 0 then 0 else Backs(steps, states, i - 1) + if Back(states[i - 1], steps[i - 1]) then 1 else 0
  }

  ghost function Ones(steps: seq<Step>, states: seq<State>, i: nat): nat
    requires i <= |steps| && i < |states|
  {
    if i == 0 then 0 else Ones(steps, states, i - 1) + if ToldOne(states[i - 1], steps[i - 1]) then 1 else 0
  }

  // ---------- calls that have yet to join ----------

  predicate Waiting(pc: Pc) {
    pc.Entering? || pc.First?
  }

  ghost function Pending(ts: seq<Pc>): nat {
    if ts == [] then 0 else Pending(ts[1..]) + if Waiting(ts[0]) then 1 else 0
  }

  lemma {:induction false} PendingSet(ts: seq<Pc>, t: nat, pc: Pc)
    requires t < |ts|
    ensures Pending(ts[t := pc]) == Pending(ts) + (if Waiting(pc) then 1 else 0) - (if Waiting(ts[t]) then 1 else 0)
  {
    if t == 0 {
      assert ts[0 := pc][1..] == ts[1..];
    } else {
      PendingSet(ts[1..], t - 1, pc);
      assert ts[t := pc][1..] == ts[1..][t - 1 := pc];
    }
  }

  lemma {:induction false} PendingBroadcast(ts: seq<Pc>)
    ensures Pending(Broadcast(ts)) == Pending(ts)
  {
    if ts != [] {
      PendingBroadcast(ts[1..]);
      assert Broadcast(ts)[1..] == Broadcast(ts[1..]);
    }
  }

  lemma {:induction false} PendingNone(ts: seq<Pc>)
    requires forall t :: 0 <= t < |ts| ==> !Waiting(ts[t])
    ensures Pending(ts) == 0
  {
    if ts != [] {
      assert forall t :: 0 <= t < |ts| - 1 ==> ts[1..][t] == ts[t + 1];
      PendingNone(ts[1..]);
    }
  }

  // ---------- the counters as numbers of calls ----------

  // c calls have begun, r have returned, and o of them were told 1; k is threshold times gen.
  ghost predicate Tally(s: State, k: int, c: nat, r: nat, o: nat) {
    c == k + s.inside + Pending(s.threads) && r == k - s.out && o == s.gen - (if s.out > 0 then 1 else 0)
  }

  // What one step adds.
  ghost predicate Adds(s: State, st: Step, k: int, c: nat, r: nat, o: nat)
    requires Enabled(s, st)
  {
    var v := Apply(s, st);
    Tally(v, k + (if v.gen > s.gen then s.threshold else 0),
          c + (if st.Call? then 1 else 0), r + (if Back(s, st) then 1 else 0), o + (if ToldOne(s, st) then 1 else 0))
  }

  lemma ReturnPending(s: State, t: nat, g: nat)
    requires t < |s.threads| && g < |s.returned| && g < |s.ones|
    ensures Pending(Return(s, t, g).threads) == Pending(s.threads) - if Waiting(s.threads[t]) then 1 else 0
  {
    hide Pending;
    var pc := Returned(g, s.out - 1 == 0);
    PendingBroadcast(s.threads);
    PendingSet(s.threads, t, pc);
    PendingSet(Broadcast(s.threads), t, pc);
  }

  lemma EnterAdds(s: State, t: nat, k: int, c: nat, r: nat, o: nat)
    requires Inv(s) && Enabled(s, Enter(t)) && Tally(s, k, c, r, o)
    ensures Adds(s, Enter(t), k, c, r, o)
  {
    hide Pending, Count;
    if s.out != 0 {
      PendingSet(s.threads, t, First(true));
    } else if s.inside + 1 == s.threshold {
      var u := Release(s);
      PendingBroadcast(s.threads);
      ReturnPending(u, t, s.gen);
      assert Waiting(u.threads[t]);
    } else {
      PendingSet(s.threads, t, Second(s.gen, true));
    }
  }

  lemma LeaveAdds(s: State, t: nat, k: int, c: nat, r: nat, o: nat)
    requires Inv(s) && Enabled(s, Leave(t)) && Tally(s, k, c, r, o)
    ensures Adds(s, Leave(t), k, c, r, o)
  {
    hide Pending, Count;
    LeaveKeeps(s, t);
    var g := s.threads[t].g;
    if s.inside != 0 {
      PendingSet(s.threads, t, Second(g, true));
    } else {
      CountPositive(s.threads, t, g);
      ReturnPending(s, t, g);
    }
  }

  lemma StepAdds(s: State, st: Step, k: int, c: nat, r: nat, o: nat)
    requires Inv(s) && Enabled(s, st) && Tally(s, k, c, r, o)
    ensures Adds(s, st, k, c, r, o)
  {
    hide Pending, Count;
    match st
    case Call(t) => PendingSet(s.threads, t, Entering);
    case Enter(t) => EnterAdds(s, t, k, c, r, o);
    case Leave(t) => LeaveAdds(s, t, k, c, r, o);
    case Spurious(t) => PendingSet(s.threads, t, Woken(s.threads[t]));
  }

  lemma GenStep(s: State, st: Step)
    requires Inv(s) && Enabled(s, st)
    ensures Apply(s, st).gen == s.gen || Apply(s, st).gen == s.gen + 1
    ensures Apply(s, st).threshold == s.threshold
  {
    hide Count;
  }

  lemma {:induction false} Tallied(count: nat, steps: seq<Step>, states: seq<State>, i: nat)
    requires Run(count, steps, states) && i < |states|
    ensures i <= |steps| && states[i].threshold == count && Inv(states[i])
    ensures
      Tally(states[i], count * states[i].gen, Calls(steps, i), Backs(steps, states, i), Ones(steps, states, i))
  {
    hide Inv, Enabled, Apply, Pending, Back, ToldOne;
    RunLength(count, steps, states);
    RunInv(count, steps, states, i);
    if i == 0 {
      FirstTally(count, steps, states);
    } else {
      Tallied(count, steps, states, i - 1);
      var s, st := states[i - 1], steps[i - 1];
      Follows(count, steps, states, i - 1);
      StepAdds(s, st, count * s.gen, Calls(steps, i - 1), Backs(steps, states, i - 1), Ones(steps, states, i - 1));
      GenStep(s, st);
      assert count * (s.gen + 1) == count * s.gen + count;
    }
  }

  lemma Follows(count: nat, steps: seq<Step>, states: seq<State>, i: nat)
    requires Run(count, steps, states) && i < |steps|
    ensures i + 1 < |states| && Enabled(states[i], steps[i]) && states[i + 1] == Apply(states[i], steps[i])
  {
  }

  lemma FirstTally(count: nat, steps: seq<Step>, states: seq<State>)
    requires Run(count, steps, states)
    ensures |states| > 0 && Tally(states[0], count * states[0].gen, 0, 0, 0)
  {
    PendingNone(states[0].threads);
  }

  // ---------- from outside ----------

  lemma Quotients(count: nat, g: nat, out: nat, r: nat)
    requires count > 0 && out <= count && (out > 0 ==> g > 0) && r == count * g - out
    ensures out == 0 ==> r / count == g && r % count == 0
    ensures 0 < out < count ==> r / count == g - 1 && r % count == count - out
    ensures out == count ==> r / count == g - 1 && r % count == 0
  {
    if out == 0 {
      Divides(count, g, 0, r);
    } else if out == count {
      assert count * g - count == count * (g - 1);
      Divides(count, g - 1, 0, r);
    } else {
      assert count * (g - 1) == count * g - count;
      Divides(count, g - 1, count - out, r);
    }
  }

  lemma Apart(count: nat, a: nat, b: nat)
    ensures a < b ==> count * a + count <= count * b
  {
    if a < b {
      assert count * b == count * a + count * (b - a);
      assert count * (b - a) == count + count * (b - a - 1);
    }
  }

  lemma Divides(count: nat, g: nat, m: nat, r: nat)
    requires m < count && r == count * g + m
    ensures r / count == g && r % count == m
  {
    assert r == count * (r / count) + r % count;
    Apart(count, r / count, g);
    Apart(count, g, r / count);
  }

  // If r calls have returned, at least as many have begun as make up whole groups of count: with
  // one more return, another whole group.  One of each complete group of returns was told 1.
  lemma WholeGroups(count: nat, steps: seq<Step>, states: seq<State>, i: nat)
    requires Run(count, steps, states) && i < |states|
    ensures i <= |steps| && count > 0
    ensures
      var c, r := Calls(steps, i), Backs(steps, states, i);
      (r + count - 1) / count * count <= c && Ones(steps, states, i) == r / count
  {
    hide Run, Waits, Calls, Backs, Ones;
    Tallied(count, steps, states, i);
    var u := states[i];
    var c, r := Calls(steps, i), Backs(steps, states, i);
    Quotients(count, u.gen, u.out, r);
    Rounded(count, r, u.gen);
  }

  // r rounded up to a multiple of count.
  lemma Rounded(count: nat, r: nat, g: nat)
    requires count > 0 && r <= count * g
    ensures (r + count - 1) / count * count <= count * g
  {
    var q := (r + count - 1) / count;
    Apart(count, g, q);
    Apart(count, q, g);
    assert q * count <= r + count - 1;
  }

  // A call is told 1 exactly if its return completes a group of count returns.
  lemma ToldOnce(count: nat, steps: seq<Step>, states: seq<State>, i: nat)
    requires Run(count, steps, states) && i < |steps|
    ensures |states| == |steps| + 1 && count > 0
    ensures Back(states[i], steps[i]) ==> (ToldOne(states[i], steps[i]) <==> Backs(steps, states, i + 1) % count == 0)
  {
    hide Run, Tally, Back, ToldOne, Inv;
    RunLength(count, steps, states);
    WholeGroups(count, steps, states, i);
    WholeGroups(count, steps, states, i + 1);
    if Back(states[i], steps[i]) {
      NextQuotient(count, Backs(steps, states, i));
    }
  }

  lemma NextQuotient(count: nat, r: nat)
    requires count > 0
    ensures (r + 1) / count == r / count + if (r + 1) % count == 0 then 1 else 0
  {
    if r % count == count - 1 {
      assert r == count * (r / count) + r % count;
      assert r + 1 == count * (r / count + 1);
      Divides(count, r / count + 1, 0, r + 1);
    } else {
      Divides(count, r / count, r % count + 1, r + 1);
    }
  }

  // Once no thread in the barrier can go on, all calls have returned except for an incomplete group.
  lemma AtRest(count: nat, steps: seq<Step>, states: seq<State>, i: nat)
    requires Run(count, steps, states) && i < |states| && !CanAct(states[i])
    ensures i <= |steps| && count > 0
    ensures Backs(steps, states, i) == Calls(steps, i) - Calls(steps, i) % count
  {
    hide Run, Inv, Calls, Backs, Ones, CanAct, Count;
    Tallied(count, steps, states, i);
    var u := states[i];
    StuckSettled(u);
    PendingNone(u.threads);
    Divides(count, u.gen, u.inside, Calls(steps, i));
  }
}
