/** What uv_async_send promises for src/unix/async.c: after a send the callback of the handle is
    called, it is called once for each send that finds the handle not pending, and it is not called
    for a handle that is being closed. */
module AsyncCalls {
  import opened Async
  import opened AsyncProgress
  import opened Common

  // The step calls the callback of h.
  ghost predicate Calls(u: State, st: Step, h: Id) {
    Enabled(u, st) && st == Visit && u.todo[0] == h && u.handles[h].pending
  }

  // The step sets the pending flag of h, and it was clear.
  ghost predicate Wins(u: State, st: Step, h: Id) {
    Enabled(u, st) && st.Exchange? && u.senders[st.s].h == h && !u.handles[h].pending
  }

  // A sender has found h not pending and has yet to exchange the flag.
  ghost predicate Sending(u: State, h: Id) {
    exists s :: 0 <= s < |u.senders| && (u.senders[s] == Loaded(h) || u.senders[s] == Busy(h))
  }

  ghost predicate Live(u: State, h: Id) {
    h in u.handles && u.handles[h].open && u.spin != Some(h)
  }

  // The callback of h is still to be called.
  ghost predicate Owed(u: State, h: Id) {
    Live(u, h) && (u.handles[h].pending || Sending(u, h))
  }

  // ---------- after a send the callback is called ----------

  // The first step of a send makes the callback owed, whatever it finds.
  lemma SendOwes(d: Descriptor, u: State, s: nat, h: Id)
    requires Inv(u) && Enabled(u, Load(s, h)) && Live(u, h)
    ensures Owed(Apply(d, u, Load(s, h)), h)
  {
    hide Inv;
    var v := Apply(d, u, Load(s, h));
    if !u.handles[h].pending {
      assert v.senders[s] == Loaded(h);
    }
  }

  // It stays so until the callback is called or the handle is closed.
  lemma OwedUntilCalled(d: Descriptor, u: State, st: Step, h: Id)
    requires Inv(u) && Enabled(u, st) && Owed(u, h) && st != Close(h) && !Calls(u, st, h)
    ensures Owed(Apply(d, u, st), h)
  {
    hide Inv;
    var v := Apply(d, u, st);
    assert Live(v, h) by { hide Queued, BusyOk, NotLost, Silent, Sending; }
    if u.handles[h].pending {
      assert v.handles[h].pending;
    } else {
      var s :| 0 <= s < |u.senders| && (u.senders[s] == Loaded(h) || u.senders[s] == Busy(h));
      assert v.handles[h].pending || v.senders[s] == Loaded(h) || v.senders[s] == Busy(h);
    }
  }

  // A sender on its way can take its next step.
  lemma SenderActs(u: State, h: Id)
    requires Inv(u) && Sending(u, h)
    ensures CanAct(u)
  {
    hide NotLost, Silent, Queued;
    var s :| 0 <= s < |u.senders| && (u.senders[s] == Loaded(h) || u.senders[s] == Busy(h));
    assert Helpful(Enter(s)) && Helpful(Exchange(s));
    assert Enabled(u, Enter(s)) || Enabled(u, Exchange(s));
  }

  // One of these steps calls the callback of h.
  ghost predicate Called(d: Descriptor, u: State, steps: seq<Step>, h: Id)
    decreases |steps|
  {
    && steps != [] && Enabled(u, steps[0])
    && (Calls(u, steps[0], h) || Called(d, Apply(d, u, steps[0]), steps[1..], h))
  }

  // However the threads are scheduled, once they have come to rest the callback has been called.
  lemma {:induction false} Answered(d: Descriptor, u: State, steps: seq<Step>, e: State, h: Id)
    requires d.cap >= 1 && Inv(u) && Works(d, u, steps, e) && !CanAct(e) && Owed(u, h)
    ensures Called(d, u, steps, h)
    decreases |steps|
  {
    hide Inv, Apply, Calls;
    if steps == [] {
      if Sending(u, h) {
        SenderActs(u, h);
      } else {
        WakeupProgress(u, h);
      }
    } else if !Calls(u, steps[0], h) {
      InvKept(d, u, steps[0]);
      OwedUntilCalled(d, u, steps[0], h);
      Answered(d, Apply(d, u, steps[0]), steps[1..], e, h);
    }
  }

  // ---------- as often as it is sent ----------

  // The numbers of calls and of winning exchanges for h in the first i steps.
  ghost function CallCount(steps: seq<Step>, states: seq<State>, i: nat, h: Id): nat
    requires i <= |steps| && i < |states|
  {
    if i == 0 then 0
    else CallCount(steps, states, i - 1, h) + if Calls(states[i - 1], steps[i - 1], h) then 1 else 0
  }

  ghost function WinCount(steps: seq<Step>, states: seq<State>, i: nat, h: Id): nat
    requires i <= |steps| && i < |states|
  {
    if i == 0 then 0
    else WinCount(steps, states, i - 1, h) + if Wins(states[i - 1], steps[i - 1], h) then 1 else 0
  }

  // One step changes the flag by at most one win or one call.
  lemma FlagStep(d: Descriptor, u: State, st: Step, h: Id)
    requires Inv(u) && Enabled(u, st) && Live(Apply(d, u, st), h)
    ensures
      var v := Apply(d, u, st);
      if Live(u, h) then
        (if v.handles[h].pending then 1 else 0)
        == (if u.handles[h].pending then 1 else 0)
          + (if Wins(u, st, h) then 1 else 0) - (if Calls(u, st, h) then 1 else 0)
      else
        h !in u.handles && !v.handles[h].pending && !Wins(u, st, h) && !Calls(u, st, h)
  {
    hide BusyOk, NotLost, Silent, Without, NoDup;
  }

  // A handle that was never opened has neither.
  lemma {:induction false} NothingBefore(d: Descriptor, steps: seq<Step>, states: seq<State>, i: nat, h: Id)
    requires d.cap >= 1 && Run(d, steps, states) && i < |states| && h !in states[i].handles
    ensures CallCount(steps, states, i, h) == 0 && WinCount(steps, states, i, h) == 0
  {
    hide Inv, Run, Apply, Enabled;
    RunLength(d, steps, states);
    if i > 0 {
      Follows(d, steps, states, i - 1);
      Known(d, states[i - 1], steps[i - 1], h);
      NothingBefore(d, steps, states, i - 1, h);
    }
  }

  lemma Known(d: Descriptor, u: State, st: Step, h: Id)
    requires Enabled(u, st) && h !in Apply(d, u, st).handles
    ensures h !in u.handles && !Calls(u, st, h) && !Wins(u, st, h)
  {
  }

  // In every state of every run, the callback of an open handle was called once for each exchange
  // that found it not pending, except for the last one while it is pending.
  lemma {:induction false} CalledPerSend(d: Descriptor, steps: seq<Step>, states: seq<State>, i: nat, h: Id)
    requires d.cap >= 1 && Run(d, steps, states) && i < |states| && Live(states[i], h)
    ensures i <= |steps|
    ensures
      WinCount(steps, states, i, h)
      == CallCount(steps, states, i, h) + if states[i].handles[h].pending then 1 else 0
  {
    hide Inv, Run, Apply, Enabled, Calls, Wins;
    RunLength(d, steps, states);
    FirstState(d, steps, states);
    if i > 0 {
      Follows(d, steps, states, i - 1);
      RunInv(d, steps, states, i - 1);
      FlagStep(d, states[i - 1], steps[i - 1], h);
      if Live(states[i - 1], h) {
        CalledPerSend(d, steps, states, i - 1, h);
      } else {
        NothingBefore(d, steps, states, i - 1, h);
      }
    }
  }

  lemma FirstState(d: Descriptor, steps: seq<Step>, states: seq<State>)
    requires Run(d, steps, states)
    ensures |states| > 0 && states[0].handles == map[]
  {
  }

  // ---------- not after it is closed ----------

  lemma StaysDead(d: Descriptor, u: State, st: Step, h: Id)
    requires Inv(u) && Enabled(u, st) && h in u.handles && !Live(u, h)
    ensures h in Apply(d, u, st).handles && !Live(Apply(d, u, st), h)
  {
    hide BusyOk, NotLost, Silent, Without, NoDup;
  }

  lemma {:induction false} DeadAfter(d: Descriptor, steps: seq<Step>, states: seq<State>, i: nat, j: nat, h: Id)
    requires d.cap >= 1 && Run(d, steps, states) && i < j < |states| && i < |steps| && steps[i] == Close(h)
    ensures h in states[j].handles && !Live(states[j], h)
    decreases j
  {
    hide Inv, Run, Live;
    RunLength(d, steps, states);
    Follows(d, steps, states, j - 1);
    if i == j - 1 {
      CloseDeadens(d, states[i], h);
    } else {
      DeadAfter(d, steps, states, i, j - 1, h);
      RunInv(d, steps, states, j - 1);
      StaysDead(d, states[j - 1], steps[j - 1], h);
    }
  }

  lemma CloseDeadens(d: Descriptor, u: State, h: Id)
    requires Enabled(u, Close(h))
    ensures h in Apply(d, u, Close(h)).handles && !Live(Apply(d, u, Close(h)), h)
  {
  }

  lemma DeadNotCalled(u: State, st: Step, h: Id)
    requires Inv(u) && !Live(u, h)
    ensures !Calls(u, st, h)
  {
    hide BusyOk, NotLost, Silent, NoDup;
    assert u.todo != [] ==> u.todo[0] in u.todo;
  }

  // Once a handle is closed its callback is never called again, in no run.
  lemma SilentOnceClosed(d: Descriptor, steps: seq<Step>, states: seq<State>, i: nat, j: nat, h: Id)
    requires d.cap >= 1 && Run(d, steps, states) && i < j < |steps| && steps[i] == Close(h)
    ensures j < |states| && !Calls(states[j], steps[j], h)
  {
    hide Inv, Run, Live, Calls;
    RunLength(d, steps, states);
    DeadAfter(d, steps, states, i, j, h);
    RunInv(d, steps, states, j);
    DeadNotCalled(states[j], steps[j], h);
  }

  // ---------- in which order ----------

  // The handles keep their order from pass to pass; a new one comes behind those that the pass has
  // visited, and a closed one leaves.
  lemma OrderKept(d: Descriptor, u: State, st: Step)
    requires Inv(u) && Enabled(u, st)
    ensures
      var v := Apply(d, u, st);
      v.queue + v.todo ==
        match st
        case Init(h) => u.queue + [h] + u.todo
        case Spun => Without(u.queue + u.todo, u.spin.value)
        case _ => u.queue + u.todo
  {
    hide BusyOk, NotLost, Silent, NoDup, Without;
    if st == Visit {
      var h := u.todo[0];
      assert u.todo == [h] + u.todo[1..];
      assert (u.queue + [h]) + u.todo[1..] == u.queue + ([h] + u.todo[1..]);
    } else if st == Spun {
      WithoutConcat(u.queue, u.todo, u.spin.value);
    } else if st == Read {
      assert [] + u.queue == u.queue + [];
    }
  }

  // ---------- the descriptor ----------

  // A read takes at most 1024 bytes from a pipe and everything from an eventfd; the pass begins only
  // when nothing is left, and otherwise the next step is another read.
  lemma ReadTakes(d: Descriptor, u: State)
    requires Enabled(u, Read)
    ensures
      var v := Apply(d, u, Read);
      && (d.pipe ==> v.tokens >= u.tokens - 1024) && (v.pc == Visiting ==> v.tokens == 0)
      && (!d.pipe ==> v.pc == Visiting) && (v.pc != Visiting ==> v.pc == Reading && v.tokens + 1024 == u.tokens)
      && (v.pc == Visiting ==> v.todo == u.queue && v.queue == [])
  {
  }

  ghost function WriteCount(steps: seq<Step>, i: nat): nat
    requires i <= |steps|
  {
    if i == 0 then 0 else WriteCount(steps, i - 1) + if steps[i - 1].Write? then 1 else 0
  }

  lemma TokenStep(d: Descriptor, u: State, st: Step)
    requires Enabled(u, st)
    ensures
      var v := Apply(d, u, st);
      && (v.tokens > u.tokens ==> st.Write? && v.tokens == u.tokens + 1 && v.tokens <= d.cap)
      && (st.Write? && u.tokens < d.cap ==> v.tokens == u.tokens + 1)
  {
  }

  // In every run the descriptor holds no more than its capacity, and no more than was written.
  lemma {:induction false} TokensWritten(d: Descriptor, steps: seq<Step>, states: seq<State>, i: nat)
    requires Run(d, steps, states) && i < |states|
    ensures i <= |steps| && states[i].tokens <= d.cap && states[i].tokens <= WriteCount(steps, i)
  {
    hide Run, Apply, Enabled;
    RunLength(d, steps, states);
    NoTokens(d, steps, states);
    if i > 0 {
      TokensWritten(d, steps, states, i - 1);
      Follows(d, steps, states, i - 1);
      TokenStep(d, states[i - 1], steps[i - 1]);
    }
  }

  lemma NoTokens(d: Descriptor, steps: seq<Step>, states: seq<State>)
    requires Run(d, steps, states)
    ensures |states| > 0 && states[0].tokens == 0
  {
  }
}
