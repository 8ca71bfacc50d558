/** What the operations of src/timer.c mean for a program: when a timer is due, what a repeating timer does,
    and which of two timers that are due together comes first. */
module TimerLaws {
  import opened Common
  import opened HeapShape
  import opened TimerSpec

  // The due time: the sum, or the greatest 64-bit number if the sum is greater.
  predicate DueAt(due: nat, time: nat, timeout: nat) {
    due == if time + timeout <= 0xFFFF_FFFF_FFFF_FFFF then time + timeout else 0xFFFF_FFFF_FFFF_FFFF
  }

  // r is l but for the timer h, which no longer waits in the queue of a pass.
  ghost predicate OthersStay(l: Loop, r: Loop, h: Node) {
    && r.timers.Keys == l.timers.Keys && r.time == l.time
    && (forall n :: n in l.timers && n != h ==> r.timers[n] == l.timers[n])
    && Lacks(r.ready, l.ready, h) && Subsequence(r.ready, l.ready)
  }

  // ---------- one operation ----------

  lemma StopSets(l: Loop, h: Node)
    requires Inv(l) && h in l.timers
    ensures
      var r := Stop(l, h);
      && OthersStay(l, r, h) && r.counter == l.counter
      && r.timers[h] == l.timers[h].(active := false)
  {
    StopKeeps(l, h);
  }

  // A started timer is active, due after the timeout, and the last to be started.
  lemma StartSets(l: Loop, h: Node, timeout: nat, repeat: nat)
    requires Inv(l) && h in l.timers && !l.timers[h].closing && l.time <= MAX_UINT64 && timeout <= MAX_UINT64
    ensures
      var (r, status) := Start(l, h, true, timeout, repeat);
      var t := r.timers[h];
      && status == Ok && OthersStay(l, r, h) && r.counter == l.counter + 1
      && t.active && t.hasCb && !t.closing && t.repeat == repeat
      && t.key.startId == l.counter && DueAt(t.key.timeout, l.time, timeout)
  {
    hide Inv;
    ClampedSaturates(l.time, timeout);
    StopSets(l, h);
  }

  // A timer that is closing or has no callback is not started.
  lemma StartRefuses(l: Loop, h: Node, hasCb: bool, timeout: nat, repeat: nat)
    requires h in l.timers && (l.timers[h].closing || !hasCb)
    ensures Start(l, h, hasCb, timeout, repeat) == (l, EINVAL)
  {
  }

  // A repeating timer is due again after its repeat, and goes on repeating; others are left alone.
  lemma AgainSets(l: Loop, h: Node)
    requires Inv(l) && h in l.timers && l.timers[h].hasCb && !l.timers[h].closing
    requires l.time <= MAX_UINT64 && l.timers[h].repeat <= MAX_UINT64
    ensures
      var (r, status) := Again(l, h);
      var t := r.timers[h];
      && status == Ok
      && if l.timers[h].repeat == 0 then r == l
         else
           && OthersStay(l, r, h) && r.counter == l.counter + 1
           && t.active && t.hasCb && !t.closing && t.repeat == l.timers[h].repeat
           && t.key.startId == l.counter && DueAt(t.key.timeout, l.time, t.repeat)
  {
    hide Inv;
    if l.timers[h].repeat != 0 {
      StopSets(l, h);
      StopKeeps(l, h);
      StartSets(Stop(l, h), h, l.timers[h].repeat, l.timers[h].repeat);
      SubsequenceTrans(Again(l, h).0.ready, Stop(l, h).ready, l.ready);
    }
  }

  lemma AgainRefuses(l: Loop, h: Node)
    requires h in l.timers && !l.timers[h].hasCb
    ensures Again(l, h) == (l, EINVAL)
  {
  }

  // A new repeat counts from the next time that the timer is set going again.
  lemma SetRepeatThenAgain(l: Loop, h: Node, repeat: nat)
    requires Inv(l) && h in l.timers && l.timers[h].hasCb && !l.timers[h].closing
    requires l.time <= MAX_UINT64 && 0 < repeat <= MAX_UINT64
    ensures SetRepeat(l, h, repeat).timers[h] == l.timers[h].(repeat := repeat)
    ensures
      var t := Again(SetRepeat(l, h, repeat), h).0.timers[h];
      t.active && t.repeat == repeat && DueAt(t.key.timeout, l.time, repeat)
  {
    assert Inv(SetRepeat(l, h, repeat));
    AgainSets(SetRepeat(l, h, repeat), h);
  }

  // A closed timer is inactive and waits for no pass, and cannot be started any more.
  lemma CloseSets(l: Loop, h: Node, hasCb: bool, timeout: nat, repeat: nat)
    requires Inv(l) && h in l.timers
    ensures
      var r := Close(l, h);
      && OthersStay(l, r, h) && r.counter == l.counter
      && r.timers[h] == l.timers[h].(closing := true, active := false)
      && Start(r, h, hasCb, timeout, repeat) == (r, EINVAL)
  {
    WithoutLacks(l.ready, h);
    CloseKeeps(l, h);
  }

  // The callback of a timer runs when a repeating timer is active again, and any other is not.
  lemma TurnSets(l: Loop)
    requires Inv(l) && l.ready != [] && l.ready[0] in l.timers
    requires l.time <= MAX_UINT64 && l.timers[l.ready[0]].repeat <= MAX_UINT64
    ensures
      var h := l.ready[0];
      var t := Turn(l).timers[h];
      && t.repeat == l.timers[h].repeat && t.hasCb
      && if t.repeat == 0 then !t.active else t.active && DueAt(t.key.timeout, l.time, t.repeat)
  {
    var h := l.ready[0];
    var m := l.(ready := l.ready[1..]);
    assert h in l.ready && h !in m.ready;
    assert Inv(m);
    AgainSets(m, h);
  }

  // ---------- over several operations ----------

  // No operation is on the timer.
  predicate Apart(ops: seq<Op>, h: Node) {
    forall i :: 0 <= i < |ops| ==> ops[i].OpUpdateTime? || ops[i].h != h
  }

  lemma ApplyApart(l: Loop, op: Op, h: Node)
    requires Known(l.timers.Keys, op) && h in l.timers && (op.OpUpdateTime? || op.h != h)
    ensures Apply(l, op).timers[h] == l.timers[h] && Apply(l, op).counter >= l.counter
  {
    hide Clamped;
  }

  lemma {:induction false} ApplyAllApart(l: Loop, ops: seq<Op>, h: Node)
    requires AllKnown(l.timers.Keys, ops) && h in l.timers && Apart(ops, h)
    ensures ApplyAll(l, ops).timers[h] == l.timers[h] && ApplyAll(l, ops).counter >= l.counter
    decreases |ops|
  {
    hide Apply;
    if ops != [] {
      ApplyApart(l, ops[0], h);
      ApplyAllApart(Apply(l, ops[0]), ops[1..], h);
    }
  }

  // Two timers are started one after the other, and are due at the same time: whatever is done to other
  // timers meanwhile and afterwards, if both fire in the next pass, the one that was started first does so first.
  lemma StartedFirst(l: Loop, h: Node, timeout: nat, repeat: nat, between: seq<Op>,
    g: Node, timeout': nat, repeat': nat, after: seq<Op>, m: Loop, script: nat -> seq<Op>, i: nat, j: nat)
    requires Inv(l) && h != g && h in l.timers && !l.timers[h].closing
    requires
      var a := Start(l, h, true, timeout, repeat).0;
      AllKnown(a.timers.Keys, between) && Apart(between, h)
    requires
      var b := ApplyAll(Start(l, h, true, timeout, repeat).0, between);
      g in b.timers && !b.timers[g].closing
    requires
      var c := Start(ApplyAll(Start(l, h, true, timeout, repeat).0, between), g, true, timeout', repeat').0;
      && AllKnown(c.timers.Keys, after) && Apart(after, h) && Apart(after, g)
      && h in c.timers && c.timers[h].key.timeout == c.timers[g].key.timeout
      && Collected(ApplyAll(c, after), m)
    requires Inv(m) && Sound(m.timers.Keys, script, 0)
    requires i < |Fire(m, script, 0).1| && j < |Fire(m, script, 0).1|
    requires Fire(m, script, 0).1[i] == h && Fire(m, script, 0).1[j] == g
    ensures i < j
  {
    hide Inv, Fire, Sound, Apply, ApplyAll, AllKnown, Clamped, Collected, NoneTaken, SomeTakes, Stop;
    StartKeeps(l, h, true, timeout, repeat);
    var a := Start(l, h, true, timeout, repeat).0;
    StartKey(l, h, timeout, repeat);
    ApplyAllKeeps(a, between);
    ApplyAllApart(a, between, h);
    var b := ApplyAll(a, between);
    StartKeeps(b, g, true, timeout', repeat');
    StartKey(b, g, timeout', repeat');
    var c := Start(b, g, true, timeout', repeat').0;
    ApplyAllKeeps(c, after);
    ApplyAllApart(c, after, h);
    ApplyAllApart(c, after, g);
    Pass(ApplyAll(c, after), m, script);
  }

  lemma StartKey(l: Loop, h: Node, timeout: nat, repeat: nat)
    requires h in l.timers && !l.timers[h].closing
    ensures
      var r := Start(l, h, true, timeout, repeat).0;
      && r.timers[h].key.startId == l.counter && r.counter == l.counter + 1
      && forall n :: n in l.timers && n != h ==> r.timers[n] == l.timers[n]
  {
    hide Clamped;
  }

  // ---------- over a pass ----------

  // The first n callbacks from script(k) on do nothing to the timer, and none asks for the time.
  ghost predicate Quiet(script: nat -> seq<Op>, k: nat, n: nat, h: Node) {
    forall i, a :: k <= i < k + n && 0 <= a < |script(i)| ==> !script(i)[a].OpUpdateTime? && script(i)[a].h != h
  }

  lemma ApplyTime(l: Loop, op: Op)
    requires Known(l.timers.Keys, op) && !op.OpUpdateTime?
    ensures Apply(l, op).time == l.time
  {
    hide Clamped, Without;
  }

  lemma {:induction false} QuietCallback(l: Loop, ops: seq<Op>, h: Node)
    requires AllKnown(l.timers.Keys, ops) && h in l.timers
    requires forall a :: 0 <= a < |ops| ==> !ops[a].OpUpdateTime? && ops[a].h != h
    ensures ApplyAll(l, ops).timers[h] == l.timers[h] && ApplyAll(l, ops).time == l.time
    decreases |ops|
  {
    hide Apply;
    if ops != [] {
      ApplyApart(l, ops[0], h);
      ApplyTime(l, ops[0]);
      assert forall a :: 0 <= a < |ops[1..]| ==> ops[1..][a] == ops[a + 1];
      QuietCallback(Apply(l, ops[0]), ops[1..], h);
    }
  }

  // A pass does nothing to a timer that does not fire in it.
  lemma {:induction false} Unfired(l: Loop, script: nat -> seq<Op>, k: nat, h: Node)
    requires Inv(l) && Sound(l.timers.Keys, script, k) && h in l.timers
    requires h !in Fire(l, script, k).1 && Quiet(script, k, |Fire(l, script, k).1|, h)
    ensures Fire(l, script, k).0.timers[h] == l.timers[h]
    decreases |l.ready|
  {
    hide Inv, Sound, ApplyAll, Clamped;
    if l.ready != [] {
      FirstThere(l);
      SoundStep(l.timers.Keys, script, k);
      TurnKeeps(l, script(k));
      assert script(k) == script(k + 0);
      QuietCallback(Turn(l), script(k), h);
      TurnOthers(l, h);
      Unfired(ApplyAll(Turn(l), script(k)), script, k + 1, h);
    }
  }

  lemma TurnOthers(l: Loop, h: Node)
    requires l.ready != [] && l.ready[0] in l.timers && h in l.timers && h != l.ready[0]
    ensures Turn(l).timers[h] == l.timers[h] && Turn(l).time == l.time
  {
    hide Clamped, Without;
  }

  lemma TurnTime(l: Loop)
    requires l.ready != [] && l.ready[0] in l.timers
    ensures Turn(l).time == l.time
  {
    hide Clamped, Without;
  }

  // A timer that fires and is left alone by the callbacks is active after the pass if and only if it
  // repeats, and is then due after its repeat.
  lemma {:induction false} AfterPass(l: Loop, script: nat -> seq<Op>, k: nat, h: Node)
    requires Inv(l) && Sound(l.timers.Keys, script, k) && h in l.timers && l.time <= MAX_UINT64
    requires l.timers[h].repeat <= MAX_UINT64
    requires h in Fire(l, script, k).1 && Quiet(script, k, |Fire(l, script, k).1|, h)
    ensures
      var t := Fire(l, script, k).0.timers[h];
      && t.repeat == l.timers[h].repeat
      && if t.repeat == 0 then !t.active else t.active && DueAt(t.key.timeout, l.time, t.repeat)
    decreases |l.ready|
  {
    hide Inv, Sound, ApplyAll, Clamped, Turn;
    FirstThere(l);
    SoundStep(l.timers.Keys, script, k);
    TurnKeeps(l, script(k));
    var n := ApplyAll(Turn(l), script(k));
    assert script(k) == script(k + 0);
    QuietCallback(Turn(l), script(k), h);
    TurnTime(l);
    if h == l.ready[0] {
      TurnSets(l);
      FiresOnce(l, script, k);
      Unfired(n, script, k + 1, h);
    } else {
      TurnOthers(l, h);
      AfterPass(n, script, k + 1, h);
    }
  }

  lemma FiresOnce(l: Loop, script: nat -> seq<Op>, k: nat)
    requires Inv(l) && Sound(l.timers.Keys, script, k) && l.ready != [] && l.ready[0] in l.timers
    requires AllKnown(l.timers.Keys, script(k)) && Inv(ApplyAll(Turn(l), script(k)))
    requires Sound(AfterAll(l.timers.Keys, script(k)), script, k + 1)
    ensures l.ready[0] !in Fire(ApplyAll(Turn(l), script(k)), script, k + 1).1
  {
    hide Inv, Sound, ApplyAll, Turn;
    FiresInOrder(l, script, k);
    var rest := Fire(ApplyAll(Turn(l), script(k)), script, k + 1).1;
    assert Fire(l, script, k).1 == [l.ready[0]] + rest;
  }
}
