/** The timers of src/timer.c on values: what each operation does to the timers of a
    loop and to the queue of expired timers whose callbacks are still due. */
module TimerSpec {
  import opened HeapShape
  import opened Common

  const MAX_UINT64: nat := 0xFFFF_FFFF_FFFF_FFFF
  const MAX_INT: nat := 0x7FFF_FFFF

  datatype Timer = Timer(active: bool, closing: bool, hasCb: bool, repeat: nat, key: Key)

  datatype Loop = Loop(timers: map<Node, Timer>, ready: seq<Node>, time: nat, counter: nat)

  datatype Status = Ok | EINVAL

  // loop->time + timeout, in 64 bits and clamped on wrap-around.
  function Clamped(time: nat, timeout: nat): nat {
    var sum := (time + timeout) % (MAX_UINT64 + 1);
    if sum < timeout then MAX_UINT64 else sum
  }

  lemma ClampedSaturates(time: nat, timeout: nat)
    requires time <= MAX_UINT64 && timeout <= MAX_UINT64
    ensures Clamped(time, timeout) == if time + timeout <= MAX_UINT64 then time + timeout else MAX_UINT64
  {
    if time + timeout > MAX_UINT64 {
      assert (time + timeout) % (MAX_UINT64 + 1) == time + timeout - (MAX_UINT64 + 1);
    }
  }

  function Stop(l: Loop, h: Node): (r: Loop)
    requires h in l.timers
    ensures r.timers.Keys == l.timers.Keys
  {
    if l.timers[h].active
    then l.(timers := l.timers[h := l.timers[h].(active := false)])
    else l.(ready := Without(l.ready, h))
  }

  // The rest of uv_timer_start once the timer is stopped.
  function Arm(l: Loop, h: Node, timeout: nat, repeat: nat): (r: Loop)
    requires h in l.timers
    ensures r.timers.Keys == l.timers.Keys
  {
    l.(timers := l.timers[h := l.timers[h].(active := true, hasCb := true, repeat := repeat,
                                            key := Key(Clamped(l.time, timeout), l.counter))],
       counter := l.counter + 1)
  }

  function Start(l: Loop, h: Node, hasCb: bool, timeout: nat, repeat: nat): (r: (Loop, Status))
    requires h in l.timers
    ensures r.0.timers.Keys == l.timers.Keys
  {
    if l.timers[h].closing || !hasCb then (l, EINVAL)
    else
      (Arm(Stop(l, h), h, timeout, repeat), Ok)
  }

  function Again(l: Loop, h: Node): (r: (Loop, Status))
    requires h in l.timers
    ensures r.0.timers.Keys == l.timers.Keys
  {
    var t := l.timers[h];
    if !t.hasCb then (l, EINVAL)
    else if t.repeat != 0 then (Start(Stop(l, h), h, t.hasCb, t.repeat, t.repeat).0, Ok)
    else (l, Ok)
  }

  // uv_close of a timer.
  function Close(l: Loop, h: Node): (r: Loop)
    requires h in l.timers
    ensures r.timers.Keys == l.timers.Keys
  {
    Stop(l.(timers := l.timers[h := l.timers[h].(closing := true)]), h)
  }

  // uv_timer_init
  function Init(l: Loop, h: Node): (r: Loop)
    requires h !in l.timers
    ensures r.timers.Keys == l.timers.Keys + {h}
  {
    l.(timers := l.timers[h := Timer(false, false, false, 0, Key(0, 0))])
  }

  function SetRepeat(l: Loop, h: Node, repeat: nat): (r: Loop)
    requires h in l.timers
    ensures r.timers.Keys == l.timers.Keys
  {
    l.(timers := l.timers[h := l.timers[h].(repeat := repeat)])
  }

  // What a timer callback may do to the loop's timers.
  datatype Op =
    | OpInit(h: Node)
    | OpStart(h: Node, hasCb: bool, timeout: nat, repeat: nat)
    | OpStop(h: Node)
    | OpAgain(h: Node)
    | OpClose(h: Node)
    | OpSetRepeat(h: Node, repeat: nat)
    | OpUpdateTime(time: nat)

  // The operation is on a timer of the loop, or initializes one that is not.
  predicate Known(handles: set<Node>, op: Op) {
    op.OpUpdateTime? || (op.OpInit? <==> op.h !in handles)
  }

  predicate Within(pool: set<Node>, ops: seq<Op>) {
    forall i :: 0 <= i < |ops| ==> ops[i].OpUpdateTime? || ops[i].h in pool
  }

  // The timers after the operation.
  function After(handles: set<Node>, op: Op): (r: set<Node>)
    ensures handles <= r
  {
    if op.OpInit? then handles + {op.h} else handles
  }

  predicate AllKnown(handles: set<Node>, ops: seq<Op>)
    decreases |ops|
  {
    ops == [] || (Known(handles, ops[0]) && AllKnown(After(handles, ops[0]), ops[1..]))
  }

  function AfterAll(handles: set<Node>, ops: seq<Op>): (r: set<Node>)
    ensures handles <= r
    decreases |ops|
  {
    if ops == [] then handles else AfterAll(After(handles, ops[0]), ops[1..])
  }

  function Apply(l: Loop, op: Op): (r: Loop)
    requires Known(l.timers.Keys, op)
    ensures r.timers.Keys == After(l.timers.Keys, op)
  {
    match op
    case OpInit(h) => Init(l, h)
    case OpStart(h, hasCb, timeout, repeat) => Start(l, h, hasCb, timeout, repeat).0
    case OpStop(h) => Stop(l, h)
    case OpAgain(h) => Again(l, h).0
    case OpClose(h) => Close(l, h)
    case OpSetRepeat(h, repeat) => SetRepeat(l, h, repeat)
    case OpUpdateTime(time) => l.(time := if time > l.time then time else l.time)
  }

  function ApplyAll(l: Loop, ops: seq<Op>): (r: Loop)
    requires AllKnown(l.timers.Keys, ops)
    ensures r.timers.Keys == AfterAll(l.timers.Keys, ops)
    decreases |ops|
  {
    if ops == [] then l else ApplyAll(Apply(l, ops[0]), ops[1..])
  }

  // The timers after i more callbacks, of which the first performs script(k).
  function HandlesAfter(handles: set<Node>, script: nat -> seq<Op>, k: nat, i: nat): set<Node>
    decreases i
  {
    if i == 0 then handles else HandlesAfter(AfterAll(handles, script(k)), script, k + 1, i - 1)
  }

  predicate SoundAt(handles: set<Node>, script: nat -> seq<Op>, k: nat, i: nat) {
    AllKnown(HandlesAfter(handles, script, k, i), script(k + i))
  }

  // Each callback from script(k) on operates on timers that are there by then.
  ghost predicate Sound(handles: set<Node>, script: nat -> seq<Op>, k: nat) {
    forall i: nat :: SoundAt(handles, script, k, i)
  }

  lemma SoundStep(handles: set<Node>, script: nat -> seq<Op>, k: nat)
    requires Sound(handles, script, k)
    ensures AllKnown(handles, script(k)) && Sound(AfterAll(handles, script(k)), script, k + 1)
  {
    hide SoundAt;
    SoundFirst(handles, script, k);
    var rest, next := AfterAll(handles, script(k)), k + 1;
    forall i: nat ensures SoundAt(rest, script, next, i) {
      SoundNext(handles, script, k, i);
    }
  }

  lemma SoundFirst(handles: set<Node>, script: nat -> seq<Op>, k: nat)
    requires Sound(handles, script, k)
    ensures AllKnown(handles, script(k))
  {
    assert SoundAt(handles, script, k, 0);
  }

  lemma SoundNext(handles: set<Node>, script: nat -> seq<Op>, k: nat, i: nat)
    requires Sound(handles, script, k)
    ensures SoundAt(AfterAll(handles, script(k)), script, k + 1, i)
  {
    assert SoundAt(handles, script, k, i + 1);
    assert k + (i + 1) == k + 1 + i;
  }

  // Which operation takes a timer that waits in the queue out of it.
  predicate Withdraws(l: Loop, op: Op, h: Node)
    requires h in l.timers
  {
    match op
    case OpInit(_) => false
    case OpStart(x, hasCb, _, _) => x == h && hasCb
    case OpStop(x) => x == h
    case OpAgain(x) => x == h && l.timers[h].repeat != 0
    case OpClose(x) => x == h
    case OpSetRepeat(_, _) => false
    case OpUpdateTime(_) => false
  }

  // A waiting timer is not active, has a callback and is not closing; no timer is both active and closing.
  ghost predicate Inv(l: Loop) {
    && NoDup(l.ready)
    && (forall h :: h in l.ready ==> h in l.timers && !l.timers[h].active && l.timers[h].hasCb && !l.timers[h].closing)
    && (forall h :: h in l.timers && l.timers[h].active ==> l.timers[h].hasCb && !l.timers[h].closing)
  }

  // r has the elements of s but for x.
  ghost predicate Lacks(r: seq<Node>, s: seq<Node>, x: Node) {
    (forall n :: n in r ==> n in s && n != x) && (forall n :: n in s && n != x ==> n in r)
  }

  ghost predicate Among(r: seq<Node>, s: seq<Node>) {
    forall n :: n in r ==> n in s
  }

  lemma WithoutLacks(s: seq<Node>, x: Node)
    requires NoDup(s)
    ensures NoDup(Without(s, x)) && Lacks(Without(s, x), s, x)
  {
    WithoutIs(s, x);
  }

  // s with some of its elements left out.
  ghost predicate Subsequence(r: seq<Node>, s: seq<Node>) {
    if r == [] then true
    else if s == [] then false
    else if r[0] == s[0] then Subsequence(r[1..], s[1..])
    else Subsequence(r, s[1..])
  }

  lemma {:induction false} SubsequenceRefl(s: seq<Node>)
    ensures Subsequence(s, s)
  {
    if s != [] {
      SubsequenceRefl(s[1..]);
    }
  }

  lemma {:induction false} SubsequenceTail(r: seq<Node>, s: seq<Node>)
    requires r != [] && Subsequence(r, s)
    ensures Subsequence(r[1..], s)
    decreases |s|, 1
  {
    if r[0] == s[0] {
      SubsequenceSkip(r[1..], s);
    } else {
      SubsequenceTail(r, s[1..]);
      SubsequenceSkip(r[1..], s);
    }
  }

  lemma SubsequenceSkip(r: seq<Node>, s: seq<Node>)
    requires s != [] && Subsequence(r, s[1..])
    ensures Subsequence(r, s)
    decreases |s|, 0
  {
    if r != [] && r[0] == s[0] {
      SubsequenceTail(r, s[1..]);
    }
  }

  lemma {:induction false} SubsequenceTrans(r: seq<Node>, s: seq<Node>, t: seq<Node>)
    requires Subsequence(r, s) && Subsequence(s, t)
    ensures Subsequence(r, t)
    decreases |s| + |t|
  {
    if r != [] {
      if s[0] != t[0] {
        SubsequenceTrans(r, s, t[1..]);
        SubsequenceSkip(r, t);
      } else if r[0] == s[0] {
        SubsequenceTrans(r[1..], s[1..], t[1..]);
      } else {
        SubsequenceTrans(r, s[1..], t[1..]);
      }
    }
  }

  lemma {:induction false} SubsequenceWithout(s: seq<Node>, x: Node)
    ensures Subsequence(Without(s, x), s)
  {
    if s != [] {
      SubsequenceWithout(s[1..], x);
      if s[0] == x {
        SubsequenceSkip(Without(s[1..], x), s);
      }
    }
  }

  lemma {:induction false} SubsequenceIn(r: seq<Node>, s: seq<Node>)
    requires Subsequence(r, s)
    ensures Among(r, s)
  {
    if r != [] {
      assert forall n :: n in r ==> n == r[0] || n in r[1..];
      if r[0] == s[0] {
        SubsequenceIn(r[1..], s[1..]);
      } else {
        SubsequenceIn(r, s[1..]);
      }
    }
  }

  lemma {:induction false} SubsequenceNoDup(r: seq<Node>, s: seq<Node>)
    requires Subsequence(r, s) && NoDup(s)
    ensures NoDup(r)
  {
    if r != [] {
      if r[0] == s[0] {
        SubsequenceNoDup(r[1..], s[1..]);
        SubsequenceIn(r[1..], s[1..]);
        assert r[0] !in r[1..];
        assert r == [r[0]] + r[1..];
      } else {
        SubsequenceNoDup(r, s[1..]);
      }
    }
  }

  // ---------- one operation ----------

  lemma StopKeeps(l: Loop, h: Node)
    requires Inv(l) && h in l.timers
    ensures Inv(Stop(l, h)) && Subsequence(Stop(l, h).ready, l.ready)
    ensures Lacks(Stop(l, h).ready, l.ready, h) && !Stop(l, h).timers[h].active
  {
    WithoutLacks(l.ready, h);
    SubsequenceWithout(l.ready, h);
    SubsequenceRefl(l.ready);
  }

  lemma StartKeeps(l: Loop, h: Node, hasCb: bool, timeout: nat, repeat: nat)
    requires Inv(l) && h in l.timers
    ensures var r := Start(l, h, hasCb, timeout, repeat).0; Inv(r) && Subsequence(r.ready, l.ready)
    ensures var r := Start(l, h, hasCb, timeout, repeat).0; if hasCb then Lacks(r.ready, l.ready, h) else r == l
  {
    StopKeeps(l, h);
    SubsequenceRefl(l.ready);
  }

  // The waiting timers that op takes out of the queue are those it withdraws.
  ghost predicate LosesWithdrawn(l: Loop, op: Op)
    requires Known(l.timers.Keys, op)
  {
    forall n :: n in l.ready && n in l.timers ==> (n !in Apply(l, op).ready <==> Withdraws(l, op, n))
  }

  // Every operation keeps the invariant; the queue only loses timers, and loses exactly those withdrawn.
  lemma ApplyKeeps(l: Loop, op: Op)
    requires Inv(l) && Known(l.timers.Keys, op)
    ensures Inv(Apply(l, op)) && Subsequence(Apply(l, op).ready, l.ready)
    ensures LosesWithdrawn(l, op)
  {
    SubsequenceRefl(l.ready);
    match op
    case OpInit(h) =>
    case OpStart(h, hasCb, timeout, repeat) => StartKeeps(l, h, hasCb, timeout, repeat);
    case OpStop(h) => StopKeeps(l, h);
    case OpAgain(h) => AgainKeeps(l, h);
    case OpClose(h) => CloseKeeps(l, h);
    case OpSetRepeat(h, repeat) =>
    case OpUpdateTime(time) =>
  }

  lemma AgainKeeps(l: Loop, h: Node)
    requires Inv(l) && h in l.timers
    ensures var r := Again(l, h).0; Inv(r) && Subsequence(r.ready, l.ready)
    ensures LosesWithdrawn(l, OpAgain(h))
  {
    SubsequenceRefl(l.ready);
    var t := l.timers[h];
    if t.hasCb && t.repeat != 0 {
      var s := Stop(l, h);
      StopKeeps(l, h);
      StartKeeps(s, h, true, t.repeat, t.repeat);
      SubsequenceTrans(Again(l, h).0.ready, s.ready, l.ready);
    }
  }

  lemma CloseKeeps(l: Loop, h: Node)
    requires Inv(l) && h in l.timers
    ensures Inv(Close(l, h)) && Subsequence(Close(l, h).ready, l.ready)
    ensures LosesWithdrawn(l, OpClose(h))
  {
    WithoutLacks(l.ready, h);
    SubsequenceWithout(l.ready, h);
    SubsequenceRefl(l.ready);
  }

  // ---------- a callback ----------

  // h leaves the queue during the callback exactly when one of its operations withdraws it.
  ghost predicate WithdrawnBy(l: Loop, ops: seq<Op>, h: Node)
    requires h in l.timers && AllKnown(l.timers.Keys, ops)
    decreases |ops|
  {
    ops != [] && (Withdraws(l, ops[0], h) || WithdrawnBy(Apply(l, ops[0]), ops[1..], h))
  }

  ghost predicate LosesAllWithdrawn(l: Loop, ops: seq<Op>)
    requires AllKnown(l.timers.Keys, ops)
  {
    forall n :: n in l.ready && n in l.timers ==> (n !in ApplyAll(l, ops).ready <==> WithdrawnBy(l, ops, n))
  }

  lemma {:induction false} ApplyAllKeeps(l: Loop, ops: seq<Op>)
    requires Inv(l) && AllKnown(l.timers.Keys, ops)
    ensures Inv(ApplyAll(l, ops)) && Subsequence(ApplyAll(l, ops).ready, l.ready)
    ensures LosesAllWithdrawn(l, ops)
    decreases |ops|
  {
    if ops == [] {
      SubsequenceRefl(l.ready);
    } else {
      var m := Apply(l, ops[0]);
      ApplyKeeps(l, ops[0]);
      ApplyAllKeeps(m, ops[1..]);
      SubsequenceTrans(ApplyAll(l, ops).ready, m.ready, l.ready);
      SubsequenceIn(ApplyAll(m, ops[1..]).ready, m.ready);
    }
  }

  // ---------- a pass of uv__run_timers ----------

  predicate Expired(l: Loop, h: Node)
    requires h in l.timers
  {
    l.timers[h].active && l.timers[h].key.timeout <= l.time
  }

  ghost predicate InKeyOrder(l: Loop, s: seq<Node>)
    requires forall h :: h in s ==> h in l.timers
  {
    forall i, j :: 0 <= i < j < |s| ==> !LessThan(l.timers[s[j]].key, l.timers[s[i]].key)
  }

  // m is what the first loop makes of l: the expired timers, in order, stopped and queued.
  ghost predicate Collected(l: Loop, m: Loop) {
    && m.time == l.time && m.counter == l.counter && m.timers.Keys == l.timers.Keys
    && NoDup(m.ready) && (forall h :: h in m.ready ==> h in l.timers && Expired(l, h))
    && (forall h :: h in l.timers && Expired(l, h) ==> h in m.ready)
    && InKeyOrder(l, m.ready)
    && forall h :: h in l.timers ==>
         m.timers[h] == if Expired(l, h) then l.timers[h].(active := false) else l.timers[h]
  }

  // The state in which the callback of the first waiting timer runs.
  function Turn(l: Loop): (r: Loop)
    requires l.ready != [] && l.ready[0] in l.timers
    ensures r.timers.Keys == l.timers.Keys
  {
    Again(l.(ready := l.ready[1..]), l.ready[0]).0
  }

  lemma {:induction false} SubsequenceLength(r: seq<Node>, s: seq<Node>)
    requires Subsequence(r, s)
    ensures |r| <= |s|
  {
    if r != [] {
      if r[0] == s[0] {
        SubsequenceLength(r[1..], s[1..]);
      } else {
        SubsequenceLength(r, s[1..]);
      }
    }
  }

  lemma TurnKeeps(l: Loop, ops: seq<Op>)
    requires Inv(l) && l.ready != [] && AllKnown(l.timers.Keys, ops)
    ensures Inv(Turn(l)) && Turn(l).ready == l.ready[1..]
    ensures Inv(ApplyAll(Turn(l), ops)) && LosesAllWithdrawn(Turn(l), ops)
    ensures Subsequence(ApplyAll(Turn(l), ops).ready, l.ready[1..])
    ensures |ApplyAll(Turn(l), ops).ready| < |l.ready|
  {
    var m := l.(ready := l.ready[1..]);
    var h := l.ready[0];
    assert h !in m.ready;
    assert Inv(m);
    AgainKeeps(m, h);
    WithoutAbsent(m.ready, h);
    ApplyAllKeeps(Turn(l), ops);
    SubsequenceLength(ApplyAll(Turn(l), ops).ready, l.ready[1..]);
  }

  // The second loop: the callback of the i-th timer to fire performs script(k + i).
  function Fire(l: Loop, script: nat -> seq<Op>, k: nat): (r: (Loop, seq<Node>))
    requires Inv(l) && Sound(l.timers.Keys, script, k)
    ensures l.timers.Keys <= r.0.timers.Keys
    decreases |l.ready|
  {
    if l.ready == [] then (l, [])
    else
      assert l.ready[0] in l.ready;
      SoundStep(l.timers.Keys, script, k);
      TurnKeeps(l, script(k));
      var r := Fire(ApplyAll(Turn(l), script(k)), script, k + 1);
      (r.0, [l.ready[0]] + r.1)
  }

  // After the callbacks of fired the pass that began in m goes on from l.
  ghost predicate FireFrom(m: Loop, script: nat -> seq<Op>, fired: seq<Node>, l: Loop, k: nat)
    requires Inv(m) && Inv(l) && Sound(m.timers.Keys, script, 0) && Sound(l.timers.Keys, script, k)
  {
    Fire(m, script, 0) == (Fire(l, script, k).0, fired + Fire(l, script, k).1)
  }

  lemma FireStart(m: Loop, script: nat -> seq<Op>)
    requires Inv(m) && Sound(m.timers.Keys, script, 0)
    ensures FireFrom(m, script, [], m, 0)
  {
    hide Fire;
    assert [] + Fire(m, script, 0).1 == Fire(m, script, 0).1;
  }

  lemma FireStep(m: Loop, script: nat -> seq<Op>, fired: seq<Node>, l: Loop, k: nat)
    requires Inv(m) && Inv(l) && Sound(m.timers.Keys, script, 0) && Sound(l.timers.Keys, script, k)
    requires FireFrom(m, script, fired, l, k) && l.ready != [] && l.ready[0] in l.timers
      && AllKnown(l.timers.Keys, script(k))
    ensures Inv(ApplyAll(Turn(l), script(k))) && Sound(AfterAll(l.timers.Keys, script(k)), script, k + 1)
    ensures FireFrom(m, script, fired + [l.ready[0]], ApplyAll(Turn(l), script(k)), k + 1)
  {
    hide Inv, Sound;
    SoundStep(l.timers.Keys, script, k);
    TurnKeeps(l, script(k));
    var rest := Fire(ApplyAll(Turn(l), script(k)), script, k + 1).1;
    assert fired + ([l.ready[0]] + rest) == fired + [l.ready[0]] + rest;
  }

  lemma FireEnd(m: Loop, script: nat -> seq<Op>, fired: seq<Node>, l: Loop, k: nat)
    requires Inv(m) && Inv(l) && Sound(m.timers.Keys, script, 0) && Sound(l.timers.Keys, script, k)
    requires FireFrom(m, script, fired, l, k) && l.ready == []
    ensures Fire(m, script, 0) == (l, fired)
  {
    assert fired + [] == fired;
  }

  // Before its turn to fire, an operation of an earlier callback withdraws h.
  ghost predicate TakenOut(l: Loop, script: nat -> seq<Op>, k: nat, h: Node)
    requires Inv(l) && Sound(l.timers.Keys, script, k)
    requires h in l.timers
    decreases |l.ready|
  {
    && l.ready != []
    && l.ready[0] != h
    && (SoundStep(l.timers.Keys, script, k);
        TurnKeeps(l, script(k));
        assert l.ready[0] in l.ready;
        WithdrawnBy(Turn(l), script(k), h) || TakenOut(ApplyAll(Turn(l), script(k)), script, k + 1, h))
  }

  // Whatever the callbacks do, the pass ends with an empty queue and in a sound state; what it
  // fires is a subsequence of the timers that had expired at its start, each at most once.
  lemma {:induction false} FiresInOrder(l: Loop, script: nat -> seq<Op>, k: nat)
    requires Inv(l) && Sound(l.timers.Keys, script, k)
    ensures var (m, fired) := Fire(l, script, k);
            Inv(m) && m.ready == [] && Subsequence(fired, l.ready) && NoDup(fired)
    decreases |l.ready|
  {
    if l.ready != [] {
      assert l.ready[0] in l.ready;
      SoundStep(l.timers.Keys, script, k);
      TurnKeeps(l, script(k));
      var n := ApplyAll(Turn(l), script(k));
      var fired := Fire(n, script, k + 1).1;
      FiresInOrder(n, script, k + 1);
      SubsequenceTrans(fired, n.ready, l.ready[1..]);
      assert ([l.ready[0]] + fired)[1..] == fired;
      SubsequenceNoDup([l.ready[0]] + fired, l.ready);
    }
  }

  // An expired timer fires unless an earlier callback of the pass withdraws it, and only then not.
  lemma {:induction false} FiresUnlessWithdrawn(l: Loop, script: nat -> seq<Op>, k: nat, h: Node)
    requires Inv(l) && Sound(l.timers.Keys, script, k)
    requires h in l.ready && h in l.timers
    ensures h in Fire(l, script, k).1 <==> !TakenOut(l, script, k, h)
    decreases |l.ready|
  {
    assert l.ready[0] in l.ready;
    if h != l.ready[0] {
      SoundStep(l.timers.Keys, script, k);
      TurnKeeps(l, script(k));
      var m, n := Turn(l), ApplyAll(Turn(l), script(k));
      assert h in m.ready;
      if h in n.ready {
        FiresUnlessWithdrawn(n, script, k + 1, h);
      } else {
        FiresInOrder(n, script, k + 1);
        SubsequenceIn(Fire(n, script, k + 1).1, n.ready);
      }
    }
  }

  // The operation takes the timer out of the queue in any state.
  predicate Takes(op: Op, h: Node) {
    op == OpStop(h) || op == OpClose(h) || (op.OpStart? && op.h == h && op.hasCb)
  }

  // Stopping, closing or starting a timer withdraws it, in whatever state the operation is reached.
  lemma {:induction false} AlwaysWithdraws(l: Loop, ops: seq<Op>, h: Node, j: nat)
    requires h in l.timers && AllKnown(l.timers.Keys, ops) && j < |ops|
    requires Takes(ops[j], h)
    ensures WithdrawnBy(l, ops, h)
    decreases |ops|
  {
    if j > 0 {
      AlwaysWithdraws(Apply(l, ops[0]), ops[1..], h, j - 1);
    }
  }

  // And nothing but these and uv_timer_again does.
  lemma {:induction false} OnlyWithdraws(l: Loop, ops: seq<Op>, h: Node) returns (j: nat)
    requires h in l.timers && AllKnown(l.timers.Keys, ops) && WithdrawnBy(l, ops, h)
    ensures j < |ops| && (Takes(ops[j], h) || ops[j] == OpAgain(h))
    decreases |ops|
  {
    if Withdraws(l, ops[0], h) {
      j := 0;
    } else {
      j := OnlyWithdraws(Apply(l, ops[0]), ops[1..], h);
      j := j + 1;
    }
  }

  // The timers that the first callback stops, closes or starts do not fire later.
  lemma NotAfterFirst(l: Loop, script: nat -> seq<Op>, k: nat, h: Node, a: nat)
    requires Inv(l) && Sound(l.timers.Keys, script, k) && l.ready != [] && l.ready[0] in l.timers
    requires AllKnown(l.timers.Keys, script(k)) && Inv(ApplyAll(Turn(l), script(k)))
    requires Sound(AfterAll(l.timers.Keys, script(k)), script, k + 1)
    requires h in Fire(ApplyAll(Turn(l), script(k)), script, k + 1).1 && a < |script(k)|
    ensures !Takes(script(k)[a], h)
  {
    hide Inv, Sound, Takes, Turn, ApplyAll, WithdrawnBy, Fire;
    TurnKeeps(l, script(k));
    var n := ApplyAll(Turn(l), script(k));
    FiresInOrder(n, script, k + 1);
    SubsequenceIn(Fire(n, script, k + 1).1, n.ready);
    SubsequenceIn(n.ready, l.ready[1..]);
    assert h in l.ready[1..];
    ReadyThere(l, h);
    if Takes(script(k)[a], h) {
      AlwaysWithdraws(Turn(l), script(k), h, a);
      assert false;
    }
  }

  // No timer fires after the callback of an earlier one has stopped, closed or started it.
  lemma {:induction false} NotAfterTaking(l: Loop, script: nat -> seq<Op>, k: nat, i: nat, j: nat, a: nat)
    requires Inv(l) && Sound(l.timers.Keys, script, k)
    requires i < j < |Fire(l, script, k).1| && a < |script(k + i)|
    ensures !Takes(script(k + i)[a], Fire(l, script, k).1[j])
    decreases i
  {
    hide Inv, Sound, Takes, Turn, ApplyAll;
    FirstThere(l);
    SoundStep(l.timers.Keys, script, k);
    TurnKeeps(l, script(k));
    var n := ApplyAll(Turn(l), script(k));
    var rest := Fire(n, script, k + 1).1;
    assert Fire(l, script, k).1[j] == rest[j - 1];
    if i > 0 {
      NotAfterTaking(n, script, k + 1, i - 1, j - 1, a);
    } else {
      NotAfterFirst(l, script, k, rest[j - 1], a);
    }
  }

  lemma FirstThere(l: Loop)
    requires Inv(l)
    ensures l.ready != [] ==> l.ready[0] in l.timers
  {
    assert l.ready != [] ==> l.ready[0] in l.ready;
  }

  lemma ReadyThere(l: Loop, h: Node)
    requires Inv(l) && h in l.ready
    ensures h in l.timers
  {
  }

  // A timer of the queue that is not fired was stopped, closed, started or set going again by a callback.
  lemma {:induction false} TakenBy(l: Loop, script: nat -> seq<Op>, k: nat, h: Node) returns (i: nat, a: nat)
    requires Inv(l) && Sound(l.timers.Keys, script, k) && h in l.ready && h !in Fire(l, script, k).1
    ensures i < |Fire(l, script, k).1| && a < |script(k + i)|
    ensures Takes(script(k + i)[a], h) || script(k + i)[a] == OpAgain(h)
    decreases |l.ready|
  {
    hide Inv, Sound, Takes, Turn, ApplyAll, WithdrawnBy;
    FirstThere(l);
    ReadyThere(l, h);
    SoundStep(l.timers.Keys, script, k);
    TurnKeeps(l, script(k));
    var n := ApplyAll(Turn(l), script(k));
    assert h in Turn(l).ready;
    if h in n.ready {
      i, a := TakenBy(n, script, k + 1, h);
      i := i + 1;
    } else {
      i := 0;
      a := OnlyWithdraws(Turn(l), script(k), h);
    }
  }

  // ---------- the first loop ----------

  // Some of the expired timers of l have been moved, smallest first; r is the loop so far.
  ghost predicate Collecting(l: Loop, r: Loop) {
    && r.time == l.time && r.counter == l.counter && r.timers.Keys == l.timers.Keys
    && NoDup(r.ready) && (forall h :: h in r.ready ==> h in l.timers && Expired(l, h))
    && InKeyOrder(l, r.ready)
    && (forall h :: h in l.timers ==>
          r.timers[h] == if h in r.ready then l.timers[h].(active := false) else l.timers[h])
    && (forall h, g :: h in r.timers && r.timers[h].active && g in r.ready ==>
      !LessThan(r.timers[h].key, l.timers[g].key))
  }

  // h is active and no active timer precedes it.
  ghost predicate Earliest(l: Loop, h: Node) {
    && h in l.timers && l.timers[h].active
    && forall g :: g in l.timers && l.timers[g].active ==> !LessThan(l.timers[g].key, l.timers[h].key)
  }

  lemma CollectStep(l: Loop, r: Loop, h: Node)
    requires Inv(l) && Inv(r) && Collecting(l, r) && Earliest(r, h) && r.timers[h].key.timeout <= r.time
    ensures var s := Stop(r, h); Inv(s.(ready := s.ready + [h])) && Collecting(l, s.(ready := s.ready + [h]))
  {
    assert h !in r.ready;
    var s := Stop(r, h);
    var n := s.(ready := s.ready + [h]);
    assert NoDup(n.ready);
    assert forall i :: 0 <= i < |r.ready| ==> r.ready[i] in r.ready;
    assert InKeyOrder(l, n.ready);
  }

  lemma {:induction false} SubsequenceOrder(l: Loop, r: seq<Node>, s: seq<Node>)
    requires (forall h :: h in s ==> h in l.timers) && (forall h :: h in r ==> h in l.timers)
    requires Subsequence(r, s) && InKeyOrder(l, s)
    ensures InKeyOrder(l, r)
    decreases |s|
  {
    if r != [] {
      assert InKeyOrder(l, s[1..]);
      if r[0] == s[0] {
        SubsequenceOrder(l, r[1..], s[1..]);
        SubsequenceIn(r[1..], s[1..]);
        forall i, j | 0 <= i < j < |r| ensures !LessThan(l.timers[r[j]].key, l.timers[r[i]].key) {
          assert r[j] == r[1..][j - 1] && r[j] in s[1..];
          if i > 0 {
            assert r[i] == r[1..][i - 1];
          }
        }
      } else {
        SubsequenceOrder(l, r, s[1..]);
      }
    }
  }

  ghost predicate FiresExactly(l: Loop, m: Loop, script: nat -> seq<Op>)
    requires Inv(m) && m.timers.Keys == l.timers.Keys && Sound(m.timers.Keys, script, 0)
  {
    forall h :: h in l.timers ==> (h in Fire(m, script, 0).1 <==> Expired(l, h) && !TakenOut(m, script, 0, h))
  }

  // No callback stops, closes or starts a timer that fires later in the pass.
  ghost predicate NoneTaken(script: nat -> seq<Op>, fired: seq<Node>) {
    forall i, j, a :: 0 <= i < j < |fired| && 0 <= a < |script(i)| ==> !Takes(script(i)[a], fired[j])
  }

  // One of the first n callbacks stops, closes or starts the timer or sets it going again.
  ghost predicate SomeTakes(script: nat -> seq<Op>, n: nat, h: Node) {
    exists i: nat, a: nat :: i < n && a < |script(i)| && (Takes(script(i)[a], h) || script(i)[a] == OpAgain(h))
  }

  // The timer is active and due.
  predicate Due(l: Loop, h: Node)
    requires h in l.timers
  {
    l.timers[h].active && l.timers[h].key.timeout <= l.time
  }

  // The timers are in the order of their due times, those due together in the order of their starts.
  ghost predicate InStartOrder(l: Loop, s: seq<Node>) {
    forall i, j :: 0 <= i < j < |s| && s[i] in l.timers && s[j] in l.timers ==>
      var a, b := l.timers[s[i]].key, l.timers[s[j]].key;
      a.timeout < b.timeout || (a.timeout == b.timeout && a.startId <= b.startId)
  }

  // What a pass over the loop l fires: timers that had expired at its start, each once, in the order of
  // timeout and start_id; none that an earlier callback of the pass took out, and every other.
  ghost predicate FiresWell(l: Loop, script: nat -> seq<Op>, fired: seq<Node>) {
    && NoDup(fired) && (forall h :: h in fired ==> h in l.timers && Due(l, h)) && InStartOrder(l, fired)
    && NoneTaken(script, fired)
    && forall h :: h in l.timers && Due(l, h) && h !in fired ==> SomeTakes(script, |fired|, h)
  }

  lemma StartOrder(l: Loop, s: seq<Node>)
    requires (forall h :: h in s ==> h in l.timers) && InKeyOrder(l, s)
    ensures InStartOrder(l, s)
  {
  }

  // A pass fires exactly the expired timers that no earlier callback of the pass withdraws.
  lemma Pass(l: Loop, m: Loop, script: nat -> seq<Op>)
    requires Inv(l) && Inv(m) && Collected(l, m) && Sound(m.timers.Keys, script, 0)
    ensures FiresWell(l, script, Fire(m, script, 0).1) && FiresExactly(l, m, script)
  {
    hide Inv, Sound, Fire, Takes, InStartOrder, LessThan;
    var fired := Fire(m, script, 0).1;
    FiresInOrder(m, script, 0);
    SubsequenceIn(fired, m.ready);
    SubsequenceOrder(l, fired, m.ready);
    StartOrder(l, fired);
    forall h | h in l.timers ensures h in fired <==> Expired(l, h) && !TakenOut(m, script, 0, h) {
      if h in m.ready {
        FiresUnlessWithdrawn(m, script, 0, h);
      }
    }
    forall i, j, a | 0 <= i < j < |fired| && 0 <= a < |script(i)| ensures !Takes(script(i)[a], fired[j]) {
      NotAfterTaking(m, script, 0, i, j, a);
    }
    forall h | h in l.timers && Due(l, h) && h !in fired ensures SomeTakes(script, |fired|, h) {
      var i, a := TakenBy(m, script, 0, h);
    }
  }
}
