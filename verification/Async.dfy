/** The wake-up protocol of src/unix/async.c as a state machine: any number of sender threads and
    one loop thread, whose steps are the atomic operations and the reads and writes of the
    descriptor. */
module Async {
  import opened Common

  type Id = nat

  // busy is the number in handle->u.fd; open until uv__async_close has taken the handle off its queue.
  datatype Handle = Handle(pending: bool, busy: int, open: bool)

  datatype SenderPc =
    | Away
    | Loaded(h: Id)      // read pending as 0
    | Busy(h: Id)        // has incremented busy
    | Writing(h: Id)     // exchanged pending from 0 to 1
    | Leaving(h: Id)     // about to decrement busy

  datatype LoopPc = Polling | Reading | Visiting

  // tokens: the bytes in the pipe or the value of the eventfd, at most cap.  queue is
  // loop->async_handles, todo the local queue of uv__async_io, spin the handle that
  // uv__async_spin waits for; visited is an auxiliary variable that no step reads.
  datatype State = State(
    handles: map<Id, Handle>,
    senders: seq<SenderPc>,
    tokens: nat,
    pc: LoopPc,
    queue: seq<Id>,
    todo: seq<Id>,
    spin: Option<Id>,
    visited: seq<Id>)

  // The descriptor: a pipe, which read takes up to 1024 bytes from, or an eventfd, which it resets.
  datatype Descriptor = Descriptor(pipe: bool, cap: nat)

  const BUFFER := 1024

  datatype Step =
    | Load(s: nat, h: Id)
    | Enter(s: nat)
    | Exchange(s: nat)
    | Write(s: nat)
    | Leave(s: nat)
    | Init(h: Id)
    | Poll
    | Read
    | Visit
    | EndPass
    | Close(h: Id)
    | Spun

  ghost predicate Enabled(u: State, st: Step) {
    match st
    case Load(s, h) => s < |u.senders| && u.senders[s] == Away && h in u.handles
    case Enter(s) => s < |u.senders| && u.senders[s].Loaded? && u.senders[s].h in u.handles
    case Exchange(s) => s < |u.senders| && u.senders[s].Busy? && u.senders[s].h in u.handles
    case Write(s) => s < |u.senders| && u.senders[s].Writing? && u.senders[s].h in u.handles
    case Leave(s) => s < |u.senders| && u.senders[s].Leaving? && u.senders[s].h in u.handles
    // The loop thread opens and closes handles in callbacks.
    case Init(h) => u.spin == None && u.pc != Reading && h !in u.handles
    case Close(h) => u.spin == None && u.pc != Reading && h in u.handles && u.handles[h].open
    case Poll => u.spin == None && u.pc == Polling && u.tokens > 0
    case Read => u.spin == None && u.pc == Reading
    case Visit => u.spin == None && u.pc == Visiting && u.todo != [] && u.todo[0] in u.handles
    case EndPass => u.spin == None && u.pc == Visiting && u.todo == []
    case Spun => u.spin.Some? && u.spin.value in u.handles && u.handles[u.spin.value].busy == 0
  }

  function Min(a: nat, b: nat): nat {
    if a < b then a else b
  }

  function SetPending(u: State, h: Id, p: bool): map<Id, Handle>
    requires h in u.handles
  {
    u.handles[h := u.handles[h].(pending := p)]
  }

  function AddBusy(u: State, h: Id, d: int): map<Id, Handle>
    requires h in u.handles
  {
    u.handles[h := u.handles[h].(busy := u.handles[h].busy + d)]
  }

  function Apply(d: Descriptor, u: State, st: Step): State
    requires Enabled(u, st)
  {
    match st
    case Load(s, h) => if u.handles[h].pending then u else u.(senders := u.senders[s := Loaded(h)])
    case Enter(s) => var h := u.senders[s].h; u.(handles := AddBusy(u, h, 1), senders := u.senders[s := Busy(h)])
    case Exchange(s) =>
      var h := u.senders[s].h;
      u.(handles := SetPending(u, h, true),
        senders := u.senders[s := if u.handles[h].pending then Leaving(h) else Writing(h)])
    // A full descriptor makes write fail with EAGAIN, which is ignored.
    case Write(s) =>
      var h := u.senders[s].h;
      u.(tokens := if u.tokens < d.cap then u.tokens + 1 else u.tokens, senders := u.senders[s := Leaving(h)])
    case Leave(s) => var h := u.senders[s].h; u.(handles := AddBusy(u, h, -1), senders := u.senders[s := Away])
    case Init(h) => u.(handles := u.handles[h := Handle(false, 0, true)], queue := u.queue + [h])
    case Poll => u.(pc := Reading)
    case Read =>
      var r := if d.pipe then Min(u.tokens, BUFFER) else u.tokens;
      var v := u.(tokens := u.tokens - r);
      if d.pipe && r == BUFFER then v
      else v.(pc := Visiting, todo := u.queue, queue := [], visited := [])
    case Visit =>
      var h := u.todo[0];
      u.(handles := SetPending(u, h, false), todo := u.todo[1..], queue := u.queue + [h], visited := u.visited + [h])
    case EndPass => u.(pc := Polling)
    case Close(h) => u.(handles := SetPending(u, h, true), spin := Some(h))
    case Spun =>
      var h := u.spin.value;
      u.(handles := u.handles[h := u.handles[h].(open := false)], spin := None, queue := Without(u.queue, h),
        todo := Without(u.todo, h))
  }

  // ---------- the invariants ----------

  ghost predicate IsOpen(handles: map<Id, Handle>, h: Id) {
    h in handles && handles[h].open
  }

  // The two queues hold the open handles, each once; those of the pass that were visited are not in todo.
  ghost predicate Queued(u: State) {
    && NoDup(u.todo + u.queue)
    && (forall h :: h in u.todo || h in u.queue <==> IsOpen(u.handles, h))
    && (u.pc != Visiting ==> u.todo == [])
    && (u.spin.Some? ==> IsOpen(u.handles, u.spin.value) && u.handles[u.spin.value].pending && u.pc != Reading)
    && NoDup(u.visited) && (forall h :: h in u.visited ==> h in u.handles && h !in u.todo)
  }

  predicate Inside(pc: SenderPc, h: Id) {
    (pc.Busy? || pc.Writing? || pc.Leaving?) && pc.h == h
  }

  ghost function Count(ss: seq<SenderPc>, h: Id): nat {
    if ss == [] then 0 else Count(ss[1..], h) + if Inside(ss[0], h) then 1 else 0
  }

  // busy counts the senders between its increment and its decrement.
  ghost predicate BusyOk(u: State) {
    && (forall s :: 0 <= s < |u.senders| && u.senders[s] != Away ==> u.senders[s].h in u.handles)
    && (forall h :: h in u.handles ==> u.handles[h].busy == Count(u.senders, h))
  }

  ghost predicate SomeWriting(ss: seq<SenderPc>, h: Id) {
    exists s :: 0 <= s < |ss| && ss[s] == Writing(h)
  }

  // The reason why a pending handle will be visited.
  ghost predicate OnItsWay(u: State, h: Id) {
    u.tokens > 0 || SomeWriting(u.senders, h) || u.pc == Reading || (u.pc == Visiting && h in u.todo)
  }

  // The handle is to be visited: it is pending, and nobody is closing it.
  ghost predicate Due(u: State, h: Id) {
    IsOpen(u.handles, h) && u.handles[h].pending && u.spin != Some(h)
  }

  ghost predicate NotLost(u: State) {
    forall h :: Due(u, h) ==> OnItsWay(u, h)
  }

  // No sender writes for a closed handle, and none will.
  ghost predicate Silent(u: State) {
    forall h :: h in u.handles && !u.handles[h].open ==> u.handles[h].pending && !SomeWriting(u.senders, h)
  }

  ghost predicate Inv(u: State) {
    Queued(u) && BusyOk(u) && NotLost(u) && Silent(u)
  }

  // ---------- every step keeps them ----------

  lemma QueuedKept(d: Descriptor, u: State, st: Step)
    requires Inv(u) && Enabled(u, st)
    ensures Queued(Apply(d, u, st))
  {
    hide NotLost, Silent, BusyOk, Without, Min;
    match st
    case Init(h) =>
      assert u.todo + (u.queue + [h]) == (u.todo + u.queue) + [h];
      NoDupPush(u.todo + u.queue, h);
    case Read => assert u.todo + u.queue == u.queue && u.queue + [] == u.queue;
    case Visit =>
      NoDupRotate(u.todo, u.queue);
      NoDupPush(u.visited, u.todo[0]);
    case Spun =>
      var h := u.spin.value;
      NoDupParts(u.todo, u.queue);
      WithoutIs(u.todo, h);
      WithoutIs(u.queue, h);
      WithoutConcat(u.todo, u.queue, h);
      WithoutIs(u.todo + u.queue, h);
      if Without(u.todo, h) != [] {
        assert Without(u.todo, h)[0] in u.todo;
      }
    case _ =>
  }

  lemma {:induction false} CountSet(ss: seq<SenderPc>, s: nat, pc: SenderPc, h: Id)
    requires s < |ss|
    ensures Count(ss[s := pc], h)
      == Count(ss, h) + (if Inside(pc, h) then 1 else 0) - (if Inside(ss[s], h) then 1 else 0)
  {
    if s == 0 {
      assert ss[0 := pc][1..] == ss[1..];
    } else {
      CountSet(ss[1..], s - 1, pc, h);
      assert ss[s := pc][1..] == ss[1..][s - 1 := pc];
    }
  }

  lemma {:induction false} CountZero(ss: seq<SenderPc>, h: Id)
    ensures Count(ss, h) == 0 ==> forall s :: 0 <= s < |ss| ==> !Inside(ss[s], h)
    ensures (forall s :: 0 <= s < |ss| ==> !Inside(ss[s], h)) ==> Count(ss, h) == 0
  {
    if ss != [] {
      CountZero(ss[1..], h);
      assert forall s :: 0 < s < |ss| ==> ss[s] == ss[1..][s - 1];
      assert forall s :: 0 <= s < |ss[1..]| ==> ss[1..][s] == ss[s + 1];
    }
  }

  lemma BusySet(u: State, s: nat, pc: SenderPc)
    requires BusyOk(u) && s < |u.senders|
    ensures forall h :: h in u.handles ==>
      Count(u.senders[s := pc], h)
      == u.handles[h].busy + (if Inside(pc, h) then 1 else 0) - (if Inside(u.senders[s], h) then 1 else 0)
  {
    forall h | h in u.handles
      ensures Count(u.senders[s := pc], h)
        == u.handles[h].busy + (if Inside(pc, h) then 1 else 0) - (if Inside(u.senders[s], h) then 1 else 0) {
      CountSet(u.senders, s, pc, h);
    }
  }

  lemma BusyOkKept(d: Descriptor, u: State, st: Step)
    requires Inv(u) && Enabled(u, st)
    ensures BusyOk(Apply(d, u, st))
  {
    hide NotLost, Silent, Queued, Without, Count, Min;
    match st
    case Load(s, h) => BusySet(u, s, Loaded(h));
    case Enter(s) => BusySet(u, s, Busy(u.senders[s].h));
    case Exchange(s) =>
      BusySet(u, s, Leaving(u.senders[s].h));
      BusySet(u, s, Writing(u.senders[s].h));
    case Write(s) => BusySet(u, s, Leaving(u.senders[s].h));
    case Leave(s) => BusySet(u, s, Away);
    case Init(h) => CountZero(u.senders, h);
    case _ =>
  }

  lemma WritingSet(ss: seq<SenderPc>, s: nat, pc: SenderPc, h: Id)
    requires s < |ss|
    ensures SomeWriting(ss[s := pc], h) ==> SomeWriting(ss, h) || pc == Writing(h)
    ensures pc == Writing(h) ==> SomeWriting(ss[s := pc], h)
    ensures SomeWriting(ss, h) && ss[s] != Writing(h) ==> SomeWriting(ss[s := pc], h)
  {
    if SomeWriting(ss, h) && ss[s] != Writing(h) {
      var i :| 0 <= i < |ss| && ss[i] == Writing(h);
      assert ss[s := pc][i] == Writing(h);
    }
    if pc == Writing(h) {
      assert ss[s := pc][s] == Writing(h);
    }
  }

  lemma NotLostKept(d: Descriptor, u: State, st: Step)
    requires d.cap >= 1 && Inv(u) && Enabled(u, st)
    ensures NotLost(Apply(d, u, st))
  {
    hide BusyOk, Silent, Without, SomeWriting, NoDup;
    var v := Apply(d, u, st);
    forall h | Due(v, h) ensures OnItsWay(v, h) {
      assert Due(u, h) ==> OnItsWay(u, h);
      match st
      case Load(s, g) => WritingSet(u.senders, s, Loaded(g), h);
      case Enter(s) => WritingSet(u.senders, s, Busy(u.senders[s].h), h);
      case Exchange(s) =>
        WritingSet(u.senders, s, Leaving(u.senders[s].h), h);
        WritingSet(u.senders, s, Writing(u.senders[s].h), h);
      case Leave(s) => WritingSet(u.senders, s, Away, h);
      case Read => assert h in u.queue || h in u.todo;
      case Visit =>
        assert h in u.todo ==> h == u.todo[0] || h in u.todo[1..];
      case Spun =>
        if h in u.todo {
          SpunTodo(u, h);
        }
      case _ =>
    }
  }

  lemma SpunTodo(u: State, h: Id)
    requires Queued(u) && u.spin.Some? && h != u.spin.value && h in u.todo
    ensures h in Without(u.todo, u.spin.value)
  {
    NoDupParts(u.todo, u.queue);
    WithoutIs(u.todo, u.spin.value);
  }

  lemma SilentKept(d: Descriptor, u: State, st: Step)
    requires Inv(u) && Enabled(u, st)
    ensures Silent(Apply(d, u, st))
  {
    hide NotLost, Without, SomeWriting, NoDup, Count, Min;
    var v := Apply(d, u, st);
    forall h | h in v.handles && !v.handles[h].open ensures v.handles[h].pending && !SomeWriting(v.senders, h) {
      match st
      case Load(s, g) => WritingSet(u.senders, s, Loaded(g), h);
      case Enter(s) => WritingSet(u.senders, s, Busy(u.senders[s].h), h);
      case Exchange(s) =>
        WritingSet(u.senders, s, Leaving(u.senders[s].h), h);
        WritingSet(u.senders, s, Writing(u.senders[s].h), h);
      case Write(s) => WritingSet(u.senders, s, Leaving(u.senders[s].h), h);
      case Leave(s) => WritingSet(u.senders, s, Away, h);
      case Visit => assert IsOpen(u.handles, u.todo[0]);
      case Spun =>
        if h == u.spin.value {
          NoneWriting(u, h);
        }
      case _ =>
    }
  }

  lemma NoneWriting(u: State, h: Id)
    requires BusyOk(u) && h in u.handles && u.handles[h].busy == 0
    ensures !SomeWriting(u.senders, h)
  {
    CountZero(u.senders, h);
  }

  // ---------- runs ----------

  lemma InvKept(d: Descriptor, u: State, st: Step)
    requires d.cap >= 1 && Inv(u) && Enabled(u, st)
    ensures Inv(Apply(d, u, st))
  {
    hide Queued, BusyOk, NotLost, Silent, Apply, Enabled;
    QueuedKept(d, u, st);
    BusyOkKept(d, u, st);
    NotLostKept(d, u, st);
    SilentKept(d, u, st);
  }

  function Start(senders: nat): State {
    State(map[], seq(senders, i => Away), 0, Polling, [], [], None, [])
  }

  lemma InvStart(senders: nat)
    ensures Inv(Start(senders))
  {
  }

  // A run is the sequence of its states: each follows from the one before it by the step between them.
  ghost predicate Run(d: Descriptor, steps: seq<Step>, states: seq<State>) {
    && |states| == |steps| + 1 && (exists n :: states[0] == Start(n))
    && forall i :: 0 <= i < |steps| ==> Enabled(states[i], steps[i]) && states[i + 1] == Apply(d, states[i], steps[i])
  }

  lemma {:induction false} RunInv(d: Descriptor, steps: seq<Step>, states: seq<State>, i: nat)
    requires d.cap >= 1 && Run(d, steps, states) && i < |states|
    ensures Inv(states[i])
  {
    hide Inv, Apply, Enabled, Start;
    if i == 0 {
      var n :| states[0] == Start(n);
      InvStart(n);
    } else {
      RunInv(d, steps, states, i - 1);
      InvKept(d, states[i - 1], steps[i - 1]);
    }
  }

  // No wake-up is lost: in every state of every run, if an open handle that is not being closed
  // is pending, then the descriptor holds a token, or a sender is between its exchange and its
  // write, or a pass of uv__async_io runs that has yet to visit the handle.
  lemma NoLostWakeup(d: Descriptor, steps: seq<Step>, states: seq<State>, i: nat, h: Id)
    requires d.cap >= 1 && Run(d, steps, states) && i < |states|
    requires Due(states[i], h)
    ensures
      var u := states[i];
      || u.tokens > 0
      || (exists s :: 0 <= s < |u.senders| && u.senders[s] == Writing(h))
      || u.pc == Reading
      || (u.pc == Visiting && h in u.todo && h !in u.visited)
  {
    hide Run, BusyOk, Silent, NoDup;
    RunInv(d, steps, states, i);
  }


  // Steps that carry on what has begun: nobody sends, opens or closes.
  predicate Helpful(st: Step) {
    !st.Load? && !st.Init? && !st.Close?
  }

  // Nor does one get stuck: as long as such a handle is pending, some thread can carry it on.
  lemma WakeupProgress(u: State, h: Id)
    requires Inv(u) && Due(u, h)
    ensures exists st :: Enabled(u, st) && Helpful(st)
  {
    hide NoDup;
    if u.spin.Some? {
      var g := u.spin.value;
      CountZero(u.senders, g);
      if u.handles[g].busy == 0 {
        assert Enabled(u, Spun);
      } else {
        var s :| 0 <= s < |u.senders| && Inside(u.senders[s], g);
        assert Enabled(u, Exchange(s)) || Enabled(u, Write(s)) || Enabled(u, Leave(s));
      }
    } else if u.pc == Reading {
      assert Enabled(u, Read);
    } else if u.pc == Visiting {
      assert u.todo != [] ==> u.todo[0] in u.todo;
      assert Enabled(u, if u.todo == [] then EndPass else Visit);
    } else if u.tokens > 0 {
      assert Enabled(u, Poll);
    } else {
      var s :| 0 <= s < |u.senders| && u.senders[s] == Writing(h);
      assert Enabled(u, Write(s));
    }
  }

  // A pass visits each handle at most once.
  lemma VisitsOnce(d: Descriptor, steps: seq<Step>, states: seq<State>, i: nat)
    requires d.cap >= 1 && Run(d, steps, states) && i < |steps| && steps[i] == Visit
    ensures states[i].todo[0] !in states[i].visited && NoDup(states[i].visited)
  {
    hide Run, BusyOk, Silent, NotLost, NoDup;
    RunLength(d, steps, states);
    RunInv(d, steps, states, i);
    assert Enabled(states[i], Visit) by { Follows(d, steps, states, i); }
  }

  lemma RunLength(d: Descriptor, steps: seq<Step>, states: seq<State>)
    requires Run(d, steps, states)
    ensures |states| == |steps| + 1
  {
  }

  lemma Follows(d: Descriptor, steps: seq<Step>, states: seq<State>, i: nat)
    requires Run(d, steps, states) && i < |steps|
    ensures Enabled(states[i], steps[i]) && states[i + 1] == Apply(d, states[i], steps[i])
  {
  }

  lemma StaysClosed(d: Descriptor, u: State, st: Step, h: Id)
    requires Inv(u) && Enabled(u, st) && h in u.handles && !u.handles[h].open
    ensures var v := Apply(d, u, st); h in v.handles && !v.handles[h].open
  {
    hide BusyOk, NotLost, Silent, Without, NoDup;
  }

  // After uv__async_spin has returned for a handle, no sender ever writes to the descriptor for
  // it, whatever senders that come late or were under way do.
  lemma {:induction false} SilentForever(d: Descriptor, steps: seq<Step>, states: seq<State>, i: nat, j: nat, s: nat)
    requires d.cap >= 1 && Run(d, steps, states) && i < j < |steps| && steps[i] == Spun && steps[j] == Write(s)
    ensures states[i].spin.Some? && s < |states[j].senders| && states[j].senders[s] != Writing(states[i].spin.value)
  {
    hide Run, BusyOk, NotLost, Without, NoDup;
    RunLength(d, steps, states);
    Follows(d, steps, states, i);
    Follows(d, steps, states, j);
    var h := states[i].spin.value;
    ClosedAfter(d, steps, states, i + 1, j, h);
    RunInv(d, steps, states, j);
  }

  lemma {:induction false} ClosedAfter(d: Descriptor, steps: seq<Step>, states: seq<State>, i: nat, j: nat, h: Id)
    requires d.cap >= 1 && Run(d, steps, states) && i <= j < |states|
    requires h in states[i].handles && !states[i].handles[h].open
    ensures h in states[j].handles && !states[j].handles[h].open
    decreases j
  {
    hide Inv, Apply, Enabled, Run;
    RunLength(d, steps, states);
    if i < j {
      ClosedAfter(d, steps, states, i, j - 1, h);
      RunInv(d, steps, states, j - 1);
      Follows(d, steps, states, j - 1);
      StaysClosed(d, states[j - 1], steps[j - 1], h);
    }
  }
}
