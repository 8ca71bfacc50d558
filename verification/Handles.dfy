/** The handles of an event loop: the flags and the counter of src/uv-common.h, and closing in
    src/unix/core.c, for the handles that stop when they are closed, such as timers, asyncs and signals. */
module Handles {
  import opened Common

  // The flags; the closing handles are linked through nextClosing.
  class Handle {
    var closing: bool
    var closed: bool
    var active: bool
    var refd: bool
    var hasCb: bool
    var nextClosing: Handle?
    var trapped: nat             // caught_signals - dispatched_signals of a signal handle, else 0
    ghost var calls: nat         // calls of close_cb since the handle was initialized

    constructor () {
      closing, closed, active, refd, hasCb, nextClosing := false, false, false, false, false, null;
      trapped, calls := 0, 0;
    }
  }

  // What a handle is, but for its place in the list.
  datatype Look = Look(closing: bool, closed: bool, active: bool, refd: bool, hasCb: bool, trapped: nat)

  ghost function See(h: Handle): Look
    reads h
  {
    Look(h.closing, h.closed, h.active, h.refd, h.hasCb, h.trapped)
  }

  // What a program does with handles between and in the close callbacks.
  datatype Op =
    | Init(h: Handle)
    | Start(h: Handle)
    | Stop(h: Handle)
    | Ref(h: Handle)
    | Unref(h: Handle)
    | Close(h: Handle, hasCb: bool)
    | Catch(h: Handle)           // a signal arrives for the handle

  function Subject(op: Op): Handle {
    op.h
  }

  // What an operation makes of a handle, known being whether the handle was initialized before; the
  // program does not initialize a handle that is in use, nor close one that is closing.
  function Effect(op: Op, known: bool, was: Look): Look {
    if !known && !op.Init? then was
    else
      match op
      case Init(_) => if known && !was.closed then was else Look(false, false, false, true, was.hasCb, 0)
      case Start(_) => was.(active := !was.closing)
      case Stop(_) => was.(active := false)
      case Ref(_) => was.(refd := true)
      case Unref(_) => was.(refd := false)
      case Close(_, hasCb) => if was.closing then was else was.(closing := true, active := false, hasCb := hasCb)
      case Catch(_) => if was.active then was.(trapped := was.trapped + 1) else was
  }

  // The operation closes the handle.
  predicate Closes(op: Op, known: bool, was: Look) {
    op.Close? && known && !was.closing
  }

  // The handles that were initialized, what some handles are, and those that are to be closed next.
  datatype World = World(known: set<Handle>, looks: map<Handle, Look>, list: seq<Handle>)

  ghost function SeeAll(d: set<Handle>): (m: map<Handle, Look>)
    reads d
  {
    map h | h in d :: See(h)
  }

  // One operation, and several.
  function Step(w: World, op: Op): World {
    if op.h !in w.looks then w
    else
      var known, was := op.h in w.known, w.looks[op.h];
      World(if op.Init? then w.known + {op.h} else w.known, w.looks[op.h := Effect(op, known, was)],
            (if Closes(op, known, was) then [op.h] else []) + w.list)
  }

  function Performed(ops: seq<Op>, w: World): World {
    if ops == [] then w else Step(Performed(ops[..|ops| - 1], w), ops[|ops| - 1])
  }

  // The end of closing p, with its callback: a signal handle with signals in the pipe waits on.
  function Finished(p: Handle, script: map<Handle, seq<Op>>, w: World): World {
    if p !in w.looks then w
    else if w.looks[p].trapped > 0 then w.(list := [p] + w.list)
    else
      var v := w.(looks := w.looks[p := w.looks[p].(closed := true, refd := false)]);
      if w.looks[p].hasCb && p in script then Performed(script[p], v) else v
  }

  function AllFinished(s: seq<Handle>, script: map<Handle, seq<Op>>, w: World): World {
    if s == [] then w else Finished(s[|s| - 1], script, AllFinished(s[..|s| - 1], script, w))
  }

  // The handle is being closed, and its signals are in the pipe or not.
  predicate IsPending(k: Look, trapped: nat) {
    k.closing && !k.closed && !k.active && k.trapped == trapped
  }

  ghost predicate StillPending(w: World, h: Handle, trapped: nat) {
    h in w.known && h in w.looks && IsPending(w.looks[h], trapped)
  }

  lemma StepKeeps(w: World, op: Op, h: Handle, trapped: nat)
    ensures Step(w, op).looks.Keys == w.looks.Keys
    ensures h in w.looks && op.h != h ==> Step(w, op).looks[h] == w.looks[h]
    ensures h in w.list ==> h in Step(w, op).list
    ensures StillPending(w, h, trapped) ==> StillPending(Step(w, op), h, trapped)
  {
  }

  lemma {:induction false} PerformedKeeps(ops: seq<Op>, w: World, h: Handle, trapped: nat)
    ensures Performed(ops, w).looks.Keys == w.looks.Keys
    ensures h in w.looks && (forall op :: op in ops ==> op.h != h) ==> Performed(ops, w).looks[h] == w.looks[h]
    ensures h in w.list ==> h in Performed(ops, w).list
    ensures StillPending(w, h, trapped) ==> StillPending(Performed(ops, w), h, trapped)
  {
    hide Step, StillPending;
    if ops != [] {
      var n := |ops| - 1;
      assert forall op :: op in ops[..n] ==> op in ops;
      PerformedKeeps(ops[..n], w, h, trapped);
      StepKeeps(Performed(ops[..n], w), ops[n], h, trapped);
    }
  }

  lemma FinishedKeeps(p: Handle, script: map<Handle, seq<Op>>, w: World, h: Handle, trapped: nat)
    ensures Finished(p, script, w).looks.Keys == w.looks.Keys
    ensures h in w.list ==> h in Finished(p, script, w).list
    ensures p != h && StillPending(w, h, trapped) ==> StillPending(Finished(p, script, w), h, trapped)
    ensures p == h && StillPending(w, h, trapped) && trapped > 0 ==> h in Finished(p, script, w).list
    ensures h in w.looks && h !in Subjects(script) ==>
      Finished(p, script, w).looks[h] ==
        if p == h && w.looks[h].trapped == 0 then w.looks[h].(closed := true, refd := false) else w.looks[h]
  {
    hide Performed;
    if p in w.looks && p in script {
      SubjectsOf(script, p);
      var v := w.(looks := w.looks[p := w.looks[p].(closed := true, refd := false)]);
      PerformedKeeps(script[p], v, h, trapped);
    }
  }

  // A handle that no callback does anything with is closed if it was on the list, and otherwise as it was.
  lemma {:induction false} Untouched(s: seq<Handle>, script: map<Handle, seq<Op>>, w: World, h: Handle)
    requires NoDup(s) && h in w.looks && h !in Subjects(script)
    ensures h in AllFinished(s, script, w).looks
    ensures AllFinished(s, script, w).looks[h] ==
      if h in s && w.looks[h].trapped == 0 then w.looks[h].(closed := true, refd := false) else w.looks[h]
  {
    hide Finished;
    if s != [] {
      var n := |s| - 1;
      assert s == s[..n] + [s[n]];
      Untouched(s[..n], script, w, h);
      FinishedKeeps(s[n], script, AllFinished(s[..n], script, w), h, 0);
    }
  }

  // A signal handle with signals in the pipe is on the list again, whatever the callbacks do.
  lemma {:induction false} WaitsOn(s: seq<Handle>, script: map<Handle, seq<Op>>, w: World, h: Handle, trapped: nat)
    requires NoDup(s) && StillPending(w, h, trapped) && trapped > 0
    ensures h in s ==> h in AllFinished(s, script, w).list
    ensures h !in s ==> StillPending(AllFinished(s, script, w), h, trapped)
  {
    hide Finished, StillPending;
    if s != [] {
      var n := |s| - 1;
      assert s == s[..n] + [s[n]];
      WaitsOn(s[..n], script, w, h, trapped);
      FinishedKeeps(s[n], script, AllFinished(s[..n], script, w), h, trapped);
    }
  }

  lemma AllWaitOn(s: seq<Handle>, script: map<Handle, seq<Op>>, w: World)
    requires NoDup(s) && forall h :: h in s ==> h in w.looks && StillPending(w, h, w.looks[h].trapped)
    ensures forall h :: h in s && w.looks[h].trapped > 0 ==> h in AllFinished(s, script, w).list
  {
    hide NoDup, AllFinished, StillPending;
    forall h | h in s && w.looks[h].trapped > 0 ensures h in AllFinished(s, script, w).list {
      WaitsOn(s, script, w, h, w.looks[h].trapped);
    }
  }

  // The list from p on is s.
  ghost predicate Listed(p: Handle?, s: seq<Handle>)
    reads (set h | h in s)`nextClosing
  {
    if s == [] then p == null else p == s[0] && Listed(s[0].nextClosing, s[1..])
  }

  // The handles that keep the loop alive.
  ghost function Alive(handles: set<Handle>): set<Handle>
    reads (set h | h in handles)`active, (set h | h in handles)`refd
  {
    set h | h in handles && h.active && h.refd
  }

  // Closing handles are not active, closed ones are closing; a close callback was called once if
  // the handle is closed and has one, and not before.
  ghost predicate Flags(h: Handle)
    reads h
  {
    && (h.closing ==> !h.active) && (h.closed ==> h.closing && h.trapped == 0)
    && h.calls == if h.closed && h.hasCb then 1 else 0
  }

  ghost predicate AllFlags(handles: set<Handle>)
    reads handles
  {
    forall h :: h in handles ==> Flags(h)
  }

  // The handles of s are being closed.
  ghost predicate Pending(s: seq<Handle>, handles: set<Handle>)
    reads (set h | h in s)`closing, (set h | h in s)`closed
  {
    forall h :: h in s ==> h in handles && h.closing && !h.closed
  }

  // Every other handle that is being closed is in a list.
  ghost predicate NoneLost(handles: set<Handle>, but: Handle?, list: seq<Handle>, batch: seq<Handle>)
    reads (set h | h in handles)`closing, (set h | h in handles)`closed
  {
    forall h :: h in handles && h.closing && !h.closed && h != but ==> h in list || h in batch
  }

  class Loop {
    var activeHandles: int
    var closingHandles: Handle?
    var handles: set<Handle>           // those that were initialized
    ghost var list: seq<Handle>        // closingHandles
    ghost var batch: seq<Handle>       // what is left of the list that uv__run_closing_handles took

    ghost predicate Valid()
      reads this, handles, set h | h in list, set h | h in batch
    {
      ValidBut(null)
    }

    // The handle that uv__finish_close works on is in no list.
    ghost predicate ValidBut(p: Handle?)
      reads this, handles, set h | h in list, set h | h in batch
    {
      && activeHandles == |Alive(handles)|
      && AllFlags(handles)
      && NoDup(list + batch) && Pending(list, handles) && Pending(batch, handles)
      && Listed(closingHandles, list) && NoneLost(handles, p, list, batch)
    }

    constructor ()
      ensures Valid() && handles == {} && list == [] && batch == []
    {
      activeHandles, closingHandles, handles, list, batch := 0, null, {}, [], [];
      new;
      assert Alive(handles) == {};
    }

    // uv__handle_init, for a handle that is new or closed.
    method InitHandle(h: Handle)
      requires Valid() && (h in handles ==> h.closed)
      modifies this`handles, h
      ensures Valid() && handles == old(handles) + {h} && list == old(list) && batch == old(batch)
      ensures See(h) == Look(false, false, false, true, old(h.hasCb), 0) && h.calls == 0
    {
      hide Listed, NoDup, Pending, NoneLost, AllFlags, Alive;
      NotListed(h);
      h.closing, h.closed, h.active, h.refd, h.nextClosing := false, false, false, true, null;
      h.trapped, h.calls := 0, 0;
      handles := handles + {h};
      Joined(h);
    }

    lemma NotListed(h: Handle)
      requires Valid() && (h in handles ==> h.closed)
      ensures h !in list && h !in batch && (h in handles ==> !h.active)
    {
      hide Listed, NoDup, NoneLost;
      assert h in handles ==> Flags(h);
    }

    // A handle that was initialized again changes nothing for the others.
    twostate lemma Joined(h: Handle)
      requires old(Valid()) && handles == old(handles) + {h} && list == old(list) && batch == old(batch)
      requires h !in list && h !in batch && !h.closing && !h.closed && !h.active && h.calls == 0
      requires forall x :: x in old(handles) && x != h ==> See(x) == old(See(x)) && x.calls == old(x.calls)
      requires h in old(handles) ==> !old(h.active)
      ensures AllFlags(handles) && NoneLost(handles, null, list, batch)
      ensures Pending(list, handles) && Pending(batch, handles) && Alive(handles) == old(Alive(handles))
    {
      hide Listed, NoDup;
      assert forall x :: x in old(handles) ==> old(Flags(x));
    }

    // uv__handle_start
    method Activate(h: Handle)
      requires activeHandles == |Alive(handles)| && h in handles
      modifies this`activeHandles, h`active
      ensures activeHandles == |Alive(handles)| && h.active
    {
      if h.active {
        return;
      }
      ghost var alive := Alive(handles);
      h.active := true;
      if h.refd {
        activeHandles := activeHandles + 1;
        assert h !in alive && Alive(handles) == alive + {h};
      } else {
        assert Alive(handles) == alive;
      }
    }

    // What uv_timer_start does to the handle: no closing handle becomes active.
    method StartHandle(h: Handle) returns (err: int)
      requires Valid() && h in handles
      modifies this`activeHandles, h`active
      ensures Valid() && err == if h.closing then UV_EINVAL else 0
      ensures h.active <==> !h.closing
    {
      hide Listed, NoDup, Pending, Alive, NoneLost;
      assert Flags(h);
      if h.closing {
        return UV_EINVAL;
      }
      Activate(h);
      return 0;
    }

    // uv__handle_stop, also while the closing flag is already set.
    method Deactivate(h: Handle)
      requires activeHandles == |Alive(handles)| && h in handles
      modifies this`activeHandles, h`active
      ensures activeHandles == |Alive(handles)| && !h.active
    {
      if !h.active {
        return;
      }
      ghost var alive := Alive(handles);
      h.active := false;
      if h.refd {
        activeHandles := activeHandles - 1;
        assert h in alive && Alive(handles) == alive - {h};
      } else {
        assert Alive(handles) == alive;
      }
    }

    method StopHandle(h: Handle)
      requires Valid() && h in handles
      modifies this`activeHandles, h`active
      ensures Valid() && !h.active
    {
      hide Listed, NoDup, Pending, Alive;
      Deactivate(h);
    }

    // uv__handle_ref
    method RefHandle(h: Handle)
      requires Valid() && h in handles
      modifies this`activeHandles, h`refd
      ensures Valid() && h.refd
    {
      hide Listed, NoDup, Pending;
      if h.refd {
        return;
      }
      ghost var alive := Alive(handles);
      h.refd := true;
      if h.closing {
        assert Alive(handles) == alive;
        return;
      }
      if h.active {
        activeHandles := activeHandles + 1;
        assert h !in alive && Alive(handles) == alive + {h};
      } else {
        assert Alive(handles) == alive;
      }
    }

    // uv__handle_unref
    method UnrefHandle(h: Handle)
      requires Valid() && h in handles
      modifies this`activeHandles, h`refd
      ensures Valid() && !h.refd
    {
      hide Listed, NoDup, Pending;
      if !h.refd {
        return;
      }
      ghost var alive := Alive(handles);
      h.refd := false;
      if h.closing {
        assert Alive(handles) == alive;
        return;
      }
      if h.active {
        activeHandles := activeHandles - 1;
        assert h in alive && Alive(handles) == alive - {h};
      } else {
        assert Alive(handles) == alive;
      }
    }

    // uv__make_close_pending
    method MakeClosePending(h: Handle)
      requires h !in list && Listed(closingHandles, list)
      modifies this`closingHandles, this`list, h`nextClosing
      ensures list == [h] + old(list) && Listed(closingHandles, list)
    {
      hide Listed;
      h.nextClosing := closingHandles;
      closingHandles := h;
      ListedCons(h, list);
      list := [h] + list;
    }

    // uv_close; the original aborts if the handle is closing already.
    method CloseHandle(h: Handle, hasCb: bool)
      requires Valid() && h in handles && !h.closing
      modifies this`activeHandles, this`closingHandles, this`list, h`closing, h`hasCb, h`active, h`nextClosing
      ensures Valid() && list == [h] + old(list)
      ensures See(h) == old(See(h)).(closing := true, active := false, hasCb := hasCb)
    {
      hide Listed, NoDup, Alive, AllFlags, NoneLost, Pending;
      NotClosing(h);
      DistinctCons(h, list, batch);
      h.closing := true;
      h.hasCb := hasCb;
      Deactivate(h);
      MakeClosePending(h);
      Left(h);
    }

    lemma NotClosing(h: Handle)
      requires Valid() && h in handles && !h.closing
      ensures h !in list && h !in batch && Flags(h)
    {
      hide Listed, NoDup, NoneLost, Alive;
    }

    // A handle that begins to close changes nothing for the others.
    twostate lemma Left(h: Handle)
      requires old(Valid()) && handles == old(handles) && h in handles && !old(h.closing)
      requires list == [h] + old(list) && batch == old(batch)
      requires h.closing && !h.closed && !h.active && h.calls == old(h.calls)
      requires forall x :: x in handles && x != h ==> See(x) == old(See(x)) && x.calls == old(x.calls)
      ensures AllFlags(handles) && NoneLost(handles, null, list, batch)
      ensures Pending(list, handles) && Pending(batch, handles)
    {
      hide Listed, NoDup;
      assert forall x :: x in handles ==> old(Flags(x));
      assert forall x :: x in list <==> x == h || x in old(list);
    }

    // The handle leaves the batch.
    method Unbatch(p: Handle) returns (q: Handle?)
      requires Valid() && batch != [] && p == batch[0] && Listed(p, batch)
      modifies this`batch
      ensures ValidBut(p) && batch == old(batch[1..]) && Listed(q, batch)
      ensures p in handles && p !in list && p !in batch && p.closing && !p.closed && !p.active && p.calls == 0
    {
      hide Listed, NoDup, Alive;
      DistinctTail(list, batch);
      ListedTail(p, batch);
      assert p in batch && Flags(p);
      q := p.nextClosing;
      batch := batch[1..];
    }

    // Lines 316 and 337-340: the flag is set and taken back.
    method Requeue(p: Handle)
      requires ValidBut(p) && p in handles && p !in list && p !in batch && p.closing && !p.closed
      modifies this`closingHandles, this`list, p`closed, p`nextClosing
      ensures Valid() && list == [p] + old(list) && !p.closed
    {
      hide Listed, NoDup, Alive;
      DistinctCons(p, list, batch);
      p.closed := true;
      p.closed := false;
      MakeClosePending(p);
    }

    // Lines 316 and 359-363.
    method Retire(p: Handle) returns (called: bool)
      requires ValidBut(p) && p in handles && p !in list && p !in batch && p.closing && !p.closed && p.trapped == 0
      modifies p`closed, p`refd, p`calls
      ensures Valid() && p.closed && !p.refd && called == p.hasCb && list == old(list)
    {
      hide Listed, NoDup;
      ghost var alive := Alive(handles);
      assert Flags(p);
      p.closed := true;
      if p.refd {
        p.refd := false;
      }
      called := p.hasCb;
      if p.hasCb {
        p.calls := p.calls + 1;
      }
      assert p !in alive && Alive(handles) == alive;
    }

    // uv__finish_close up to the close callback.  A signal handle with signals that are still in the pipe
    // goes back on the list.
    method FinishClose(p: Handle) returns (q: Handle?, called: bool)
      requires Valid() && batch != [] && p == batch[0] && Listed(p, batch)
      modifies this`closingHandles, this`list, this`batch, p`closed, p`refd, p`nextClosing, p`calls
      ensures Valid() && batch == old(batch[1..]) && Listed(q, batch)
      ensures
        if p.trapped == 0 then
          && See(p) == old(See(p)).(closed := true, refd := false) && called == p.hasCb && list == old(list)
        else
          See(p) == old(See(p)) && !called && list == [p] + old(list)
    {
      hide Listed, NoDup, Pending, Alive, AllFlags;
      q := Unbatch(p);
      if p.trapped > 0 {
        Requeue(p);
        called := false;
      } else {
        called := Retire(p);
      }
    }

    // The signal handler, src/unix/signal.c, and in the poll phase uv__signal_event.
    method CatchSignal(h: Handle)
      requires Valid() && h in handles && h.active
      modifies h`trapped
      ensures Valid() && h.trapped == old(h.trapped) + 1
    {
      h.trapped := h.trapped + 1;
    }

    method DispatchSignal(h: Handle)
      requires Valid() && h in handles && h.trapped > 0
      modifies h`trapped
      ensures Valid() && h.trapped == old(h.trapped) - 1
    {
      h.trapped := h.trapped - 1;
    }

    // An operation of the program, if it is one that the interface allows; p is the rest of the
    // batch of uv__run_closing_handles.
    method Perform(op: Op, p: Handle?)
      requires Valid() && Listed(p, batch)
      modifies this`activeHandles, this`closingHandles, this`handles, this`list, handles, Subject(op)
      ensures Valid() && Listed(p, batch)
      ensures handles == old(handles) + if op.Init? then {op.h} else {}
      ensures See(op.h) == Effect(op, old(op.h in handles), old(See(op.h)))
      ensures forall h :: h in old(handles) && h != op.h ==> See(h) == old(See(h))
      ensures list == (if Closes(op, old(op.h in handles), old(See(op.h))) then [op.h] else []) + old(list)
      ensures forall h :: h in batch ==> h.hasCb == old(h.hasCb) && h.trapped == old(h.trapped)
    {
      hide Listed, NoDup, Alive, AllFlags, NoneLost, Pending, Valid;
      if op.Init? {
        if Free(op.h) {
          NotListed(op.h);
          InitHandle(op.h);
        }
      } else if op.Close? || op.Catch? {
        CloseOrCatch(op, p);
      } else {
        Switch(op);
      }
    }

    method CloseOrCatch(op: Op, p: Handle?)
      requires Valid() && Listed(p, batch) && (op.Close? || op.Catch?)
      modifies this`activeHandles, this`closingHandles, this`list
      modifies Subject(op)`closing, Subject(op)`hasCb, Subject(op)`active, Subject(op)`nextClosing, Subject(op)`trapped
      ensures Valid() && Listed(p, batch)
      ensures See(op.h) == Effect(op, op.h in handles, old(See(op.h)))
      ensures list == (if Closes(op, op.h in handles, old(See(op.h))) then [op.h] else []) + old(list)
      ensures op.h in batch ==> See(op.h) == old(See(op.h))
    {
      hide Listed, NoDup, Alive, AllFlags, NoneLost, Pending, Valid;
      if !Known(op.h) {
        return;
      }
      BatchClosing(op.h);
      match op
      case Close(h, hasCb) =>
        if !h.closing {
          CloseHandle(h, hasCb);
        }
      case Catch(h) =>
        if h.active {
          CatchSignal(h);
        }
    }

    lemma BatchClosing(h: Handle)
      requires Valid() && h in handles
      ensures h in batch ==> h.closing && !h.active
    {
      assert Flags(h);
    }

    // An operation that only switches a flag.
    method Switch(op: Op)
      requires Valid() && (op.Start? || op.Stop? || op.Ref? || op.Unref?)
      modifies this`activeHandles, Subject(op)`active, Subject(op)`refd
      ensures Valid() && See(op.h) == Effect(op, op.h in handles, old(See(op.h)))
    {
      hide Listed, NoDup, Alive, AllFlags, NoneLost, Pending;
      if !Known(op.h) {
        return;
      }
      if op.Start? {
        var _ := StartHandle(op.h);
      } else if op.Stop? {
        StopHandle(op.h);
      } else if op.Ref? {
        RefHandle(op.h);
      } else {
        UnrefHandle(op.h);
      }
    }

    predicate Known(h: Handle)
      reads this
    {
      h in handles
    }

    predicate Free(h: Handle)
      reads this, h
    {
      h in handles ==> h.closed
    }

    // Lines 372-373.
    method TakeList() returns (p: Handle?)
      requires Valid() && batch == []
      modifies this`closingHandles, this`list, this`batch
      ensures Valid() && Listed(p, batch) && list == [] && batch == old(list)
      ensures forall h :: h in batch ==> h in handles
    {
      hide Listed, NoDup, Alive, AllFlags;
      p := closingHandles;
      closingHandles := null;
      Swapped(list);
      ListedNone();
      batch, list := list, [];
    }

    ghost function Now(d: set<Handle>): World
      reads this, d
    {
      World(handles, SeeAll(d), list)
    }

    lemma NowStep(d: set<Handle>, op: Op, was: World)
      requires op.h in was.looks && was.looks.Keys == d
      requires handles == was.known + if op.Init? then {op.h} else {}
      requires See(op.h) == Effect(op, op.h in was.known, was.looks[op.h])
      requires forall h :: h in d && h != op.h ==> See(h) == was.looks[h]
      requires list == (if Closes(op, op.h in was.known, was.looks[op.h]) then [op.h] else []) + was.list
      ensures Now(d) == Step(was, op)
    {
      hide Effect;
      assert SeeAll(d) == was.looks[op.h := Effect(op, op.h in was.known, was.looks[op.h])];
      assert was.known + {} == was.known;
    }

    // A close callback.
    method Call(ops: seq<Op>, q: Handle?, ghost d: set<Handle>)
      requires Valid() && Listed(q, batch) && handles <= d && forall op :: op in ops ==> Subject(op) in d
      modifies this`activeHandles, this`closingHandles, this`handles, this`list, handles,
        set op | op in ops :: Subject(op)
      ensures Valid() && Listed(q, batch)
      ensures old(handles) <= handles && handles <= old(handles) + set op | op in ops :: Subject(op)
      ensures forall h :: h in batch ==> h.hasCb == old(h.hasCb) && h.trapped == old(h.trapped)
      ensures Now(d) == Performed(ops, old(Now(d)))
    {
      hide Listed, NoDup, Alive, AllFlags, Pending, Valid, Effect, Step;
      for n := 0 to |ops|
        invariant Valid() && Listed(q, batch)
        invariant old(handles) <= handles && handles <= old(handles) + set op | op in ops :: Subject(op)
        invariant forall h :: h in batch ==> h.hasCb == old(h.hasCb) && h.trapped == old(h.trapped)
        invariant handles <= d && Now(d) == Performed(ops[..n], old(Now(d)))
      {
        assert ops[n] in ops && ops[..n + 1][..n] == ops[..n];
        ghost var was := Now(d);
        Perform(ops[n], q);
        NowStep(d, ops[n], was);
      }
      assert ops[..|ops|] == ops;
    }

    // uv__finish_close, with the callback.
    method FinishAndCall(script: map<Handle, seq<Op>>, p: Handle, ghost d: set<Handle>)
      returns (q: Handle?, called: bool)
      requires Valid() && batch != [] && p == batch[0] && Listed(p, batch)
      requires handles <= d && Subjects(script) <= d
      modifies this, handles, Subjects(script)
      ensures Valid() && batch == old(batch[1..]) && Listed(q, batch)
      ensures called == old(p.hasCb && p.trapped == 0) && old(handles) <= handles <= old(handles) + Subjects(script)
      ensures forall h :: h in batch ==> h.hasCb == old(h.hasCb) && h.trapped == old(h.trapped)
      ensures Now(d) == Finished(p, script, old(Now(d)))
    {
      hide Listed, NoDup, Alive, AllFlags, Pending, NoneLost, Valid, Performed, Subjects;
      BatchKnown();
      ghost var was := Now(d);
      q, called := FinishClose(p);
      NowFinished(d, p, was);
      if called && p in script {
        SubjectsOf(script, p);
        Call(script[p], q, d);
      }
    }

    lemma NowFinished(d: set<Handle>, p: Handle, was: World)
      requires p in d && was.looks.Keys == d && handles == was.known
      requires forall h :: h in d && h != p ==> See(h) == was.looks[h]
      requires
        if was.looks[p].trapped == 0 then
          See(p) == was.looks[p].(closed := true, refd := false) && list == was.list
        else
          See(p) == was.looks[p] && list == [p] + was.list
      ensures Now(d) ==
        if was.looks[p].trapped > 0 then was.(list := [p] + was.list)
        else was.(looks := was.looks[p := was.looks[p].(closed := true, refd := false)])
    {
      assert SeeAll(d) == was.looks[p := See(p)];
      assert was.looks[p := was.looks[p]] == was.looks;
    }

    // Lines 375-379.
    method FinishAll(p0: Handle?, script: map<Handle, seq<Op>>, ghost d: set<Handle>) returns (ghost log: seq<Handle>)
      requires Valid() && Listed(p0, batch) && handles <= d && Subjects(script) <= d
      modifies this, handles, Subjects(script)
      ensures Valid() && batch == [] && log == WithCb(old(batch), old(Callbacks(batch)))
      ensures Now(d) == AllFinished(old(batch), script, old(Now(d)))
    {
      hide Listed, NoDup, Alive, AllFlags, WithCb, Pending, Valid, Finished;
      ghost var all, cbs, known := batch, Callbacks(batch), handles + Subjects(script);
      ghost var first, k := Now(d), 0;
      WithCbNone(cbs);
      log := [];
      var p := p0;
      BatchIn();
      while p != null
        invariant Valid() && Listed(p, batch) && k <= |all| && batch == all[k..] && old(handles) <= handles <= known
        invariant forall h :: h in batch ==> (h in cbs <==> h.hasCb && h.trapped == 0)
        invariant log == WithCb(all[..k], cbs) && Now(d) == AllFinished(all[..k], script, first)
        decreases |all| - k
      {
        ListedSome(p, batch);
        assert p == all[k] && p in all;
        assert all[..k + 1] == all[..k] + [p] && all[..k + 1][..k] == all[..k];
        WithCbStep(all[..k + 1], cbs);
        var q, called := FinishAndCall(script, p, d);
        k := k + 1;
        if called {
          log := log + [p];
        }
        p := q;
      }
      ListedSome(p, batch);
      assert all[..k] == all;
    }

    lemma BatchIn()
      requires Valid()
      ensures forall h :: h in batch ==> h in handles
    {
    }

    // uv__run_closing_handles, where the close callback of a handle performs the operations that
    // script has for it: the callbacks of the handles that were closing when it began are called,
    // each once, those of handles closed last first; handles closed meanwhile have to wait, and so
    // have signal handles with signals in the pipe.
    method RunClosing(script: map<Handle, seq<Op>>) returns (ghost log: seq<Handle>)
      requires Valid() && batch == []
      modifies this, handles, Subjects(script)
      ensures Valid() && batch == []
      ensures log == WithCb(old(list), old(Callbacks(list))) && NoDup(log)
      ensures forall h :: h in old(list) && old(h.trapped) > 0 ==> h in list
      ensures
        var d := old(handles) + Subjects(script);
        Now(d) == AllFinished(old(list), script, old(World(handles, SeeAll(d), [])))
    {
      hide Listed, NoDup, Alive, AllFlags, WithCb, Pending, Valid, Finished, AllFinished, StillPending;
      ghost var all, d := list, handles + Subjects(script);
      ghost var first := World(handles, SeeAll(d), []);
      ListDistinct();
      ListPending(d);
      WithCbDistinct(all, Callbacks(all));
      AllWaitOn(all, script, first);
      var p := TakeList();
      assert Now(d) == first && Callbacks(batch) == old(Callbacks(list));
      log := FinishAll(p, script, d);
    }

    lemma ListPending(d: set<Handle>)
      requires Valid() && handles <= d
      ensures
        var w := World(handles, SeeAll(d), []);
        forall h :: h in list ==> h in d && StillPending(w, h, w.looks[h].trapped)
    {
      hide Listed, NoDup, NoneLost, Alive;
      assert forall h :: h in list ==> Flags(h);
    }

    lemma BatchKnown()
      requires Valid() && batch != []
      ensures batch[0] in handles
    {
      assert batch[0] in batch;
    }

    lemma ListDistinct()
      requires Valid()
      ensures NoDup(list)
    {
      assert forall i :: 0 <= i < |list| ==> (list + batch)[i] == list[i];
    }
  }

  function Subjects(script: map<Handle, seq<Op>>): set<Handle> {
    set p, n | p in script && 0 <= n < |script[p]| :: Subject(script[p][n])
  }

  lemma SubjectsOf(script: map<Handle, seq<Op>>, p: Handle)
    requires p in script
    ensures forall op :: op in script[p] ==> Subject(op) in Subjects(script)
  {
    forall op | op in script[p] ensures Subject(op) in Subjects(script) {
      var n :| 0 <= n < |script[p]| && script[p][n] == op;
    }
  }

  // The handles of s whose close callback is due.
  ghost function Callbacks(s: seq<Handle>): set<Handle>
    reads (set h | h in s)`hasCb, (set h | h in s)`trapped
  {
    set h | h in s && h.hasCb && h.trapped == 0
  }

  // The handles of s that are in cbs, in order.
  ghost function WithCb(s: seq<Handle>, cbs: set<Handle>): seq<Handle> {
    if s == [] then []
    else WithCb(s[..|s| - 1], cbs) + if s[|s| - 1] in cbs then [s[|s| - 1]] else []
  }

  lemma ListedNone()
    ensures Listed(null, [])
  {
  }

  lemma ListedSome(p: Handle?, s: seq<Handle>)
    requires Listed(p, s)
    ensures if p == null then s == [] else s != [] && p == s[0]
  {
  }

  lemma Swapped(s: seq<Handle>)
    ensures s + [] == [] + s == s && s[0..] == s
  {
  }

  lemma WithCbNone(cbs: set<Handle>)
    ensures WithCb([], cbs) == []
  {
  }

  lemma WithCbStep(s: seq<Handle>, cbs: set<Handle>)
    requires s != []
    ensures WithCb(s, cbs) == WithCb(s[..|s| - 1], cbs) + if s[|s| - 1] in cbs then [s[|s| - 1]] else []
  {
  }

  // Each callback of the list is called once.
  lemma {:induction false} WithCbDistinct(s: seq<Handle>, cbs: set<Handle>)
    requires NoDup(s)
    ensures NoDup(WithCb(s, cbs))
    ensures forall i :: 0 <= i < |WithCb(s, cbs)| ==> WithCb(s, cbs)[i] in s && WithCb(s, cbs)[i] in cbs
  {
    if s != [] {
      WithCbDistinct(s[..|s| - 1], cbs);
      var r := WithCb(s[..|s| - 1], cbs);
      assert forall i :: 0 <= i < |r| ==> r[i] in s[..|s| - 1];
      assert s[|s| - 1] !in s[..|s| - 1];
    }
  }

  lemma ListedTail(p: Handle, s: seq<Handle>)
    requires s != [] && p == s[0] && Listed(p, s)
    ensures Listed(p.nextClosing, s[1..])
  {
  }

  lemma DistinctTail(a: seq<Handle>, b: seq<Handle>)
    requires NoDup(a + b) && b != []
    ensures NoDup(a + b[1..]) && b[0] !in a && b[0] !in b[1..]
  {
    var s, u := a + b, a + b[1..];
    assert forall i :: 0 <= i < |u| ==> u[i] == s[if i < |a| then i else i + 1];
    assert s[|a|] == b[0];
    assert forall i :: 0 <= i < |a| ==> a[i] == s[i];
    assert forall i :: 0 <= i < |b[1..]| ==> b[1..][i] == s[|a| + 1 + i];
  }

  lemma ListedCons(h: Handle, s: seq<Handle>)
    requires h !in s && Listed(h.nextClosing, s)
    ensures Listed(h, [h] + s)
  {
    assert ([h] + s)[1..] == s;
  }

  lemma DistinctCons(h: Handle, a: seq<Handle>, b: seq<Handle>)
    requires NoDup(a + b) && h !in a && h !in b
    ensures NoDup(([h] + a) + b)
  {
    assert ([h] + a) + b == [h] + (a + b);
    assert forall i :: 0 <= i < |a + b| ==> (a + b)[i] in a || (a + b)[i] in b;
  }
}
