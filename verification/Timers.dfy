/** src/timer.c over the heap of src/heap-inl.h. */
module Timers {
  import HeapInl
  import Common
  import opened HeapShape
  import TimerSpec

  class TimerLoop {
    const heap: HeapInl.Heap
    var time: nat
    var counter: nat
    // The expired timers of the pass in progress whose callbacks are still due.
    var ready: seq<Node>
    ghost var handles: set<Node>

    ghost function State(): (l: TimerSpec.Loop)
      reads this, handles
      ensures l.timers.Keys == handles
    {
      TimerSpec.Loop(map h | h in handles :: TimerSpec.Timer(h.active, h.closing, h.hasCb, h.repeat, h.key),
        ready, time, counter)
    }

    // A timer is active iff its node is in the heap.
    ghost predicate Consistent()
      reads this, heap, handles
    {
      && heap.nodes <= handles && heap.Valid()
      && (forall h :: h in handles ==> (h.active <==> h in heap.nodes))
    }

    ghost predicate Valid()
      reads this, heap, handles
    {
      Consistent() && TimerSpec.Inv(State())
    }

    constructor ()
      ensures Valid() && handles == {} && ready == [] && fresh(heap)
    {
      heap := new HeapInl.Heap();
      time, counter, ready := 0, 0, [];
      handles := {};
    }

    method Init(h: Node)
      requires Valid() && h !in handles
      modifies this, h
      ensures Valid() && handles == old(handles) + {h} && ready == old(ready) && time == old(time)
        && counter == old(counter)
      ensures State() == TimerSpec.Init(old(State()), h)
    {
      hide HeapInl.Heap.Valid, TimerSpec.Inv;
      InitKeeps(State(), h);
      h.active, h.closing, h.hasCb, h.repeat, h.key := false, false, false, 0, Key(0, 0);
      handles := handles + {h};
      assert State().timers == old(State()).timers[h := TimerSpec.Timer(false, false, false, 0, Key(0, 0))];
    }

    lemma InitKeeps(l: TimerSpec.Loop, h: Node)
      requires TimerSpec.Inv(l) && h !in l.timers
      ensures TimerSpec.Inv(TimerSpec.Init(l, h))
    {
    }

    method Stop(h: Node)
      requires Consistent() && h in handles
      modifies `ready, heap, handles`left, handles`right, handles`parent, handles`active
      ensures Consistent() && State() == TimerSpec.Stop(old(State()), h)
      ensures heap.nodes == old(heap.nodes) - {h}
      ensures old(Valid()) ==> Valid()
    {
      hide HeapInl.Heap.Valid, TimerSpec.Inv;
      if TimerSpec.Inv(State()) {
        TimerSpec.StopKeeps(State(), h);
      }
      if h.active {
        heap.Remove(h);
        h.active := false;
      } else {
        ready := Common.Without(ready, h);
      }
      assert State().timers == TimerSpec.Stop(old(State()), h).timers;
    }

    // The fields that uv_timer_start sets.
    method Fill(h: Node, key: Key, repeat: nat)
      requires Consistent() && h in handles && !h.active
      modifies h`hasCb, h`key, h`repeat
      ensures Consistent()
      ensures State()
        == old(State()).(timers := old(State()).timers[h := TimerSpec.Timer(false, h.closing, true, repeat, key)])
    {
      hide HeapInl.Heap.Valid;
      h.hasCb := true;
      h.key := key;
      h.repeat := repeat;
      assert State().timers == old(State()).timers[h := TimerSpec.Timer(false, h.closing, true, repeat, key)];
    }

    // heap_insert and uv__handle_start
    method Raise(h: Node)
      requires Consistent() && h in handles && !h.active
      modifies heap, handles`left, handles`right, handles`parent, handles`active
      ensures Consistent()
      ensures State() == old(State()).(timers := old(State()).timers[h := old(State()).timers[h].(active := true)])
    {
      hide HeapInl.Heap.Valid;
      heap.Insert(h);
      h.active := true;
      assert State().timers == old(State()).timers[h := old(State()).timers[h].(active := true)];
    }

    // The part of uv_timer_start that follows the call of uv_timer_stop.
    method Arm(h: Node, timeout: nat, repeat: nat)
      requires Consistent() && h in handles && !h.active
      modifies `counter, heap, handles
      ensures Consistent() && handles == old(handles)
      ensures State() == TimerSpec.Arm(old(State()), h, timeout, repeat)
    {
      hide HeapInl.Heap.Valid, TimerSpec.Clamped;
      Fill(h, Key(TimerSpec.Clamped(time, timeout), counter), repeat);
      ghost var l := State();
      counter := counter + 1;
      assert State() == l.(counter := l.counter + 1);
      Raise(h);
    }

    method Start(h: Node, hasCb: bool, timeout: nat, repeat: nat) returns (status: TimerSpec.Status)
      requires Valid() && h in handles
      modifies `ready, `counter, heap, handles
      ensures Valid() && handles == old(handles)
      ensures (State(), status) == TimerSpec.Start(old(State()), h, hasCb, timeout, repeat)
    {
      hide Consistent, TimerSpec.Inv, TimerSpec.Stop;
      TimerSpec.StartKeeps(State(), h, hasCb, timeout, repeat);
      if h.closing || !hasCb {
        return TimerSpec.EINVAL;
      }
      TimerSpec.StopKeeps(State(), h);
      Stop(h);
      Arm(h, timeout, repeat);
      status := TimerSpec.Ok;
    }

    method Again(h: Node) returns (status: TimerSpec.Status)
      requires Valid() && h in handles
      modifies `ready, `counter, heap, handles
      ensures Valid() && handles == old(handles)
      ensures (State(), status) == TimerSpec.Again(old(State()), h)
    {
      if !h.hasCb {
        return TimerSpec.EINVAL;
      }
      if h.repeat != 0 {
        Stop(h);
        var _ := Start(h, h.hasCb, h.repeat, h.repeat);
      }
      status := TimerSpec.Ok;
    }

    method SetRepeat(h: Node, repeat: nat)
      requires Valid() && h in handles
      modifies handles`repeat
      ensures Valid() && State() == TimerSpec.SetRepeat(old(State()), h, repeat)
    {
      h.repeat := repeat;
      assert State().timers == TimerSpec.SetRepeat(old(State()), h, repeat).timers;
    }

    // uv_close of a timer, up to its place in the list of closing handles.
    method Close(h: Node)
      requires Valid() && h in handles
      modifies `ready, heap, handles
      ensures Valid() && handles == old(handles)
      ensures State() == TimerSpec.Close(old(State()), h)
    {
      hide HeapInl.Heap.Valid, TimerSpec.Inv;
      TimerSpec.CloseKeeps(State(), h);
      h.closing := true;
      assert State().timers == old(State()).timers[h := old(State()).timers[h].(closing := true)];
      Stop(h);
    }

    // The milliseconds until the next timer is due, 0 when one is due now and -1 when none is active.
    method NextTimeout() returns (r: int)
      requires Valid()
      ensures r == -1 <==> forall h :: h in handles ==> !h.active
      ensures r == 0 <==> exists h :: h in handles && h.active && h.key.timeout <= time
      ensures r > 0 ==> exists h ::
        && h in handles && h.active
        && r == (if h.key.timeout - time > TimerSpec.MAX_INT then TimerSpec.MAX_INT else h.key.timeout - time)
        && forall g :: g in handles && g.active ==> h.key.timeout <= g.key.timeout
    {
      var h := heap.Min();
      if h == null {
        return -1;
      }
      assert h in handles && h.active;
      assert forall g :: g in handles && g.active ==> !Less(g, h) && h.key.timeout <= g.key.timeout;
      if h.key.timeout <= time {
        return 0;
      }
      var diff := h.key.timeout - time;
      if diff > TimerSpec.MAX_INT {
        diff := TimerSpec.MAX_INT;
      }
      return diff;
    }

    method Perform(op: TimerSpec.Op)
      requires Valid() && TimerSpec.Known(handles, op)
      modifies this, heap, handles, if op.OpInit? then {op.h} else {}
      ensures Valid() && handles == TimerSpec.After(old(handles), op)
      ensures State() == TimerSpec.Apply(old(State()), op)
    {
      match op
      case OpInit(h) =>
        Init(h);
      case OpStart(h, hasCb, timeout, repeat) =>
        var _ := Start(h, hasCb, timeout, repeat);
      case OpStop(h) =>
        Stop(h);
      case OpAgain(h) =>
        var _ := Again(h);
      case OpClose(h) =>
        Close(h);
      case OpSetRepeat(h, repeat) =>
        SetRepeat(h, repeat);
      case OpUpdateTime(t) =>
        time := if t > time then t else time;
    }

    // A timer callback; pool holds the timers that it may operate on or initialize.
    method Callback(ops: seq<TimerSpec.Op>, ghost pool: set<Node>)
      requires Valid() && TimerSpec.AllKnown(handles, ops) && handles <= pool && TimerSpec.Within(pool, ops)
      modifies this, heap, pool
      ensures Valid() && handles == TimerSpec.AfterAll(old(handles), ops) && handles <= pool
      ensures State() == TimerSpec.ApplyAll(old(State()), ops)
    {
      hide Valid, State, TimerSpec.Apply, TimerSpec.Known;
      Keys();
      for i := 0 to |ops|
        invariant Valid() && handles <= pool && State().timers.Keys == handles && TimerSpec.AllKnown(handles, ops[i..])
        invariant TimerSpec.AfterAll(handles, ops[i..]) == TimerSpec.AfterAll(old(handles), ops)
        invariant TimerSpec.ApplyAll(State(), ops[i..]) == TimerSpec.ApplyAll(old(State()), ops)
      {
        assert ops[i..][1..] == ops[i + 1..] && ops[i..][0] == ops[i];
        Perform(ops[i]);
        Keys();
      }
    }

    lemma Keys()
      ensures State().timers.Keys == handles && State().ready == ready && State().time == time
    {
    }

    // The first loop of uv__run_timers.
    method Collect()
      requires Valid() && ready == []
      modifies `ready, heap, handles
      ensures Valid() && handles == old(handles)
      ensures TimerSpec.Collected(old(State()), State())
    {
      hide Valid, State, HeapInl.Heap.Valid, TimerSpec.Inv, TimerSpec.Stop, TimerSpec.Collecting, TimerSpec.Earliest,
        TimerSpec.Collected;
      ghost var l := State();
      StartCollecting();
      while true
        invariant Valid() && handles == old(handles) && TimerSpec.Collecting(l, State())
        decreases heap.nodes
      {
        Unfold();
        var h := heap.Min();
        if h == null || h.key.timeout > time {
          break;
        }
        TimerSpec.CollectStep(l, State(), h);
        Stop(h);
        Queue(h);
      }
      FinishCollecting(l);
    }

    lemma StartCollecting()
      requires Valid() && ready == []
      ensures TimerSpec.Inv(State()) && TimerSpec.Collecting(State(), State())
    {
    }

    lemma Unfold()
      requires Valid()
      ensures heap.Valid() && Consistent() && heap.nodes <= handles && TimerSpec.Inv(State())
      ensures State().time == time && State().ready == ready && State().timers.Keys == handles
      ensures forall h :: h in handles ==> State().timers[h].key == h.key && State().timers[h].active == h.active
    {
    }

    lemma FinishCollecting(l: TimerSpec.Loop)
      requires Valid() && TimerSpec.Collecting(l, State())
      requires
        || heap.nodes == {}
        || exists r :: r in heap.nodes && r.key.timeout > time && forall n :: n in heap.nodes ==> !Less(n, r)
      ensures TimerSpec.Collected(l, State())
    {
    }

    method Queue(h: Node)
      requires Consistent() && TimerSpec.Inv(State().(ready := State().ready + [h]))
      modifies `ready
      ensures Valid() && State() == old(State()).(ready := old(State()).ready + [h])
    {
      ready := ready + [h];
    }

    // uv__run_timers; the callback of the i-th timer to fire performs script(i).
    method RunTimers(script: nat -> seq<TimerSpec.Op>, ghost pool: set<Node>) returns (fired: seq<Node>)
      requires Valid() && ready == [] && TimerSpec.Sound(handles, script, 0)
      requires handles <= pool && forall i: nat :: TimerSpec.Within(pool, script(i))
      modifies this, heap, pool
      ensures Valid() && old(handles) <= handles <= pool && ready == []
      ensures TimerSpec.FiresWell(old(State()), script, fired)
      ensures exists m ::
        && TimerSpec.Collected(old(State()), m) && TimerSpec.Inv(m) && TimerSpec.Sound(m.timers.Keys, script, 0)
        && (State(), fired) == TimerSpec.Fire(m, script, 0)
    {
      hide Valid, State, TimerSpec.Inv, TimerSpec.Collected, TimerSpec.Again, TimerSpec.Fire, TimerSpec.FireFrom,
        TimerSpec.ApplyAll, TimerSpec.AfterAll, TimerSpec.AllKnown, TimerSpec.Sound, TimerSpec.Within,
        TimerSpec.FiresWell;
      Unfold();
      Collect();
      Unfold();
      ghost var m := State();
      fired := [];
      var k := 0;
      TimerSpec.FireStart(m, script);
      while ready != []
        invariant Valid() && old(handles) <= handles <= pool && k >= 0
        invariant TimerSpec.Inv(State()) && State().timers.Keys == handles && State().ready == ready
        invariant TimerSpec.Sound(handles, script, k) && TimerSpec.FireFrom(m, script, fired, State(), k)
        decreases |ready|
      {
        ghost var l := State();
        FirstKnown();
        TimerSpec.SoundStep(handles, script, k);
        TimerSpec.TurnKeeps(l, script(k));
        var h := ready[0];
        Pop();
        var _ := Again(h);
        Unfold();
        Callback(script(k), pool);
        Unfold();
        TimerSpec.FireStep(m, script, fired, l, k);
        fired := fired + [h];
        k := k + 1;
      }
      TimerSpec.FireEnd(m, script, fired, State(), k);
      TimerSpec.Pass(old(State()), m, script);
    }

    lemma FirstKnown()
      requires Valid() && ready != []
      ensures ready[0] in handles
      ensures TimerSpec.Inv(State().(ready := State().ready[1..]))
    {
      assert ready[0] in State().ready;
    }

    method Pop()
      requires Valid() && ready != [] && TimerSpec.Inv(State().(ready := State().ready[1..]))
      modifies `ready
      ensures Valid() && State() == old(State()).(ready := old(State()).ready[1..])
    {
      ready := ready[1..];
    }
  }
}
