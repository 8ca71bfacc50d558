/** In which order the workers of src/threadpool.c take requests, and how much slow work they run at once. */
module ThreadPoolOrder {
  import opened Common
  import opened ThreadPool
  import opened ThreadPoolSafety
  import opened ThreadPoolProgress
  import opened ThreadPoolCancel

  // ---------- a turn of a worker ----------

  // A worker waits exactly if there is no work, or only slow work while half of the workers, rounded up,
  // run such; it takes the first ordinary request, or the slow request that has waited longest; slow work
  // beyond that half goes behind the other work, and what remains of it is announced again, for which a
  // waiting worker is woken if there is one.
  lemma TurnTakes(s: Pool, t: nat, wake: nat)
    requires Inv(s) && Enabled(s, WTop(t, wake))
    ensures
      var u := Apply(s, WTop(t, wake));
      var full := Count(s.workers, OnSlow) >= (|s.workers| + 1) / 2;
      if s.wq == [] || (s.wq == [SlowMessage] && full) then
        u.workers == s.workers[t := Waiting] && u.wq == s.wq && u.pending == s.pending && u.mutex == Free
      else if s.wq[0] != SlowMessage then
        && u.workers == s.workers[t := Running(s.wq[0].r, false)]
        && u.wq == s.wq[1..] && u.pending == s.pending && u.mutex == Free
      else if full then
        u.workers == s.workers && u.wq == s.wq[1..] + [SlowMessage] && u.pending == s.pending && u.mutex == s.mutex
      else if s.pending == [] then
        u.workers == s.workers && u.wq == s.wq[1..] && u.pending == [] && u.mutex == s.mutex
      else
        && u.workers[t] == Running(s.pending[0], true) && u.pending == s.pending[1..] && u.mutex == Free
        && u.workers == (if |s.pending| > 1 && Waiting in s.workers then s.workers[wake := Woken] else s.workers)
             [t := Running(s.pending[0], true)]
        && u.wq == s.wq[1..] + if |s.pending| > 1 then [SlowMessage] else []
  {
    hide Queues, Backs, WorkersHold, LoopsHold, Requests, MutexOk, LocksOk, LocalOk, Token, LoopApply;
    if Waiting in s.workers {
      CountSome(s.workers, wake);
    }
  }

  // A request goes to the end of its queue, slow work being announced once; for what is new in the shared
  // queue a waiting worker is woken if there is one, and no other is disturbed.
  lemma PostWakes(s: Pool, l: nat, wake: nat)
    requires Inv(s) && Enabled(s, LPost(l, wake))
    ensures
      var u := Apply(s, LPost(l, wake));
      var r := s.loopPc[l].r;
      var slow := s.reqs[r].slow;
      var news := !slow || SlowMessage !in s.wq;
      && u.wq == s.wq + (if !slow then [Work(r)] else if news then [SlowMessage] else [])
      && u.pending == s.pending + (if slow then [r] else [])
      && u.mutex == Free && u.loopPc == s.loopPc[l := Idle]
      && u.workers == if news && Waiting in s.workers then s.workers[wake := Woken] else s.workers
  {
    hide Queues, Backs, WorkersHold, LoopsHold, Requests, MutexOk, LocksOk, LocalOk, Token, WorkerApply;
    if Waiting in s.workers {
      CountSome(s.workers, wake);
    }
  }

  lemma {:induction false} CountSome(ws: seq<WorkerPc>, t: nat)
    requires t < |ws| && IsIdle(ws[t])
    ensures Count(ws, IsIdle) > 0
  {
    if t > 0 {
      CountSome(ws[1..], t - 1);
    }
  }

  // ---------- first come, first served ----------

  ghost predicate Ahead<T>(s: seq<T>, a: T, b: T) {
    exists i, j :: 0 <= i < j < |s| && s[i] == a && s[j] == b
  }

  lemma AheadMore<T>(s: seq<T>, a: T, b: T, x: T)
    requires Ahead(s, a, b)
    ensures Ahead(s + [x], a, b)
  {
    var i, j :| 0 <= i < j < |s| && s[i] == a && s[j] == b;
    assert (s + [x])[i] == a && (s + [x])[j] == b;
  }

  lemma AheadRest<T>(s: seq<T>, a: T, b: T)
    requires Ahead(s, a, b) && a in s[1..] && NoDup(s)
    ensures Ahead(s[1..], a, b)
  {
    var i, j :| 0 <= i < j < |s| && s[i] == a && s[j] == b;
    NoDupPop(s);
    assert s[1..][i - 1] == a && s[1..][j - 1] == b;
  }

  lemma {:induction false} AheadWithout<T>(s: seq<T>, a: T, b: T, x: T)
    requires Ahead(s, a, b) && x != a && x != b
    ensures Ahead(Without(s, x), a, b)
  {
    var i, j :| 0 <= i < j < |s| && s[i] == a && s[j] == b;
    if i > 0 {
      assert s[1..][i - 1] == a && s[1..][j - 1] == b;
      AheadWithout(s[1..], a, b, x);
      var r := Without(s[1..], x);
      if s[0] != x {
        AheadFront(r, a, b, s[0]);
      }
    } else {
      var r := Without(s[1..], x);
      assert s[1..][j - 1] == b;
      WithoutKeeps(s[1..], x, b);
      var k :| 0 <= k < |r| && r[k] == b;
      assert ([a] + r)[0] == a && ([a] + r)[k + 1] == b;
    }
  }

  lemma AheadFront<T>(s: seq<T>, a: T, b: T, x: T)
    requires Ahead(s, a, b)
    ensures Ahead([x] + s, a, b)
  {
    var i, j :| 0 <= i < j < |s| && s[i] == a && s[j] == b;
    assert ([x] + s)[i + 1] == a && ([x] + s)[j + 1] == b;
  }

  lemma {:induction false} WithoutKeeps<T>(s: seq<T>, x: T, b: T)
    requires b in s && b != x
    ensures b in Without(s, x)
  {
    if s[0] != b {
      assert b in s[1..];
      WithoutKeeps(s[1..], x, b);
    }
  }

  // Each of two ordinary requests, or of two slow ones, in the order of their submission.
  ghost predicate Before(s: Pool, q: Req, r: Req) {
    Ahead(s.wq, Work(q), Work(r)) || Ahead(s.pending, q, r)
  }

  ghost predicate Queued(s: Pool, r: Req) {
    In(s, r, Shared) || In(s, r, SlowQueue)
  }

  lemma AheadIn<T>(s: seq<T>, a: T, b: T)
    requires Ahead(s, a, b)
    ensures a in s && b in s
  {
  }

  lemma StaysShared(s: Pool, u: Pool, q: Req)
    requires Queues(s.wq, s.pending, s.place) && Work(q) in s.wq && Queued(u, q)
    requires forall r :: r in u.pending ==> r in s.pending
    ensures Work(q) in u.wq
  {
    assert IsAt(s.place, q, InWq);
  }

  lemma StaysSlow(s: Pool, u: Pool, q: Req)
    requires Queues(s.wq, s.pending, s.place) && q in s.pending && Queued(u, q)
    requires forall r :: Work(r) in u.wq ==> Work(r) in s.wq
    ensures q in u.pending
  {
    assert IsAt(s.place, q, InSlow);
  }

  lemma BeforeTurn(s: Pool, t: nat, wake: nat, q: Req, r: Req)
    requires Inv(s) && Enabled(s, WTop(t, wake)) && Before(s, q, r) && Queued(Apply(s, WTop(t, wake)), q)
    ensures Before(Apply(s, WTop(t, wake)), q, r)
  {
    hide Backs, WorkersHold, LoopsHold, Requests, MutexOk, LocksOk, LocalOk, Counts, Token, Apply, Ahead, Enabled,
      NoDup, Count;
    var u := Apply(s, WTop(t, wake));
    TurnTakes(s, t, wake);
    InvKept(s, WTop(t, wake));
    if Ahead(s.wq, Work(q), Work(r)) {
      AheadIn(s.wq, Work(q), Work(r));
      assert IsAt(s.place, q, InWq);
      if u.wq != s.wq {
        StaysShared(s, u, q);
        var rest := s.wq[1..];
        assert Work(q) in rest;
        AheadRest(s.wq, Work(q), Work(r));
        AheadMore(rest, Work(q), Work(r), SlowMessage);
        assert rest + [] == rest;
      }
    } else {
      AheadIn(s.pending, q, r);
      assert IsAt(s.place, q, InSlow);
      if u.pending != s.pending {
        StaysSlow(s, u, q);
        AheadRest(s.pending, q, r);
      }
    }
  }

  lemma BeforePost(s: Pool, l: nat, wake: nat, q: Req, r: Req)
    requires Inv(s) && Enabled(s, LPost(l, wake)) && Before(s, q, r)
    ensures Before(Apply(s, LPost(l, wake)), q, r)
  {
    hide Inv, Apply, Ahead, WakeOk, Count;
    PostWakes(s, l, wake);
    var p := s.loopPc[l].r;
    assert s.wq + [] == s.wq && s.pending + [] == s.pending;
    if Ahead(s.wq, Work(q), Work(r)) {
      AheadMore(s.wq, Work(q), Work(r), Work(p));
      AheadMore(s.wq, Work(q), Work(r), SlowMessage);
    } else {
      AheadMore(s.pending, q, r, p);
    }
  }

  lemma BeforeCancel(s: Pool, l: nat, q: Req, r: Req)
    requires Inv(s) && Enabled(s, LCancelCheck(l)) && Before(s, q, r) && Queued(Apply(s, LCancelCheck(l)), q)
    ensures Before(Apply(s, LCancelCheck(l)), q, r) || Taken(Apply(s, LCancelCheck(l)), r)
  {
    hide Inv, Apply, Ahead, WakeOk, Begun, Taken, In, Without, Waits;
    var x := s.loopPc[l].r;
    Decides(s, l);
    if Begun(s, x) {
      CancelRefuses(s, l);
    } else {
      CancelTakes(s, l);
      TakenState(s, l);
      if x == r {
        TakenHere(s, l);
      } else if x != q {
        if Ahead(s.wq, Work(q), Work(r)) {
          AheadWithout(s.wq, Work(q), Work(r), Work(x));
        } else {
          AheadWithout(s.pending, q, r, x);
        }
      }
    }
  }

  lemma QueuesSame(s: Pool, st: Step)
    requires Enabled(s, st) && !st.WTop? && !st.LPost? && !st.LCancelCheck?
    ensures Apply(s, st).wq == s.wq && Apply(s, st).pending == s.pending
  {
    hide Turn, Post, Signal, Without, Delivered, WakeOk;
  }

  // As long as the earlier of two requests waits, the later one waits too or has been cancelled.
  lemma BeforeStep(s: Pool, st: Step, q: Req, r: Req)
    requires Inv(s) && Enabled(s, st) && Before(s, q, r) && Queued(Apply(s, st), q)
    ensures Before(Apply(s, st), q, r) || Taken(Apply(s, st), r)
  {
    hide Inv, Apply, Ahead, Enabled, Taken, In;
    match st
    case WTop(t, wake) => BeforeTurn(s, t, wake, q, r);
    case LPost(l, wake) => BeforePost(s, l, wake, q, r);
    case LCancelCheck(l) => BeforeCancel(s, l, q, r);
    case _ => QueuesSame(s, st);
  }

  lemma NotQueued(s: Pool, q: Req)
    requires Inv(s) && (Taken(s, q) || Started(s, q))
    ensures !Queued(s, q)
  {
    hide Backs, WorkersHold, LoopsHold, MutexOk, LocksOk, LocalOk, Counts, Token;
    RequestOkAt(s, q);
    assert In(s, q, Shared) ==> IsAt(s.place, q, InWq);
    assert In(s, q, SlowQueue) ==> IsAt(s.place, q, InSlow);
  }

  lemma Posted(s: Pool, st: Step, q: Req)
    requires Inv(s) && Enabled(s, st) && Queued(s, q)
    ensures var u := Apply(s, st); q in u.reqs && q in u.place && u.place[q] != Submitting
  {
    hide LoopsHold, Backs, WorkersHold, MutexOk, LocksOk, LocalOk, Counts, Token, Turn, Post, Requests, Signal, Without,
      Delivered, WakeOk;
    assert In(s, q, Shared) ==> IsAt(s.place, q, InWq);
    assert In(s, q, SlowQueue) ==> IsAt(s.place, q, InSlow);
    if st.WTop? {
      TurnPlace(s, st.t, st.wake, q);
    } else if st.LPost? {
      PostPlace(s, st.l, s.loopPc[st.l].r, st.wake, q);
    }
  }

  lemma TurnPlace(s: Pool, t: nat, wake: nat, q: Req)
    requires t < |s.workers| && Shape(s) && q in s.place && s.place[q] != Submitting
    ensures var u := Turn(s, t, wake); q in u.reqs && q in u.place && u.place[q] != Submitting
  {
    hide Signal;
  }

  lemma PostPlace(s: Pool, l: nat, r: Req, wake: nat, q: Req)
    requires l < |s.loopPc| && r in s.reqs && Shape(s) && q in s.place && s.place[q] != Submitting
    ensures var u := Post(s, l, r, wake); q in u.reqs && q in u.place && u.place[q] != Submitting
  {
    hide Signal;
  }

  lemma Somewhere(s: Pool, q: Req)
    requires Inv(s) && q in s.reqs && q in s.place && s.place[q] != Submitting
    ensures Queued(s, q) || Taken(s, q) || Started(s, q)
  {
    hide LoopsHold, Backs, WorkersHold, MutexOk, LocksOk, LocalOk, Counts, Token;
    RequestOkAt(s, q);
    assert s.place[q] == InWq ==> IsAt(s.place, q, InWq);
    assert s.place[q] == InSlow ==> IsAt(s.place, q, InSlow);
  }

  // What has left the queues stays out of them.
  lemma StaysQueued(s: Pool, st: Step, steps: seq<Step>, e: Pool, q: Req)
    requires Inv(s) && Enabled(s, st) && Queued(s, q) && Goes(Apply(s, st), steps, e) && Queued(e, q)
    ensures Queued(Apply(s, st), q)
  {
    hide Inv, Enabled, Apply, Goes, Queued, Taken, Started;
    var u := Apply(s, st);
    InvKept(s, st);
    Posted(s, st, q);
    Somewhere(u, q);
    TakenRuns(u, steps, e, q);
    if Taken(e, q) || Started(e, q) {
      NotQueued(e, q);
    }
  }

  lemma BeforeQueued(s: Pool, q: Req, r: Req)
    requires Before(s, q, r)
    ensures Queued(s, q) && Queued(s, r)
  {
    if Ahead(s.wq, Work(q), Work(r)) {
      AheadIn(s.wq, Work(q), Work(r));
    } else {
      AheadIn(s.pending, q, r);
    }
  }

  // Of two ordinary requests, or of two slow ones, the one that was queued first is taken first: while it
  // still waits no worker has begun the other.
  lemma {:induction false} FirstComeFirstServed(s: Pool, steps: seq<Step>, e: Pool, q: Req, r: Req)
    requires Inv(s) && Goes(s, steps, e) && (Before(s, q, r) || Taken(s, r)) && Queued(e, q)
    ensures r in e.reqs ==> !Begun(e, r)
    decreases |steps|
  {
    hide Inv, Enabled, Apply, Queued, Taken, Started, Before, Begun;
    TakenRuns(s, steps, e, r);
    if r in e.reqs {
      BegunStarted(e, r);
      TakenMeans(e, r);
      if Before(s, q, r) {
        BeforeQueued(s, q, r);
        if steps == [] {
          if Started(e, r) {
            NotQueued(e, r);
          }
        } else {
          StaysQueued(s, steps[0], steps[1..], e, q);
          BeforeStep(s, steps[0], q, r);
          InvKept(s, steps[0]);
          FirstComeFirstServed(Apply(s, steps[0]), steps[1..], e, q, r);
        }
      }
    }
  }

  // ---------- how much slow work runs at once ----------

  // Slow requests 0 to m - 1 of loop 0 have been submitted, and the first k of them run.
  ghost predicate SlowRun(s: Pool, n: nat, m: nat, k: nat) {
    && Shape(s) && k <= m && k <= n == |s.workers| && |s.loopPc| == 1
    && s.mutex == Free && s.loopPc[0] == Idle && s.idle == 0 && s.slowRunning == k
    && (forall i: nat :: i < n ==> s.workers[i] == if i < k then Running(i, true) else WantMutex(false))
    && |s.pending| == m - k && (forall i: nat :: i < m - k ==> s.pending[i] == k + i)
    && s.wq == (if k < m then [SlowMessage] else [])
    && (forall r :: r in s.reqs ==> r < m && s.reqs[r].slow) && (forall r: nat :: r < m ==> r in s.reqs)
  }

  lemma GoesOn(s: Pool, steps: seq<Step>, u: Pool, st: Step)
    requires Goes(s, steps, u) && Enabled(u, st)
    ensures Goes(s, steps + [st], Apply(u, st))
    decreases |steps|
  {
    hide Enabled, Apply;
    if steps == [] {
      assert ([] + [st])[1..] == [];
    } else {
      GoesOn(Apply(s, steps[0]), steps[1..], u, st);
      assert (steps + [st])[1..] == steps[1..] + [st];
    }
  }

  lemma {:induction false} SubmitSlow(n: nat, m: nat) returns (steps: seq<Step>, s: Pool)
    requires n >= 1
    ensures Goes(Init(n, 1), steps, s) && SlowRun(s, n, m, 0)
  {
    if m == 0 {
      steps, s := [], Init(n, 1);
    } else {
      steps, s := SubmitSlow(n, m - 1);
      steps, s := SubmitOne(n, m - 1, steps, s);
    }
  }

  lemma SubmitOne(n: nat, m: nat, steps0: seq<Step>, s0: Pool) returns (steps: seq<Step>, s: Pool)
    requires n >= 1 && Goes(Init(n, 1), steps0, s0) && SlowRun(s0, n, m, 0)
    ensures Goes(Init(n, 1), steps, s) && SlowRun(s, n, m + 1, 0)
  {
    hide Goes, SlowRun, Enabled, Apply;
    var submit, lock, post := LSubmit(0, m, true), LPostLock(0), LPost(0, 0);
    SubmitState(s0, n, m);
    var s1 := Apply(s0, submit);
    GoesOn(Init(n, 1), steps0, s0, submit);
    var s2 := Apply(s1, lock);
    GoesOn(Init(n, 1), steps0 + [submit], s1, lock);
    s := Apply(s2, post);
    steps := steps0 + [submit] + [lock] + [post];
    GoesOn(Init(n, 1), steps0 + [submit] + [lock], s2, post);
  }

  lemma SubmitState(s: Pool, n: nat, m: nat)
    requires n >= 1 && SlowRun(s, n, m, 0)
    ensures Enabled(s, LSubmit(0, m, true))
    ensures Enabled(Apply(s, LSubmit(0, m, true)), LPostLock(0))
    ensures Enabled(Apply(Apply(s, LSubmit(0, m, true)), LPostLock(0)), LPost(0, 0))
    ensures SlowRun(Apply(Apply(Apply(s, LSubmit(0, m, true)), LPostLock(0)), LPost(0, 0)), n, m + 1, 0)
  {
    hide WorkerApply;
  }

  // Worker k takes the next slow request.
  lemma TakeState(s: Pool, n: nat, m: nat, k: nat)
    requires k < m <= (n + 1) / 2 && SlowRun(s, n, m, k)
    ensures Enabled(s, WLock(k)) && Enabled(Apply(s, WLock(k)), WTop(k, 0))
    ensures SlowRun(Apply(Apply(s, WLock(k)), WTop(k, 0)), n, m, k + 1)
  {
    hide LoopApply;
  }

  lemma {:induction false} TakeSlow(n: nat, m: nat, k: nat, steps0: seq<Step>, s0: Pool)
    returns (steps: seq<Step>, s: Pool)
    requires n >= 1 && k <= m <= (n + 1) / 2 && Goes(Init(n, 1), steps0, s0) && SlowRun(s0, n, m, k)
    ensures Goes(Init(n, 1), steps, s) && SlowRun(s, n, m, m)
    decreases m - k
  {
    hide Goes, SlowRun, Enabled, Apply;
    if k == m {
      steps, s := steps0, s0;
    } else {
      TakeState(s0, n, m, k);
      var s1 := Apply(s0, WLock(k));
      GoesOn(Init(n, 1), steps0, s0, WLock(k));
      GoesOn(Init(n, 1), steps0 + [WLock(k)], s1, WTop(k, 0));
      steps, s := TakeSlow(n, m, k + 1, steps0 + [WLock(k)] + [WTop(k, 0)], Apply(s1, WTop(k, 0)));
    }
  }

  // Half of the workers, rounded up, may run slow work at once: there is a run that ends so, whatever their
  // number.
  lemma SlowReached(n: nat) returns (steps: seq<Step>, s: Pool)
    requires n >= 1
    ensures Goes(Init(n, 1), steps, s) && |s.workers| == n
    ensures forall t :: 0 <= t < n ==> (OnSlow(s.workers[t]) <==> t < (n + 1) / 2)
  {
    hide Goes, Init;
    steps, s := SubmitSlow(n, (n + 1) / 2);
    steps, s := TakeSlow(n, (n + 1) / 2, 0, steps, s);
  }
}
