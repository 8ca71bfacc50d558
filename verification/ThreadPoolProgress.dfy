/** What the invariants of the thread pool mean for its users: where a request is, what its
    done function is told, how many workers slow work may take, and that the pool cannot
    deadlock, stall or spin. */
module ThreadPoolProgress {
  import opened Common
  import opened ThreadPool
  import opened ThreadPoolSafety

  // ---------- safety ----------

  // The containers a request can be in.
  datatype Spot = Shared | SlowQueue | Worker(t: nat) | Poster(l: nat) | Canceller(l: nat) | LoopQueue(l: nat)
    | LocalQueue(l: nat)

  ghost predicate In(s: Pool, r: Req, p: Spot) {
    match p
    case Shared => Work(r) in s.wq
    case SlowQueue => r in s.pending
    case Worker(t) => t < |s.workers| && Carries(s.workers[t]) && s.workers[t].r == r
    case Poster(l) => l < |s.loopPc| && Posts(s.loopPc[l]) && s.loopPc[l].r == r
    case Canceller(l) => l < |s.loopPc| && Requeues(s.loopPc[l]) && s.loopPc[l].r == r
    case LoopQueue(l) => l < |s.done| && r in s.done[l]
    case LocalQueue(l) => l < |s.local| && r in s.local[l]
  }

  function SpotOf(s: Pool, r: Req): Spot
    requires r in s.place && r in s.owner && s.owner[r] < |s.done|
  {
    match s.place[r]
    case Submitting => Poster(s.owner[r])
    case InWq => Shared
    case InSlow => SlowQueue
    case AtWorker(t) => Worker(t)
    case AtCanceller => Canceller(s.owner[r])
    case _ => if r in s.done[s.owner[r]] then LoopQueue(s.owner[r]) else LocalQueue(s.owner[r])
  }

  lemma InPlace(s: Pool, r: Req, p: Spot)
    requires Inv(s) && In(s, r, p)
    ensures r in s.place && r in s.owner && s.owner[r] < |s.done| && s.place[r] != Finished
    ensures p == SpotOf(s, r)
  {
    hide Requests, MutexOk, LocksOk, LocalOk, Counts, Token;
    match p
    case Shared => assert IsAt(s.place, r, InWq);
    case SlowQueue => assert IsAt(s.place, r, InSlow);
    case Worker(t) => assert IsAt(s.place, r, AtWorker(t));
    case Poster(l) => assert IsAt(s.place, r, Submitting) && s.owner[r] == l;
    case Canceller(l) => assert IsAt(s.place, r, AtCanceller) && s.owner[r] == l;
    case LoopQueue(l) => LocalBack(s, l, r);
    case LocalQueue(l) =>
      LocalBack(s, l, r);
      NoDupParts(s.done[l], s.local[l]);
  }

  lemma InSpot(s: Pool, r: Req)
    requires Inv(s) && r in s.reqs && s.place[r] != Finished
    ensures s.owner[r] < |s.done| && In(s, r, SpotOf(s, r))
  {
    hide Requests, MutexOk, LocksOk, LocalOk, Counts, Token;
    if s.place[r] == Back {
      assert InBack(s.done, s.local, s.owner[r], r) by {
        assert IsAt(s.place, r, Back);
      }
    }
    assert s.place[r] == Submitting ==> IsAt(s.place, r, Submitting);
    assert s.place[r] == AtCanceller ==> IsAt(s.place, r, AtCanceller);
    assert s.place[r] == InWq ==> IsAt(s.place, r, InWq);
    assert s.place[r] == InSlow ==> IsAt(s.place, r, InSlow);
  }

  // In every run a request whose done function has not been called is in exactly one of the
  // queues and threads' hands, any other in none, and no queue holds a request twice.
  lemma OnePlace(n: nat, loops: nat, steps: seq<Step>, s: Pool, r: Req)
    requires n >= 1 && Reaches(n, loops, steps, s) && r in s.reqs
    ensures s.reqs[r].dones == 0 ==> exists p :: In(s, r, p) && forall q :: In(s, r, q) ==> q == p
    ensures s.reqs[r].dones != 0 ==> forall p :: !In(s, r, p)
    ensures |s.done| == |s.local| == loops
    ensures NoDup(s.wq) && NoDup(s.pending) && forall l :: 0 <= l < loops ==> NoDup(s.done[l] + s.local[l])
  {
    hide In, SpotOf, RequestOk;
    Reachable(n, loops, steps, s);
    RequestOkAt(s, r);
    DoneWhere(s, r);
    if s.reqs[r].dones == 0 {
      InSpot(s, r);
    }
    forall p | In(s, r, p) ensures s.place[r] != Finished && s.owner[r] < |s.done| && p == SpotOf(s, r) {
      InPlace(s, r, p);
    }
  }

  lemma DoneWhere(s: Pool, r: Req)
    requires Inv(s) && r in s.reqs
    ensures s.reqs[r].dones == if s.place[r] == Finished then 1 else 0
  {
    hide Queues, Backs, WorkersHold, LoopsHold, MutexOk, LocksOk, LocalOk, Counts, Token, RunningAt, MarkingAt;
    RequestOkAt(s, r);
  }

  // The done function is called at most once, and is told UV_ECANCELED exactly when the work
  // function never ran; otherwise it is told success.
  lemma DoneOnce(n: nat, loops: nat, steps: seq<Step>, s: Pool, r: Req)
    requires n >= 1 && Reaches(n, loops, steps, s) && r in s.reqs
    ensures s.reqs[r].dones <= 1
    ensures s.reqs[r].dones == 0 ==> s.reqs[r].status == None
    ensures s.reqs[r].dones == 1 ==> s.reqs[r].status == Some(if s.reqs[r].ran then Success else ECANCELED)
  {
    hide Queues, Backs, WorkersHold, LoopsHold, MutexOk, LocksOk, LocalOk, Counts, Token, RunningAt, MarkingAt, Reaches;
    Reachable(n, loops, steps, s);
    RequestOkAt(s, r);
  }

  // A worker calls the work function of a request at most once, never after the request was
  // cancelled (so never uv__cancelled, which aborts) and never after the done function.
  lemma RunOnce(n: nat, loops: nat, steps: seq<Step>, s: Pool, t: nat)
    requires n >= 1 && Reaches(n, loops, steps, s) && Enabled(s, WRun(t))
    ensures var q := s.reqs[s.workers[t].r]; q.work == Fn && !q.ran && q.dones == 0
  {
    hide Queues, Backs, LoopsHold, MutexOk, LocksOk, LocalOk, Counts, Token, MarkingAt, Reaches;
    Reachable(n, loops, steps, s);
    var r := s.workers[t].r;
    assert IsAt(s.place, r, AtWorker(t));
    RequestOkAt(s, r);
  }

  // slow_io_work_running is the number of workers on slow work, which stays at half of the
  // workers, rounded up; and slow work that waits is announced in the shared queue.
  lemma SlowBound(n: nat, loops: nat, steps: seq<Step>, s: Pool)
    requires n >= 1 && Reaches(n, loops, steps, s)
    ensures s.slowRunning == Count(s.workers, OnSlow) <= (n + 1) / 2
    ensures n >= 2 ==> s.slowRunning < n
    ensures s.pending != [] ==> SlowMessage in s.wq
    ensures s.idle == Count(s.workers, IsIdle)
  {
    hide Queues, Backs, WorkersHold, LoopsHold, Requests, MutexOk, LocksOk, LocalOk, Reaches;
    Reachable(n, loops, steps, s);
  }

  // Whenever there is work, and not only slow work while half of the workers run such, some worker is not
  // blocked on the condition variable.
  lemma NoStall(n: nat, loops: nat, steps: seq<Step>, s: Pool)
    requires n >= 1 && Reaches(n, loops, steps, s) && s.wq != []
    requires !(s.wq == [SlowMessage] && Count(s.workers, OnSlow) >= (n + 1) / 2)
    ensures |s.workers| == n && exists t :: 0 <= t < n && s.workers[t] != Waiting
  {
    hide Queues, Backs, WorkersHold, LoopsHold, Requests, MutexOk, LocksOk, LocalOk, Reaches;
    Reachable(n, loops, steps, s);
  }

  // A thread waits for mutex, or for the wq_mutex of some loop.
  predicate WorkerWaits(pc: WorkerPc) {
    pc.WantMutex? || pc == Woken || pc.WantLoop?
  }

  predicate LoopWaits(pc: LoopPc) {
    pc.WantPost? || pc.CancelWant? || pc.CancelHold? || pc.CancelPut? || pc.DoneWant?
  }

  // Whoever holds a wq_mutex waits for no lock, and whoever holds mutex waits at most for the
  // wq_mutex of its own loop, so there is no cyclic wait.
  lemma NoCyclicWait(n: nat, loops: nat, steps: seq<Step>, s: Pool, l: nat)
    requires n >= 1 && Reaches(n, loops, steps, s) && l < loops
    ensures |s.locks| == |s.loopPc| == loops && |s.workers| == n
    ensures s.locks[l].ByWorker? ==> s.locks[l].t < n && !WorkerWaits(s.workers[s.locks[l].t])
    ensures s.locks[l].ByLoop? ==> s.locks[l].l == l && !LoopWaits(s.loopPc[l])
    ensures s.mutex.ByWorker? ==> s.mutex.t < n && !WorkerWaits(s.workers[s.mutex.t])
    ensures s.mutex.ByLoop? ==>
      s.mutex.l < loops && (LoopWaits(s.loopPc[s.mutex.l]) ==> s.loopPc[s.mutex.l].CancelHold?)
  {
    hide Queues, Backs, WorkersHold, LoopsHold, Requests, LocalOk, Counts, Token, Reaches;
    Reachable(n, loops, steps, s);
  }

  // ---------- progress ----------

  // A step that is neither a choice of the program that uses the pool, nor a spurious wake-up,
  // nor a look into an empty queue.
  predicate Useful(s: Pool, st: Step) {
    match st
    case WSpurious(_) => false
    case LSubmit(_, _, _) => false
    case LCancel(_, _) => false
    case LDoneStart(l) => l < |s.done| && s.done[l] != []
    case _ => true
  }

  ghost predicate CanAct(s: Pool) {
    exists st :: Enabled(s, st) && Useful(s, st)
  }

  lemma Acts(s: Pool, st: Step)
    requires Enabled(s, st) && Useful(s, st)
    ensures CanAct(s)
  {
  }

  lemma SomeWake(ws: seq<WorkerPc>) returns (wake: nat)
    ensures WakeOk(ws, wake)
  {
    if Waiting in ws {
      wake :| wake < |ws| && ws[wake] == Waiting;
    } else {
      wake := 0;
    }
  }

  lemma CarriedKnown(s: Pool, t: nat)
    requires WorkersHold(s.workers, s.place) && Requests(s.reqs, s.place, s.owner, s.workers, s.loopPc)
    requires t < |s.workers| && Carries(s.workers[t])
    ensures s.workers[t].r in s.reqs
  {
    assert IsAt(s.place, s.workers[t].r, AtWorker(t));
  }

  lemma LoopKnown(s: Pool, l: nat)
    requires LoopsHold(s.loopPc, s.place, s.owner) && Requests(s.reqs, s.place, s.owner, s.workers, s.loopPc)
    requires l < |s.loopPc| && (Posts(s.loopPc[l]) || Requeues(s.loopPc[l]) || Cancels(s.loopPc[l]))
    ensures s.loopPc[l].r in s.reqs
  {
  }

  // The holder of a wq_mutex can go on.
  lemma LockHolderActs(s: Pool, l: nat)
    requires Inv(s) && l < |s.loopPc| && s.locks[l] != Free
    ensures CanAct(s)
  {
    hide Queues, Backs, WorkersHold, LoopsHold, Requests, MutexOk, LocalOk, Counts, Token, CanAct, Without, WakeOk;
    if s.locks[l].ByWorker? {
      var t := s.locks[l].t;
      CarriedKnown(s, t);
      Acts(s, WPublish(t));
    } else if s.loopPc[l].CancelBoth? {
      LoopKnown(s, l);
      Acts(s, LCancelCheck(l));
    } else if s.loopPc[l].CancelPutting? {
      LoopKnown(s, l);
      Acts(s, LPut(l));
    } else {
      Acts(s, LDoneMove(l));
    }
  }

  // So can the holder of mutex.
  lemma MutexHolderActs(s: Pool)
    requires Inv(s) && s.mutex != Free
    ensures CanAct(s)
  {
    hide Queues, Backs, WorkersHold, LoopsHold, Requests, LocksOk, LocalOk, Counts, Token, CanAct, Without, WakeOk;
    var wake := SomeWake(s.workers);
    if s.mutex.ByWorker? {
      Acts(s, WTop(s.mutex.t, wake));
    } else {
      var l := s.mutex.l;
      LoopKnown(s, l);
      if s.loopPc[l].HoldPost? {
        Acts(s, LPost(l, wake));
      } else if s.loopPc[l].CancelBoth? {
        Acts(s, LCancelCheck(l));
      } else if s.locks[l] == Free {
        Acts(s, LCancelLock2(l));
      } else {
        LockHolderActs(s, l);
      }
    }
  }

  lemma LoopActs(s: Pool, l: nat)
    requires Inv(s) && l < |s.loopPc| && s.loopPc[l] != Idle
    ensures CanAct(s)
  {
    hide Queues, Backs, WorkersHold, LoopsHold, Requests, MutexOk, LocksOk, LocalOk, Counts, Token, CanAct, Without,
      WakeOk;
    if s.mutex != Free {
      MutexHolderActs(s);
    } else if s.locks[l] != Free {
      LockHolderActs(s, l);
    } else {
      MutexFree(s, l);
      if s.loopPc[l] == DoneWant {
        Acts(s, LDoneLock(l));
      } else {
        LoopKnown(s, l);
        match s.loopPc[l]
        case WantPost(r) => Acts(s, LPostLock(l));
        case CancelWant(r) => Acts(s, LCancelLock(l));
        case CancelMark(r) => Acts(s, LCancelMark(l));
        case _ => Acts(s, LPutLock(l));
      }
    }
  }

  lemma MutexFree(s: Pool, l: nat)
    requires Inv(s) && l < |s.loopPc| && s.mutex == Free && s.locks[l] == Free
    ensures !HoldsMutex(s.loopPc[l]) && !HoldsOwnLock(s.loopPc[l])
  {
    hide Queues, Backs, WorkersHold, LoopsHold, Requests, LocalOk, Counts, Token;
  }

  lemma WorkerActs(s: Pool, t: nat)
    requires Inv(s) && t < |s.workers| && s.workers[t] != Waiting
    ensures CanAct(s)
  {
    hide Queues, Backs, WorkersHold, LoopsHold, Requests, MutexOk, LocksOk, LocalOk, Counts, Token, CanAct, Without,
      WakeOk;
    if s.mutex != Free {
      MutexHolderActs(s);
    } else {
      match s.workers[t]
      case WantMutex(_) => Acts(s, WLock(t));
      case Woken => Acts(s, WWake(t));
      case Top =>
        var wake := SomeWake(s.workers);
        Acts(s, WTop(t, wake));
      case Running(r, _) =>
        CarriedKnown(s, t);
        Acts(s, WRun(t));
      case WantLoop(r, _) =>
        CarriedKnown(s, t);
        if s.locks[s.owner[r]] == Free {
          Acts(s, WLoopLock(t));
        } else {
          LockHolderActs(s, s.owner[r]);
        }
      case HoldLoop(r, _) =>
        CarriedKnown(s, t);
        Acts(s, WPublish(t));
    }
  }

  // All workers blocked on the condition variable means that there is no work for them.
  lemma AllWaiting(s: Pool)
    requires Inv(s) && forall t :: 0 <= t < |s.workers| ==> s.workers[t] == Waiting
    ensures s.wq == [] && s.pending == []
  {
    hide Queues, Backs, WorkersHold, LoopsHold, Requests, MutexOk, LocksOk, LocalOk;
    CountZero(s.workers, OnSlow);
  }

  // Until the done function of every request has been called, some thread has a useful step:
  // the pool never deadlocks and never waits for something that nobody is going to do.
  lemma NotStuck(s: Pool, r: Req)
    requires Inv(s) && r in s.reqs && s.reqs[r].dones == 0
    ensures CanAct(s)
  {
    hide Queues, Backs, WorkersHold, LoopsHold, Requests, MutexOk, LocksOk, LocalOk, Counts, Token, CanAct, Without,
      Enabled;
    DoneWhere(s, r);
    InSpot(s, r);
    if t :| 0 <= t < |s.workers| && s.workers[t] != Waiting {
      WorkerActs(s, t);
    } else if l :| 0 <= l < |s.loopPc| && s.loopPc[l] != Idle {
      LoopActs(s, l);
    } else {
      AllWaiting(s);
      BackActs(s, s.owner[r], r);
    }
  }

  lemma BackActs(s: Pool, l: nat, r: Req)
    requires Inv(s) && l < |s.loopPc| && s.loopPc[l] == Idle && (r in s.done[l] || r in s.local[l])
    ensures CanAct(s)
  {
    hide Queues, WorkersHold, LoopsHold, MutexOk, LocksOk, LocalOk, Counts, Token, CanAct, Without, WakeOk, RequestOk;
    if s.local[l] != [] {
      LocalBack(s, l, s.local[l][0]);
      Known(s, s.local[l][0]);
      Acts(s, LDeliver(l));
    } else {
      Acts(s, LDoneStart(l));
    }
  }

  // ---------- termination ----------

  // What is left to do: the weights are the numbers of steps to come.
  function WorkerRank(pc: WorkerPc): nat {
    match pc
    case WantMutex(_) => 3
    case Top => 2
    case Waiting => 0
    case Woken => 3
    case Running(_, _) => 11
    case WantLoop(_, _) => 10
    case HoldLoop(_, _) => 9
  }

  function LoopRank(pc: LoopPc, done: seq<Req>, local: seq<Req>): nat {
    2 * |done| + |local| +
    match pc
    case Idle => if done != [] then 3 else 0
    case DoneHold => 1
    case DoneWant => 2
    case CancelPutting(_) => 6
    case CancelPut(_) => 7
    case CancelMark(_) => 8
    case CancelBoth(_) => 10
    case CancelHold(_) => 11
    case CancelWant(_) => 12
    case HoldPost(_) => 33
    case WantPost(_) => 34
  }

  ghost function WorkersRank(ws: seq<WorkerPc>): nat {
    if ws == [] then 0 else WorkersRank(ws[1..]) + WorkerRank(ws[0])
  }

  ghost function LoopsRank(pcs: seq<LoopPc>, done: seq<seq<Req>>, local: seq<seq<Req>>): nat
    requires |pcs| == |done| == |local|
  {
    if pcs == [] then 0 else LoopsRank(pcs[1..], done[1..], local[1..]) + LoopRank(pcs[0], done[0], local[0])
  }

  // 1 if the next turn of a worker only moves run_slow_work_message to the end of the queue.
  ghost function QueueRank(wq: seq<Item>, pending: seq<Req>, slowRunning: int, n: nat): nat {
    11 * |wq| + 14 * |pending| + if wq != [] && wq[0] == SlowMessage && slowRunning >= Threshold(n) then 1 else 0
  }

  ghost function Rank(s: Pool): nat
    requires Shape(s)
  {
    QueueRank(s.wq, s.pending, s.slowRunning, |s.workers|) + WorkersRank(s.workers)
      + LoopsRank(s.loopPc, s.done, s.local)
  }

  lemma {:induction false} WorkersRankSet(ws: seq<WorkerPc>, t: nat, pc: WorkerPc)
    requires t < |ws|
    ensures WorkersRank(ws[t := pc]) == WorkersRank(ws) + WorkerRank(pc) - WorkerRank(ws[t])
  {
    if t == 0 {
      assert ws[0 := pc][1..] == ws[1..];
    } else {
      WorkersRankSet(ws[1..], t - 1, pc);
      assert ws[t := pc][1..] == ws[1..][t - 1 := pc];
    }
  }

  lemma {:induction false} LoopsRankSet(pcs: seq<LoopPc>, done: seq<seq<Req>>, local: seq<seq<Req>>, l: nat, pc: LoopPc,
    d: seq<Req>, c: seq<Req>)
    requires |pcs| == |done| == |local| && l < |pcs|
    ensures LoopsRank(pcs[l := pc], done[l := d], local[l := c])
         == LoopsRank(pcs, done, local) + LoopRank(pc, d, c) - LoopRank(pcs[l], done[l], local[l])
  {
    hide LoopRank;
    var ps, ds, cs := pcs[l := pc], done[l := d], local[l := c];
    if l == 0 {
      assert ps[1..] == pcs[1..] && ds[1..] == done[1..] && cs[1..] == local[1..];
    } else {
      LoopsRankSet(pcs[1..], done[1..], local[1..], l - 1, pc, d, c);
      assert ps[1..] == pcs[1..][l - 1 := pc] && ds[1..] == done[1..][l - 1 := d] && cs[1..] == local[1..][l - 1 := c];
    }
  }

  lemma SetSame<T>(s: seq<T>, i: nat)
    requires i < |s|
    ensures s[i := s[i]] == s
  {
  }

  lemma LoopStep(s: Pool, l: nat, pc: LoopPc)
    requires Shape(s) && l < |s.loopPc|
    ensures LoopsRank(s.loopPc[l := pc], s.done, s.local)
         == LoopsRank(s.loopPc, s.done, s.local)
           + LoopRank(pc, s.done[l], s.local[l]) - LoopRank(s.loopPc[l], s.done[l], s.local[l])
  {
    hide LoopRank, LoopsRank;
    SetSame(s.done, l);
    SetSame(s.local, l);
    LoopsRankSet(s.loopPc, s.done, s.local, l, pc, s.done[l], s.local[l]);
  }

  lemma SignalRank(idle: int, ws: seq<WorkerPc>, wake: nat)
    ensures WorkersRank(Signal(idle, ws, wake)) <= WorkersRank(ws) + 3
  {
    if wake < |ws| && ws[wake] == Waiting {
      WorkersRankSet(ws, wake, Woken);
    }
  }

  lemma TurnRank(s: Pool, t: nat, wake: nat)
    requires Shape(s) && Queues(s.wq, s.pending, s.place) && t < |s.workers| && s.workers[t] == Top
    ensures
      var u := Turn(s, t, wake);
      && u.loopPc == s.loopPc && u.done == s.done && u.local == s.local
      && QueueRank(u.wq, u.pending, u.slowRunning, |u.workers|) + WorkersRank(u.workers)
       < QueueRank(s.wq, s.pending, s.slowRunning, |s.workers|) + WorkersRank(s.workers)
  {
    hide Queues, Signal;
    WorkersRankSet(s.workers, t, Waiting);
    if !WaitCond(s.wq, s.slowRunning, |s.workers|) {
      if s.wq[0] == SlowMessage {
        QueuesPopToken(s.wq, s.pending, s.place);
        if s.pending != [] {
          var ws := s.workers[t := Running(s.pending[0], true)];
          WorkersRankSet(s.workers, t, Running(s.pending[0], true));
          SignalRank(s.idle, ws, wake);
          SignalLength(s.idle, ws, wake);
        }
      } else {
        WorkersRankSet(s.workers, t, Running(s.wq[0].r, false));
      }
    }
  }

  lemma PostRank(s: Pool, l: nat, wake: nat)
    requires Shape(s) && l < |s.loopPc| && s.loopPc[l].HoldPost? && s.loopPc[l].r in s.reqs
    ensures var u := Post(s, l, s.loopPc[l].r, wake); Shape(u) && Rank(u) < Rank(s)
  {
    hide Signal;
    ShapePost(s, l, s.loopPc[l].r, wake);
    LoopStep(s, l, Idle);
    SignalRank(s.idle, s.workers, wake);
    SignalLength(s.idle, s.workers, wake);
  }

  lemma CancelRank(s: Pool, l: nat)
    requires Shape(s) && l < |s.loopPc| && s.loopPc[l].CancelBoth?
    ensures
      var r := s.loopPc[l].r;
      && QueueRank(Without(s.wq, Work(r)), Without(s.pending, r), s.slowRunning, |s.workers|)
         <= QueueRank(s.wq, s.pending, s.slowRunning, |s.workers|)
      && LoopsRank(s.loopPc[l := CancelMark(r)], s.done[l := Without(s.done[l], r)],
        s.local[l := Without(s.local[l], r)])
         < LoopsRank(s.loopPc, s.done, s.local)
      && LoopsRank(s.loopPc[l := Idle], s.done, s.local) < LoopsRank(s.loopPc, s.done, s.local)
  {
    var r := s.loopPc[l].r;
    WithoutSame(s.wq, Work(r));
    WithoutSame(s.pending, r);
    WithoutSame(s.done[l], r);
    WithoutSame(s.local[l], r);
    LoopsRankSet(s.loopPc, s.done, s.local, l, CancelMark(r), Without(s.done[l], r), Without(s.local[l], r));
    LoopStep(s, l, Idle);
  }

  // Every useful step leaves less to do.
  lemma RankFallsWorker(s: Pool, st: Step)
    requires Inv(s) && FromWorker(st) && Enabled(s, st) && Useful(s, st)
    ensures Inv(Apply(s, st)) && Rank(Apply(s, st)) < Rank(s)
  {
    hide Queues, Backs, WorkersHold, LoopsHold, Requests, MutexOk, LocksOk, LocalOk, Counts, Token, Without, Signal,
      Turn, Post, WakeOk, WorkersRank, LoopsRank, LoopApply;
    InvKept(s, st);
    match st
    case WLock(t) => WorkersRankSet(s.workers, t, Top);
    case WWake(t) => WorkersRankSet(s.workers, t, Top);
    case WTop(t, wake) => TurnRank(s, t, wake);
    case WRun(t) => WorkersRankSet(s.workers, t, WantLoop(s.workers[t].r, s.workers[t].slow));
    case WLoopLock(t) => WorkersRankSet(s.workers, t, HoldLoop(s.workers[t].r, s.workers[t].slow));
    case WPublish(t) => PublishRank(s, t);
  }

  lemma RankFallsLoop(s: Pool, st: Step)
    requires Inv(s) && !FromWorker(st) && Enabled(s, st) && Useful(s, st)
    ensures Inv(Apply(s, st)) && Rank(Apply(s, st)) < Rank(s)
  {
    hide Queues, Backs, WorkersHold, LoopsHold, Requests, MutexOk, LocksOk, LocalOk, Counts, Token, Without, Signal,
      Turn, Post, WakeOk, WorkersRank, LoopsRank, QueueRank, WorkerApply;
    InvKept(s, st);
    match st
    case LPostLock(l) => LoopStep(s, l, HoldPost(s.loopPc[l].r));
    case LPost(l, wake) => PostRank(s, l, wake);
    case LCancelLock(l) => LoopStep(s, l, CancelHold(s.loopPc[l].r));
    case LCancelLock2(l) => LoopStep(s, l, CancelBoth(s.loopPc[l].r));
    case LCancelCheck(l) => CancelRank(s, l);
    case LCancelMark(l) => LoopStep(s, l, CancelPut(s.loopPc[l].r));
    case LPutLock(l) => LoopStep(s, l, CancelPutting(s.loopPc[l].r));
    case LPut(l) => PutRank(s, l);
    case LDoneStart(l) => LoopStep(s, l, DoneWant);
    case LDoneLock(l) => LoopStep(s, l, DoneHold);
    case LDoneMove(l) => LoopsRankSet(s.loopPc, s.done, s.local, l, Idle, [], s.done[l]);
    case LDeliver(l) => DeliverRank(s, l);
  }

  lemma RankFalls(s: Pool, st: Step)
    requires Inv(s) && Enabled(s, st) && Useful(s, st)
    ensures Inv(Apply(s, st)) && Rank(Apply(s, st)) < Rank(s)
  {
    hide *;
    if FromWorker(st) {
      RankFallsWorker(s, st);
    } else {
      RankFallsLoop(s, st);
    }
  }

  lemma PublishRank(s: Pool, t: nat)
    requires Shape(s) && t < |s.workers| && s.workers[t].HoldLoop? && s.workers[t].r in s.reqs
    ensures
      var pc := s.workers[t];
      var l := s.owner[pc.r];
      WorkersRank(s.workers[t := WantMutex(pc.slow)]) + LoopsRank(s.loopPc, s.done[l := s.done[l] + [pc.r]], s.local)
      < WorkersRank(s.workers) + LoopsRank(s.loopPc, s.done, s.local)
  {
    hide WorkersRank, LoopsRank;
    var pc := s.workers[t];
    var l := s.owner[pc.r];
    WorkersRankSet(s.workers, t, WantMutex(pc.slow));
    SetSame(s.loopPc, l);
    SetSame(s.local, l);
    LoopsRankSet(s.loopPc, s.done, s.local, l, s.loopPc[l], s.done[l] + [pc.r], s.local[l]);
  }

  lemma PutRank(s: Pool, l: nat)
    requires Shape(s) && l < |s.loopPc| && s.loopPc[l].CancelPutting?
    ensures LoopsRank(s.loopPc[l := Idle], s.done[l := s.done[l] + [s.loopPc[l].r]], s.local)
      < LoopsRank(s.loopPc, s.done, s.local)
  {
    hide LoopsRank;
    SetSame(s.local, l);
    LoopsRankSet(s.loopPc, s.done, s.local, l, Idle, s.done[l] + [s.loopPc[l].r], s.local[l]);
  }

  lemma DeliverRank(s: Pool, l: nat)
    requires Shape(s) && l < |s.loopPc| && s.local[l] != []
    ensures LoopsRank(s.loopPc, s.done, s.local[l := s.local[l][1..]]) < LoopsRank(s.loopPc, s.done, s.local)
  {
    hide LoopsRank;
    SetSame(s.loopPc, l);
    SetSame(s.done, l);
    LoopsRankSet(s.loopPc, s.done, s.local, l, s.loopPc[l], s.done[l], s.local[l][1..]);
  }

  // A run of useful steps from s to e.
  ghost predicate Works(s: Pool, steps: seq<Step>, e: Pool)
    decreases |steps|
  {
    if steps == [] then e == s
    else Enabled(s, steps[0]) && Useful(s, steps[0]) && Works(Apply(s, steps[0]), steps[1..], e)
  }

  ghost predicate AllDone(s: Pool) {
    forall r :: r in s.reqs ==> s.reqs[r].dones == 1
  }

  lemma RequestsStayWorker(s: Pool, st: Step)
    requires Inv(s) && FromWorker(st) && Enabled(s, st)
    ensures Apply(s, st).reqs.Keys == s.reqs.Keys
  {
    hide Inv, Without, Signal, WakeOk, LoopApply;
  }

  lemma RequestsStayLoop(s: Pool, st: Step)
    requires Inv(s) && !FromWorker(st) && Enabled(s, st) && Useful(s, st)
    ensures Apply(s, st).reqs.Keys == s.reqs.Keys
  {
    hide Inv, Without, Signal, WakeOk, WorkerApply;
  }

  lemma RequestsStay(s: Pool, st: Step)
    requires Inv(s) && Enabled(s, st) && Useful(s, st)
    ensures Apply(s, st).reqs.Keys == s.reqs.Keys
  {
    hide *;
    if FromWorker(st) {
      RequestsStayWorker(s, st);
    } else {
      RequestsStayLoop(s, st);
    }
  }

  // However the threads are scheduled, the requests that are under way are through after at
  // most Rank(s) steps, if no new ones come.
  lemma {:induction false} Drains(s: Pool, steps: seq<Step>, e: Pool)
    requires Inv(s) && Works(s, steps, e)
    ensures |steps| <= Rank(s)
    ensures Inv(e) && e.reqs.Keys == s.reqs.Keys
    ensures !CanAct(e) ==> AllDone(e)
    decreases |steps|
  {
    hide Queues, Backs, WorkersHold, LoopsHold, Requests, MutexOk, LocksOk, LocalOk, Counts, Token, Enabled, Apply,
      Rank, CanAct;
    if steps == [] {
      forall r | r in e.reqs && !CanAct(e) ensures e.reqs[r].dones == 1 {
        DoneWhere(e, r);
        if e.reqs[r].dones == 0 {
          NotStuck(e, r);
        }
      }
    } else {
      RankFalls(s, steps[0]);
      RequestsStay(s, steps[0]);
      Drains(Apply(s, steps[0]), steps[1..], e);
    }
  }

  // And there is such a run to the end from every reachable state.
  lemma {:induction false} Completes(s: Pool) returns (steps: seq<Step>, e: Pool)
    requires Inv(s)
    ensures Works(s, steps, e) && AllDone(e) && e.reqs.Keys == s.reqs.Keys
    decreases Rank(s)
  {
    hide Queues, Backs, WorkersHold, LoopsHold, Requests, MutexOk, LocksOk, LocalOk, Counts, Token, Enabled, Apply,
      Rank;
    if CanAct(s) {
      var st :| Enabled(s, st) && Useful(s, st);
      RankFalls(s, st);
      RequestsStay(s, st);
      steps, e := Completes(Apply(s, st));
      assert ([st] + steps)[1..] == steps;
      steps := [st] + steps;
    } else {
      steps, e := [], s;
      Drains(s, [], s);
    }
  }
}
