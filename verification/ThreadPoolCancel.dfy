/** Cancellation in src/threadpool.c: which requests uv__work_cancel takes, what it does with them, and what
    their done functions are told. */
module ThreadPoolCancel {
  import opened Common
  import opened ThreadPool
  import opened ThreadPoolSafety
  import opened ThreadPoolProgress

  // ---------- the decision ----------

  // The request waits to be run, or was cancelled and waits for its done function.
  ghost predicate Waits(s: Pool, r: Req) {
    || In(s, r, Shared) || In(s, r, SlowQueue)
    || (r in s.reqs && s.reqs[r].work == Cancelled && exists l :: In(s, r, LoopQueue(l)) || In(s, r, LocalQueue(l)))
  }

  // A worker has it, or its work function was called.
  ghost predicate Begun(s: Pool, r: Req) {
    (r in s.reqs && s.reqs[r].ran) || exists t :: In(s, r, Worker(t))
  }

  // A request that may be cancelled either waits or was begun.
  lemma Decides(s: Pool, l: nat)
    requires Inv(s) && Enabled(s, LCancelCheck(l))
    ensures var r := s.loopPc[l].r; r in s.reqs && s.owner[r] == l && (Waits(s, r) <==> !Begun(s, r))
  {
    hide Token, Counts, LocalOk, LocksOk, MutexOk;
    var r := s.loopPc[l].r;
    RequestOkAt(s, r);
    CancelsWhere(s, l);
    match s.place[r]
    case InWq => assert IsAt(s.place, r, InWq);
    case InSlow => assert IsAt(s.place, r, InSlow);
    case AtWorker(t) => assert In(s, r, Worker(t));
    case _ => InSpot(s, r);
  }

  lemma CancelsWhere(s: Pool, l: nat)
    requires Inv(s) && Enabled(s, LCancelCheck(l))
    ensures
      var r := s.loopPc[l].r;
      r in s.place && s.owner[r] == l && s.place[r] !in {Submitting, AtCanceller, Finished}
  {
    hide Token, Counts, LocalOk, LocksOk, MutexOk, Queues, Backs, WorkersHold, Requests;
  }

  // A request that was begun is refused: but for the locks and the program counter nothing changes.
  lemma CancelRefuses(s: Pool, l: nat)
    requires Inv(s) && Enabled(s, LCancelCheck(l)) && Begun(s, s.loopPc[l].r)
    ensures Apply(s, LCancelCheck(l)) == s.(locks := s.locks[l := Free], mutex := Free, loopPc := s.loopPc[l := Idle])
  {
    hide Token, Counts, LocalOk, LocksOk, MutexOk, Queues, Backs, LoopsHold, Without;
    var r := s.loopPc[l].r;
    RequestOkAt(s, r);
    CancelsWhere(s, l);
    if !s.reqs[r].ran {
      var t :| In(s, r, Worker(t));
      assert IsAt(s.place, r, AtWorker(t));
    }
  }

  // A request that waits is taken out of its queue, whichever that is, into the canceller's hands; no
  // other request moves and no worker is disturbed.
  lemma CancelTakes(s: Pool, l: nat)
    requires Inv(s) && Enabled(s, LCancelCheck(l)) && Waits(s, s.loopPc[l].r)
    ensures
      var u := Apply(s, LCancelCheck(l));
      var r := s.loopPc[l].r;
      && (forall p :: In(u, r, p) <==> p == Canceller(l))
      && (forall q, p :: q != r ==> (In(u, q, p) <==> In(s, q, p)))
      && u.loopPc == s.loopPc[l := CancelMark(r)] && u.locks == s.locks[l := Free] && u.mutex == Free
      && u.reqs == s.reqs && u.workers == s.workers && u.idle == s.idle && u.slowRunning == s.slowRunning
  {
    hide Token, Counts, LocalOk, LocksOk, MutexOk, Queues, Backs, WorkersHold, LoopsHold, Requests, In, Without, Apply;
    var r := s.loopPc[l].r;
    var u := Apply(s, LCancelCheck(l));
    Decides(s, l);
    TakenState(s, l);
    InvKept(s, LCancelCheck(l));
    forall p ensures In(u, r, p) <==> p == Canceller(l) {
      HeldByCanceller(u, l);
      if In(u, r, p) {
        InPlace(u, r, p);
        InPlace(u, r, Canceller(l));
      }
    }
    forall q, p | q != r ensures In(u, q, p) <==> In(s, q, p) {
      OthersUnmoved(s, l, q, p);
    }
  }

  lemma TakenState(s: Pool, l: nat)
    requires Inv(s) && Enabled(s, LCancelCheck(l)) && !Begun(s, s.loopPc[l].r)
    ensures
      var r := s.loopPc[l].r;
      Apply(s, LCancelCheck(l)) == s.(
        locks := s.locks[l := Free], mutex := Free,
        loopPc := s.loopPc[l := CancelMark(r)], place := s.place[r := AtCanceller],
        wq := Without(s.wq, Work(r)), pending := Without(s.pending, r),
        done := s.done[l := Without(s.done[l], r)], local := s.local[l := Without(s.local[l], r)])
  {
    hide Token, Counts, LocalOk, LocksOk, MutexOk, Queues, Backs, LoopsHold, Without;
    var r := s.loopPc[l].r;
    RequestOkAt(s, r);
    CancelsWhere(s, l);
    WithWorker(s, r);
  }

  lemma WithWorker(s: Pool, r: Req)
    requires WorkersHold(s.workers, s.place) && r in s.place
    ensures s.place[r].AtWorker? ==> Begun(s, r)
  {
    assert s.place[r].AtWorker? ==> In(s, r, Worker(s.place[r].t));
  }

  lemma HeldByCanceller(u: Pool, l: nat)
    requires l < |u.loopPc| && u.loopPc[l].CancelMark?
    ensures In(u, u.loopPc[l].r, Canceller(l))
  {
  }

  lemma OthersUnmoved(s: Pool, l: nat, q: Req, p: Spot)
    requires Inv(s) && Enabled(s, LCancelCheck(l)) && !Begun(s, s.loopPc[l].r) && q != s.loopPc[l].r
    ensures In(Apply(s, LCancelCheck(l)), q, p) <==> In(s, q, p)
  {
    hide Token, Counts, LocalOk, LocksOk, MutexOk, WorkersHold, LoopsHold, Requests, Without, Apply, Begun;
    var r := s.loopPc[l].r;
    TakenState(s, l);
    assert Queues(s.wq, s.pending, s.place);
    WithoutIs(s.wq, Work(r));
    WithoutIs(s.pending, r);
    NoDupParts(s.done[l], s.local[l]);
    WithoutIs(s.done[l], r);
    WithoutIs(s.local[l], r);
  }

  // ---------- over runs ----------

  // The step is the decision to cancel the request, and what it is.
  ghost predicate Accepts(s: Pool, st: Step, r: Req) {
    st.LCancelCheck? && Enabled(s, st) && s.loopPc[st.l] == CancelBoth(r) && Apply(s, st).loopPc[st.l] != Idle
  }

  ghost predicate Refuses(s: Pool, st: Step, r: Req) {
    st.LCancelCheck? && Enabled(s, st) && s.loopPc[st.l] == CancelBoth(r) && Apply(s, st).loopPc[st.l] == Idle
  }

  // A run from s to e.
  ghost predicate Goes(s: Pool, steps: seq<Step>, e: Pool)
    decreases |steps|
  {
    if steps == [] then e == s else Enabled(s, steps[0]) && Goes(Apply(s, steps[0]), steps[1..], e)
  }

  // Some step of the run accepts, or refuses, to cancel the request.
  ghost predicate Accepted(s: Pool, steps: seq<Step>, r: Req)
    decreases |steps|
  {
    steps != [] && Enabled(s, steps[0]) && (Accepts(s, steps[0], r) || Accepted(Apply(s, steps[0]), steps[1..], r))
  }

  ghost predicate Refused(s: Pool, steps: seq<Step>, r: Req)
    decreases |steps|
  {
    steps != [] && Enabled(s, steps[0]) && (Refuses(s, steps[0], r) || Refused(Apply(s, steps[0]), steps[1..], r))
  }

  // Taken by a canceller.
  ghost predicate Taken(s: Pool, r: Req) {
    r in s.reqs && r in s.place && !s.reqs[r].ran
      && (s.place[r] == AtCanceller || s.place[r] == Back || s.place[r] == Finished)
  }

  // Taken by a worker.
  ghost predicate Started(s: Pool, r: Req) {
    r in s.reqs && r in s.place && (s.reqs[r].ran || s.place[r].AtWorker?)
  }

  // Only the place and the mark of having run count for these.
  lemma TakenSame(s: Pool, u: Pool, r: Req)
    requires s.reqs.Keys == u.reqs.Keys && s.place.Keys == u.place.Keys
    requires r in s.reqs && r in s.place ==> s.reqs[r].ran == u.reqs[r].ran && s.place[r] == u.place[r]
    ensures Taken(u, r) <==> Taken(s, r)
    ensures Started(u, r) <==> Started(s, r)
  {
  }

  // Request q goes from the shared queues to a worker.
  lemma TakenByWorker(s: Pool, u: Pool, q: Req, t: nat, r: Req)
    requires q in s.reqs && q in s.place && s.place[q] in {InWq, InSlow}
    requires u.place == s.place[q := AtWorker(t)] && u.reqs == s.reqs[q := s.reqs[q].(unlinked := true)]
    ensures Taken(u, r) <==> Taken(s, r)
    ensures Started(s, r) ==> Started(u, r)
  {
  }

  lemma TakenTurn(s: Pool, t: nat, wake: nat, r: Req)
    requires Inv(s) && Enabled(s, WTop(t, wake))
    ensures var u := Turn(s, t, wake); (Taken(u, r) <==> Taken(s, r)) && (Started(s, r) ==> Started(u, r))
  {
    hide Token, Counts, LocalOk, LocksOk, MutexOk, Backs, LoopsHold, WorkersHold, Requests, LoopApply, Signal, WakeOk,
      Taken, Started, NoDup;
    var u := Turn(s, t, wake);
    if u.place == s.place {
      TakenSame(s, u, r);
    } else if s.wq[0] == SlowMessage {
      assert s.pending[0] in s.pending;
      TakenByWorker(s, u, s.pending[0], t, r);
    } else {
      assert s.wq[0] in s.wq && s.wq[0] == Work(s.wq[0].r);
      TakenByWorker(s, u, s.wq[0].r, t, r);
    }
  }

  lemma TakenStepWorker(s: Pool, st: Step, r: Req)
    requires Inv(s) && FromWorker(st) && Enabled(s, st)
    ensures var u := Apply(s, st); (Taken(u, r) <==> Taken(s, r)) && (Started(s, r) ==> Started(u, r))
  {
    hide Token, Counts, LocalOk, LocksOk, MutexOk, Backs, LoopsHold, WorkersHold, Requests, LoopApply, Turn, Signal,
      WakeOk, Taken, Started;
    var u := Apply(s, st);
    match st
    case WTop(t, wake) => TakenTurn(s, t, wake, r);
    case WRun(t) => TakenRun(s, t, r);
    case WPublish(t) => TakenPublish(s, t, r);
    case _ => TakenSame(s, u, r);
  }

  lemma TakenRun(s: Pool, t: nat, r: Req)
    requires Inv(s) && Enabled(s, WRun(t))
    ensures var u := Apply(s, WRun(t)); (Taken(u, r) <==> Taken(s, r)) && (Started(s, r) ==> Started(u, r))
  {
    hide Token, Counts, LocalOk, LocksOk, MutexOk, Backs, LoopsHold, Requests, LoopApply;
    assert IsAt(s.place, s.workers[t].r, AtWorker(t));
  }

  lemma TakenPublish(s: Pool, t: nat, r: Req)
    requires Inv(s) && Enabled(s, WPublish(t))
    ensures var u := Apply(s, WPublish(t)); (Taken(u, r) <==> Taken(s, r)) && (Started(s, r) ==> Started(u, r))
  {
    hide Token, Counts, LocalOk, LocksOk, MutexOk, Backs, LoopsHold, LoopApply;
    var q := s.workers[t].r;
    assert IsAt(s.place, q, AtWorker(t));
    RequestOkAt(s, q);
  }

  lemma TakenSubmit(s: Pool, l: nat, q: Req, slow: bool, r: Req)
    requires Enabled(s, LSubmit(l, q, slow))
    ensures var u := Apply(s, LSubmit(l, q, slow)); (Taken(u, r) <==> Taken(s, r)) && (Started(s, r) ==> Started(u, r))
  {
    hide WorkerApply;
  }

  lemma TakenPost(s: Pool, l: nat, wake: nat, r: Req)
    requires Inv(s) && Enabled(s, LPost(l, wake))
    ensures var u := Apply(s, LPost(l, wake)); (Taken(u, r) <==> Taken(s, r)) && (Started(s, r) ==> Started(u, r))
  {
    hide Token, Counts, LocalOk, LocksOk, MutexOk, Backs, WorkersHold, Requests, Queues, WorkerApply, Signal, WakeOk;
    assert IsAt(s.place, s.loopPc[l].r, Submitting);
  }

  lemma TakenCheck(s: Pool, l: nat, r: Req)
    requires Inv(s) && Enabled(s, LCancelCheck(l))
    ensures
      var u := Apply(s, LCancelCheck(l));
      && (Taken(u, r) <==> Taken(s, r) || Accepts(s, LCancelCheck(l), r)) && (Started(s, r) ==> Started(u, r))
      && (Refuses(s, LCancelCheck(l), r) ==> Started(s, r))
  {
    hide Token, Counts, LocalOk, LocksOk, MutexOk, Backs, WorkersHold, Requests, Queues, LoopsHold, Apply, Without,
      Begun, Waits;
    var q := s.loopPc[l].r;
    Decides(s, l);
    CancelsWhere(s, l);
    BegunStarted(s, q);
    if Begun(s, q) {
      CancelRefuses(s, l);
      TakenSame(s, Apply(s, LCancelCheck(l)), r);
    } else {
      TakenState(s, l);
    }
  }

  lemma BegunStarted(s: Pool, r: Req)
    requires Inv(s) && r in s.reqs
    ensures Begun(s, r) <==> Started(s, r)
  {
    hide Token, Counts, LocalOk, LocksOk, MutexOk, Backs, Requests, Queues, LoopsHold;
    WithWorker(s, r);
    if t :| In(s, r, Worker(t)) {
      assert IsAt(s.place, r, AtWorker(t));
    }
  }

  lemma TakenPut(s: Pool, l: nat, r: Req)
    requires Inv(s) && Enabled(s, LPut(l))
    ensures var u := Apply(s, LPut(l)); (Taken(u, r) <==> Taken(s, r)) && (Started(s, r) ==> Started(u, r))
  {
    hide Token, Counts, LocalOk, LocksOk, MutexOk, Backs, WorkersHold, Requests, Queues, WorkerApply;
    assert IsAt(s.place, s.loopPc[l].r, AtCanceller);
  }

  lemma TakenDeliver(s: Pool, l: nat, r: Req)
    requires Inv(s) && Enabled(s, LDeliver(l))
    ensures var u := Apply(s, LDeliver(l)); (Taken(u, r) <==> Taken(s, r)) && (Started(s, r) ==> Started(u, r))
  {
    hide Token, Counts, LocalOk, LocksOk, MutexOk, WorkersHold, Requests, Queues, LoopsHold, WorkerApply;
    LocalBack(s, l, s.local[l][0]);
  }

  lemma TakenStepLoop(s: Pool, st: Step, r: Req)
    requires Inv(s) && !FromWorker(st) && Enabled(s, st)
    ensures
      var u := Apply(s, st);
      && (Taken(u, r) <==> Taken(s, r) || Accepts(s, st, r)) && (Started(s, r) ==> Started(u, r))
      && (Refuses(s, st, r) ==> Started(s, r))
  {
    hide Token, Counts, LocalOk, LocksOk, MutexOk, Backs, WorkersHold, Requests, Queues, LoopsHold, WorkerApply, Post,
      Delivered, Without, Taken, Started;
    var u := Apply(s, st);
    match st
    case LSubmit(l, q, slow) => TakenSubmit(s, l, q, slow, r);
    case LPost(l, wake) => TakenPost(s, l, wake, r);
    case LCancelCheck(l) => TakenCheck(s, l, r);
    case LPut(l) => TakenPut(s, l, r);
    case LDeliver(l) => TakenDeliver(s, l, r);
    case _ => TakenSame(s, u, r);
  }

  lemma TakenStep(s: Pool, st: Step, r: Req)
    requires Inv(s) && Enabled(s, st)
    ensures
      var u := Apply(s, st);
      && (Taken(u, r) <==> Taken(s, r) || Accepts(s, st, r)) && (Started(s, r) ==> Started(u, r))
      && (Refuses(s, st, r) ==> Started(s, r))
  {
    hide Inv, Enabled, Apply, Taken, Started;
    if FromWorker(st) {
      TakenStepWorker(s, st, r);
    } else {
      TakenStepLoop(s, st, r);
    }
  }

  lemma {:induction false} TakenRuns(s: Pool, steps: seq<Step>, e: Pool, r: Req)
    requires Inv(s) && Goes(s, steps, e)
    ensures Inv(e) && (Taken(e, r) <==> Taken(s, r) || Accepted(s, steps, r))
    ensures Started(s, r) || Refused(s, steps, r) ==> Started(e, r)
    decreases |steps|
  {
    hide Inv, Enabled, Apply, Taken, Started, Accepts, Refuses;
    if steps != [] {
      TakenStep(s, steps[0], r);
      InvKept(s, steps[0]);
      TakenRuns(Apply(s, steps[0]), steps[1..], e, r);
    }
  }

  lemma TakenMeans(e: Pool, r: Req)
    requires Inv(e) && r in e.reqs
    ensures Taken(e, r) ==> !Started(e, r) && !e.reqs[r].ran
    ensures Started(e, r) && e.reqs[r].dones == 1 ==> e.reqs[r].ran
    ensures e.reqs[r].dones == 1 && !e.reqs[r].ran ==> Taken(e, r)
  {
    hide Token, Counts, LocalOk, LocksOk, MutexOk, Backs, WorkersHold, Queues, LoopsHold;
    RequestOkAt(e, r);
  }

  lemma StatusMeans(e: Pool, r: Req)
    requires Inv(e) && r in e.reqs && e.reqs[r].dones == 1
    ensures e.reqs[r].status == Some(if e.reqs[r].ran then Success else ECANCELED)
  {
    hide Token, Counts, LocalOk, LocksOk, MutexOk, Backs, WorkersHold, Queues, LoopsHold;
    RequestOkAt(e, r);
  }

  // In every run from the start: a request whose cancellation was accepted never runs, and its done
  // function is told UV_ECANCELED; one whose cancellation was refused is told success, after it has run;
  // and nobody is told UV_ECANCELED without such a cancellation.
  lemma CancelledExactly(n: nat, loops: nat, steps: seq<Step>, e: Pool, r: Req)
    requires n >= 1 && Goes(Init(n, loops), steps, e) && r in e.reqs
    ensures Accepted(Init(n, loops), steps, r) ==> !e.reqs[r].ran && !Refused(Init(n, loops), steps, r)
    ensures e.reqs[r].dones == 1 ==>
      (e.reqs[r].status == Some(ECANCELED) <==> Accepted(Init(n, loops), steps, r))
    ensures e.reqs[r].dones == 1 && Refused(Init(n, loops), steps, r) ==>
      e.reqs[r].ran && e.reqs[r].status == Some(Success)
  {
    hide Inv, Enabled, Apply, Taken, Started, Accepts, Refuses, Goes, Accepted, Refused;
    var s := Init(n, loops);
    InvInit(n, loops);
    NothingTaken(n, loops, r);
    TakenRuns(s, steps, e, r);
    TakenMeans(e, r);
    if e.reqs[r].dones == 1 {
      StatusMeans(e, r);
    }
  }

  lemma NothingTaken(n: nat, loops: nat, r: Req)
    ensures !Taken(Init(n, loops), r)
  {
  }

  // A request that waits when it is cancelled is told so, if the pool is left to work: the cancellation
  // is accepted, and at the end of every run of useful steps its done function has been told UV_ECANCELED.
  lemma CancelSucceeds(s: Pool, l: nat, steps: seq<Step>, e: Pool)
    requires Inv(s) && Enabled(s, LCancelCheck(l)) && Waits(s, s.loopPc[l].r)
    requires Works(Apply(s, LCancelCheck(l)), steps, e) && !CanAct(e)
    ensures var r := s.loopPc[l].r; r in e.reqs && !e.reqs[r].ran && e.reqs[r].status == Some(ECANCELED)
  {
    hide Token, Counts, LocalOk, LocksOk, MutexOk, Backs, WorkersHold, Requests, Queues, LoopsHold, Apply, Without, In,
      CanAct, Works, Taken, Begun, Waits, Started;
    var r := s.loopPc[l].r;
    var u := Apply(s, LCancelCheck(l));
    Decides(s, l);
    TakenState(s, l);
    TakenHere(s, l);
    InvKept(s, LCancelCheck(l));
    WorksGoes(u, steps, e);
    TakenRuns(u, steps, e, r);
    Drains(u, steps, e);
    TakenMeans(e, r);
    StatusMeans(e, r);
  }

  lemma TakenHere(s: Pool, l: nat)
    requires Inv(s) && Enabled(s, LCancelCheck(l)) && !Begun(s, s.loopPc[l].r)
    ensures Taken(Apply(s, LCancelCheck(l)), s.loopPc[l].r)
  {
    hide Token, Counts, LocalOk, LocksOk, MutexOk, Backs, WorkersHold, Requests, Queues, LoopsHold, Apply, Without;
    TakenState(s, l);
  }

  lemma {:induction false} WorksGoes(s: Pool, steps: seq<Step>, e: Pool)
    requires Works(s, steps, e)
    ensures Goes(s, steps, e)
    decreases |steps|
  {
    hide Enabled, Apply;
    if steps != [] {
      WorksGoes(Apply(s, steps[0]), steps[1..], e);
    }
  }
}
