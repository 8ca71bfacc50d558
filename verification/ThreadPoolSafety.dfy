/** The remaining invariants of the thread pool and what they say about every run. */
module ThreadPoolSafety {
  import opened Common
  import opened ThreadPool

  lemma ShapeTurn(s: Pool, t: nat, wake: nat)
    requires Shape(s) && t < |s.workers|
    ensures Shape(Turn(s, t, wake))
  {
  }

  lemma ShapePost(s: Pool, l: nat, r: Req, wake: nat)
    requires Shape(s) && l < |s.loopPc| && r in s.reqs
    ensures Shape(Post(s, l, r, wake))
  {
  }

  lemma ShapeKeptWorker(s: Pool, st: Step)
    requires Inv(s) && FromWorker(st) && Enabled(s, st)
    ensures Shape(Apply(s, st))
  {
    hide Queues, Backs, WorkersHold, LoopsHold, Requests, MutexOk, LocksOk, LocalOk, Counts, Token, Without, Signal,
      WakeOk, Turn, Post, LoopApply;
    match st
    case WTop(t, wake) => ShapeTurn(s, t, wake);
    case _ =>
  }

  lemma ShapeKeptLoop(s: Pool, st: Step)
    requires Inv(s) && !FromWorker(st) && Enabled(s, st)
    ensures Shape(Apply(s, st))
  {
    hide Queues, Backs, WorkersHold, LoopsHold, Requests, MutexOk, LocksOk, LocalOk, Counts, Token, Without, Signal,
      WakeOk, Turn, Post, WorkerApply;
    match st
    case LPost(l, wake) => ShapePost(s, l, s.loopPc[l].r, wake);
    case _ =>
  }

  lemma ShapeKept(s: Pool, st: Step)
    requires Inv(s) && Enabled(s, st)
    ensures Shape(Apply(s, st))
  {
    hide *;
    if FromWorker(st) {
      ShapeKeptWorker(s, st);
    } else {
      ShapeKeptLoop(s, st);
    }
  }

  // ---------- the requests ----------

  // The two flags of RequestOk agree in both states for every request but r.
  ghost predicate SameElse(ws: seq<WorkerPc>, pcs: seq<LoopPc>, vs: seq<WorkerPc>, qcs: seq<LoopPc>, r: Req) {
    && (forall p, x :: x != r ==> (RunningAt(vs, p, x) <==> RunningAt(ws, p, x)))
    && (forall l, x :: x != r ==> (MarkingAt(qcs, l, x) <==> MarkingAt(pcs, l, x)))
  }

  ghost predicate Same(ws: seq<WorkerPc>, pcs: seq<LoopPc>, vs: seq<WorkerPc>, qcs: seq<LoopPc>) {
    && (forall p, x :: RunningAt(vs, p, x) <==> RunningAt(ws, p, x))
    && (forall l, x :: MarkingAt(qcs, l, x) <==> MarkingAt(pcs, l, x))
  }

  lemma RequestsSame(s: Pool, vs: seq<WorkerPc>, qcs: seq<LoopPc>)
    requires Requests(s.reqs, s.place, s.owner, s.workers, s.loopPc) && Same(s.workers, s.loopPc, vs, qcs)
    ensures Requests(s.reqs, s.place, s.owner, vs, qcs)
  {
    hide RequestOk, RunningAt, MarkingAt;
  }

  lemma RequestsSet(s: Pool, vs: seq<WorkerPc>, qcs: seq<LoopPc>, r: Req, q: Request, p: Place)
    requires Requests(s.reqs, s.place, s.owner, s.workers, s.loopPc) && SameElse(s.workers, s.loopPc, vs, qcs, r)
    requires r in s.reqs && r in s.owner && RequestOk(q, p, RunningAt(vs, p, r), MarkingAt(qcs, s.owner[r], r))
    ensures Requests(s.reqs[r := q], s.place[r := p], s.owner, vs, qcs)
  {
    hide RequestOk, RunningAt, MarkingAt;
  }

  lemma RequestsNew(s: Pool, qcs: seq<LoopPc>, r: Req, l: nat, q: Request)
    requires Requests(s.reqs, s.place, s.owner, s.workers, s.loopPc) && Same(s.workers, s.loopPc, s.workers, qcs)
    requires r !in s.reqs && RequestOk(q, Submitting, false, false)
    ensures Requests(s.reqs[r := q], s.place[r := Submitting], s.owner[r := l], s.workers, qcs)
  {
    assert !RunningAt(s.workers, Submitting, r);
    forall x | x in s.reqs
      ensures RequestOk(s.reqs[x], s.place[x], RunningAt(s.workers, s.place[x], x), MarkingAt(qcs, s.owner[x], x)) {
      assert MarkingAt(qcs, s.owner[x], x) <==> MarkingAt(s.loopPc, s.owner[x], x);
    }
    assert q.work == Fn && !q.ran && q.dones == 0 && q.status == None;
  }

  lemma SameWorker(ws: seq<WorkerPc>, pcs: seq<LoopPc>, t: nat, pc: WorkerPc)
    requires t < |ws| && !ws[t].Running? && !pc.Running?
    ensures Same(ws, pcs, ws[t := pc], pcs)
  {
  }

  lemma SameSignal(idle: int, ws: seq<WorkerPc>, pcs: seq<LoopPc>, wake: nat)
    ensures Same(ws, pcs, Signal(idle, ws, wake), pcs)
  {
  }

  lemma SameLoop(ws: seq<WorkerPc>, pcs: seq<LoopPc>, l: nat, pc: LoopPc)
    requires l < |pcs| && !pcs[l].CancelMark? && !pc.CancelMark?
    ensures Same(ws, pcs, ws, pcs[l := pc])
  {
  }

  lemma SameMark(ws: seq<WorkerPc>, pcs: seq<LoopPc>, l: nat, pc: LoopPc, r: Req)
    requires l < |pcs| && (pcs[l].CancelMark? ==> pcs[l].r == r) && (pc.CancelMark? ==> pc.r == r)
    ensures SameElse(ws, pcs, ws, pcs[l := pc], r)
  {
  }

  lemma RequestOkAt(s: Pool, r: Req)
    requires Requests(s.reqs, s.place, s.owner, s.workers, s.loopPc) && r in s.reqs
    ensures r in s.place && r in s.owner
    ensures RequestOk(s.reqs[r], s.place[r], RunningAt(s.workers, s.place[r], r), MarkingAt(s.loopPc, s.owner[r], r))
  {
  }

  lemma Known(s: Pool, r: Req)
    requires Requests(s.reqs, s.place, s.owner, s.workers, s.loopPc) && r in s.place
    ensures r in s.reqs
  {
  }

  lemma RequestsWorker(s: Pool, t: nat, pc: WorkerPc)
    requires Requests(s.reqs, s.place, s.owner, s.workers, s.loopPc)
    requires t < |s.workers| && !s.workers[t].Running? && !pc.Running?
    ensures Requests(s.reqs, s.place, s.owner, s.workers[t := pc], s.loopPc)
  {
    hide Requests, Same;
    SameWorker(s.workers, s.loopPc, t, pc);
    RequestsSame(s, s.workers[t := pc], s.loopPc);
  }

  lemma RequestsLoop(s: Pool, l: nat, pc: LoopPc)
    requires Requests(s.reqs, s.place, s.owner, s.workers, s.loopPc)
    requires l < |s.loopPc| && !s.loopPc[l].CancelMark? && !pc.CancelMark?
    ensures Requests(s.reqs, s.place, s.owner, s.workers, s.loopPc[l := pc])
  {
    hide Requests, Same;
    SameLoop(s.workers, s.loopPc, l, pc);
    RequestsSame(s, s.workers, s.loopPc[l := pc]);
  }

  lemma RequestsTake(s: Pool, t: nat, wake: nat, idle: int, r: Req, slow: bool)
    requires Requests(s.reqs, s.place, s.owner, s.workers, s.loopPc)
    requires t < |s.workers| && s.workers[t] == Top && (IsAt(s.place, r, InWq) || IsAt(s.place, r, InSlow))
    ensures r in s.reqs
    ensures
      var ws, q := s.workers[t := Running(r, slow)], s.reqs[r].(unlinked := true);
      && Requests(s.reqs[r := q], s.place[r := AtWorker(t)], s.owner, ws, s.loopPc)
      && Requests(s.reqs[r := q], s.place[r := AtWorker(t)], s.owner, Signal(idle, ws, wake), s.loopPc)
  {
    assert r in s.reqs;
    var ws, q := s.workers[t := Running(r, slow)], s.reqs[r].(unlinked := true);
    assert RequestOk(s.reqs[r], s.place[r], RunningAt(s.workers, s.place[r], r), MarkingAt(s.loopPc, s.owner[r], r));
    RequestsSet(s, ws, s.loopPc, r, q, AtWorker(t));
    SameSignal(idle, ws, s.loopPc, wake);
    RequestsSame(s.(reqs := s.reqs[r := q], place := s.place[r := AtWorker(t)], workers := ws), Signal(idle, ws, wake),
      s.loopPc);
  }

  lemma RequestsTurn(s: Pool, t: nat, wake: nat)
    requires Shape(s) && Queues(s.wq, s.pending, s.place) && Requests(s.reqs, s.place, s.owner, s.workers, s.loopPc)
    requires t < |s.workers| && s.workers[t] == Top
    ensures var u := Turn(s, t, wake); Requests(u.reqs, u.place, u.owner, u.workers, u.loopPc)
  {
    hide Queues, Requests, Signal;
    if WaitCond(s.wq, s.slowRunning, |s.workers|) {
      RequestsWorker(s, t, Waiting);
    } else if s.wq[0].Work? {
      QueuesPopWork(s.wq, s.pending, s.place, AtWorker(t));
      RequestsTake(s, t, wake, s.idle, s.wq[0].r, false);
    } else if s.pending != [] {
      QueuesPopPending(s.wq, s.pending, s.place, AtWorker(t));
      RequestsTake(s, t, wake, s.idle, s.pending[0], true);
    }
  }

  lemma RequestsRun(s: Pool, t: nat)
    requires Requests(s.reqs, s.place, s.owner, s.workers, s.loopPc) && WorkersHold(s.workers, s.place)
    requires t < |s.workers| && s.workers[t].Running?
    ensures s.workers[t].r in s.reqs
    ensures
      var pc := s.workers[t];
      Requests(s.reqs[pc.r := s.reqs[pc.r].(ran := true)], s.place, s.owner, s.workers[t := WantLoop(pc.r, pc.slow)],
        s.loopPc)
  {
    var pc := s.workers[t];
    assert IsAt(s.place, pc.r, AtWorker(t));
    var q := s.reqs[pc.r];
    assert RequestOk(q, s.place[pc.r], RunningAt(s.workers, s.place[pc.r], pc.r),
      MarkingAt(s.loopPc, s.owner[pc.r], pc.r));
    RequestsSet(s, s.workers[t := WantLoop(pc.r, pc.slow)], s.loopPc, pc.r, q.(ran := true), AtWorker(t));
    assert s.place[pc.r := AtWorker(t)] == s.place;
  }

  lemma RequestsPublish(s: Pool, t: nat)
    requires Requests(s.reqs, s.place, s.owner, s.workers, s.loopPc) && WorkersHold(s.workers, s.place)
    requires t < |s.workers| && s.workers[t].HoldLoop?
    ensures s.workers[t].r in s.reqs
    ensures
      var pc := s.workers[t];
      Requests(s.reqs[pc.r := s.reqs[pc.r].(work := Null, unlinked := false)], s.place[pc.r := Back], s.owner,
               s.workers[t := WantMutex(pc.slow)], s.loopPc)
  {
    var pc := s.workers[t];
    assert IsAt(s.place, pc.r, AtWorker(t));
    var q := s.reqs[pc.r];
    assert RequestOk(q, s.place[pc.r], RunningAt(s.workers, s.place[pc.r], pc.r),
      MarkingAt(s.loopPc, s.owner[pc.r], pc.r));
    RequestsSet(s, s.workers[t := WantMutex(pc.slow)], s.loopPc, pc.r, q.(work := Null, unlinked := false), Back);
  }

  lemma RequestsPost(s: Pool, l: nat, wake: nat)
    requires Requests(s.reqs, s.place, s.owner, s.workers, s.loopPc) && LoopsHold(s.loopPc, s.place, s.owner)
    requires l < |s.loopPc| && s.loopPc[l].HoldPost? && s.loopPc[l].r in s.reqs
    ensures var u := Post(s, l, s.loopPc[l].r, wake); Requests(u.reqs, u.place, u.owner, u.workers, u.loopPc)
  {
    hide Requests, LoopsHold, SameElse, Same, Signal;
    var r := s.loopPc[l].r;
    var q := s.reqs[r].(unlinked := false);
    var p := if q.slow then InSlow else InWq;
    var qcs := s.loopPc[l := Idle];
    PostsKnown(s, l);
    RequestOkAt(s, r);
    SameMark(s.workers, s.loopPc, l, Idle, r);
    RequestsSet(s, s.workers, qcs, r, q, p);
    SameSignal(s.idle, s.workers, qcs, wake);
    RequestsSame(s.(reqs := s.reqs[r := q], place := s.place[r := p], loopPc := qcs), Signal(s.idle, s.workers, wake),
      qcs);
  }

  lemma RequestsCancel(s: Pool, l: nat)
    requires Requests(s.reqs, s.place, s.owner, s.workers, s.loopPc) && LoopsHold(s.loopPc, s.place, s.owner)
    requires l < |s.loopPc| && s.loopPc[l].CancelBoth? && s.loopPc[l].r in s.reqs
    ensures
      var r := s.loopPc[l].r;
      !s.reqs[r].unlinked && s.reqs[r].work != Null ==>
        Requests(s.reqs, s.place[r := AtCanceller], s.owner, s.workers, s.loopPc[l := CancelMark(r)])
  {
    hide Requests, LoopsHold, SameElse;
    var r := s.loopPc[l].r;
    var q := s.reqs[r];
    CancelsKnown(s, l);
    RequestOkAt(s, r);
    if !q.unlinked && q.work != Null {
      SameMark(s.workers, s.loopPc, l, CancelMark(r), r);
      RequestsSet(s, s.workers, s.loopPc[l := CancelMark(r)], r, q, AtCanceller);
      assert s.reqs[r := q] == s.reqs;
    }
  }

  lemma RequestsMark(s: Pool, l: nat)
    requires Requests(s.reqs, s.place, s.owner, s.workers, s.loopPc) && LoopsHold(s.loopPc, s.place, s.owner)
    requires l < |s.loopPc| && s.loopPc[l].CancelMark?
    ensures s.loopPc[l].r in s.reqs
    ensures
      var r := s.loopPc[l].r;
      Requests(s.reqs[r := s.reqs[r].(work := Cancelled)], s.place, s.owner, s.workers, s.loopPc[l := CancelPut(r)])
  {
    hide Requests, LoopsHold, SameElse;
    var r := s.loopPc[l].r;
    RequeuesKnown(s, l);
    Known(s, r);
    RequestOkAt(s, r);
    var q := s.reqs[r];
    SameMark(s.workers, s.loopPc, l, CancelPut(r), r);
    RequestsSet(s, s.workers, s.loopPc[l := CancelPut(r)], r, q.(work := Cancelled), AtCanceller);
    assert s.place[r := AtCanceller] == s.place;
  }

  lemma RequestsPut(s: Pool, l: nat)
    requires Requests(s.reqs, s.place, s.owner, s.workers, s.loopPc) && LoopsHold(s.loopPc, s.place, s.owner)
    requires l < |s.loopPc| && s.loopPc[l].CancelPutting?
    ensures Requests(s.reqs, s.place[s.loopPc[l].r := Back], s.owner, s.workers, s.loopPc[l := Idle])
  {
    hide Requests, LoopsHold, SameElse;
    var r := s.loopPc[l].r;
    RequeuesKnown(s, l);
    Known(s, r);
    RequestOkAt(s, r);
    var q := s.reqs[r];
    SameMark(s.workers, s.loopPc, l, Idle, r);
    RequestsSet(s, s.workers, s.loopPc[l := Idle], r, q, Back);
    assert s.reqs[r := q] == s.reqs;
  }

  lemma RequestsDeliver(s: Pool, r: Req)
    requires Requests(s.reqs, s.place, s.owner, s.workers, s.loopPc) && IsAt(s.place, r, Back)
    ensures r in s.reqs
    ensures
      var q := s.reqs[r];
      Requests(s.reqs[r := Delivered(q)],
               s.place[r := Finished], s.owner, s.workers, s.loopPc)
  {
    assert r in s.reqs;
    var q := s.reqs[r];
    assert RequestOk(q, s.place[r], RunningAt(s.workers, s.place[r], r), MarkingAt(s.loopPc, s.owner[r], r));
    RequestsSet(s, s.workers, s.loopPc, r,
                Delivered(q), Finished);
  }

  lemma RequestsKept(s: Pool, st: Step)
    requires Inv(s) && Enabled(s, st)
    ensures var u := Apply(s, st); Requests(u.reqs, u.place, u.owner, u.workers, u.loopPc)
  {
    hide Queues, Backs, WorkersHold, LoopsHold, Requests, MutexOk, LocksOk, LocalOk, Counts, Token, Without, Signal,
      Turn, Post, WakeOk, Same;
    match st
    case WLock(t) => RequestsWorker(s, t, Top);
    case WWake(t) => RequestsWorker(s, t, Top);
    case WSpurious(t) => RequestsWorker(s, t, Woken);
    case WTop(t, wake) => RequestsTurn(s, t, wake);
    case WRun(t) => RequestsRun(s, t);
    case WLoopLock(t) => RequestsWorker(s, t, HoldLoop(s.workers[t].r, s.workers[t].slow));
    case WPublish(t) => RequestsPublish(s, t);
    case LSubmit(l, r, slow) =>
      SameLoop(s.workers, s.loopPc, l, WantPost(r));
      RequestsNew(s, s.loopPc[l := WantPost(r)], r, l, Request(slow, Fn, true, false, 0, None));
    case LPostLock(l) => RequestsLoop(s, l, HoldPost(s.loopPc[l].r));
    case LPost(l, wake) => RequestsPost(s, l, wake);
    case LCancel(l, r) => RequestsLoop(s, l, CancelWant(r));
    case LCancelLock(l) => RequestsLoop(s, l, CancelHold(s.loopPc[l].r));
    case LCancelLock2(l) => RequestsLoop(s, l, CancelBoth(s.loopPc[l].r));
    case LCancelCheck(l) =>
      RequestsCancel(s, l);
      RequestsLoop(s, l, Idle);
    case LCancelMark(l) => RequestsMark(s, l);
    case LPutLock(l) => RequestsLoop(s, l, CancelPutting(s.loopPc[l].r));
    case LPut(l) => RequestsPut(s, l);
    case LDoneStart(l) => RequestsLoop(s, l, DoneWant);
    case LDoneLock(l) => RequestsLoop(s, l, DoneHold);
    case LDoneMove(l) => RequestsLoop(s, l, Idle);
    case LDeliver(l) =>
      LocalBack(s, l, s.local[l][0]);
      RequestsDeliver(s, s.local[l][0]);
  }

  // ---------- the locks ----------

  predicate HoldsMutex(pc: LoopPc) {
    pc.HoldPost? || pc.CancelHold? || pc.CancelBoth?
  }

  lemma MutexWorker(mutex: Holder, ws: seq<WorkerPc>, pcs: seq<LoopPc>, t: nat, pc: WorkerPc)
    requires MutexOk(mutex, ws, pcs) && t < |ws| && ws[t] != Top && pc != Top
    ensures MutexOk(mutex, ws[t := pc], pcs)
  {
  }

  lemma MutexWorkerTakes(ws: seq<WorkerPc>, pcs: seq<LoopPc>, t: nat)
    requires MutexOk(Free, ws, pcs) && t < |ws|
    ensures MutexOk(ByWorker(t), ws[t := Top], pcs)
  {
  }

  lemma MutexWorkerGives(mutex: Holder, ws: seq<WorkerPc>, pcs: seq<LoopPc>, t: nat, pc: WorkerPc)
    requires MutexOk(mutex, ws, pcs) && t < |ws| && ws[t] == Top && pc != Top
    ensures MutexOk(Free, ws[t := pc], pcs)
  {
  }

  lemma MutexSignal(mutex: Holder, ws: seq<WorkerPc>, pcs: seq<LoopPc>, idle: int, wake: nat)
    requires MutexOk(mutex, ws, pcs)
    ensures MutexOk(mutex, Signal(idle, ws, wake), pcs)
  {
  }

  lemma MutexLoop(mutex: Holder, ws: seq<WorkerPc>, pcs: seq<LoopPc>, l: nat, pc: LoopPc)
    requires MutexOk(mutex, ws, pcs) && l < |pcs| && (HoldsMutex(pc) <==> HoldsMutex(pcs[l]))
    ensures MutexOk(mutex, ws, pcs[l := pc])
  {
  }

  lemma MutexLoopTakes(ws: seq<WorkerPc>, pcs: seq<LoopPc>, l: nat, pc: LoopPc)
    requires MutexOk(Free, ws, pcs) && l < |pcs| && HoldsMutex(pc)
    ensures MutexOk(ByLoop(l), ws, pcs[l := pc])
  {
  }

  lemma MutexLoopGives(mutex: Holder, ws: seq<WorkerPc>, pcs: seq<LoopPc>, l: nat, pc: LoopPc)
    requires MutexOk(mutex, ws, pcs) && l < |pcs| && HoldsMutex(pcs[l]) && !HoldsMutex(pc)
    ensures MutexOk(Free, ws, pcs[l := pc])
  {
  }

  lemma MutexTurn(s: Pool, t: nat, wake: nat)
    requires Shape(s) && MutexOk(s.mutex, s.workers, s.loopPc) && t < |s.workers| && s.workers[t] == Top
    ensures var u := Turn(s, t, wake); MutexOk(u.mutex, u.workers, u.loopPc)
  {
    hide MutexOk, Signal;
    MutexWorkerGives(s.mutex, s.workers, s.loopPc, t, Waiting);
    if !WaitCond(s.wq, s.slowRunning, |s.workers|) {
      if s.wq[0].Work? {
        MutexWorkerGives(s.mutex, s.workers, s.loopPc, t, Running(s.wq[0].r, false));
      } else if s.pending != [] {
        var ws := s.workers[t := Running(s.pending[0], true)];
        MutexWorkerGives(s.mutex, s.workers, s.loopPc, t, Running(s.pending[0], true));
        MutexSignal(Free, ws, s.loopPc, s.idle, wake);
      }
    }
  }

  lemma MutexPost(s: Pool, l: nat, r: Req, wake: nat)
    requires MutexOk(s.mutex, s.workers, s.loopPc) && l < |s.loopPc| && s.loopPc[l].HoldPost? && r in s.reqs
    ensures var u := Post(s, l, r, wake); MutexOk(u.mutex, u.workers, u.loopPc)
  {
    hide MutexOk, Signal;
    MutexLoopGives(s.mutex, s.workers, s.loopPc, l, Idle);
    MutexSignal(Free, s.workers, s.loopPc[l := Idle], s.idle, wake);
  }

  lemma MutexOkKept(s: Pool, st: Step)
    requires Inv(s) && Enabled(s, st)
    ensures var u := Apply(s, st); MutexOk(u.mutex, u.workers, u.loopPc)
  {
    hide Queues, Backs, WorkersHold, LoopsHold, Requests, MutexOk, LocksOk, LocalOk, Counts, Token, Without, Signal,
      Turn, Post, WakeOk;
    match st
    case WLock(t) => MutexWorkerTakes(s.workers, s.loopPc, t);
    case WWake(t) => MutexWorkerTakes(s.workers, s.loopPc, t);
    case WSpurious(t) => MutexWorker(s.mutex, s.workers, s.loopPc, t, Woken);
    case WTop(t, wake) => MutexTurn(s, t, wake);
    case WRun(t) => MutexWorker(s.mutex, s.workers, s.loopPc, t, WantLoop(s.workers[t].r, s.workers[t].slow));
    case WLoopLock(t) => MutexWorker(s.mutex, s.workers, s.loopPc, t, HoldLoop(s.workers[t].r, s.workers[t].slow));
    case WPublish(t) => MutexWorker(s.mutex, s.workers, s.loopPc, t, WantMutex(s.workers[t].slow));
    case LSubmit(l, r, slow) => MutexLoop(s.mutex, s.workers, s.loopPc, l, WantPost(r));
    case LPostLock(l) => MutexLoopTakes(s.workers, s.loopPc, l, HoldPost(s.loopPc[l].r));
    case LPost(l, wake) => MutexPost(s, l, s.loopPc[l].r, wake);
    case LCancel(l, r) => MutexLoop(s.mutex, s.workers, s.loopPc, l, CancelWant(r));
    case LCancelLock(l) => MutexLoopTakes(s.workers, s.loopPc, l, CancelHold(s.loopPc[l].r));
    case LCancelLock2(l) => MutexLoop(s.mutex, s.workers, s.loopPc, l, CancelBoth(s.loopPc[l].r));
    case LCancelCheck(l) =>
      MutexLoopGives(s.mutex, s.workers, s.loopPc, l, CancelMark(s.loopPc[l].r));
      MutexLoopGives(s.mutex, s.workers, s.loopPc, l, Idle);
    case LCancelMark(l) => MutexLoop(s.mutex, s.workers, s.loopPc, l, CancelPut(s.loopPc[l].r));
    case LPutLock(l) => MutexLoop(s.mutex, s.workers, s.loopPc, l, CancelPutting(s.loopPc[l].r));
    case LPut(l) => MutexLoop(s.mutex, s.workers, s.loopPc, l, Idle);
    case LDoneStart(l) => MutexLoop(s.mutex, s.workers, s.loopPc, l, DoneWant);
    case LDoneLock(l) => MutexLoop(s.mutex, s.workers, s.loopPc, l, DoneHold);
    case LDoneMove(l) => MutexLoop(s.mutex, s.workers, s.loopPc, l, Idle);
    case LDeliver(l) =>
  }

  lemma LocksWorker(s: Pool, t: nat, pc: WorkerPc)
    requires LocksOk(s.locks, s.workers, s.loopPc, s.owner) && t < |s.workers| && !s.workers[t].HoldLoop?
      && !pc.HoldLoop?
    ensures LocksOk(s.locks, s.workers[t := pc], s.loopPc, s.owner)
  {
  }

  lemma LocksWorkerTakes(s: Pool, t: nat, r: Req, slow: bool)
    requires LocksOk(s.locks, s.workers, s.loopPc, s.owner) && t < |s.workers| && !s.workers[t].HoldLoop?
    requires r in s.owner && s.owner[r] < |s.locks| && s.locks[s.owner[r]] == Free
    ensures LocksOk(s.locks[s.owner[r] := ByWorker(t)], s.workers[t := HoldLoop(r, slow)], s.loopPc, s.owner)
  {
  }

  lemma LocksWorkerGives(s: Pool, t: nat, pc: WorkerPc)
    requires LocksOk(s.locks, s.workers, s.loopPc, s.owner) && t < |s.workers| && s.workers[t].HoldLoop?
      && !pc.HoldLoop?
    ensures
      var r := s.workers[t].r;
      r in s.owner && s.owner[r] < |s.locks|
        && LocksOk(s.locks[s.owner[r] := Free], s.workers[t := pc], s.loopPc, s.owner)
  {
  }

  lemma LocksSignal(s: Pool, ws: seq<WorkerPc>, idle: int, wake: nat)
    requires LocksOk(s.locks, ws, s.loopPc, s.owner)
    ensures LocksOk(s.locks, Signal(idle, ws, wake), s.loopPc, s.owner)
  {
  }

  lemma LocksLoop(s: Pool, l: nat, pc: LoopPc)
    requires LocksOk(s.locks, s.workers, s.loopPc, s.owner) && l < |s.loopPc|
      && (HoldsOwnLock(pc) <==> HoldsOwnLock(s.loopPc[l]))
    ensures LocksOk(s.locks, s.workers, s.loopPc[l := pc], s.owner)
  {
  }

  lemma LocksLoopTakes(s: Pool, l: nat, pc: LoopPc)
    requires LocksOk(s.locks, s.workers, s.loopPc, s.owner) && l < |s.loopPc| && HoldsOwnLock(pc)
    requires |s.locks| == |s.loopPc| && s.locks[l] == Free
    ensures LocksOk(s.locks[l := ByLoop(l)], s.workers, s.loopPc[l := pc], s.owner)
  {
  }

  lemma LocksLoopGives(s: Pool, l: nat, pc: LoopPc)
    requires LocksOk(s.locks, s.workers, s.loopPc, s.owner) && l < |s.loopPc| && HoldsOwnLock(s.loopPc[l])
      && !HoldsOwnLock(pc)
    requires |s.locks| == |s.loopPc|
    ensures LocksOk(s.locks[l := Free], s.workers, s.loopPc[l := pc], s.owner)
  {
  }

  lemma LocksSubmit(s: Pool, l: nat, r: Req, pc: LoopPc)
    requires LocksOk(s.locks, s.workers, s.loopPc, s.owner) && l < |s.loopPc| && r !in s.owner
    requires !HoldsOwnLock(pc) && !HoldsOwnLock(s.loopPc[l])
    ensures LocksOk(s.locks, s.workers, s.loopPc[l := pc], s.owner[r := l])
  {
  }

  lemma LocksTurn(s: Pool, t: nat, wake: nat)
    requires Shape(s) && LocksOk(s.locks, s.workers, s.loopPc, s.owner) && t < |s.workers| && s.workers[t] == Top
    ensures var u := Turn(s, t, wake); LocksOk(u.locks, u.workers, u.loopPc, u.owner)
  {
    hide LocksOk, Signal;
    LocksWorker(s, t, Waiting);
    if !WaitCond(s.wq, s.slowRunning, |s.workers|) {
      if s.wq[0].Work? {
        LocksWorker(s, t, Running(s.wq[0].r, false));
      } else if s.pending != [] {
        LocksWorker(s, t, Running(s.pending[0], true));
        LocksSignal(s, s.workers[t := Running(s.pending[0], true)], s.idle, wake);
      }
    }
  }

  lemma LocksPost(s: Pool, l: nat, r: Req, wake: nat)
    requires LocksOk(s.locks, s.workers, s.loopPc, s.owner) && l < |s.loopPc| && s.loopPc[l].HoldPost? && r in s.reqs
    ensures var u := Post(s, l, r, wake); LocksOk(u.locks, u.workers, u.loopPc, u.owner)
  {
    hide LocksOk, Signal;
    LocksLoop(s, l, Idle);
    LocksSignal(s.(loopPc := s.loopPc[l := Idle]), s.workers, s.idle, wake);
  }

  lemma LocksOkKept(s: Pool, st: Step)
    requires Inv(s) && Enabled(s, st)
    ensures var u := Apply(s, st); LocksOk(u.locks, u.workers, u.loopPc, u.owner)
  {
    hide Queues, Backs, WorkersHold, LoopsHold, Requests, MutexOk, LocksOk, LocalOk, Counts, Token, Without, Signal,
      Turn, Post, WakeOk;
    match st
    case WLock(t) => LocksWorker(s, t, Top);
    case WWake(t) => LocksWorker(s, t, Top);
    case WSpurious(t) => LocksWorker(s, t, Woken);
    case WTop(t, wake) => LocksTurn(s, t, wake);
    case WRun(t) => LocksWorker(s, t, WantLoop(s.workers[t].r, s.workers[t].slow));
    case WLoopLock(t) => LocksWorkerTakes(s, t, s.workers[t].r, s.workers[t].slow);
    case WPublish(t) => LocksWorkerGives(s, t, WantMutex(s.workers[t].slow));
    case LSubmit(l, r, slow) => LocksSubmit(s, l, r, WantPost(r));
    case LPostLock(l) => LocksLoop(s, l, HoldPost(s.loopPc[l].r));
    case LPost(l, wake) => LocksPost(s, l, s.loopPc[l].r, wake);
    case LCancel(l, r) => LocksLoop(s, l, CancelWant(r));
    case LCancelLock(l) => LocksLoop(s, l, CancelHold(s.loopPc[l].r));
    case LCancelLock2(l) => LocksLoopTakes(s, l, CancelBoth(s.loopPc[l].r));
    case LCancelCheck(l) =>
      LocksLoopGives(s, l, CancelMark(s.loopPc[l].r));
      LocksLoopGives(s, l, Idle);
    case LCancelMark(l) => LocksLoop(s, l, CancelPut(s.loopPc[l].r));
    case LPutLock(l) => LocksLoopTakes(s, l, CancelPutting(s.loopPc[l].r));
    case LPut(l) => LocksLoopGives(s, l, Idle);
    case LDoneStart(l) => LocksLoop(s, l, DoneWant);
    case LDoneLock(l) => LocksLoopTakes(s, l, DoneHold);
    case LDoneMove(l) => LocksLoopGives(s, l, Idle);
    case LDeliver(l) =>
  }

  lemma LocalOkKeptWorker(s: Pool, st: Step)
    requires Inv(s) && FromWorker(st) && Enabled(s, st)
    ensures var u := Apply(s, st); LocalOk(u.local, u.loopPc)
  {
    hide Queues, Backs, WorkersHold, LoopsHold, Requests, MutexOk, LocksOk, Counts, Token, Without, Signal, Turn, Post,
      WakeOk, LoopApply;
    match st
    case WTop(t, wake) => LocalTurn(s, t, wake);
    case _ =>
  }

  lemma LocalOkKeptLoop(s: Pool, st: Step)
    requires Inv(s) && !FromWorker(st) && Enabled(s, st)
    ensures var u := Apply(s, st); LocalOk(u.local, u.loopPc)
  {
    hide Queues, Backs, WorkersHold, LoopsHold, Requests, MutexOk, LocksOk, Counts, Token, Without, Signal, Turn, Post,
      WakeOk, WorkerApply;
    match st
    case LPost(l, wake) => LocalPost(s, l, s.loopPc[l].r, wake);
    case _ =>
  }

  lemma LocalOkKept(s: Pool, st: Step)
    requires Inv(s) && Enabled(s, st)
    ensures var u := Apply(s, st); LocalOk(u.local, u.loopPc)
  {
    hide *;
    if FromWorker(st) {
      LocalOkKeptWorker(s, st);
    } else {
      LocalOkKeptLoop(s, st);
    }
  }

  lemma LocalTurn(s: Pool, t: nat, wake: nat)
    requires Shape(s) && t < |s.workers|
    ensures var u := Turn(s, t, wake); u.local == s.local && u.loopPc == s.loopPc
  {
  }

  lemma LocalPost(s: Pool, l: nat, r: Req, wake: nat)
    requires l < |s.loopPc| && r in s.reqs
    ensures var u := Post(s, l, r, wake); u.local == s.local && u.loopPc == s.loopPc[l := Idle]
  {
  }

  // ---------- the counters ----------

  lemma {:induction false} CountSet(ws: seq<WorkerPc>, p: WorkerPc -> bool, t: nat, pc: WorkerPc)
    requires t < |ws|
    ensures Count(ws[t := pc], p) == Count(ws, p) + (if p(pc) then 1 else 0) - (if p(ws[t]) then 1 else 0)
  {
    if t == 0 {
      assert ws[0 := pc][1..] == ws[1..];
    } else {
      CountSet(ws[1..], p, t - 1, pc);
      assert ws[t := pc][1..] == ws[1..][t - 1 := pc];
    }
  }

  lemma {:induction false} CountZero(ws: seq<WorkerPc>, p: WorkerPc -> bool)
    ensures Count(ws, p) == 0 <==> forall t :: 0 <= t < |ws| ==> !p(ws[t])
  {
    if ws != [] {
      CountZero(ws[1..], p);
      if Count(ws, p) == 0 {
        forall t | 0 <= t < |ws| ensures !p(ws[t]) {
          assert t > 0 ==> ws[t] == ws[1..][t - 1];
        }
      } else if !p(ws[0]) {
        var t :| 0 <= t < |ws[1..]| && p(ws[1..][t]);
        assert p(ws[t + 1]);
      }
    }
  }

  function Bit(b: bool): int {
    if b then 1 else 0
  }

  lemma CountsSet(idle: int, slow: int, ws: seq<WorkerPc>, t: nat, pc: WorkerPc)
    requires Counts(idle, slow, ws) && t < |ws|
    ensures Counts(idle + Bit(IsIdle(pc)) - Bit(IsIdle(ws[t])), slow + Bit(OnSlow(pc)) - Bit(OnSlow(ws[t])),
      ws[t := pc])
  {
    CountSet(ws, IsIdle, t, pc);
    CountSet(ws, OnSlow, t, pc);
  }

  lemma CountsSignal(idle: int, slow: int, ws: seq<WorkerPc>, i: int, wake: nat)
    requires Counts(idle, slow, ws)
    ensures Counts(idle, slow, Signal(i, ws, wake))
  {
    hide Counts;
    if wake < |ws| && ws[wake] == Waiting {
      CountsSet(idle, slow, ws, wake, Woken);
    }
  }

  lemma CountsTurn(s: Pool, t: nat, wake: nat)
    requires Shape(s) && Counts(s.idle, s.slowRunning, s.workers) && t < |s.workers| && s.workers[t] == Top
    ensures var u := Turn(s, t, wake); Counts(u.idle, u.slowRunning, u.workers)
  {
    hide Counts, Signal;
    CountsSet(s.idle, s.slowRunning, s.workers, t, Waiting);
    if !WaitCond(s.wq, s.slowRunning, |s.workers|) {
      if s.wq[0].Work? {
        CountsSet(s.idle, s.slowRunning, s.workers, t, Running(s.wq[0].r, false));
      } else if s.pending != [] {
        var ws := s.workers[t := Running(s.pending[0], true)];
        CountsSet(s.idle, s.slowRunning, s.workers, t, Running(s.pending[0], true));
        CountsSignal(s.idle, s.slowRunning + 1, ws, s.idle, wake);
      }
    }
  }

  lemma CountsKeptWorker(s: Pool, st: Step)
    requires Inv(s) && FromWorker(st) && Enabled(s, st)
    ensures var u := Apply(s, st); Counts(u.idle, u.slowRunning, u.workers)
  {
    hide Queues, Backs, WorkersHold, LoopsHold, Requests, MutexOk, LocksOk, LocalOk, Counts, Token, Without, Signal,
      Turn, WakeOk, LoopApply;
    match st
    case WLock(t) => CountsSet(s.idle, s.slowRunning, s.workers, t, Top);
    case WWake(t) => CountsSet(s.idle, s.slowRunning, s.workers, t, Top);
    case WSpurious(t) => CountsSet(s.idle, s.slowRunning, s.workers, t, Woken);
    case WTop(t, wake) => CountsTurn(s, t, wake);
    case WRun(t) => CountsSet(s.idle, s.slowRunning, s.workers, t, WantLoop(s.workers[t].r, s.workers[t].slow));
    case WLoopLock(t) => CountsSet(s.idle, s.slowRunning, s.workers, t, HoldLoop(s.workers[t].r, s.workers[t].slow));
    case WPublish(t) => CountsSet(s.idle, s.slowRunning, s.workers, t, WantMutex(s.workers[t].slow));
  }

  lemma CountsKeptLoop(s: Pool, st: Step)
    requires Inv(s) && !FromWorker(st) && Enabled(s, st)
    ensures var u := Apply(s, st); Counts(u.idle, u.slowRunning, u.workers)
  {
    hide Queues, Backs, WorkersHold, LoopsHold, Requests, MutexOk, LocksOk, LocalOk, Counts, Token, Without, Signal,
      Turn, WakeOk, WorkerApply;
    match st
    case LPost(l, wake) => CountsSignal(s.idle, s.slowRunning, s.workers, s.idle, wake);
    case _ =>
  }

  lemma CountsKept(s: Pool, st: Step)
    requires Inv(s) && Enabled(s, st)
    ensures var u := Apply(s, st); Counts(u.idle, u.slowRunning, u.workers)
  {
    hide *;
    if FromWorker(st) {
      CountsKeptWorker(s, st);
    } else {
      CountsKeptLoop(s, st);
    }
  }

  // ---------- the slow-work message and the stalls ----------

  // A signal leaves some worker off the condition variable.
  lemma SignalAwakens(idle: int, slow: int, ws: seq<WorkerPc>, wake: nat)
    requires Counts(idle, slow, ws) && WakeOk(ws, wake) && |ws| >= 1
    ensures SomeAwake(Signal(idle, ws, wake))
  {
    if Waiting in ws {
      CountZero(ws, IsIdle);
      assert Signal(idle, ws, wake)[wake] != Waiting;
    } else {
      assert ws[0] in ws;
      assert Signal(idle, ws, wake)[0] != Waiting;
    }
  }

  lemma SignalKeepsAwake(idle: int, ws: seq<WorkerPc>, t: nat, wake: nat)
    requires t < |ws| && ws[t] != Waiting
    ensures SomeAwake(Signal(idle, ws, wake))
  {
    assert Signal(idle, ws, wake)[t] != Waiting;
  }

  lemma AwakeAt(ws: seq<WorkerPc>, t: nat, pc: WorkerPc)
    requires t < |ws| && pc != Waiting
    ensures SomeAwake(ws[t := pc])
  {
    assert ws[t := pc][t] != Waiting;
  }

  lemma TokenTurn(s: Pool, t: nat, wake: nat)
    requires Shape(s) && Token(s.wq, s.pending, s.slowRunning, s.workers) && t < |s.workers| && s.workers[t] == Top
    ensures var u := Turn(s, t, wake); Token(u.wq, u.pending, u.slowRunning, u.workers)
  {
    hide SomeAwake, Signal;
    if !WaitCond(s.wq, s.slowRunning, |s.workers|) {
      assert s.workers[t := Top] == s.workers;
      AwakeAt(s.workers, t, Top);
      if s.wq[0].Work? {
        AwakeAt(s.workers, t, Running(s.wq[0].r, false));
      } else if s.pending != [] {
        var pc := Running(s.pending[0], true);
        AwakeAt(s.workers, t, pc);
        SignalKeepsAwake(s.idle, s.workers[t := pc], t, wake);
        SignalLength(s.idle, s.workers[t := pc], wake);
      }
    }
  }

  lemma SignalLength(idle: int, ws: seq<WorkerPc>, wake: nat)
    ensures |Signal(idle, ws, wake)| == |ws|
  {
  }

  lemma TokenPost(s: Pool, l: nat, r: Req, wake: nat)
    requires Token(s.wq, s.pending, s.slowRunning, s.workers) && Counts(s.idle, s.slowRunning, s.workers)
    requires WakeOk(s.workers, wake) && l < |s.loopPc| && r in s.reqs
    ensures var u := Post(s, l, r, wake); Token(u.wq, u.pending, u.slowRunning, u.workers)
  {
    hide SomeAwake, Signal, Counts;
    SignalAwakens(s.idle, s.slowRunning, s.workers, wake);
    SignalLength(s.idle, s.workers, wake);
  }

  lemma TokenCancel(s: Pool, r: Req)
    requires Queues(s.wq, s.pending, s.place) && Token(s.wq, s.pending, s.slowRunning, s.workers)
    ensures Token(Without(s.wq, Work(r)), Without(s.pending, r), s.slowRunning, s.workers)
  {
    hide SomeAwake, Without;
    WithoutIs(s.wq, Work(r));
    WithoutIs(s.pending, r);
    var wq, pending := Without(s.wq, Work(r)), Without(s.pending, r);
    if pending != [] {
      assert pending[0] in s.pending;
    }
    if wq != [] {
      assert wq[0] in s.wq;
    }
    if s.wq == [SlowMessage] {
      assert SlowMessage in wq;
    }
  }

  lemma TokenKept(s: Pool, st: Step)
    requires Inv(s) && Enabled(s, st)
    ensures var u := Apply(s, st); Token(u.wq, u.pending, u.slowRunning, u.workers)
  {
    hide Queues, Backs, WorkersHold, LoopsHold, Requests, MutexOk, LocksOk, LocalOk, Counts, SomeAwake, Without, Signal,
      Turn, Post, WakeOk;
    match st
    case WLock(t) => AwakeAt(s.workers, t, Top);
    case WWake(t) => AwakeAt(s.workers, t, Top);
    case WSpurious(t) => AwakeAt(s.workers, t, Woken);
    case WTop(t, wake) => TokenTurn(s, t, wake);
    case WRun(t) => AwakeAt(s.workers, t, WantLoop(s.workers[t].r, s.workers[t].slow));
    case WLoopLock(t) => AwakeAt(s.workers, t, HoldLoop(s.workers[t].r, s.workers[t].slow));
    case WPublish(t) => AwakeAt(s.workers, t, WantMutex(s.workers[t].slow));
    case LPost(l, wake) => TokenPost(s, l, s.loopPc[l].r, wake);
    case LCancelCheck(l) => TokenCancel(s, s.loopPc[l].r);
    case _ =>
  }

  // ---------- runs ----------

  lemma InvKept(s: Pool, st: Step)
    requires Inv(s) && Enabled(s, st)
    ensures Inv(Apply(s, st))
  {
    hide Shape, Queues, Backs, WorkersHold, LoopsHold, Requests, MutexOk, LocksOk, LocalOk, Counts, Token, Enabled,
      Apply;
    ShapeKept(s, st);
    QueuesKept(s, st);
    BacksKept(s, st);
    WorkersHoldKept(s, st);
    LoopsHoldKept(s, st);
    RequestsKept(s, st);
    MutexOkKept(s, st);
    LocksOkKept(s, st);
    LocalOkKept(s, st);
    CountsKept(s, st);
    TokenKept(s, st);
  }

  lemma InvInit(n: nat, loops: nat)
    requires n >= 1
    ensures Inv(Init(n, loops))
  {
    var s := Init(n, loops);
    CountZero(s.workers, IsIdle);
    CountZero(s.workers, OnSlow);
    assert s.workers[0] != Waiting;
    forall l, r | 0 <= l < loops ensures !InBack(s.done, s.local, l, r) {}
  }

  // s is reached from the start by some steps, the last of them given last.
  ghost predicate Reaches(n: nat, loops: nat, steps: seq<Step>, s: Pool)
    decreases |steps|
  {
    if steps == [] then s == Init(n, loops)
    else
      var k := |steps| - 1;
      exists u :: Reaches(n, loops, steps[..k], u) && Enabled(u, steps[k]) && s == Apply(u, steps[k])
  }

  lemma {:induction false} Reachable(n: nat, loops: nat, steps: seq<Step>, s: Pool)
    requires n >= 1 && Reaches(n, loops, steps, s)
    ensures Inv(s) && |s.workers| == n && |s.loopPc| == loops
    decreases |steps|
  {
    hide Inv, Enabled, Apply;
    if steps == [] {
      InvInit(n, loops);
    } else {
      var k := |steps| - 1;
      var u :| Reaches(n, loops, steps[..k], u) && Enabled(u, steps[k]) && s == Apply(u, steps[k]);
      Reachable(n, loops, steps[..k], u);
      InvKept(u, steps[k]);
      SizesKept(u, steps[k]);
    }
  }

  lemma SizesKeptWorker(s: Pool, st: Step)
    requires FromWorker(st) && Enabled(s, st)
    ensures var u := Apply(s, st); |u.workers| == |s.workers| && |u.loopPc| == |s.loopPc|
  {
    hide Without, WakeOk, LoopApply;
  }

  lemma SizesKeptLoop(s: Pool, st: Step)
    requires !FromWorker(st) && Enabled(s, st)
    ensures var u := Apply(s, st); |u.workers| == |s.workers| && |u.loopPc| == |s.loopPc|
  {
    hide Without, WakeOk, WorkerApply;
  }

  lemma SizesKept(s: Pool, st: Step)
    requires Enabled(s, st)
    ensures var u := Apply(s, st); |u.workers| == |s.workers| && |u.loopPc| == |s.loopPc|
  {
    hide *;
    if FromWorker(st) {
      SizesKeptWorker(s, st);
    } else {
      SizesKeptLoop(s, st);
    }
  }
}
