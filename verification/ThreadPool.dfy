/** src/threadpool.c: workers, loop threads and requests as a state machine whose
    steps are the sections of code between two lock operations. */
module ThreadPool {
  import opened Common

  type Req = nat

  // An entry of the shared queue wq: a request's work or run_slow_work_message.
  datatype Item = Work(r: Req) | SlowMessage

  // The field w->work.
  datatype WorkPtr = Fn | Null | Cancelled

  datatype Status = Success | ECANCELED

  datatype Request = Request(
    slow: bool,
    work: WorkPtr,
    unlinked: bool,        // uv__queue_empty(&w->wq)
    ran: bool,             // the work function was called
    dones: nat,            // calls of the done function
    status: Option<Status>)

  datatype WorkerPc =
    | WantMutex(wasSlow: bool)       // before the lock in lines 66 and 134
    | Top                            // holds mutex, at the top of the endless loop
    | Waiting                        // blocked in uv_cond_wait
    | Woken                          // wants mutex back to return from uv_cond_wait
    | Running(r: Req, slow: bool)    // about to call w->work
    | WantLoop(r: Req, slow: bool)   // wants the wq_mutex of the request's loop
    | HoldLoop(r: Req, slow: bool)   // holds it

  datatype LoopPc =
    | Idle
    | WantPost(r: Req)
    | HoldPost(r: Req)
    | CancelWant(r: Req)             // wants mutex
    | CancelHold(r: Req)             // holds mutex, wants wq_mutex
    | CancelBoth(r: Req)             // holds both
    | CancelMark(r: Req)             // about to set w->work = uv__cancelled
    | CancelPut(r: Req)              // wants wq_mutex
    | CancelPutting(r: Req)          // holds it
    | DoneWant                       // uv__work_done, wants wq_mutex
    | DoneHold                       // holds it

  datatype Holder = Free | ByWorker(t: nat) | ByLoop(l: nat)

  // Where a request is.
  datatype Place = Submitting | InWq | InSlow | AtWorker(t: nat) | AtCanceller | Back | Finished

  // Each loop has a thread (loopPc), a wq_mutex (locks), a queue loop->wq (done) and the
  // local queue of uv__work_done (local).  place is an auxiliary variable that no step reads.
  datatype Pool = Pool(
    mutex: Holder,
    wq: seq<Item>,
    pending: seq<Req>,     // slow_io_pending_wq
    idle: int,             // idle_threads
    slowRunning: int,      // slow_io_work_running
    workers: seq<WorkerPc>,
    loopPc: seq<LoopPc>,
    locks: seq<Holder>,
    done: seq<seq<Req>>,
    local: seq<seq<Req>>,
    reqs: map<Req, Request>,
    owner: map<Req, nat>,  // w->loop
    place: map<Req, Place>)

  const MAX_THREADPOOL_SIZE := 1024
  const DEFAULT_THREADS := 4

  type int32 = x: int | -0x8000_0000 <= x < 0x8000_0000

  // init_threads: the number of workers for the number in UV_THREADPOOL_SIZE, stored in an unsigned int.
  function NThreads(env: Option<int32>): (n: nat)
    ensures env == None ==> n == 4
    ensures env.Some? && 1 <= env.value <= 1024 ==> n == env.value
    ensures env == Some(0) ==> n == 1
    ensures env.Some? && (env.value < 0 || env.value > 1024) ==> n == 1024
    ensures 1 <= n <= 1024
  {
    var n := if env.None? then DEFAULT_THREADS else env.value % 0x1_0000_0000;
    if n == 0 then 1 else if n > MAX_THREADPOOL_SIZE then MAX_THREADPOOL_SIZE else n
  }

  function Threshold(n: nat): nat {
    (n + 1) / 2
  }

  // ---------- the steps ----------

  // Steps that may signal the condition variable name the worker that the signal unblocks.
  datatype Step =
    | WLock(t: nat)
    | WWake(t: nat)
    | WSpurious(t: nat)
    | WTop(t: nat, wake: nat)
    | WRun(t: nat)
    | WLoopLock(t: nat)
    | WPublish(t: nat)
    | LSubmit(l: nat, r: Req, slow: bool)
    | LPostLock(l: nat)
    | LPost(l: nat, wake: nat)
    | LCancel(l: nat, r: Req)
    | LCancelLock(l: nat)
    | LCancelLock2(l: nat)
    | LCancelCheck(l: nat)
    | LCancelMark(l: nat)
    | LPutLock(l: nat)
    | LPut(l: nat)
    | LDoneStart(l: nat)
    | LDoneLock(l: nat)
    | LDoneMove(l: nat)
    | LDeliver(l: nat)

  predicate FromWorker(st: Step) {
    st.WLock? || st.WWake? || st.WSpurious? || st.WTop? || st.WRun? || st.WLoopLock? || st.WPublish?
  }

  // The condition of the workers' wait loop.
  predicate WaitCond(wq: seq<Item>, slowRunning: int, n: nat) {
    wq == [] || (wq == [SlowMessage] && slowRunning >= Threshold(n))
  }

  // uv_cond_signal unblocks one waiting worker, if there is one.
  ghost predicate WakeOk(ws: seq<WorkerPc>, wake: nat) {
    Waiting in ws ==> wake < |ws| && ws[wake] == Waiting
  }

  function Signal(idle: int, ws: seq<WorkerPc>, wake: nat): seq<WorkerPc> {
    if idle > 0 && wake < |ws| && ws[wake] == Waiting then ws[wake := Woken] else ws
  }

  predicate Shape(s: Pool) {
    && |s.locks| == |s.done| == |s.local| == |s.loopPc|
    && s.reqs.Keys == s.owner.Keys == s.place.Keys
    && forall r :: r in s.owner ==> s.owner[r] < |s.loopPc|
  }

  ghost predicate Enabled(s: Pool, st: Step) {
    Shape(s) &&
    match st
    case WLock(t) => t < |s.workers| && s.workers[t].WantMutex? && s.mutex == Free
    case WWake(t) => t < |s.workers| && s.workers[t] == Woken && s.mutex == Free
    case WSpurious(t) => t < |s.workers| && s.workers[t] == Waiting
    case WTop(t, wake) => t < |s.workers| && s.workers[t] == Top && WakeOk(s.workers, wake)
    case WRun(t) => t < |s.workers| && s.workers[t].Running? && s.workers[t].r in s.reqs
    case WLoopLock(t) =>
      t < |s.workers| && s.workers[t].WantLoop? && s.workers[t].r in s.reqs && s.locks[s.owner[s.workers[t].r]] == Free
    case WPublish(t) => t < |s.workers| && s.workers[t].HoldLoop? && s.workers[t].r in s.reqs
    case LSubmit(l, r, _) => l < |s.loopPc| && s.loopPc[l] == Idle && r !in s.reqs
    case LPostLock(l) => l < |s.loopPc| && s.loopPc[l].WantPost? && s.mutex == Free
    case LPost(l, wake) => l < |s.loopPc| && s.loopPc[l].HoldPost? && s.loopPc[l].r in s.reqs && WakeOk(s.workers, wake)
    // A loop thread cancels its own requests, and none whose done function has been called.
    case LCancel(l, r) =>
      l < |s.loopPc| && s.loopPc[l] == Idle && r in s.reqs && s.owner[r] == l && s.reqs[r].dones == 0
    case LCancelLock(l) => l < |s.loopPc| && s.loopPc[l].CancelWant? && s.mutex == Free
    case LCancelLock2(l) => l < |s.loopPc| && s.loopPc[l].CancelHold? && s.locks[l] == Free
    case LCancelCheck(l) => l < |s.loopPc| && s.loopPc[l].CancelBoth? && s.loopPc[l].r in s.reqs
    case LCancelMark(l) => l < |s.loopPc| && s.loopPc[l].CancelMark? && s.loopPc[l].r in s.reqs
    case LPutLock(l) => l < |s.loopPc| && s.loopPc[l].CancelPut? && s.locks[l] == Free
    case LPut(l) => l < |s.loopPc| && s.loopPc[l].CancelPutting? && s.loopPc[l].r in s.reqs
    case LDoneStart(l) => l < |s.loopPc| && s.loopPc[l] == Idle && s.local[l] == []
    case LDoneLock(l) => l < |s.loopPc| && s.loopPc[l] == DoneWant && s.locks[l] == Free
    case LDoneMove(l) => l < |s.loopPc| && s.loopPc[l] == DoneHold
    case LDeliver(l) => l < |s.loopPc| && s.loopPc[l] == Idle && s.local[l] != [] && s.local[l][0] in s.reqs
  }

  // The body of the worker's endless loop up to the unlock of mutex, or back to its top.
  function Turn(s: Pool, t: nat, wake: nat): Pool
    requires t < |s.workers| && Shape(s)
  {
    if WaitCond(s.wq, s.slowRunning, |s.workers|) then
      s.(workers := s.workers[t := Waiting], idle := s.idle + 1, mutex := Free)
    else
      var rest := s.wq[1..];
      if s.wq[0] == SlowMessage then
        if s.slowRunning >= Threshold(|s.workers|) then s.(wq := rest + [SlowMessage])
        else if s.pending == [] then s.(wq := rest)
        else
          var r, more := s.pending[0], s.pending[1..];
          var ws := s.workers[t := Running(r, true)];
          Take(s, r, t).(
            wq := if more == [] then rest else rest + [SlowMessage],
            workers := if more == [] then ws else Signal(s.idle, ws, wake),
            pending := more, slowRunning := s.slowRunning + 1, mutex := Free)
      else
        var r := s.wq[0].r;
        Take(s, r, t).(wq := rest, workers := s.workers[t := Running(r, false)], mutex := Free)
  }

  // A request leaves its queue for worker t.
  function Take(s: Pool, r: Req, t: nat): Pool
    requires Shape(s)
  {
    if r in s.reqs then s.(reqs := s.reqs[r := s.reqs[r].(unlinked := true)], place := s.place[r := AtWorker(t)]) else s
  }

  // post, with mutex held.
  function Post(s: Pool, l: nat, r: Req, wake: nat): Pool
    requires l < |s.loopPc| && r in s.reqs
  {
    var u := s.(reqs := s.reqs[r := s.reqs[r].(unlinked := false)], loopPc := s.loopPc[l := Idle], mutex := Free);
    if s.reqs[r].slow then
      var v := u.(pending := s.pending + [r], place := s.place[r := InSlow]);
      if SlowMessage in s.wq then v
      else v.(wq := s.wq + [SlowMessage], workers := Signal(s.idle, s.workers, wake))
    else u.(wq := s.wq + [Work(r)], place := s.place[r := InWq], workers := Signal(s.idle, s.workers, wake))
  }

  function WorkerApply(s: Pool, st: Step): Pool
    requires FromWorker(st) && Enabled(s, st)
  {
    match st
    case WLock(t) =>
      s.(workers := s.workers[t := Top], mutex := ByWorker(t),
         slowRunning := if s.workers[t].wasSlow then s.slowRunning - 1 else s.slowRunning)
    case WWake(t) => s.(workers := s.workers[t := Top], mutex := ByWorker(t), idle := s.idle - 1)
    case WSpurious(t) => s.(workers := s.workers[t := Woken])
    case WTop(t, wake) => Turn(s, t, wake)
    case WRun(t) =>
      var pc := s.workers[t];
      s.(workers := s.workers[t := WantLoop(pc.r, pc.slow)], reqs := s.reqs[pc.r := s.reqs[pc.r].(ran := true)])
    case WLoopLock(t) =>
      var pc := s.workers[t];
      s.(workers := s.workers[t := HoldLoop(pc.r, pc.slow)], locks := s.locks[s.owner[pc.r] := ByWorker(t)])
    case WPublish(t) =>
      var pc := s.workers[t];
      var l := s.owner[pc.r];
      s.(workers := s.workers[t := WantMutex(pc.slow)], locks := s.locks[l := Free],
         done := s.done[l := s.done[l] + [pc.r]],
         reqs := s.reqs[pc.r := s.reqs[pc.r].(work := Null, unlinked := false)], place := s.place[pc.r := Back])
  }

  // The request after its done function was called.
  function Delivered(q: Request): Request {
    q.(dones := q.dones + 1, status := Some(if q.work == Cancelled then ECANCELED else Success))
  }

  function LoopApply(s: Pool, st: Step): Pool
    requires !FromWorker(st) && Enabled(s, st)
  {
    match st
    case LSubmit(l, r, slow) =>
      s.(loopPc := s.loopPc[l := WantPost(r)], reqs := s.reqs[r := Request(slow, Fn, true, false, 0, None)],
         owner := s.owner[r := l], place := s.place[r := Submitting])
    case LPostLock(l) => s.(loopPc := s.loopPc[l := HoldPost(s.loopPc[l].r)], mutex := ByLoop(l))
    case LPost(l, wake) => Post(s, l, s.loopPc[l].r, wake)
    case LCancel(l, r) => s.(loopPc := s.loopPc[l := CancelWant(r)])
    case LCancelLock(l) => s.(loopPc := s.loopPc[l := CancelHold(s.loopPc[l].r)], mutex := ByLoop(l))
    case LCancelLock2(l) => s.(loopPc := s.loopPc[l := CancelBoth(s.loopPc[l].r)], locks := s.locks[l := ByLoop(l)])
    case LCancelCheck(l) =>
      var r := s.loopPc[l].r;
      var u := s.(locks := s.locks[l := Free], mutex := Free);
      if !s.reqs[r].unlinked && s.reqs[r].work != Null then
        // uv__queue_remove takes the request out of whichever queue it is in.
        u.(loopPc := s.loopPc[l := CancelMark(r)], place := s.place[r := AtCanceller],
           wq := Without(s.wq, Work(r)), pending := Without(s.pending, r),
           done := s.done[l := Without(s.done[l], r)], local := s.local[l := Without(s.local[l], r)])
      else u.(loopPc := s.loopPc[l := Idle])
    case LCancelMark(l) =>
      var r := s.loopPc[l].r;
      s.(loopPc := s.loopPc[l := CancelPut(r)], reqs := s.reqs[r := s.reqs[r].(work := Cancelled)])
    case LPutLock(l) => s.(loopPc := s.loopPc[l := CancelPutting(s.loopPc[l].r)], locks := s.locks[l := ByLoop(l)])
    case LPut(l) =>
      var r := s.loopPc[l].r;
      s.(loopPc := s.loopPc[l := Idle], locks := s.locks[l := Free], done := s.done[l := s.done[l] + [r]],
         place := s.place[r := Back])
    case LDoneStart(l) => s.(loopPc := s.loopPc[l := DoneWant])
    case LDoneLock(l) => s.(loopPc := s.loopPc[l := DoneHold], locks := s.locks[l := ByLoop(l)])
    case LDoneMove(l) =>
      s.(loopPc := s.loopPc[l := Idle], locks := s.locks[l := Free], done := s.done[l := []],
         local := s.local[l := s.done[l]])
    case LDeliver(l) =>
      var r := s.local[l][0];
      var q := s.reqs[r];
      s.(local := s.local[l := s.local[l][1..]], place := s.place[r := Finished],
         reqs := s.reqs[r := Delivered(q)])
  }

  // The state after step st.
  function Apply(s: Pool, st: Step): Pool
    requires Enabled(s, st)
  {
    if FromWorker(st) then WorkerApply(s, st) else LoopApply(s, st)
  }

  // ---------- the invariants ----------

  predicate Carries(pc: WorkerPc) {
    pc.Running? || pc.WantLoop? || pc.HoldLoop?
  }

  predicate Posts(pc: LoopPc) {
    pc.WantPost? || pc.HoldPost?
  }

  predicate Cancels(pc: LoopPc) {
    pc.CancelWant? || pc.CancelHold? || pc.CancelBoth?
  }

  predicate Requeues(pc: LoopPc) {
    pc.CancelMark? || pc.CancelPut? || pc.CancelPutting?
  }

  ghost predicate IsAt(place: map<Req, Place>, r: Req, p: Place) {
    r in place && place[r] == p
  }

  // The shared queues hold the requests whose place they are, each once.
  ghost predicate Queues(wq: seq<Item>, pending: seq<Req>, place: map<Req, Place>) {
    && NoDup(wq) && NoDup(pending)
    && (forall r :: Work(r) in wq <==> IsAt(place, r, InWq))
    && (forall r :: r in pending <==> IsAt(place, r, InSlow))
  }

  ghost predicate InBack(done: seq<seq<Req>>, local: seq<seq<Req>>, l: nat, r: Req)
    requires l < |done| == |local|
  {
    r in done[l] || r in local[l]
  }

  // A loop's two queues hold the requests that are on their way back to it, each once.
  ghost predicate Backs(done: seq<seq<Req>>, local: seq<seq<Req>>, place: map<Req, Place>, owner: map<Req, nat>) {
    && |done| == |local|
    && (forall r :: r in place ==> r in owner && owner[r] < |done|)
    && (forall l :: 0 <= l < |done| ==> NoDup(done[l] + local[l]))
    && (forall l, r :: 0 <= l < |done| ==>
          (InBack(done, local, l, r) <==> IsAt(place, r, Back) && owner[r] == l))
  }

  // Workers hold the requests whose place they are.
  ghost predicate WorkersHold(workers: seq<WorkerPc>, place: map<Req, Place>) {
    && (forall t :: 0 <= t < |workers| && Carries(workers[t]) ==> IsAt(place, workers[t].r, AtWorker(t)))
    && (forall r :: r in place && place[r].AtWorker? ==>
          var t := place[r].t; t < |workers| && Carries(workers[t]) && workers[t].r == r)
  }

  // So do the loop threads that submit or requeue a request.
  ghost predicate LoopsHold(pcs: seq<LoopPc>, place: map<Req, Place>, owner: map<Req, nat>) {
    && (forall r :: r in place ==> r in owner && owner[r] < |pcs|)
    && (forall l :: 0 <= l < |pcs| && Posts(pcs[l]) ==> IsAt(place, pcs[l].r, Submitting) && owner[pcs[l].r] == l)
    && (forall l :: 0 <= l < |pcs| && Requeues(pcs[l]) ==> IsAt(place, pcs[l].r, AtCanceller) && owner[pcs[l].r] == l)
    && (forall l :: 0 <= l < |pcs| && Cancels(pcs[l]) ==>
          pcs[l].r in place && owner[pcs[l].r] == l && place[pcs[l].r] !in {Submitting, AtCanceller, Finished})
    && (forall r :: IsAt(place, r, Submitting) ==> Posts(pcs[owner[r]]) && pcs[owner[r]].r == r)
    && (forall r :: IsAt(place, r, AtCanceller) ==> Requeues(pcs[owner[r]]) && pcs[owner[r]].r == r)
  }

  // What a request's fields say in each place; running and marking tell whether the worker is
  // still to call the work function and the canceller still to mark the request.
  ghost predicate RequestOk(q: Request, p: Place, running: bool, marking: bool) {
    match p
    case Submitting => q.work == Fn && !q.ran && q.dones == 0 && q.status == None
    case InWq => q.work == Fn && !q.ran && !q.unlinked && q.dones == 0 && q.status == None && !q.slow
    case InSlow => q.work == Fn && !q.ran && !q.unlinked && q.dones == 0 && q.status == None && q.slow
    case AtWorker(_) => q.work == Fn && q.unlinked && q.dones == 0 && q.status == None && (q.ran <==> !running)
    case AtCanceller =>
      q.work != Null && !q.ran && !q.unlinked && q.dones == 0 && q.status == None && (!marking ==> q.work == Cancelled)
    case Back => !q.unlinked && q.dones == 0 && q.status == None && q.work != Fn && (q.ran <==> q.work == Null)
    case Finished => q.dones == 1 && q.status == Some(if q.ran then Success else ECANCELED)
  }

  ghost predicate RunningAt(workers: seq<WorkerPc>, p: Place, r: Req) {
    p.AtWorker? && p.t < |workers| && workers[p.t].Running? && workers[p.t].r == r
  }

  ghost predicate MarkingAt(pcs: seq<LoopPc>, l: nat, r: Req) {
    l < |pcs| && pcs[l] == CancelMark(r)
  }

  ghost predicate Requests(reqs: map<Req, Request>, place: map<Req, Place>, owner: map<Req, nat>,
                           workers: seq<WorkerPc>, pcs: seq<LoopPc>) {
    && reqs.Keys == place.Keys == owner.Keys
    && forall r :: r in reqs ==>
      RequestOk(reqs[r], place[r], RunningAt(workers, place[r], r), MarkingAt(pcs, owner[r], r))
  }

  // mutex is held by the one thread whose program counter says so.
  ghost predicate MutexOk(mutex: Holder, workers: seq<WorkerPc>, pcs: seq<LoopPc>) {
    && (forall t :: 0 <= t < |workers| ==> (workers[t] == Top <==> mutex == ByWorker(t)))
    && (mutex.ByWorker? ==> mutex.t < |workers|)
    && (forall l :: 0 <= l < |pcs| ==>
      (pcs[l].HoldPost? || pcs[l].CancelHold? || pcs[l].CancelBoth? <==> mutex == ByLoop(l)))
    && (mutex.ByLoop? ==> mutex.l < |pcs|)
  }

  predicate HoldsOwnLock(pc: LoopPc) {
    pc.CancelBoth? || pc.CancelPutting? || pc.DoneHold?
  }

  // So is each loop's wq_mutex.
  ghost predicate LocksOk(locks: seq<Holder>, workers: seq<WorkerPc>, pcs: seq<LoopPc>, owner: map<Req, nat>) {
    && |locks| == |pcs|
    && (forall l :: 0 <= l < |pcs| ==> (HoldsOwnLock(pcs[l]) <==> locks[l] == ByLoop(l)))
    && (forall l :: 0 <= l < |pcs| && locks[l].ByLoop? ==> locks[l].l == l)
    && (forall l :: 0 <= l < |pcs| && locks[l].ByWorker? ==>
          var t := locks[l].t;
          t < |workers| && workers[t].HoldLoop? && workers[t].r in owner && owner[workers[t].r] == l)
    && (forall t :: 0 <= t < |workers| && workers[t].HoldLoop? ==>
          workers[t].r in owner && owner[workers[t].r] < |locks| && locks[owner[workers[t].r]] == ByWorker(t))
  }

  ghost predicate LocalOk(local: seq<seq<Req>>, pcs: seq<LoopPc>) {
    |local| == |pcs| && forall l :: 0 <= l < |pcs| && (pcs[l].DoneWant? || pcs[l].DoneHold?) ==> local[l] == []
  }

  predicate IsIdle(pc: WorkerPc) {
    pc == Waiting || pc == Woken
  }

  predicate OnSlow(pc: WorkerPc) {
    (Carries(pc) && pc.slow) || (pc.WantMutex? && pc.wasSlow)
  }

  ghost function Count(ws: seq<WorkerPc>, p: WorkerPc -> bool): nat {
    if ws == [] then 0 else Count(ws[1..], p) + if p(ws[0]) then 1 else 0
  }

  // idle_threads counts the workers that have incremented and not yet decremented it,
  // slow_io_work_running those on slow work.
  ghost predicate Counts(idle: int, slowRunning: int, ws: seq<WorkerPc>) {
    idle == Count(ws, IsIdle) && slowRunning == Count(ws, OnSlow)
  }

  ghost predicate SomeAwake(ws: seq<WorkerPc>) {
    exists t :: 0 <= t < |ws| && ws[t] != Waiting
  }

  ghost predicate Token(wq: seq<Item>, pending: seq<Req>, slowRunning: int, ws: seq<WorkerPc>) {
    && |ws| >= 1
    && slowRunning <= Threshold(|ws|)
    && (pending != [] ==> SlowMessage in wq)
    && (!WaitCond(wq, slowRunning, |ws|) ==> SomeAwake(ws))
  }

  ghost predicate Inv(s: Pool) {
    && Shape(s)
    && Queues(s.wq, s.pending, s.place)
    && Backs(s.done, s.local, s.place, s.owner)
    && WorkersHold(s.workers, s.place)
    && LoopsHold(s.loopPc, s.place, s.owner)
    && Requests(s.reqs, s.place, s.owner, s.workers, s.loopPc)
    && MutexOk(s.mutex, s.workers, s.loopPc)
    && LocksOk(s.locks, s.workers, s.loopPc, s.owner)
    && LocalOk(s.local, s.loopPc)
    && Counts(s.idle, s.slowRunning, s.workers)
    && Token(s.wq, s.pending, s.slowRunning, s.workers)
  }

  function Init(n: nat, loops: nat): Pool {
    Pool(Free, [], [], 0, 0, seq(n, i => WantMutex(false)), seq(loops, i => Idle), seq(loops, i => Free),
         seq(loops, i => []), seq(loops, i => []), map[], map[], map[])
  }

  // ---------- the queues ----------

  lemma QueuesOther(wq: seq<Item>, pending: seq<Req>, place: map<Req, Place>, r: Req, p: Place)
    requires Queues(wq, pending, place) && p !in {InWq, InSlow}
    requires !IsAt(place, r, InWq) && !IsAt(place, r, InSlow)
    ensures Queues(wq, pending, place[r := p])
  {
  }

  lemma QueuesPopWork(wq: seq<Item>, pending: seq<Req>, place: map<Req, Place>, p: Place)
    requires Queues(wq, pending, place) && wq != [] && wq[0].Work? && p !in {InWq, InSlow}
    ensures Queues(wq[1..], pending, place[wq[0].r := p]) && IsAt(place, wq[0].r, InWq)
  {
    NoDupPop(wq);
    assert Work(wq[0].r) in wq;
  }

  lemma QueuesPopToken(wq: seq<Item>, pending: seq<Req>, place: map<Req, Place>)
    requires Queues(wq, pending, place) && wq != [] && wq[0] == SlowMessage
    ensures SlowMessage !in wq[1..] && Queues(wq[1..], pending, place)
      && Queues(wq[1..] + [SlowMessage], pending, place)
  {
    NoDupPop(wq);
    NoDupPush(wq[1..], SlowMessage);
  }

  lemma QueuesPopPending(wq: seq<Item>, pending: seq<Req>, place: map<Req, Place>, p: Place)
    requires Queues(wq, pending, place) && pending != [] && p !in {InWq, InSlow}
    ensures Queues(wq, pending[1..], place[pending[0] := p]) && IsAt(place, pending[0], InSlow)
  {
    NoDupPop(pending);
    assert pending[0] in pending;
  }

  lemma QueuesPush(wq: seq<Item>, pending: seq<Req>, place: map<Req, Place>, r: Req)
    requires Queues(wq, pending, place) && !IsAt(place, r, InWq) && !IsAt(place, r, InSlow)
    ensures Queues(wq + [Work(r)], pending, place[r := InWq])
    ensures Queues(wq, pending + [r], place[r := InSlow])
    ensures SlowMessage !in wq ==> Queues(wq + [SlowMessage], pending + [r], place[r := InSlow])
  {
    NoDupPush(wq, Work(r));
    NoDupPush(pending, r);
    if SlowMessage !in wq {
      NoDupPush(wq, SlowMessage);
    }
  }

  lemma QueuesRemove(wq: seq<Item>, pending: seq<Req>, place: map<Req, Place>, r: Req, p: Place)
    requires Queues(wq, pending, place) && p !in {InWq, InSlow}
    ensures Queues(Without(wq, Work(r)), Without(pending, r), place[r := p])
  {
    WithoutIs(wq, Work(r));
    WithoutIs(pending, r);
  }

  // ---------- what a thread knows of the request it is about ----------

  lemma RequeuesKnown(s: Pool, l: nat)
    requires LoopsHold(s.loopPc, s.place, s.owner) && l < |s.loopPc| && Requeues(s.loopPc[l])
    ensures IsAt(s.place, s.loopPc[l].r, AtCanceller) && s.loopPc[l].r in s.owner && s.owner[s.loopPc[l].r] == l
  {
  }

  lemma PostsKnown(s: Pool, l: nat)
    requires LoopsHold(s.loopPc, s.place, s.owner) && l < |s.loopPc| && Posts(s.loopPc[l])
    ensures IsAt(s.place, s.loopPc[l].r, Submitting) && s.loopPc[l].r in s.owner && s.owner[s.loopPc[l].r] == l
  {
  }

  lemma CancelsKnown(s: Pool, l: nat)
    requires LoopsHold(s.loopPc, s.place, s.owner) && l < |s.loopPc| && Cancels(s.loopPc[l])
    ensures
      var r := s.loopPc[l].r;
      r in s.place && s.owner[r] == l && s.place[r] !in {Submitting, AtCanceller, Finished}
  {
  }

  lemma CarriesKnown(s: Pool, t: nat)
    requires WorkersHold(s.workers, s.place) && t < |s.workers| && Carries(s.workers[t])
    ensures IsAt(s.place, s.workers[t].r, AtWorker(t))
  {
  }

  lemma QueuesTurn(s: Pool, t: nat, wake: nat)
    requires Shape(s) && Queues(s.wq, s.pending, s.place) && t < |s.workers|
    ensures var u := Turn(s, t, wake); Queues(u.wq, u.pending, u.place)
  {
    hide Queues, Signal;
    if !WaitCond(s.wq, s.slowRunning, |s.workers|) {
      if s.wq[0] == SlowMessage {
        QueuesPopToken(s.wq, s.pending, s.place);
        if s.pending != [] {
          QueuesPopPending(s.wq[1..], s.pending, s.place, AtWorker(t));
          QueuesPopPending(s.wq[1..] + [SlowMessage], s.pending, s.place, AtWorker(t));
        }
      } else {
        QueuesPopWork(s.wq, s.pending, s.place, AtWorker(t));
      }
    }
  }

  lemma QueuesKept(s: Pool, st: Step)
    requires Inv(s) && Enabled(s, st)
    ensures var u := Apply(s, st); Queues(u.wq, u.pending, u.place)
  {
    hide Queues, Backs, WorkersHold, LoopsHold, Requests, MutexOk, LocksOk, LocalOk, Counts, Token, Without, Turn,
      WakeOk, Signal;
    match st
    case WTop(t, wake) => QueuesTurn(s, t, wake);
    case WPublish(t) =>
      CarriesKnown(s, t);
      QueuesOther(s.wq, s.pending, s.place, s.workers[t].r, Back);
    case LSubmit(l, r, slow) => QueuesOther(s.wq, s.pending, s.place, r, Submitting);
    case LPost(l, wake) =>
      PostsKnown(s, l);
      QueuesPush(s.wq, s.pending, s.place, s.loopPc[l].r);
    case LCancelCheck(l) => QueuesRemove(s.wq, s.pending, s.place, s.loopPc[l].r, AtCanceller);
    case LPut(l) =>
      RequeuesKnown(s, l);
      QueuesOther(s.wq, s.pending, s.place, s.loopPc[l].r, Back);
    case LDeliver(l) =>
      LocalBack(s, l, s.local[l][0]);
      QueuesOther(s.wq, s.pending, s.place, s.local[l][0], Finished);
    case _ =>
  }

  lemma LocalBack(s: Pool, l: nat, r: Req)
    requires Backs(s.done, s.local, s.place, s.owner) && l < |s.done| && (r in s.done[l] || r in s.local[l])
    ensures IsAt(s.place, r, Back) && s.owner[r] == l
  {
    assert InBack(s.done, s.local, l, r);
  }

  // ---------- the way back ----------

  lemma BacksOther(s: Pool, r: Req, p: Place)
    requires Backs(s.done, s.local, s.place, s.owner) && !IsAt(s.place, r, Back) && p != Back && r in s.place
    ensures Backs(s.done, s.local, s.place[r := p], s.owner)
  {
  }

  lemma BacksNew(s: Pool, r: Req, l: nat)
    requires Backs(s.done, s.local, s.place, s.owner) && r !in s.place && l < |s.done|
    ensures Backs(s.done, s.local, s.place[r := Submitting], s.owner[r := l])
  {
  }

  lemma BacksPush(s: Pool, r: Req)
    requires Backs(s.done, s.local, s.place, s.owner) && r in s.place && !IsAt(s.place, r, Back)
    ensures var l := s.owner[r]; Backs(s.done[l := s.done[l] + [r]], s.local, s.place[r := Back], s.owner)
  {
    var l := s.owner[r];
    assert !InBack(s.done, s.local, l, r);
    var a, b := s.done[l], s.local[l];
    assert NoDup(a + b) && r !in a + b;
    NoDupMiddle(a, r, b);
    var done, place := s.done[l := a + [r]], s.place[r := Back];
    forall k, x | 0 <= k < |done| ensures InBack(done, s.local, k, x) <==> IsAt(place, x, Back) && s.owner[x] == k {
      assert InBack(s.done, s.local, k, x) <==> IsAt(s.place, x, Back) && s.owner[x] == k;
    }
  }

  lemma BacksMove(s: Pool, l: nat)
    requires Backs(s.done, s.local, s.place, s.owner) && l < |s.done| && s.local[l] == []
    ensures Backs(s.done[l := []], s.local[l := s.done[l]], s.place, s.owner)
  {
    assert s.done[l] + s.local[l] == s.done[l] == [] + s.done[l];
    var done, local := s.done[l := []], s.local[l := s.done[l]];
    forall k, r | 0 <= k < |done| ensures InBack(done, local, k, r) <==> IsAt(s.place, r, Back) && s.owner[r] == k {
      assert InBack(s.done, s.local, k, r) <==> IsAt(s.place, r, Back) && s.owner[r] == k;
    }
  }

  lemma BacksDeliver(s: Pool, l: nat)
    requires Backs(s.done, s.local, s.place, s.owner) && l < |s.done| && s.local[l] != []
    ensures Backs(s.done, s.local[l := s.local[l][1..]], s.place[s.local[l][0] := Finished], s.owner)
  {
    var a, b := s.done[l], s.local[l];
    NoDupDrop(a, b);
    assert InBack(s.done, s.local, l, b[0]);
    var done, local, place := s.done, s.local[l := b[1..]], s.place[b[0] := Finished];
    forall k, r | 0 <= k < |done| ensures InBack(done, local, k, r) <==> IsAt(place, r, Back) && s.owner[r] == k {
      assert InBack(s.done, s.local, k, r) <==> IsAt(s.place, r, Back) && s.owner[r] == k;
    }
  }

  lemma BacksRemove(s: Pool, l: nat, r: Req, p: Place)
    requires Backs(s.done, s.local, s.place, s.owner) && r in s.place && s.owner[r] == l && p != Back
    ensures Backs(s.done[l := Without(s.done[l], r)], s.local[l := Without(s.local[l], r)], s.place[r := p], s.owner)
  {
    hide Without;
    var a, b := s.done[l], s.local[l];
    WithoutConcat(a, b, r);
    WithoutIs(a + b, r);
    NoDupParts(a, b);
    WithoutIs(a, r);
    WithoutIs(b, r);
    var done, local, place := s.done[l := Without(a, r)], s.local[l := Without(b, r)], s.place[r := p];
    forall k, x | 0 <= k < |done| ensures InBack(done, local, k, x) <==> IsAt(place, x, Back) && s.owner[x] == k {
      assert InBack(s.done, s.local, k, x) <==> IsAt(s.place, x, Back) && s.owner[x] == k;
    }
  }

  lemma BacksTurn(s: Pool, t: nat, wake: nat)
    requires Shape(s) && Queues(s.wq, s.pending, s.place) && Backs(s.done, s.local, s.place, s.owner) && t < |s.workers|
    ensures var u := Turn(s, t, wake); Backs(u.done, u.local, u.place, u.owner)
  {
    hide Queues, Backs, Signal;
    if !WaitCond(s.wq, s.slowRunning, |s.workers|) {
      if s.wq[0].Work? {
        QueuesPopWork(s.wq, s.pending, s.place, AtWorker(t));
        BacksOther(s, s.wq[0].r, AtWorker(t));
      } else if s.pending != [] {
        QueuesPopPending(s.wq, s.pending, s.place, AtWorker(t));
        BacksOther(s, s.pending[0], AtWorker(t));
      }
    }
  }

  lemma BacksKept(s: Pool, st: Step)
    requires Inv(s) && Enabled(s, st)
    ensures var u := Apply(s, st); Backs(u.done, u.local, u.place, u.owner)
  {
    hide Queues, Backs, WorkersHold, LoopsHold, Requests, MutexOk, LocksOk, Counts, Token, Without, Turn, WakeOk,
      Signal;
    match st
    case WTop(t, wake) => BacksTurn(s, t, wake);
    case WPublish(t) =>
      CarriesKnown(s, t);
      BacksPush(s, s.workers[t].r);
    case LSubmit(l, r, slow) => BacksNew(s, r, l);
    case LPost(l, wake) =>
      PostsKnown(s, l);
      BacksOther(s, s.loopPc[l].r, InWq);
      BacksOther(s, s.loopPc[l].r, InSlow);
    case LCancelCheck(l) =>
      CancelsKnown(s, l);
      BacksRemove(s, l, s.loopPc[l].r, AtCanceller);
    case LPut(l) =>
      RequeuesKnown(s, l);
      BacksPush(s, s.loopPc[l].r);
    case LDoneMove(l) => BacksMove(s, l);
    case LDeliver(l) => BacksDeliver(s, l);
    case _ =>
  }

  // ---------- what the threads hold ----------

  lemma WorkersPc(ws: seq<WorkerPc>, place: map<Req, Place>, t: nat, pc: WorkerPc)
    requires WorkersHold(ws, place) && t < |ws|
    requires if Carries(ws[t]) then Carries(pc) && pc.r == ws[t].r else !Carries(pc)
    ensures WorkersHold(ws[t := pc], place)
  {
  }

  lemma WorkersTake(ws: seq<WorkerPc>, place: map<Req, Place>, t: nat, pc: WorkerPc)
    requires WorkersHold(ws, place) && t < |ws| && !Carries(ws[t]) && Carries(pc)
    requires pc.r in place && !place[pc.r].AtWorker?
    ensures WorkersHold(ws[t := pc], place[pc.r := AtWorker(t)])
  {
  }

  lemma WorkersRelease(ws: seq<WorkerPc>, place: map<Req, Place>, t: nat, pc: WorkerPc, p: Place)
    requires WorkersHold(ws, place) && t < |ws| && Carries(ws[t]) && !Carries(pc) && !p.AtWorker?
    ensures WorkersHold(ws[t := pc], place[ws[t].r := p])
  {
  }

  lemma WorkersOther(ws: seq<WorkerPc>, place: map<Req, Place>, r: Req, p: Place)
    requires WorkersHold(ws, place) && !p.AtWorker? && (r in place ==> !place[r].AtWorker?)
    ensures WorkersHold(ws, place[r := p])
  {
  }

  lemma WorkersSignal(idle: int, ws: seq<WorkerPc>, place: map<Req, Place>, wake: nat)
    requires WorkersHold(ws, place)
    ensures WorkersHold(Signal(idle, ws, wake), place)
  {
    if wake < |ws| && ws[wake] == Waiting {
      WorkersPc(ws, place, wake, Woken);
    }
  }

  lemma WorkersHoldKept(s: Pool, st: Step)
    requires Inv(s) && Enabled(s, st)
    ensures var u := Apply(s, st); WorkersHold(u.workers, u.place)
  {
    hide Queues, Backs, WorkersHold, LoopsHold, Requests, MutexOk, LocksOk, LocalOk, Counts, Token, Without, Signal,
      Turn, WakeOk;
    match st
    case WLock(t) => WorkersPc(s.workers, s.place, t, Top);
    case WWake(t) => WorkersPc(s.workers, s.place, t, Top);
    case WSpurious(t) => WorkersPc(s.workers, s.place, t, Woken);
    case WTop(t, wake) => WorkersTurn(s, t, wake);
    case WRun(t) => WorkersPc(s.workers, s.place, t, WantLoop(s.workers[t].r, s.workers[t].slow));
    case WLoopLock(t) => WorkersPc(s.workers, s.place, t, HoldLoop(s.workers[t].r, s.workers[t].slow));
    case WPublish(t) => WorkersRelease(s.workers, s.place, t, WantMutex(s.workers[t].slow), Back);
    case LSubmit(l, r, slow) => WorkersOther(s.workers, s.place, r, Submitting);
    case LPost(l, wake) =>
      var r := s.loopPc[l].r;
      PostsKnown(s, l);
      WorkersOther(s.workers, s.place, r, InSlow);
      WorkersOther(s.workers, s.place, r, InWq);
      WorkersSignal(s.idle, s.workers, s.place[r := InSlow], wake);
      WorkersSignal(s.idle, s.workers, s.place[r := InWq], wake);
    case LCancelCheck(l) =>
      var r := s.loopPc[l].r;
      LinkedElsewhere(s, r);
      if !s.reqs[r].unlinked {
        WorkersOther(s.workers, s.place, r, AtCanceller);
      }
    case LPut(l) =>
      RequeuesKnown(s, l);
      WorkersOther(s.workers, s.place, s.loopPc[l].r, Back);
    case LDeliver(l) =>
      LocalBack(s, l, s.local[l][0]);
      WorkersOther(s.workers, s.place, s.local[l][0], Finished);
    case _ =>
  }

  // The test of the queue node in uv__work_cancel.
  lemma LinkedElsewhere(s: Pool, r: Req)
    requires Requests(s.reqs, s.place, s.owner, s.workers, s.loopPc) && r in s.reqs
    ensures !s.reqs[r].unlinked ==> !s.place[r].AtWorker?
  {
  }

  lemma WorkersTurn(s: Pool, t: nat, wake: nat)
    requires Shape(s) && WorkersHold(s.workers, s.place) && Queues(s.wq, s.pending, s.place) && t < |s.workers|
      && s.workers[t] == Top
    ensures var u := Turn(s, t, wake); WorkersHold(u.workers, u.place)
  {
    hide Queues, WorkersHold, Signal;
    if WaitCond(s.wq, s.slowRunning, |s.workers|) {
      WorkersPc(s.workers, s.place, t, Waiting);
    } else if s.wq[0].Work? {
      QueuesPopWork(s.wq, s.pending, s.place, AtWorker(t));
      WorkersTake(s.workers, s.place, t, Running(s.wq[0].r, false));
    } else if s.slowRunning < Threshold(|s.workers|) && s.pending != [] {
      var r := s.pending[0];
      QueuesPopPending(s.wq, s.pending, s.place, AtWorker(t));
      WorkersTake(s.workers, s.place, t, Running(r, true));
      WorkersSignal(s.idle, s.workers[t := Running(r, true)], s.place[r := AtWorker(t)], wake);
    }
  }

  lemma LoopsPlace(pcs: seq<LoopPc>, place: map<Req, Place>, owner: map<Req, nat>, r: Req, p: Place)
    requires LoopsHold(pcs, place, owner) && r in place
    requires place[r] !in {Submitting, AtCanceller} && p !in {Submitting, AtCanceller}
    requires p == Finished ==> !Cancels(pcs[owner[r]])
    ensures LoopsHold(pcs, place[r := p], owner)
  {
  }

  // A loop thread's next program counter concerns the request it holds, or it holds none.
  lemma LoopsPc(pcs: seq<LoopPc>, place: map<Req, Place>, owner: map<Req, nat>, l: nat, pc: LoopPc)
    requires LoopsHold(pcs, place, owner) && l < |pcs|
    requires Posts(pcs[l]) || Posts(pc) ==> Posts(pcs[l]) && Posts(pc) && pc.r == pcs[l].r
    requires Requeues(pcs[l]) || Requeues(pc) ==> Requeues(pcs[l]) && Requeues(pc) && pc.r == pcs[l].r
    requires Cancels(pc) ==> pc.r in place && owner[pc.r] == l && place[pc.r] !in {Submitting, AtCanceller, Finished}
    ensures LoopsHold(pcs[l := pc], place, owner)
  {
  }

  lemma LoopsSubmit(pcs: seq<LoopPc>, place: map<Req, Place>, owner: map<Req, nat>, l: nat, r: Req)
    requires LoopsHold(pcs, place, owner) && l < |pcs| && pcs[l] == Idle && r !in place
    ensures LoopsHold(pcs[l := WantPost(r)], place[r := Submitting], owner[r := l])
  {
  }

  // A loop thread lets go of the request it submits or requeues.
  lemma LoopsRelease(pcs: seq<LoopPc>, place: map<Req, Place>, owner: map<Req, nat>, l: nat, p: Place)
    requires LoopsHold(pcs, place, owner) && l < |pcs| && (Posts(pcs[l]) || Requeues(pcs[l]))
    requires p !in {Submitting, AtCanceller, Finished}
    ensures LoopsHold(pcs[l := Idle], place[pcs[l].r := p], owner)
  {
  }

  lemma LoopsCancelled(pcs: seq<LoopPc>, place: map<Req, Place>, owner: map<Req, nat>, l: nat)
    requires LoopsHold(pcs, place, owner) && l < |pcs| && Cancels(pcs[l])
    ensures LoopsHold(pcs[l := CancelMark(pcs[l].r)], place[pcs[l].r := AtCanceller], owner)
  {
  }

  lemma LoopsTurn(s: Pool, t: nat, wake: nat)
    requires Shape(s) && Queues(s.wq, s.pending, s.place) && LoopsHold(s.loopPc, s.place, s.owner) && t < |s.workers|
    ensures var u := Turn(s, t, wake); LoopsHold(u.loopPc, u.place, u.owner)
  {
    hide Queues, LoopsHold, Signal;
    if !WaitCond(s.wq, s.slowRunning, |s.workers|) {
      if s.wq[0].Work? {
        QueuesPopWork(s.wq, s.pending, s.place, AtWorker(t));
        LoopsPlace(s.loopPc, s.place, s.owner, s.wq[0].r, AtWorker(t));
      } else if s.pending != [] {
        QueuesPopPending(s.wq, s.pending, s.place, AtWorker(t));
        LoopsPlace(s.loopPc, s.place, s.owner, s.pending[0], AtWorker(t));
      }
    }
  }

  lemma LoopsHoldKeptWorker(s: Pool, st: Step)
    requires Inv(s) && FromWorker(st) && Enabled(s, st)
    ensures var u := Apply(s, st); LoopsHold(u.loopPc, u.place, u.owner)
  {
    hide Queues, Backs, WorkersHold, LoopsHold, Requests, MutexOk, LocksOk, LocalOk, Counts, Token, Without, Signal,
      Turn, WakeOk, LoopApply;
    match st
    case WTop(t, wake) => LoopsTurn(s, t, wake);
    case WPublish(t) =>
      CarriesKnown(s, t);
      LoopsPlace(s.loopPc, s.place, s.owner, s.workers[t].r, Back);
    case _ =>
  }

  lemma LoopsHoldKeptLoop(s: Pool, st: Step)
    requires Inv(s) && !FromWorker(st) && Enabled(s, st)
    ensures var u := Apply(s, st); LoopsHold(u.loopPc, u.place, u.owner)
  {
    hide Queues, Backs, WorkersHold, LoopsHold, Requests, MutexOk, LocksOk, LocalOk, Counts, Token, Without, Signal,
      Turn, WakeOk, WorkerApply;
    match st
    case LSubmit(l, r, slow) => LoopsSubmit(s.loopPc, s.place, s.owner, l, r);
    case LPostLock(l) => LoopsPc(s.loopPc, s.place, s.owner, l, HoldPost(s.loopPc[l].r));
    case LPost(l, wake) =>
      LoopsRelease(s.loopPc, s.place, s.owner, l, InWq);
      LoopsRelease(s.loopPc, s.place, s.owner, l, InSlow);
    case LCancel(l, r) =>
      Cancellable(s, l, r);
      LoopsPc(s.loopPc, s.place, s.owner, l, CancelWant(r));
    case LCancelLock(l) =>
      CancelsKnown(s, l);
      LoopsPc(s.loopPc, s.place, s.owner, l, CancelHold(s.loopPc[l].r));
    case LCancelLock2(l) =>
      CancelsKnown(s, l);
      LoopsPc(s.loopPc, s.place, s.owner, l, CancelBoth(s.loopPc[l].r));
    case LCancelCheck(l) =>
      LoopsCancelled(s.loopPc, s.place, s.owner, l);
      LoopsPc(s.loopPc, s.place, s.owner, l, Idle);
    case LCancelMark(l) => LoopsPc(s.loopPc, s.place, s.owner, l, CancelPut(s.loopPc[l].r));
    case LPutLock(l) => LoopsPc(s.loopPc, s.place, s.owner, l, CancelPutting(s.loopPc[l].r));
    case LPut(l) => LoopsRelease(s.loopPc, s.place, s.owner, l, Back);
    case LDoneStart(l) => LoopsPc(s.loopPc, s.place, s.owner, l, DoneWant);
    case LDoneLock(l) => LoopsPc(s.loopPc, s.place, s.owner, l, DoneHold);
    case LDoneMove(l) => LoopsPc(s.loopPc, s.place, s.owner, l, Idle);
    case LDeliver(l) =>
      LocalBack(s, l, s.local[l][0]);
      LoopsPlace(s.loopPc, s.place, s.owner, s.local[l][0], Finished);
  }

  lemma LoopsHoldKept(s: Pool, st: Step)
    requires Inv(s) && Enabled(s, st)
    ensures var u := Apply(s, st); LoopsHold(u.loopPc, u.place, u.owner)
  {
    hide *;
    if FromWorker(st) {
      LoopsHoldKeptWorker(s, st);
    } else {
      LoopsHoldKeptLoop(s, st);
    }
  }

  // An idle loop thread submits and requeues nothing, so a request of its own that is not done is elsewhere.
  lemma Cancellable(s: Pool, l: nat, r: Req)
    requires Requests(s.reqs, s.place, s.owner, s.workers, s.loopPc) && LoopsHold(s.loopPc, s.place, s.owner)
    requires l < |s.loopPc| && s.loopPc[l] == Idle && r in s.reqs && s.owner[r] == l && s.reqs[r].dones == 0
    ensures s.place[r] !in {Submitting, AtCanceller, Finished}
  {
  }
}
