/** In which order a loop of src/threadpool.c calls the done functions of its requests. */
module ThreadPoolDone {
  import opened Common
  import opened ThreadPool
  import opened ThreadPoolSafety
  import opened ThreadPoolCancel
  import opened ThreadPoolOrder

  // The requests that are on their way back to loop l: those that its run of uv__work_done has taken,
  // and those that workers and cancellers have added since.
  ghost function Line(s: Pool, l: nat): seq<Req>
    requires l < |s.local| && l < |s.done|
  {
    s.local[l] + s.done[l]
  }

  // A request joins the line at its end, and leaves it at its front to be told, or anywhere when it is
  // cancelled once more.
  ghost predicate Moves(s: Pool, st: Step, u: Pool, l: nat)
    requires Shape(s) && Shape(u) && Enabled(s, st) && l < |s.loopPc| && l < |u.loopPc|
  {
    match st
    case WPublish(t) =>
      var r := s.workers[t].r;
      Line(u, l) == Line(s, l) + if s.owner[r] == l then [r] else []
    case LPut(k) => Line(u, l) == Line(s, l) + if k == l then [s.loopPc[k].r] else []
    case LDeliver(k) =>
      if k == l then Line(s, l) == [s.local[k][0]] + Line(u, l) else Line(u, l) == Line(s, l)
    case LCancelCheck(k) =>
      Line(u, l) == if k == l && u.loopPc[k] != Idle then Without(Line(s, l), s.loopPc[k].r) else Line(s, l)
    case _ => Line(u, l) == Line(s, l)
  }

  lemma TurnLoops(s: Pool, t: nat, wake: nat)
    requires t < |s.workers| && Shape(s)
    ensures var u := Turn(s, t, wake); u.loopPc == s.loopPc && u.local == s.local && u.done == s.done
  {
    hide Signal;
  }

  lemma PostLoops(s: Pool, l: nat, r: Req, wake: nat)
    requires l < |s.loopPc| && r in s.reqs
    ensures var u := Post(s, l, r, wake); |u.loopPc| == |s.loopPc| && u.local == s.local && u.done == s.done
  {
    hide Signal;
  }

  lemma LengthsWorker(s: Pool, st: Step)
    requires Enabled(s, st) && FromWorker(st)
    ensures |Apply(s, st).loopPc| == |s.loopPc|
  {
    hide LoopApply, Turn, Signal, WakeOk;
    if st.WTop? {
      TurnLoops(s, st.t, st.wake);
    }
  }

  lemma LengthsLoop(s: Pool, st: Step)
    requires Enabled(s, st) && !FromWorker(st)
    ensures |Apply(s, st).loopPc| == |s.loopPc|
  {
    hide WorkerApply, Post, Without, Delivered, WakeOk;
    if st.LPost? {
      PostLoops(s, st.l, s.loopPc[st.l].r, st.wake);
    }
  }

  lemma Lengths(s: Pool, st: Step)
    requires Inv(s) && Enabled(s, st)
    ensures Inv(Apply(s, st)) && |Apply(s, st).loopPc| == |s.loopPc|
  {
    hide Inv, Enabled, Apply;
    InvKept(s, st);
    if FromWorker(st) {
      LengthsWorker(s, st);
    } else {
      LengthsLoop(s, st);
    }
  }

  lemma LineWithout(a: seq<Req>, b: seq<Req>, r: Req)
    ensures Without(a, r) + Without(b, r) == Without(a + b, r)
  {
    WithoutConcat(a, b, r);
  }

  lemma WorkerMoves(s: Pool, st: Step, l: nat)
    requires Inv(s) && Enabled(s, st) && FromWorker(st) && Shape(Apply(s, st))
    requires l < |s.loopPc| == |Apply(s, st).loopPc|
    ensures Moves(s, st, Apply(s, st), l)
  {
    hide Inv, Signal, Turn, WakeOk, LoopApply;
    match st
    case WTop(t, wake) => TurnLoops(s, t, wake);
    case WPublish(t) => assert s.local[l] + (s.done[l] + [s.workers[t].r]) == Line(s, l) + [s.workers[t].r];
    case _ =>
  }

  lemma CheckMoves(s: Pool, k: nat, l: nat)
    requires Inv(s) && Enabled(s, LCancelCheck(k)) && Shape(Apply(s, LCancelCheck(k)))
    requires l < |s.loopPc| == |Apply(s, LCancelCheck(k)).loopPc|
    ensures Moves(s, LCancelCheck(k), Apply(s, LCancelCheck(k)), l)
  {
    hide Inv, Signal, Without, Turn, WakeOk, WorkerApply;
    LineWithout(s.local[l], s.done[l], s.loopPc[k].r);
  }

  lemma MoveMoves(s: Pool, k: nat, l: nat)
    requires Inv(s) && Enabled(s, LDoneMove(k)) && Shape(Apply(s, LDoneMove(k)))
    requires l < |s.loopPc| == |Apply(s, LDoneMove(k)).loopPc|
    ensures Moves(s, LDoneMove(k), Apply(s, LDoneMove(k)), l)
  {
    hide Queues, Backs, WorkersHold, LoopsHold, Requests, MutexOk, LocksOk, Counts, Token, WakeOk, WorkerApply;
    assert [] + s.done[k] == s.done[k] + [];
  }

  lemma LoopMoves(s: Pool, st: Step, l: nat)
    requires Inv(s) && Enabled(s, st) && !FromWorker(st) && Shape(Apply(s, st))
    requires l < |s.loopPc| == |Apply(s, st).loopPc|
    ensures Moves(s, st, Apply(s, st), l)
  {
    hide Inv, WakeOk, WorkerApply, Without, Delivered, Post;
    match st
    case LPost(k, wake) => PostLoops(s, k, s.loopPc[k].r, wake);
    case LPut(k) => assert s.local[l] + (s.done[l] + [s.loopPc[k].r]) == Line(s, l) + [s.loopPc[k].r];
    case LCancelCheck(k) => CheckMoves(s, k, l);
    case LDoneMove(k) => MoveMoves(s, k, l);
    case LDeliver(k) => assert s.local[k] == [s.local[k][0]] + s.local[k][1..];
    case _ =>
  }

  lemma LineMoves(s: Pool, st: Step, l: nat)
    requires Inv(s) && Enabled(s, st) && l < |s.loopPc|
    ensures Shape(Apply(s, st)) && l < |Apply(s, st).loopPc| && Moves(s, st, Apply(s, st), l)
  {
    hide Inv, Enabled, Apply, Moves;
    Lengths(s, st);
    Shaped(Apply(s, st));
    if FromWorker(st) {
      WorkerMoves(s, st, l);
    } else {
      LoopMoves(s, st, l);
    }
  }

  lemma Shaped(s: Pool)
    requires Inv(s)
    ensures Shape(s)
  {
  }

  // ---------- who is told when ----------

  ghost predicate Told(s: Pool, r: Req) {
    r in s.reqs && s.reqs[r].dones > 0
  }

  // Nobody is forgotten, no loop gives a request away, and only delivering the first of a loop's queue
  // tells a request.
  lemma Kept(s: Pool, st: Step, r: Req)
    requires Enabled(s, st) && r in s.reqs
    ensures
      var u := Apply(s, st);
      && r in u.reqs && r in u.owner && u.owner[r] == s.owner[r]
      && u.reqs[r].dones == s.reqs[r].dones + if st.LDeliver? && s.local[st.l][0] == r then 1 else 0
  {
    hide Signal, Without, WakeOk, Turn, Post;
    if st.WTop? {
      TurnDones(s, st.t, st.wake, r);
    } else if st.LPost? {
      PostDones(s, st.l, s.loopPc[st.l].r, st.wake, r);
    }
  }

  lemma TurnDones(s: Pool, t: nat, wake: nat, r: Req)
    requires t < |s.workers| && Shape(s) && r in s.reqs
    ensures var u := Turn(s, t, wake); r in u.reqs && u.owner == s.owner && u.reqs[r].dones == s.reqs[r].dones
  {
    hide Signal;
  }

  lemma PostDones(s: Pool, l: nat, x: Req, wake: nat, r: Req)
    requires l < |s.loopPc| && x in s.reqs && r in s.reqs
    ensures var u := Post(s, l, x, wake); r in u.reqs && u.owner == s.owner && u.reqs[r].dones == s.reqs[r].dones
  {
    hide Signal;
  }

  // Who stands in a loop's line is a request of this loop that was not told.
  lemma InLine(s: Pool, l: nat, r: Req)
    requires Inv(s) && l < |s.loopPc|
    ensures NoDup(Line(s, l))
    ensures r in Line(s, l) ==> r in s.reqs && s.owner[r] == l && s.reqs[r].dones == 0
  {
    hide Queues, WorkersHold, LoopsHold, MutexOk, LocksOk, LocalOk, Counts, Token;
    NoDupTurned(s.done[l], s.local[l]);
    assert r in Line(s, l) ==> InBack(s.done, s.local, l, r);
    assert r in Line(s, l) ==> RequestOk(s.reqs[r], s.place[r], RunningAt(s.workers, s.place[r], r),
        MarkingAt(s.loopPc, s.owner[r], r));
  }

  lemma NoDupTurned(a: seq<Req>, b: seq<Req>)
    requires NoDup(a + b)
    ensures NoDup(b + a)
  {
    var s, u := a + b, b + a;
    assert forall i :: 0 <= i < |u| ==> u[i] == s[if i < |b| then |a| + i else i - |b|];
  }

  // Request q is to be told before r.
  ghost predicate Precedes(s: Pool, l: nat, q: Req, r: Req)
    requires l < |s.local| && l < |s.done|
  {
    && q in Line(s, l) && r in s.reqs && r in s.owner && s.owner[r] == l && s.reqs[r].dones == 0
    && (r in Line(s, l) ==> Ahead(Line(s, l), q, r))
  }

  lemma AheadLast(s: seq<Req>, a: Req, b: Req)
    requires a in s
    ensures Ahead(s + [b], a, b)
  {
    var i :| 0 <= i < |s| && s[i] == a;
    assert (s + [b])[i] == a && (s + [b])[|s|] == b;
  }

  lemma Joins(s: seq<Req>, q: Req, r: Req, x: Req)
    requires q in s && (r in s ==> Ahead(s, q, r))
    ensures q in s + [x] && (r in s + [x] ==> Ahead(s + [x], q, r))
  {
    if r in s {
      AheadMore(s, q, r, x);
    } else if x == r {
      AheadLast(s, q, r);
    }
  }

  lemma Leaves(s: seq<Req>, u: seq<Req>, h: Req, q: Req, r: Req)
    requires NoDup(s) && s == [h] + u && q in s && h != q && q != r && (r in s ==> Ahead(s, q, r))
    ensures q in u && h != r && (r in u ==> Ahead(u, q, r))
  {
    assert u == s[1..];
    if r in s {
      AheadRest(s, q, r);
      AheadIn(u, q, r);
      NoDupPop(s);
    }
  }

  lemma Drops(s: seq<Req>, x: Req, q: Req, r: Req)
    requires NoDup(s) && q in s && x != q && (r in s ==> Ahead(s, q, r))
    ensures q in Without(s, x) && (r in Without(s, x) ==> Ahead(Without(s, x), q, r))
  {
    hide Ahead;
    WithoutIs(s, x);
    if r in Without(s, x) {
      AheadWithout(s, q, r, x);
    }
  }

  // It stays so until q is told or cancelled.
  lemma PrecedesStep(s: Pool, st: Step, l: nat, q: Req, r: Req)
    requires Inv(s) && Enabled(s, st) && l < |s.loopPc| && l < |s.local| && l < |s.done|
    requires Precedes(s, l, q, r) && q != r && !Accepts(s, st, q)
    ensures
      var u := Apply(s, st);
      l < |u.loopPc| && l < |u.local| && l < |u.done| && (Told(u, q) || Precedes(u, l, q, r))
  {
    hide Inv, Ahead, Without, Apply, WakeOk;
    var u := Apply(s, st);
    Lengths(s, st);
    LineMoves(s, st, l);
    InLine(s, l, q);
    Kept(s, st, q);
    Kept(s, st, r);
    var a := Line(s, l);
    assert a + [] == a;
    match st
    case WPublish(t) => Joins(a, q, r, s.workers[t].r);
    case LPut(k) => Joins(a, q, r, s.loopPc[k].r);
    case LDeliver(k) =>
      InLine(s, k, s.local[k][0]);
      assert s.local[k][0] in Line(s, k);
      if k == l && s.local[k][0] != q {
        Leaves(a, Line(u, l), s.local[k][0], q, r);
      }
    case LCancelCheck(k) =>
      if k == l && u.loopPc[k] != Idle {
        Drops(a, s.loopPc[k].r, q, r);
      }
    case _ =>
  }

  // Of two requests of a loop, the one that is put first into its queue is told first, unless it is
  // cancelled once more: a request that was already in the queue when the other was not, or stood behind
  // it, has been told when the other has.
  lemma {:induction false} FirstDoneFirstTold(s: Pool, steps: seq<Step>, e: Pool, l: nat, q: Req, r: Req)
    requires Inv(s) && Goes(s, steps, e) && l < |s.loopPc| && l < |s.local| && l < |s.done| && q != r
    requires Precedes(s, l, q, r) || Told(s, q)
    requires !Accepted(s, steps, q)
    ensures Told(e, r) ==> Told(e, q)
    decreases |steps|
  {
    hide Inv, Apply, Precedes, Enabled, Accepts;
    if steps == [] {
      if Precedes(s, l, q, r) {
        NotTold(s, l, q, r);
      }
    } else {
      Lengths(s, steps[0]);
      var u := Apply(s, steps[0]);
      if Told(s, q) {
        Kept(s, steps[0], q);
      } else {
        PrecedesStep(s, steps[0], l, q, r);
      }
      Shaped(u);
      FirstDoneFirstTold(u, steps[1..], e, l, q, r);
    }
  }

  lemma NotTold(s: Pool, l: nat, q: Req, r: Req)
    requires l < |s.local| && l < |s.done| && Precedes(s, l, q, r)
    ensures !Told(s, r)
  {
  }
}
