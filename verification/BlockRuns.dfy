/** Runs of the scheduler: eight workers, a condition variable, callers and cancellers, one atomic step
    for every section the code runs with the mutex held, and one for processing a request without it. */
module BlockRuns {
  import opened Words
  import opened Queues
  import opened BlockIf

  type Thread = w: nat | w < BLOCKIF_NUMTHR

  /** Where a worker is: about to take the mutex, waiting on the condition variable, processing an
      element, done processing it but not yet holding the mutex, or gone. */
  datatype Worker = Awake | Asleep | Working(be: Slot) | Finished(be: Slot) | Exited

  type Workers = ws: seq<Worker> | |ws| == BLOCKIF_NUMTHR
    witness seq(BLOCKIF_NUMTHR, _ => Awake)

  type Serials = ns: seq<nat> | |ns| == BLOCKIF_MAXREQ
    witness seq(BLOCKIF_MAXREQ, _ => 0)

  datatype Fate = CalledBack | Dropped

  /** `serial` numbers the request an element holds, in order of acceptance; `next` is the number of
      requests accepted, and `log` tells what became of those whose fate is settled. */
  datatype Sys = Sys(s: Sched, ws: Workers, closing: bool, serial: Serials, next: nat, log: seq<(nat, Fate)>) {

    predicate Live(e: Slot) { s.reqs[e].status != Free }

    predicate Waiting(e: Slot) { s.reqs[e].status == Block || s.reqs[e].status == Pend }

    predicate Unsettled(e: Slot) { Waiting(e) || s.reqs[e].status == Busy }

    predicate AllExited() { forall w: Thread :: ws[w] == Exited }
  }

  datatype Step =
    | Request(req: Req, op: Op, woken: Thread)
    | Turn(w: Thread)
    | Process(w: Thread)
    | Complete(w: Thread)
    | Cancel(ptr: nat)
    | Wake(w: Thread)
    | Close

  predicate Initial(y: Sys) {
    && y.s.reqs == seq(BLOCKIF_MAXREQ, _ => Elem(None, Read, Free, 0, 0))
    && y.s.pendq == y.s.busyq == [] && |y.s.freeq| == BLOCKIF_MAXREQ
    && (forall k :: 0 <= k < BLOCKIF_MAXREQ ==> y.s.freeq[k] == BLOCKIF_MAXREQ - 1 - k)
    && (forall w: Thread :: y.ws[w] == Awake) && !y.closing
    && y.next == 0 && y.log == []
  }

  /** Callers may act until the last worker has gone, for then the context is freed. A signal wakes a
      sleeping worker if there is one. `Wake` is a spurious wake-up. */
  predicate Enabled(y: Sys, st: Step) {
    match st
    case Request(_, _, woken) => !y.AllExited() && ((exists w: Thread :: y.ws[w] == Asleep) ==> y.ws[woken] == Asleep)
    case Turn(w) => y.ws[w] == Awake
    case Process(w) => y.ws[w].Working?
    case Complete(w) => y.ws[w].Finished?
    case Cancel(_) => !y.AllExited()
    case Wake(w) => y.ws[w] == Asleep
    case Close => !y.closing
  }

  function Broadcast(ws: Workers): Workers {
    seq(BLOCKIF_NUMTHR, w requires 0 <= w < BLOCKIF_NUMTHR => if ws[w] == Asleep then Awake else ws[w])
  }

  function Apply(y: Sys, st: Step): Sys
    requires Enabled(y, st)
  {
    match st
    case Request(req, op, woken) =>
      if |y.s.freeq| == 0 then y
      else
        var ws := if !y.s.EndsAt(req.offset) && y.ws[woken] == Asleep then y.ws[woken := Awake] else y.ws;
        y.(s := y.s.Enqueued(req, op), ws := ws, serial := y.serial[y.s.freeq[0] := y.next], next := y.next + 1)
    case Turn(w) =>
      if y.s.FirstReady(0) < |y.s.pendq| then
        y.(s := y.s.Dequeued(w), ws := y.ws[w := Working(y.s.pendq[y.s.FirstReady(0)])])
      else if y.closing then y.(ws := y.ws[w := Exited])
      else y.(ws := y.ws[w := Asleep])
    case Process(w) =>
      var be := y.ws[w].be;
      y.(s := y.s.Processed(be), ws := y.ws[w := Finished(be)], log := y.log + [(y.serial[be], CalledBack)])
    case Complete(w) =>
      y.(s := y.s.Completed(y.ws[w].be), ws := y.ws[w := Awake])
    case Cancel(ptr) =>
      var k := y.s.FirstAt(y.s.pendq, ptr, 0);
      if k < |y.s.pendq| then
        y.(s := y.s.Completed(y.s.pendq[k]), log := y.log + [(y.serial[y.s.pendq[k]], Dropped)])
      else y
    case Wake(w) => y.(ws := y.ws[w := Awake])
    case Close => y.(closing := true, ws := Broadcast(y.ws))
  }

  /** Busy elements and the workers processing them name each other. */
  ghost predicate Matched(y: Sys) {
    && (forall w: Thread :: y.ws[w].Working? ==>
         var e := y.s.reqs[y.ws[w].be]; e.status == Busy && e.tid == w)
    && (forall w: Thread :: y.ws[w].Finished? ==>
         var e := y.s.reqs[y.ws[w].be]; e.status == Done && e.tid == w)
    && (forall e: Slot :: y.s.reqs[e].status == Busy ==>
         y.s.reqs[e].tid < BLOCKIF_NUMTHR && y.ws[y.s.reqs[e].tid] == Working(e))
    && (forall e: Slot :: y.s.reqs[e].status == Done ==>
         y.s.reqs[e].tid < BLOCKIF_NUMTHR && y.ws[y.s.reqs[e].tid] == Finished(e))
  }

  /** The pending request at position `k` waits for one that is busy or ahead of it. */
  ghost predicate HasBlocker(s: Sched, k: nat)
    requires k < |s.pendq|
  {
    || (exists j :: 0 <= j < k && s.StartsAt(s.pendq[k], s.reqs[s.pendq[j]].block))
    || (exists e :: e in s.busyq && s.StartsAt(s.pendq[k], s.reqs[e].block))
  }

  ghost predicate Blocked(s: Sched) {
    forall k :: 0 <= k < |s.pendq| && s.reqs[s.pendq[k]].status == Block ==> HasBlocker(s, k)
  }

  predicate Active(w: Worker) {
    w.Awake? || w.Working? || w.Finished?
  }

  /** Pending work means that some worker is not asleep. */
  ghost predicate Attended(y: Sys) {
    y.s.pendq != [] ==> exists w: Thread :: Active(y.ws[w])
  }

  /** Once closing, no worker sleeps any more; before, none has gone. */
  ghost predicate Closing(y: Sys) {
    forall w: Thread :: if y.closing then y.ws[w] != Asleep else y.ws[w] != Exited
  }

  predicate Logged(log: seq<(nat, Fate)>, n: nat) {
    exists k :: 0 <= k < |log| && log[k].0 == n
  }

  predicate LoggedOnce(log: seq<(nat, Fate)>) {
    forall i, j :: 0 <= i < j < |log| ==> log[i].0 != log[j].0
  }

  /** Every accepted request either is held, unsettled, by exactly one element, or is logged once. */
  ghost predicate Accounted(y: Sys) {
    && (forall e: Slot :: y.Live(e) ==> y.serial[e] < y.next)
    && (forall e: Slot, f: Slot :: e != f && y.Live(e) && y.Live(f) ==> y.serial[e] != y.serial[f])
    && (forall k :: 0 <= k < |y.log| ==> y.log[k].0 < y.next)
    && LoggedOnce(y.log)
    && (forall e: Slot :: y.Unsettled(e) ==> !Logged(y.log, y.serial[e]))
    && (forall e: Slot :: y.Live(e) && !y.Unsettled(e) ==> Logged(y.log, y.serial[e]))
    && (forall n: nat :: n < y.next && !Logged(y.log, n) ==> Held(y, n))
  }

  ghost predicate Held(y: Sys, n: nat) {
    exists e: Slot :: y.Unsettled(e) && y.serial[e] == n
  }

  ghost predicate Inv(y: Sys) {
    y.s.Valid() && Matched(y) && Blocked(y.s) && Attended(y) && Closing(y) && Accounted(y)
  }

  lemma InitialInv(y: Sys)
    requires Initial(y)
    ensures Inv(y)
  {
    forall i: Slot
      ensures i in y.s.freeq
    {
      assert y.s.freeq[BLOCKIF_MAXREQ - 1 - i] == i;
    }
  }

  /** Element `i` after another one, `be`, has been completed. */
  function Released(s: Sched, be: Slot, i: Slot): Elem {
    if i in s.pendq && s.StartsAt(i, s.reqs[be].block) then s.reqs[i].(status := Pend) else s.reqs[i]
  }

  /** What completing an element does to the others. */
  lemma CompletedOthers(s: Sched, be: Slot)
    requires s.Valid() && s.reqs[be].status != Free
    ensures var t := s.Completed(be);
      && t.Valid() && t.reqs[be].status == Free
      && (forall i: Slot :: i != be ==> t.reqs[i] == Released(s, be, i))
  {
    CompletedValid(s, be);
    RemoveKeeps(s.pendq, be);
  }

  lemma StepValid(y: Sys, st: Step)
    requires Inv(y) && Enabled(y, st)
    ensures Apply(y, st).s.Valid()
  {
    match st
    case Request(req, op, _) => if |y.s.freeq| > 0 { EnqueuedValid(y.s, req, op); }
    case Turn(w) => if y.s.FirstReady(0) < |y.s.pendq| { DequeuedValid(y.s, w); }
    case Complete(w) => CompletedValid(y.s, y.ws[w].be);
    case Cancel(ptr) =>
      var k := y.s.FirstAt(y.s.pendq, ptr, 0);
      if k < |y.s.pendq| {
        assert y.s.pendq[k] in y.s.pendq;
        CompletedValid(y.s, y.s.pendq[k]);
      }
    case _ =>
  }

  /** Freeing an element and making waiting ones ready keeps the others matched with their workers. */
  lemma FreedMatched(y: Sys, z: Sys, be: Slot)
    requires Matched(y) && y.Live(be) && z.s.reqs[be].status == Free
    requires forall i: Slot :: i != be ==> z.s.reqs[i] == y.s.reqs[i] || (y.Waiting(i) && z.Waiting(i))
    requires y.Waiting(be) ==> z.ws == y.ws
    requires !y.Waiting(be) ==> y.s.reqs[be].tid < BLOCKIF_NUMTHR && z.ws == y.ws[y.s.reqs[be].tid := Awake]
    ensures Matched(z)
  {
  }

  lemma CompletedMatched(y: Sys, be: Slot, ws: Workers, log: seq<(nat, Fate)>)
    requires y.s.Valid() && Matched(y) && y.Live(be)
    requires y.Waiting(be) ==> ws == y.ws
    requires !y.Waiting(be) ==> y.s.reqs[be].tid < BLOCKIF_NUMTHR && ws == y.ws[y.s.reqs[be].tid := Awake]
    ensures Matched(y.(s := y.s.Completed(be), ws := ws, log := log))
  {
    CompletedOthers(y.s, be);
    assert forall i: Slot :: i in y.s.pendq ==> y.Waiting(i);
    FreedMatched(y, y.(s := y.s.Completed(be), ws := ws, log := log), be);
  }

  lemma TurnMatched(y: Sys, w: Thread)
    requires Inv(y) && Enabled(y, Turn(w))
    ensures Matched(Apply(y, Turn(w)))
  {
    if y.s.FirstReady(0) < |y.s.pendq| {
      assert y.s.pendq[y.s.FirstReady(0)] in y.s.pendq;
    }
  }

  lemma RequestMatched(y: Sys, req: Req, op: Op, woken: Thread)
    requires Inv(y) && Enabled(y, Request(req, op, woken))
    ensures Matched(Apply(y, Request(req, op, woken)))
  {
    if |y.s.freeq| > 0 {
      assert y.s.freeq[0] in y.s.freeq;
    }
  }

  lemma CancelMatched(y: Sys, ptr: nat)
    requires Inv(y) && Enabled(y, Cancel(ptr))
    ensures Matched(Apply(y, Cancel(ptr)))
  {
    var k := y.s.FirstAt(y.s.pendq, ptr, 0);
    if k < |y.s.pendq| {
      assert y.s.pendq[k] in y.s.pendq;
      CompletedMatched(y, y.s.pendq[k], y.ws, Apply(y, Cancel(ptr)).log);
    }
  }

  lemma ProcessMatched(y: Sys, w: Thread)
    requires Inv(y) && Enabled(y, Process(w))
    ensures Matched(Apply(y, Process(w)))
  {
  }

  /** Sleeping, waking and leaving concern no element. */
  lemma QuietMatched(y: Sys, z: Sys)
    requires Matched(y) && z.s == y.s
    requires forall w: Thread :: y.ws[w].Working? || y.ws[w].Finished? ==> z.ws[w] == y.ws[w]
    requires forall w: Thread :: z.ws[w].Working? || z.ws[w].Finished? ==> z.ws[w] == y.ws[w]
    ensures Matched(z)
  {
  }

  lemma StepMatched(y: Sys, st: Step)
    requires Inv(y) && Enabled(y, st)
    ensures Matched(Apply(y, st))
  {
    match st
    case Request(req, op, woken) => RequestMatched(y, req, op, woken);
    case Turn(w) => TurnMatched(y, w);
    case Process(w) => ProcessMatched(y, w);
    case Complete(w) => CompletedMatched(y, y.ws[w].be, y.ws[w := Awake], y.log);
    case Cancel(ptr) => CancelMatched(y, ptr);
    case Wake(_) => QuietMatched(y, Apply(y, st));
    case Close => QuietMatched(y, Apply(y, st));
  }

  lemma EnqueuedBlocked(s: Sched, req: Req, op: Op)
    requires s.Valid() && Blocked(s) && |s.freeq| > 0
    ensures Blocked(s.Enqueued(req, op))
  {
    var t := s.Enqueued(req, op);
    var be := s.freeq[0];
    assert be in s.freeq;
    forall k | 0 <= k < |t.pendq| && t.reqs[t.pendq[k]].status == Block
      ensures HasBlocker(t, k)
    {
      if k < |s.pendq| {
        assert s.pendq[k] in s.pendq && HasBlocker(s, k);
        if j :| 0 <= j < k && s.StartsAt(s.pendq[k], s.reqs[s.pendq[j]].block) {
          assert s.pendq[j] in s.pendq;
          assert t.StartsAt(t.pendq[k], t.reqs[t.pendq[j]].block);
        } else {
          var e :| e in s.busyq && s.StartsAt(s.pendq[k], s.reqs[e].block);
          assert e in t.busyq && t.StartsAt(t.pendq[k], t.reqs[e].block);
        }
      } else {
        assert s.EndsAt(req.offset);
        if e :| e in s.pendq && s.reqs[e].block == req.offset {
          var j :| 0 <= j < |s.pendq| && s.pendq[j] == e;
          assert t.StartsAt(t.pendq[k], t.reqs[t.pendq[j]].block);
        } else {
          var e :| e in s.busyq && s.reqs[e].block == req.offset;
          assert e in t.busyq && t.StartsAt(t.pendq[k], t.reqs[e].block);
        }
      }
    }
  }

  /** Taking one element out of `pendq` keeps the blockers of the others, if the element went to `busyq`
      or blocks nobody any more. */
  lemma RemovedBlocked(s: Sched, t: Sched, be: Slot)
    requires s.Valid() && Blocked(s) && be in s.pendq && t.pendq == Remove(s.pendq, be)
    requires forall e :: e in s.busyq ==> e in t.busyq && t.reqs[e].block == s.reqs[e].block
    requires forall e :: e in t.pendq ==> t.reqs[e].req == s.reqs[e].req && t.reqs[e].block == s.reqs[e].block
    requires forall e :: e in t.pendq && t.reqs[e].status == Block ==> s.reqs[e].status == Block
    requires (be in t.busyq && t.reqs[be].block == s.reqs[be].block) ||
             forall e :: e in t.pendq && t.reqs[e].status == Block ==> !s.StartsAt(e, s.reqs[be].block)
    ensures Blocked(t)
  {
    var p :| 0 <= p < |s.pendq| && s.pendq[p] == be;
    forall k | 0 <= k < |t.pendq| && t.reqs[t.pendq[k]].status == Block
      ensures HasBlocker(t, k)
    {
      RemovedHasBlocker(s, t, be, p, k);
    }
  }

  lemma RemovedHasBlocker(s: Sched, t: Sched, be: Slot, p: nat, k: nat)
    requires s.Valid() && Blocked(s) && p < |s.pendq| && s.pendq[p] == be && t.pendq == Remove(s.pendq, be)
    requires forall e :: e in s.busyq ==> e in t.busyq && t.reqs[e].block == s.reqs[e].block
    requires forall e :: e in t.pendq ==> t.reqs[e].req == s.reqs[e].req && t.reqs[e].block == s.reqs[e].block
    requires k < |t.pendq| && s.reqs[t.pendq[k]].status == Block
    requires (be in t.busyq && t.reqs[be].block == s.reqs[be].block) || !s.StartsAt(t.pendq[k], s.reqs[be].block)
    ensures HasBlocker(t, k)
  {
    RemoveAt(s.pendq, p);
    var e := t.pendq[k];
    assert e in t.pendq;
    var k0 := if k < p then k else k + 1;
    assert s.pendq[k0] == e && HasBlocker(s, k0);
    if j0 :| 0 <= j0 < k0 && s.StartsAt(e, s.reqs[s.pendq[j0]].block) {
      if j0 == p {
        assert be in t.busyq && t.StartsAt(e, t.reqs[be].block);
      } else {
        var j := if j0 < p then j0 else j0 - 1;
        assert t.pendq[j] == s.pendq[j0] && t.pendq[j] in t.pendq;
        assert t.StartsAt(e, t.reqs[t.pendq[j]].block);
      }
    } else {
      var b :| b in s.busyq && s.StartsAt(e, s.reqs[b].block);
      assert b in t.busyq && t.StartsAt(e, t.reqs[b].block);
    }
  }

  /** The same where `pendq` stays. */
  lemma KeptBlocked(s: Sched, t: Sched, be: Slot)
    requires s.Valid() && Blocked(s) && t.pendq == s.pendq
    requires forall e :: e in s.busyq && e != be ==> e in t.busyq && t.reqs[e].block == s.reqs[e].block
    requires forall e :: e in s.pendq ==> t.reqs[e].req == s.reqs[e].req && t.reqs[e].block == s.reqs[e].block
    requires forall e :: e in s.pendq && t.reqs[e].status == Block ==> s.reqs[e].status == Block
    requires (be in t.busyq && t.reqs[be].block == s.reqs[be].block) ||
             forall e :: e in s.pendq && t.reqs[e].status == Block ==> !s.StartsAt(e, s.reqs[be].block)
    ensures Blocked(t)
  {
    forall k | 0 <= k < |t.pendq| && t.reqs[t.pendq[k]].status == Block
      ensures HasBlocker(t, k)
    {
      var e := t.pendq[k];
      assert e in s.pendq && HasBlocker(s, k);
      if j :| 0 <= j < k && s.StartsAt(e, s.reqs[s.pendq[j]].block) {
        assert s.pendq[j] in s.pendq;
        assert t.StartsAt(t.pendq[k], t.reqs[t.pendq[j]].block);
      } else {
        var b :| b in s.busyq && s.StartsAt(e, s.reqs[b].block);
        assert b in t.busyq && t.StartsAt(t.pendq[k], t.reqs[b].block);
      }
    }
  }

  lemma DequeuedBlocked(s: Sched, w: nat)
    requires s.Valid() && Blocked(s) && s.FirstReady(0) < |s.pendq|
    ensures Blocked(s.Dequeued(w))
  {
    var be := s.pendq[s.FirstReady(0)];
    assert be in s.pendq;
    RemoveKeeps(s.pendq, be);
    RemovedBlocked(s, s.Dequeued(w), be);
  }

  lemma CompletedBlocked(s: Sched, be: Slot)
    requires s.Valid() && Blocked(s) && s.reqs[be].status != Free
    ensures Blocked(s.Completed(be))
  {
    if be in s.pendq {
      CompletedPendingBlocked(s, be);
    } else {
      CompletedBusyBlocked(s, be);
    }
  }

  lemma CompletedPendingBlocked(s: Sched, be: Slot)
    requires s.Valid() && Blocked(s) && be in s.pendq
    ensures Blocked(s.Completed(be))
  {
    CompletedOthers(s, be);
    PendingGone(s, s.Completed(be), be);
  }

  lemma PendingGone(s: Sched, t: Sched, be: Slot)
    requires s.Valid() && Blocked(s) && be in s.pendq
    requires t.pendq == Remove(s.pendq, be) && t.busyq == s.busyq
    requires forall i: Slot :: i != be ==> t.reqs[i] == Released(s, be, i)
    ensures Blocked(t)
  {
    RemoveKeeps(s.pendq, be);
    assert forall e :: e in s.busyq ==> e != be && t.reqs[e].block == s.reqs[e].block;
    assert forall e :: e in t.pendq ==> e != be && t.reqs[e] == Released(s, be, e);
    RemovedBlocked(s, t, be);
  }

  lemma CompletedBusyBlocked(s: Sched, be: Slot)
    requires s.Valid() && Blocked(s) && be in s.busyq
    ensures Blocked(s.Completed(be))
  {
    CompletedOthers(s, be);
    BusyGone(s, s.Completed(be), be);
  }

  lemma BusyGone(s: Sched, t: Sched, be: Slot)
    requires s.Valid() && Blocked(s) && be in s.busyq
    requires t.pendq == s.pendq && t.busyq == Remove(s.busyq, be)
    requires forall i: Slot :: i != be ==> t.reqs[i] == Released(s, be, i)
    ensures Blocked(t)
  {
    RemoveKeeps(s.busyq, be);
    assert forall e :: e in s.pendq ==> e != be;
    KeptBlocked(s, t, be);
  }

  lemma ProcessedBlocked(s: Sched, be: Slot)
    requires s.Valid() && Blocked(s) && s.reqs[be].status == Busy
    ensures Blocked(s.Processed(be))
  {
    KeptBlocked(s, s.Processed(be), be);
  }

  lemma StepBlocked(y: Sys, st: Step)
    requires Inv(y) && Enabled(y, st)
    ensures Blocked(Apply(y, st).s)
  {
    match st
    case Request(req, op, _) => if |y.s.freeq| > 0 { EnqueuedBlocked(y.s, req, op); }
    case Turn(w) => if y.s.FirstReady(0) < |y.s.pendq| { DequeuedBlocked(y.s, w); }
    case Process(w) => ProcessedBlocked(y.s, y.ws[w].be);
    case Complete(w) => CompletedBlocked(y.s, y.ws[w].be);
    case Cancel(ptr) =>
      var k := y.s.FirstAt(y.s.pendq, ptr, 0);
      if k < |y.s.pendq| {
        assert y.s.pendq[k] in y.s.pendq;
        CompletedBlocked(y.s, y.s.pendq[k]);
      }
    case _ =>
  }

  /** When nothing pending is ready, the first pending request waits for a busy one. */
  lemma StalledHasBusy(s: Sched)
    requires s.Valid() && Blocked(s) && s.pendq != [] && s.FirstReady(0) == |s.pendq|
    ensures s.busyq != []
  {
    assert s.pendq[0] in s.pendq;
    assert HasBlocker(s, 0);
  }

  lemma BusyHasWorker(y: Sys)
    requires y.s.Valid() && Matched(y) && y.s.busyq != []
    ensures exists w: Thread :: y.ws[w].Working? || y.ws[w].Finished?
  {
    var e := y.s.busyq[0];
    assert e in y.s.busyq;
    var w: Thread := y.s.reqs[e].tid;
    assert y.ws[w] == Working(e) || y.ws[w] == Finished(e);
  }

  lemma StepAttended(y: Sys, st: Step)
    requires Inv(y) && Enabled(y, st)
    ensures Attended(Apply(y, st))
  {
    var z := Apply(y, st);
    match st
    case Request(req, op, woken) =>
      if z.s.pendq != [] && y.s.pendq == [] {
        if y.s.EndsAt(req.offset) {
          BusyHasWorker(y);
        } else if y.ws[woken] == Asleep {
          assert Active(z.ws[woken]);
        } else {
          var w: Thread :| y.ws[w] != Exited;
          assert Active(z.ws[w]);
        }
      } else if z.s.pendq != [] {
        var w: Thread :| Active(y.ws[w]);
        assert Active(z.ws[w]);
      }
    case Turn(w) =>
      if y.s.FirstReady(0) < |y.s.pendq| {
        assert Active(z.ws[w]);
      } else if z.s.pendq != [] {
        StalledHasBusy(y.s);
        BusyHasWorker(y);
        var v: Thread :| y.ws[v].Working? || y.ws[v].Finished?;
        assert Active(z.ws[v]);
      }
    case Process(w) => assert Active(z.ws[w]);
    case Complete(w) => assert Active(z.ws[w]);
    case Wake(w) => assert Active(z.ws[w]);
    case Cancel(_) =>
      if z.s.pendq != [] {
        assert y.s.pendq != [];
        var w: Thread :| Active(y.ws[w]);
        assert Active(z.ws[w]);
      }
    case Close =>
      if z.s.pendq != [] {
        var w: Thread :| Active(y.ws[w]);
        assert Active(z.ws[w]);
      }
  }

  lemma StepClosing(y: Sys, st: Step)
    requires Inv(y) && Enabled(y, st)
    ensures Closing(Apply(y, st))
  {
  }

  lemma LoggedAppend(log: seq<(nat, Fate)>, entry: (nat, Fate))
    ensures forall n :: Logged(log + [entry], n) <==> Logged(log, n) || n == entry.0
    ensures LoggedOnce(log) && !Logged(log, entry.0) ==> LoggedOnce(log + [entry])
  {
    var more := log + [entry];
    assert more[|log|] == entry;
    assert forall k :: 0 <= k < |log| ==> more[k] == log[k];
    forall n
      ensures Logged(more, n) <==> Logged(log, n) || n == entry.0
    {
      if Logged(log, n) {
        var k :| 0 <= k < |log| && log[k].0 == n;
        assert more[k].0 == n;
      }
    }
  }

  lemma RequestAccounted(y: Sys, req: Req, op: Op, woken: Thread)
    requires Inv(y) && Enabled(y, Request(req, op, woken))
    ensures Accounted(Apply(y, Request(req, op, woken)))
  {
    if |y.s.freeq| > 0 {
      var be := y.s.freeq[0];
      assert be in y.s.freeq;
      AcceptedAccounted(y, Apply(y, Request(req, op, woken)), be);
    }
  }

  /** Accepting a request into a free element adds one unsettled request to the books. */
  lemma AcceptedAccounted(y: Sys, z: Sys, be: Slot)
    requires Accounted(y) && !y.Live(be) && z.Unsettled(be)
    requires z.serial == y.serial[be := y.next] && z.next == y.next + 1 && z.log == y.log
    requires forall e: Slot :: e != be ==> z.s.reqs[e] == y.s.reqs[e]
    ensures Accounted(z)
  {
    assert forall e: Slot :: e != be ==> z.serial[e] == y.serial[e];
    forall n: nat | n < z.next && !Logged(z.log, n)
      ensures Held(z, n)
    {
      if n == y.next {
        assert z.Unsettled(be);
      } else {
        assert Held(y, n);
        var e: Slot :| y.Unsettled(e) && y.serial[e] == n;
        assert z.Unsettled(e) && z.serial[e] == n;
      }
    }
  }

  /** Settling one request, by calling back or by dropping it, keeps the books. */
  lemma SettledAccounted(y: Sys, z: Sys, be: Slot, fate: Fate)
    requires Accounted(y) && y.Unsettled(be)
    requires z.serial == y.serial && z.next == y.next && z.log == y.log + [(y.serial[be], fate)]
    requires !z.Unsettled(be)
    requires forall e: Slot :: e != be ==> z.Live(e) == y.Live(e) && z.Unsettled(e) == y.Unsettled(e)
    ensures Accounted(z)
  {
    LoggedAppend(y.log, (y.serial[be], fate));
    forall n: nat | n < z.next && !Logged(z.log, n)
      ensures Held(z, n)
    {
      assert Held(y, n);
      var e: Slot :| y.Unsettled(e) && y.serial[e] == n;
      assert z.Unsettled(e);
    }
  }

  lemma SameAccounted(y: Sys, z: Sys)
    requires Accounted(y)
    requires z.serial == y.serial && z.next == y.next && z.log == y.log
    requires forall e: Slot :: (z.Live(e) ==> y.Live(e)) && z.Unsettled(e) == y.Unsettled(e)
    ensures Accounted(z)
  {
    forall n: nat | n < z.next && !Logged(z.log, n)
      ensures Held(z, n)
    {
      assert Held(y, n);
      var e: Slot :| y.Unsettled(e) && y.serial[e] == n;
      assert z.Unsettled(e);
    }
  }

  lemma CancelAccounted(y: Sys, ptr: nat)
    requires Inv(y) && Enabled(y, Cancel(ptr))
    ensures Accounted(Apply(y, Cancel(ptr)))
  {
    var k := y.s.FirstAt(y.s.pendq, ptr, 0);
    if k < |y.s.pendq| {
      assert y.s.pendq[k] in y.s.pendq;
      CompletedOthers(y.s, y.s.pendq[k]);
      SettledAccounted(y, Apply(y, Cancel(ptr)), y.s.pendq[k], Dropped);
    }
  }

  lemma TurnAccounted(y: Sys, w: Thread)
    requires Inv(y) && Enabled(y, Turn(w))
    ensures Accounted(Apply(y, Turn(w)))
  {
    if y.s.FirstReady(0) < |y.s.pendq| {
      assert y.s.pendq[y.s.FirstReady(0)] in y.s.pendq;
    }
    SameAccounted(y, Apply(y, Turn(w)));
  }

  lemma StepAccounted(y: Sys, st: Step)
    requires Inv(y) && Enabled(y, st)
    ensures Accounted(Apply(y, st))
  {
    var z := Apply(y, st);
    match st
    case Request(req, op, woken) => RequestAccounted(y, req, op, woken);
    case Turn(w) => TurnAccounted(y, w);
    case Process(w) => SettledAccounted(y, z, y.ws[w].be, CalledBack);
    case Complete(w) =>
      CompletedOthers(y.s, y.ws[w].be);
      SameAccounted(y, z);
    case Cancel(ptr) => CancelAccounted(y, ptr);
    case _ => SameAccounted(y, z);
  }

  lemma StepInv(y: Sys, st: Step)
    requires Inv(y) && Enabled(y, st)
    ensures Inv(Apply(y, st))
  {
    StepValid(y, st);
    StepMatched(y, st);
    StepBlocked(y, st);
    StepAttended(y, st);
    StepClosing(y, st);
    StepAccounted(y, st);
  }

  /** `run` is a run from `y` to `z`. */
  ghost predicate Run(y: Sys, run: seq<Step>, z: Sys)
    decreases |run|
  {
    if |run| == 0 then y == z else Enabled(y, run[0]) && Run(Apply(y, run[0]), run[1..], z)
  }

  lemma {:induction false} RunInv(y: Sys, run: seq<Step>, z: Sys)
    requires Inv(y) && Run(y, run, z)
    ensures Inv(z)
    decreases |run|
  {
    if |run| > 0 {
      StepInv(y, run[0]);
      RunInv(Apply(y, run[0]), run[1..], z);
    }
  }

  lemma {:induction false} Pigeonhole(ts: seq<nat>, n: nat)
    requires forall i :: 0 <= i < |ts| ==> ts[i] < n
    requires forall i, j :: 0 <= i < j < |ts| ==> ts[i] != ts[j]
    ensures |ts| <= n
    decreases n
  {
    assert |ts| > 0 ==> 0 <= ts[0] < n;
    if n > 0 {
      if k :| 0 <= k < |ts| && ts[k] == n - 1 {
        Pigeonhole(ts[..k] + ts[k + 1..], n - 1);
      } else {
        Pigeonhole(ts, n - 1);
      }
    }
  }

  /** At most eight requests are being processed. */
  lemma FewBusy(y: Sys)
    requires Inv(y)
    ensures |y.s.busyq| <= 8
  {
    var ts := seq(|y.s.busyq|, k requires 0 <= k < |y.s.busyq| => y.s.reqs[y.s.busyq[k]].tid);
    assert forall k :: 0 <= k < |y.s.busyq| ==> y.s.busyq[k] in y.s.busyq;
    Pigeonhole(ts, BLOCKIF_NUMTHR);
  }

  /** The 72 elements are always shared out among the three queues. */
  lemma QueuesPartition(s: Sched)
    requires s.Valid()
    ensures |s.freeq| + |s.pendq| + |s.busyq| == 72
    ensures s.freeq == [] <==> forall e: Slot :: s.reqs[e].status != Free
  {
    var all := s.freeq + s.pendq + s.busyq;
    assert forall k :: 0 <= k < |s.freeq| ==> s.freeq[k] in s.freeq;
    assert forall k :: 0 <= k < |s.pendq| ==> s.pendq[k] in s.pendq;
    assert forall k :: 0 <= k < |s.busyq| ==> s.busyq[k] in s.busyq;
    Pigeonhole(all, BLOCKIF_MAXREQ);
    EverySlot(all, BLOCKIF_MAXREQ);
    assert s.freeq != [] ==> s.freeq[0] in s.freeq;
  }

  lemma {:induction false} EverySlot(all: seq<nat>, n: nat)
    requires forall i: nat :: i < n ==> i in all
    ensures |all| >= n
    decreases n
  {
    if n > 0 {
      var last: nat := n - 1;
      assert last in all;
      var k :| 0 <= k < |all| && all[k] == last;
      var rest := all[..k] + all[k + 1..];
      forall i: nat | i < n - 1
        ensures i in rest
      {
        assert i in all;
        var j :| 0 <= j < |all| && all[j] == i;
        assert if j < k then rest[j] == i else rest[j - 1] == i;
      }
      EverySlot(rest, n - 1);
    }
  }
}
