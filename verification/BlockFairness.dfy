/** Requests that are ready are served oldest first, so none is overtaken for ever however many keep arriving. */
module BlockFairness {
  import opened Queues
  import opened BlockIf
  import opened BlockRuns

  /** The pending queue is in order of acceptance. */
  ghost predicate InOrder(y: Sys) {
    forall i, j :: 0 <= i < j < |y.s.pendq| ==> y.serial[y.s.pendq[i]] < y.serial[y.s.pendq[j]]
  }

  /** The turn takes a request. */
  predicate Dispatches(y: Sys, st: Step) {
    st.Turn? && y.s.FirstReady(0) < |y.s.pendq|
  }

  lemma RemovedInOrder(y: Sys, z: Sys, be: Slot)
    requires y.s.Valid() && InOrder(y) && be in y.s.pendq
    requires z.s.pendq == Remove(y.s.pendq, be) && z.serial == y.serial
    ensures InOrder(z)
  {
    var p :| 0 <= p < |y.s.pendq| && y.s.pendq[p] == be;
    RemoveAt(y.s.pendq, p);
    forall i, j | 0 <= i < j < |z.s.pendq|
      ensures z.serial[z.s.pendq[i]] < z.serial[z.s.pendq[j]]
    {
      assert z.s.pendq[i] == y.s.pendq[if i < p then i else i + 1];
      assert z.s.pendq[j] == y.s.pendq[if j < p then j else j + 1];
    }
  }

  lemma AppendedInOrder(y: Sys, z: Sys, be: Slot)
    requires Inv(y) && InOrder(y) && !y.Live(be)
    requires z.s.pendq == y.s.pendq + [be] && z.serial == y.serial[be := y.next]
    ensures InOrder(z)
  {
    forall i, j | 0 <= i < j < |z.s.pendq|
      ensures z.serial[z.s.pendq[i]] < z.serial[z.s.pendq[j]]
    {
      assert y.s.pendq[i] in y.s.pendq;
      assert j < |y.s.pendq| ==> y.s.pendq[j] in y.s.pendq;
    }
  }

  lemma RequestInOrder(y: Sys, req: Req, op: Op, woken: Thread)
    requires Inv(y) && InOrder(y) && Enabled(y, Request(req, op, woken))
    ensures InOrder(Apply(y, Request(req, op, woken)))
  {
    if |y.s.freeq| > 0 {
      assert y.s.freeq[0] in y.s.freeq;
      AppendedInOrder(y, Apply(y, Request(req, op, woken)), y.s.freeq[0]);
    }
  }

  lemma TurnInOrder(y: Sys, w: Thread)
    requires Inv(y) && InOrder(y) && Enabled(y, Turn(w))
    ensures InOrder(Apply(y, Turn(w)))
  {
    if Dispatches(y, Turn(w)) {
      assert y.s.pendq[y.s.FirstReady(0)] in y.s.pendq;
      RemovedInOrder(y, Apply(y, Turn(w)), y.s.pendq[y.s.FirstReady(0)]);
    }
  }

  lemma CancelInOrder(y: Sys, ptr: nat)
    requires Inv(y) && InOrder(y) && Enabled(y, Cancel(ptr))
    ensures InOrder(Apply(y, Cancel(ptr)))
  {
    var k := y.s.FirstAt(y.s.pendq, ptr, 0);
    if k < |y.s.pendq| {
      assert y.s.pendq[k] in y.s.pendq;
      RemovedInOrder(y, Apply(y, Cancel(ptr)), y.s.pendq[k]);
    }
  }

  lemma StepInOrder(y: Sys, st: Step)
    requires Inv(y) && InOrder(y) && Enabled(y, st)
    ensures InOrder(Apply(y, st))
  {
    match st
    case Request(req, op, woken) => RequestInOrder(y, req, op, woken);
    case Turn(w) => TurnInOrder(y, w);
    case Cancel(ptr) => CancelInOrder(y, ptr);
    case _ =>
  }

  lemma {:induction false} RunInOrder(y: Sys, run: seq<Step>, z: Sys)
    requires Inv(y) && InOrder(y) && Run(y, run, z)
    ensures InOrder(z)
    decreases |run|
  {
    if |run| > 0 {
      StepInOrder(y, run[0]);
      StepInv(y, run[0]);
      RunInOrder(Apply(y, run[0]), run[1..], z);
    }
  }

  /** In every reachable state the request a worker takes is the oldest of those that are ready. */
  lemma TakesOldestReady(y0: Sys, before: seq<Step>, y: Sys, w: Thread, e: Slot)
    requires Initial(y0) && Run(y0, before, y) && Enabled(y, Turn(w)) && y.s.reqs[e].status == Pend
    ensures Dispatches(y, Turn(w)) && y.serial[y.s.pendq[y.s.FirstReady(0)]] <= y.serial[e]
  {
    InitialInv(y0);
    RunInv(y0, before, y);
    RunInOrder(y0, before, y);
    assert e in y.s.pendq;
    var k :| 0 <= k < |y.s.pendq| && y.s.pendq[k] == e;
  }

  /** The request with serial number `n` is waiting. */
  ghost predicate WaitsAs(y: Sys, n: nat) {
    exists e: Slot :: y.Waiting(e) && y.serial[e] == n
  }

  /** What waits after a step and is not new was waiting before, in the same element. */
  lemma WaitedBefore(y: Sys, st: Step, e: Slot)
    requires Inv(y) && Enabled(y, st) && Apply(y, st).Waiting(e) && Apply(y, st).serial[e] < y.next
    ensures y.Waiting(e) && y.serial[e] == Apply(y, st).serial[e]
  {
    match st
    case Request(_, _, _) =>
    case Turn(w) =>
    case Process(w) =>
    case Complete(w) => CompletedOthers(y.s, y.ws[w].be);
    case Cancel(ptr) =>
      var k := y.s.FirstAt(y.s.pendq, ptr, 0);
      if k < |y.s.pendq| {
        assert y.s.pendq[k] in y.s.pendq;
        CompletedOthers(y.s, y.s.pendq[k]);
      }
    case _ =>
  }

  lemma NextGrows(y: Sys, st: Step)
    requires Enabled(y, st)
    ensures y.next <= Apply(y, st).next
  {
  }

  /** A request that has left the pending queue does not come back. */
  lemma {:induction false} StaysGone(y: Sys, run: seq<Step>, z: Sys, n: nat)
    requires Inv(y) && Run(y, run, z) && n < y.next && !WaitsAs(y, n)
    ensures !WaitsAs(z, n)
    decreases |run|
  {
    if |run| > 0 {
      var next := Apply(y, run[0]);
      NextGrows(y, run[0]);
      StepInv(y, run[0]);
      if WaitsAs(next, n) {
        var e: Slot :| next.Waiting(e) && next.serial[e] == n;
        WaitedBefore(y, run[0], e);
        assert false;
      }
      StaysGone(next, run[1..], z, n);
    }
  }

  /** How many requests are taken along a run. */
  ghost function Taken(y: Sys, run: seq<Step>): nat
    decreases |run|
  {
    if |run| == 0 || !Enabled(y, run[0]) then 0
    else (if Dispatches(y, run[0]) then 1 else 0) + Taken(Apply(y, run[0]), run[1..])
  }

  /** Where the element at position `k` is once the one at position `p` has been taken out. */
  lemma MovesUp(q: seq<Slot>, p: nat, k: nat)
    requires NoDuplicates(q) && p < |q| && k < |q| && p != k
    ensures var k' := if p < k then k - 1 else k; k' < |Remove(q, q[p])| && Remove(q, q[p])[k'] == q[k]
  {
    RemoveAt(q, p);
  }

  /** A ready request that is still waiting after a step has not moved back in the queue, and has moved up if
      another was taken. */
  lemma TurnAdvances(y: Sys, w: Thread, e: Slot, k: nat) returns (k': nat)
    requires Inv(y) && Enabled(y, Turn(w)) && k < |y.s.pendq| && y.s.pendq[k] == e && y.s.reqs[e].status == Pend
    requires Apply(y, Turn(w)).Waiting(e)
    ensures var z := Apply(y, Turn(w)); k' < |z.s.pendq| && z.s.pendq[k'] == e && z.s.reqs[e].status == Pend
    ensures Dispatches(y, Turn(w)) && k' < k
  {
    var f := y.s.FirstReady(0);
    assert f <= k;
    assert f != k;
    MovesUp(y.s.pendq, f, k);
    k' := k - 1;
  }

  /** The same when the element at position `p` is completed. */
  lemma DroppedAdvances(s: Sched, p: nat, e: Slot, k: nat) returns (k': nat)
    requires s.Valid() && p < |s.pendq| && k < |s.pendq| && s.pendq[k] == e && s.reqs[e].status == Pend
    requires s.Completed(s.pendq[p]).reqs[e].status != Free
    ensures var t := s.Completed(s.pendq[p]); k' < |t.pendq| && t.pendq[k'] == e && t.reqs[e].status == Pend
    ensures k' <= k
  {
    var be := s.pendq[p];
    assert be in s.pendq && e in s.pendq;
    CompletedOthers(s, be);
    MovesUp(s.pendq, p, k);
    k' := if p < k then k - 1 else k;
  }

  lemma CancelAdvances(y: Sys, ptr: nat, e: Slot, k: nat) returns (k': nat)
    requires Inv(y) && Enabled(y, Cancel(ptr)) && k < |y.s.pendq| && y.s.pendq[k] == e && y.s.reqs[e].status == Pend
    requires Apply(y, Cancel(ptr)).Waiting(e)
    ensures var z := Apply(y, Cancel(ptr)); k' < |z.s.pendq| && z.s.pendq[k'] == e && z.s.reqs[e].status == Pend
    ensures k' <= k
  {
    var p := y.s.FirstAt(y.s.pendq, ptr, 0);
    if p < |y.s.pendq| {
      k' := DroppedAdvances(y.s, p, e, k);
    } else {
      k' := k;
    }
  }

  lemma CompleteAdvances(y: Sys, w: Thread, e: Slot, k: nat)
    requires Inv(y) && Enabled(y, Complete(w)) && k < |y.s.pendq| && y.s.pendq[k] == e && y.s.reqs[e].status == Pend
    ensures var z := Apply(y, Complete(w)); z.s.pendq == y.s.pendq && z.s.reqs[e].status == Pend
  {
    assert e in y.s.pendq;
    CompletedOthers(y.s, y.ws[w].be);
  }

  lemma StepAdvances(y: Sys, st: Step, e: Slot, k: nat) returns (k': nat)
    requires Inv(y) && Enabled(y, st) && k < |y.s.pendq| && y.s.pendq[k] == e && y.s.reqs[e].status == Pend
    requires Apply(y, st).Waiting(e)
    ensures var z := Apply(y, st); k' < |z.s.pendq| && z.s.pendq[k'] == e && z.s.reqs[e].status == Pend
    ensures k' + (if Dispatches(y, st) then 1 else 0) <= k
  {
    k' := k;
    assert e in y.s.pendq;
    match st
    case Turn(w) => k' := TurnAdvances(y, w, e, k);
    case Cancel(ptr) => k' := CancelAdvances(y, ptr, e, k);
    case Complete(w) => CompleteAdvances(y, w, e, k);
    case Request(_, _, _) =>
      assert |y.s.freeq| > 0 ==> y.s.freeq[0] in y.s.freeq;
    case _ =>
  }

  /** While a ready request waits, no more requests are taken than were ahead of it. */
  lemma {:induction false} TakenAhead(y: Sys, run: seq<Step>, z: Sys, e: Slot, k: nat)
    requires Inv(y) && Run(y, run, z) && k < |y.s.pendq| && y.s.pendq[k] == e && y.s.reqs[e].status == Pend
    requires WaitsAs(z, y.serial[e])
    ensures Taken(y, run) <= k
    decreases |run|
  {
    if |run| > 0 {
      var st, next, n := run[0], Apply(y, run[0]), y.serial[e];
      StepInv(y, st);
      NextGrows(y, st);
      if !WaitsAs(next, n) {
        StaysGone(next, run[1..], z, n);
        assert false;
      }
      var e': Slot :| next.Waiting(e') && next.serial[e'] == n;
      WaitedBefore(y, st, e');
      assert e' == e;
      var k' := StepAdvances(y, st, e, k);
      TakenAhead(next, run[1..], z, e, k');
    }
  }

  /** Over every run, whoever keeps calling: once as many requests have been taken as were pending when a request
      was ready, that request has been taken as well, or dropped. At most 72 are ever pending. */
  lemma NoStarvation(y0: Sys, before: seq<Step>, y: Sys, run: seq<Step>, z: Sys, e: Slot)
    requires Initial(y0) && Run(y0, before, y) && Run(y, run, z) && y.s.reqs[e].status == Pend
    requires Taken(y, run) >= |y.s.pendq|
    ensures |y.s.pendq| <= BLOCKIF_MAXREQ
    ensures (exists f: Slot :: z.serial[f] == y.serial[e] && z.s.reqs[f].status == Busy) || Logged(z.log, y.serial[e])
  {
    InitialInv(y0);
    RunInv(y0, before, y);
    RunInv(y, run, z);
    QueuesPartition(y.s);
    assert e in y.s.pendq;
    var k :| 0 <= k < |y.s.pendq| && y.s.pendq[k] == e;
    var n := y.serial[e];
    if WaitsAs(z, n) {
      TakenAhead(y, run, z, e, k);
      assert false;
    }
    NextNeverShrinks(y, run, z);
    if !Logged(z.log, n) {
      assert Held(z, n);
    }
  }

  lemma {:induction false} NextNeverShrinks(y: Sys, run: seq<Step>, z: Sys)
    requires Run(y, run, z)
    ensures y.next <= z.next
    decreases |run|
  {
    if |run| > 0 {
      NextGrows(y, run[0]);
      NextNeverShrinks(Apply(y, run[0]), run[1..], z);
    }
  }
}
