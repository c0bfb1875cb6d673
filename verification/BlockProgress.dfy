/** Nothing the scheduler accepts is ever left lying, and every accepted request meets one fate. */
module BlockProgress {
  import opened Queues
  import opened BlockIf
  import opened BlockRuns

  /** A step a worker takes by itself. */
  predicate WorkerStep(st: Step) {
    st.Turn? || st.Process? || st.Complete?
  }

  function Weight(w: Worker): nat {
    match w
    case Awake => 1
    case Working(_) => 3
    case Finished(_) => 2
    case _ => 0
  }

  function Weights(ws: seq<Worker>): nat {
    if ws == [] then 0 else Weights(ws[..|ws| - 1]) + Weight(ws[|ws| - 1])
  }

  /** Bounds the number of steps the workers can take by themselves. */
  function Effort(y: Sys): nat {
    4 * |y.s.pendq| + Weights(y.ws)
  }

  lemma {:induction false} WeightsUpdate(ws: seq<Worker>, i: nat, w: Worker)
    requires i < |ws|
    ensures Weights(ws[i := w]) == Weights(ws) - Weight(ws[i]) + Weight(w)
  {
    var n := |ws| - 1;
    if i < n {
      WeightsUpdate(ws[..n], i, w);
      assert ws[i := w][..n] == ws[..n][i := w];
    } else {
      assert ws[i := w][..n] == ws[..n];
    }
  }

  lemma WorkerStepLowersEffort(y: Sys, st: Step)
    requires Inv(y) && Enabled(y, st) && WorkerStep(st)
    ensures Effort(Apply(y, st)) < Effort(y)
  {
    match st
    case Turn(w) =>
      WeightsUpdate(y.ws, w, Apply(y, st).ws[w]);
      if y.s.FirstReady(0) < |y.s.pendq| {
        RemoveKeeps(y.s.pendq, y.s.pendq[y.s.FirstReady(0)]);
      }
    case Process(w) => WeightsUpdate(y.ws, w, Finished(y.ws[w].be));
    case Complete(w) => WeightsUpdate(y.ws, w, Awake);
    case _ =>
  }

  ghost predicate WorkersOnly(run: seq<Step>) {
    forall k :: 0 <= k < |run| ==> WorkerStep(run[k])
  }

  /** The workers cannot go on by themselves for ever. */
  lemma {:induction false} WorkersStop(y: Sys, run: seq<Step>, z: Sys)
    requires Inv(y) && Run(y, run, z) && WorkersOnly(run)
    ensures |run| <= Effort(y)
    decreases |run|
  {
    if |run| > 0 {
      WorkerStepLowersEffort(y, run[0]);
      StepInv(y, run[0]);
      WorkersStop(Apply(y, run[0]), run[1..], z);
    }
  }

  ghost predicate WorkersStuck(y: Sys) {
    forall st :: Enabled(y, st) ==> !WorkerStep(st)
  }

  /** While a request is pending or busy some worker has a step to take. */
  lemma WorkToDo(y: Sys) returns (st: Step)
    requires Inv(y) && (y.s.pendq != [] || y.s.busyq != [])
    ensures Enabled(y, st) && WorkerStep(st)
  {
    if y.s.pendq == [] {
      BusyHasWorker(y);
    }
    assert exists w: Thread :: Active(y.ws[w]);
    var w: Thread :| Active(y.ws[w]);
    if y.ws[w].Awake? {
      return Turn(w);
    } else if y.ws[w].Working? {
      return Process(w);
    }
    return Complete(w);
  }

  /** They stop only when no request is pending or busy. */
  lemma StuckMeansIdle(y: Sys)
    requires Inv(y) && WorkersStuck(y)
    ensures y.s.pendq == [] && y.s.busyq == []
  {
    if y.s.pendq != [] || y.s.busyq != [] {
      var st := WorkToDo(y);
      assert false;
    }
  }

  /** From every reachable state the workers, left to themselves, serve everything: whatever order they
      run in, they stop, and when they have stopped nothing is pending or busy. */
  lemma WorkersServeEverything(y: Sys, before: seq<Step>, y': Sys, run: seq<Step>, z: Sys)
    requires Initial(y) && Run(y, before, y')
    requires Run(y', run, z) && WorkersOnly(run) && WorkersStuck(z)
    ensures |run| <= Effort(y')
    ensures z.s.pendq == [] && z.s.busyq == []
    ensures forall n: nat :: n < z.next ==> Logged(z.log, n)
  {
    InitialInv(y);
    RunInv(y, before, y');
    WorkersStop(y', run, z);
    RunInv(y', run, z);
    StuckMeansIdle(z);
    NothingHeld(z);
  }

  lemma NothingHeld(y: Sys)
    requires Inv(y) && y.s.pendq == [] && y.s.busyq == []
    ensures forall n: nat :: n < y.next ==> Logged(y.log, n)
  {
    forall n: nat | n < y.next
      ensures Logged(y.log, n)
    {
      if Held(y, n) {
        var e: Slot :| y.Unsettled(e) && y.serial[e] == n;
        UnsettledIsQueued(y, e);
        assert false;
      }
    }
  }

  lemma UnsettledIsQueued(y: Sys, e: Slot)
    requires Inv(y) && y.Unsettled(e)
    ensures e in y.s.pendq || e in y.s.busyq
  {
  }

  /** In every reachable state: a blocked request waits for a live one, busy or ahead of it, and pending
      work means some worker is not asleep. Once every worker has gone, no request is left. */
  lemma NoStuckWork(y: Sys, run: seq<Step>, z: Sys)
    requires Initial(y) && Run(y, run, z)
    ensures forall k :: 0 <= k < |z.s.pendq| && z.s.reqs[z.s.pendq[k]].status == Block ==> HasBlocker(z.s, k)
    ensures z.s.pendq != [] ==> exists w: Thread :: Active(z.ws[w])
    ensures z.AllExited() ==> z.s.pendq == [] && z.s.busyq == []
  {
    InitialInv(y);
    RunInv(y, run, z);
    if z.AllExited() {
      assert WorkersStuck(z);
      StuckMeansIdle(z);
    }
  }

  ghost predicate HasFate(y: Sys, n: nat, fate: Fate) {
    exists k :: 0 <= k < |y.log| && y.log[k] == (n, fate)
  }

  /** An accepted request never has two fates, it has none exactly while it is pending or busy, and
      then one element holds it. */
  lemma OneFate(y: Sys, run: seq<Step>, z: Sys, n: nat)
    requires Initial(y) && Run(y, run, z) && n < z.next
    ensures !(HasFate(z, n, CalledBack) && HasFate(z, n, Dropped))
    ensures HasFate(z, n, CalledBack) || HasFate(z, n, Dropped) <==> !Held(z, n)
  {
    InitialInv(y);
    RunInv(y, run, z);
    FateIsLogged(z, n);
    HeldIsUnlogged(z, n);
  }

  lemma FateIsLogged(y: Sys, n: nat)
    requires LoggedOnce(y.log)
    ensures HasFate(y, n, CalledBack) || HasFate(y, n, Dropped) <==> Logged(y.log, n)
    ensures !(HasFate(y, n, CalledBack) && HasFate(y, n, Dropped))
  {
    if Logged(y.log, n) {
      var k :| 0 <= k < |y.log| && y.log[k].0 == n;
      assert y.log[k] == (n, y.log[k].1);
      match y.log[k].1 {
        case CalledBack => assert HasFate(y, n, CalledBack);
        case Dropped => assert HasFate(y, n, Dropped);
      }
    }
  }

  lemma HeldIsUnlogged(y: Sys, n: nat)
    requires Inv(y) && n < y.next
    ensures Logged(y.log, n) <==> !Held(y, n)
  {
  }

  /** Cancelling a request whose address no other live request shares drops that request if it is
      pending, and otherwise changes nothing. */
  lemma CancelDropsThatRequest(y: Sys, e: Slot)
    requires Inv(y) && y.Live(e) && !y.AllExited()
    requires forall f: Slot :: f != e && y.Live(f) ==> !y.s.IsAt(f, y.s.reqs[e].req.value.ptr)
    ensures var z := Apply(y, Cancel(y.s.reqs[e].req.value.ptr));
            if y.Waiting(e) then z.log == y.log + [(y.serial[e], Dropped)] && !z.Live(e) else z == y
  {
    var ptr := y.s.reqs[e].req.value.ptr;
    var k := y.s.FirstAt(y.s.pendq, ptr, 0);
    if k < |y.s.pendq| {
      assert y.s.pendq[k] in y.s.pendq;
      CompletedOthers(y.s, y.s.pendq[k]);
    }
    if y.Waiting(e) {
      assert e in y.s.pendq;
      assert k < |y.s.pendq|;
    }
  }

  /** A worker that has processed a request has called it back, and that only. */
  lemma ProcessCallsBack(y: Sys, w: Thread)
    requires Inv(y) && Enabled(y, Process(w))
    ensures var z, e := Apply(y, Process(w)), y.ws[w].be;
      && z.log == y.log + [(y.serial[e], CalledBack)] && z.ws[w] == Finished(e)
      && z.s.reqs[e] == y.s.reqs[e].(status := Done) && forall i: Slot :: i != e ==> z.s.reqs[i] == y.s.reqs[i]
  {
  }
}
