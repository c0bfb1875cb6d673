/** The order between a request and an earlier one that ends where it starts. */
module BlockOrder {
  import opened Words
  import opened BlockIf
  import opened BlockRuns

  /** `x` was accepted before `e` and ends where `e` starts. */
  predicate Precedes(y: Sys, x: Slot, e: Slot) {
    y.Live(x) && y.Live(e) && y.serial[x] < y.serial[e] && y.s.StartsAt(e, y.s.reqs[x].block)
  }

  /** No request that may be dispatched, or has been, is still preceded by a live one. */
  ghost predicate Ordered(y: Sys) {
    forall x: Slot, e: Slot :: Precedes(y, x, e) ==> y.s.reqs[e].status == Block
  }

  /** The live requests end at pairwise distinct offsets. */
  ghost predicate DistinctEnds(y: Sys) {
    forall e: Slot, f: Slot :: e != f && y.Live(e) && y.Live(f) ==> y.s.reqs[e].block != y.s.reqs[f].block
  }

  /** The element a step completes, if it completes one. */
  function Completes(y: Sys, st: Step): Option<Slot>
    requires Enabled(y, st)
  {
    match st
    case Complete(w) => Some(y.ws[w].be)
    case Cancel(ptr) =>
      var k := y.s.FirstAt(y.s.pendq, ptr, 0);
      if k < |y.s.pendq| then Some(y.s.pendq[k]) else None
    case _ => None
  }

  /** Completing `be` would release a request that another live request still precedes. */
  ghost predicate ReleasesEarly(y: Sys, be: Slot) {
    exists x: Slot, e: Slot :: x != be && e != be && Precedes(y, x, e) && y.s.StartsAt(e, y.s.reqs[be].block)
  }

  lemma OrderedAtStart(y: Sys)
    requires Initial(y)
    ensures Ordered(y)
  {
  }

  lemma RequestOrdered(y: Sys, req: Req, op: Op, woken: Thread)
    requires Inv(y) && Ordered(y) && Enabled(y, Request(req, op, woken))
    ensures Ordered(Apply(y, Request(req, op, woken)))
  {
    var z := Apply(y, Request(req, op, woken));
    if |y.s.freeq| > 0 {
      var be := y.s.freeq[0];
      assert be in y.s.freeq;
      forall x: Slot, e: Slot | Precedes(z, x, e)
        ensures z.s.reqs[e].status == Block
      {
        if e == be {
          assert x in y.s.pendq || x in y.s.busyq;
        } else {
          assert x != be && Precedes(y, x, e);
        }
      }
    }
  }

  lemma TurnOrdered(y: Sys, w: Thread)
    requires Inv(y) && Ordered(y) && Enabled(y, Turn(w))
    ensures Ordered(Apply(y, Turn(w)))
  {
    var z := Apply(y, Turn(w));
    forall x: Slot, e: Slot | Precedes(z, x, e)
      ensures z.s.reqs[e].status == Block
    {
      assert Precedes(y, x, e);
    }
  }

  /** Completing an element keeps the order exactly when it releases nobody early. */
  lemma CompletionOrdered(y: Sys, z: Sys, be: Slot)
    requires Inv(y) && Ordered(y) && y.Live(be)
    requires z.s == y.s.Completed(be) && z.serial == y.serial
    ensures Ordered(z) <==> !ReleasesEarly(y, be)
  {
    CompletedOthers(y.s, be);
    FreedOrdered(y, z, be);
  }

  lemma FreedOrdered(y: Sys, z: Sys, be: Slot)
    requires Inv(y) && Ordered(y) && z.serial == y.serial && z.s.reqs[be].status == Free
    requires forall i: Slot :: i != be ==> z.s.reqs[i] == Released(y.s, be, i)
    ensures Ordered(z) <==> !ReleasesEarly(y, be)
  {
    assert forall x: Slot, e: Slot :: Precedes(z, x, e) <==> x != be && e != be && Precedes(y, x, e);
    if ReleasesEarly(y, be) {
      var x: Slot, e: Slot :| x != be && e != be && Precedes(y, x, e) && y.s.StartsAt(e, y.s.reqs[be].block);
      assert e in y.s.pendq;
      assert Precedes(z, x, e) && z.s.reqs[e].status == Pend;
    } else {
      forall x: Slot, e: Slot | Precedes(z, x, e)
        ensures z.s.reqs[e].status == Block
      {
        assert Precedes(y, x, e) && !y.s.StartsAt(e, y.s.reqs[be].block);
      }
    }
  }

  /** Steps that leave the requests alone. */
  lemma QuietOrdered(y: Sys, z: Sys)
    requires Ordered(y) && z.s == y.s && z.serial == y.serial
    ensures Ordered(z)
  {
    assert forall x: Slot, e: Slot :: Precedes(z, x, e) <==> Precedes(y, x, e);
  }

  lemma ProcessOrdered(y: Sys, w: Thread)
    requires Inv(y) && Ordered(y) && Enabled(y, Process(w))
    ensures Ordered(Apply(y, Process(w)))
  {
    var z := Apply(y, Process(w));
    forall x: Slot, e: Slot | Precedes(z, x, e)
      ensures z.s.reqs[e].status == Block
    {
      assert Precedes(y, x, e);
    }
  }

  lemma CancelOrdered(y: Sys, ptr: nat)
    requires Inv(y) && Ordered(y) && Enabled(y, Cancel(ptr))
    ensures var c := Completes(y, Cancel(ptr));
      Ordered(Apply(y, Cancel(ptr))) <==> (c.Some? ==> !ReleasesEarly(y, c.value))
  {
    var k := y.s.FirstAt(y.s.pendq, ptr, 0);
    if k < |y.s.pendq| {
      assert y.s.pendq[k] in y.s.pendq;
      CompletionOrdered(y, Apply(y, Cancel(ptr)), y.s.pendq[k]);
    }
  }

  /** Exactly when a step keeps the order: it does unless it completes an element and so releases a
      request that another live request still precedes. */
  lemma StepOrderedIff(y: Sys, st: Step)
    requires Inv(y) && Ordered(y) && Enabled(y, st)
    ensures Ordered(Apply(y, st)) <==> (Completes(y, st).Some? ==> !ReleasesEarly(y, Completes(y, st).value))
  {
    match st
    case Request(req, op, woken) => RequestOrdered(y, req, op, woken);
    case Turn(w) => TurnOrdered(y, w);
    case Process(w) => ProcessOrdered(y, w);
    case Complete(w) => CompletionOrdered(y, Apply(y, st), y.ws[w].be);
    case Cancel(ptr) => CancelOrdered(y, ptr);
    case Wake(_) => QuietOrdered(y, Apply(y, st));
    case Close => QuietOrdered(y, Apply(y, st));
  }

  /** No state along the run has dispatched or readied a request that an earlier live one precedes. */
  ghost predicate OrderedThroughout(y: Sys, run: seq<Step>)
    decreases |run|
  {
    Ordered(y) && (|run| > 0 ==> Enabled(y, run[0]) && OrderedThroughout(Apply(y, run[0]), run[1..]))
  }

  /** No completion along the run releases a request early. */
  ghost predicate NeverEarly(y: Sys, run: seq<Step>)
    decreases |run|
  {
    |run| > 0 ==>
      Enabled(y, run[0])
      && (Completes(y, run[0]).Some? ==> !ReleasesEarly(y, Completes(y, run[0]).value))
      && NeverEarly(Apply(y, run[0]), run[1..])
  }

  /** Over whole runs: the order holds throughout if and only if no completion releases a request early. */
  lemma {:induction false} RunOrderedIff(y: Sys, run: seq<Step>, z: Sys)
    requires Inv(y) && Ordered(y) && Run(y, run, z)
    ensures OrderedThroughout(y, run) <==> NeverEarly(y, run)
    decreases |run|
  {
    if |run| > 0 {
      StepOrderedIff(y, run[0]);
      StepInv(y, run[0]);
      var next := Apply(y, run[0]);
      if Ordered(next) {
        RunOrderedIff(next, run[1..], z);
      } else {
        assert !OrderedThroughout(next, run[1..]);
      }
    }
  }

  /** With distinct ends nobody is released early. */
  lemma DistinctEndsSuffice(y: Sys, be: Slot)
    requires DistinctEnds(y) && y.Live(be)
    ensures !ReleasesEarly(y, be)
  {
  }

  ghost predicate DistinctThroughout(y: Sys, run: seq<Step>)
    decreases |run|
  {
    DistinctEnds(y) && (|run| > 0 ==> Enabled(y, run[0]) && DistinctThroughout(Apply(y, run[0]), run[1..]))
  }

  /** Over every run whose live requests always end at distinct offsets, a request that is ready, busy
      or done is preceded by no live request: it was dispatched only after every earlier request that
      ends where it starts had completed or been cancelled. */
  lemma {:induction false} RunOrdered(y: Sys, run: seq<Step>, z: Sys)
    requires Inv(y) && Ordered(y) && Run(y, run, z) && DistinctThroughout(y, run)
    ensures Ordered(z)
    decreases |run|
  {
    if |run| > 0 {
      StepOrderedIff(y, run[0]);
      match Completes(y, run[0]) {
        case Some(be) =>
          CompletesLive(y, run[0]);
          DistinctEndsSuffice(y, be);
        case None =>
      }
      StepInv(y, run[0]);
      RunOrdered(Apply(y, run[0]), run[1..], z);
    }
  }

  lemma CompletesLive(y: Sys, st: Step)
    requires Inv(y) && Enabled(y, st) && Completes(y, st).Some?
    ensures y.Live(Completes(y, st).value)
  {
    match st
    case Cancel(ptr) =>
      var k := y.s.FirstAt(y.s.pendq, ptr, 0);
      assert y.s.pendq[k] in y.s.pendq;
    case _ =>
  }

  /** The guarantee at the moment of dispatch: from the start, while the live requests end at distinct offsets,
      the request a worker takes is preceded by no live one. */
  lemma DispatchUnpreceded(y: Sys, run: seq<Step>, z: Sys, w: Thread, x: Slot)
    requires Initial(y) && Run(y, run, z) && DistinctThroughout(y, run)
    requires Enabled(z, Turn(w)) && z.s.FirstReady(0) < |z.s.pendq|
    ensures !Precedes(z, x, z.s.pendq[z.s.FirstReady(0)])
  {
    InitialInv(y);
    OrderedAtStart(y);
    RunOrdered(y, run, z);
  }

  /** Three requests of eight bytes: two that end where the third starts. */
  function Colliding(k: nat): Step {
    Request(Req(k + 1, if k < 2 then 0 else 8, [8]), Read, 0)
  }

  /** Accepting one of them while every worker is awake and nothing is busy. */
  lemma CollidingStep(y: Sys, k: nat) returns (z: Sys)
    requires Inv(y) && Ordered(y) && y.ws[0] == Awake && y.s.busyq == [] && |y.s.freeq| > 0
    requires !y.s.EndsAt(0) && (forall w: Thread :: y.ws[w] == Awake)
    ensures Enabled(y, Colliding(k)) && z == Apply(y, Colliding(k))
    ensures Inv(z) && Ordered(z) && z.ws == y.ws && z.s.busyq == []
    ensures var be := y.s.freeq[0];
      && z.s.freeq == y.s.freeq[1..] && z.s.pendq == y.s.pendq + [be]
      && z.serial == y.serial[be := y.next] && z.next == y.next + 1
      && (forall i: Slot :: i != be ==> z.s.reqs[i] == y.s.reqs[i])
      && z.s.StartsAt(be, if k < 2 then 0 else 8)
      && z.s.reqs[be].block == (if k < 2 then 8 else 16)
      && z.s.reqs[be].status == (if k >= 2 && y.s.EndsAt(8) then Block else Pend)
  {
    StepInv(y, Colliding(k));
    StepOrderedIff(y, Colliding(k));
    z := Apply(y, Colliding(k));
    assert Sum([8]) == 8 by { assert [8][..0] == []; }
  }

  /** The first two ready in elements 71 and 70, all workers awake, and element 69 next. */
  ghost predicate TwoReady(y: Sys) {
    && Inv(y) && Ordered(y) && (forall w: Thread :: y.ws[w] == Awake)
    && y.s.pendq == [71, 70] && y.s.busyq == [] && |y.s.freeq| == 70 && y.s.freeq[0] == 69
    && y.s.reqs[71].status == y.s.reqs[70].status == Pend && y.s.reqs[71].block == y.s.reqs[70].block == 8
    && y.serial[70] < y.next && !y.s.StartsAt(70, 8)
  }

  lemma {:induction false} RunExtend(y: Sys, run: seq<Step>, z: Sys, st: Step)
    requires Run(y, run, z) && Enabled(z, st)
    ensures Run(y, run + [st], Apply(z, st))
    decreases |run|
  {
    if run == [] {
      assert ([] + [st])[1..] == [] && Run(Apply(z, st), [], Apply(z, st));
    } else {
      RunExtend(Apply(y, run[0]), run[1..], z, st);
      assert (run + [st])[1..] == run[1..] + [st];
    }
  }

  lemma FirstAccepted(y: Sys) returns (z: Sys)
    requires Initial(y)
    ensures Enabled(y, Colliding(0)) && z == Apply(y, Colliding(0)) && OneReady(z)
  {
    InitialInv(y);
    OrderedAtStart(y);
    z := CollidingStep(y, 0);
    assert z.s.pendq == [71] && z.s.freeq[0] == 70;
  }

  /** The first ready in element 71, all workers awake, and element 70 next. */
  ghost predicate OneReady(y: Sys) {
    && Inv(y) && Ordered(y) && (forall w: Thread :: y.ws[w] == Awake)
    && y.s.pendq == [71] && y.s.busyq == [] && |y.s.freeq| == 71 && y.s.freeq[0] == 70 && y.s.freeq[1] == 69
    && y.s.reqs[71].status == Pend && y.s.reqs[71].block == 8
  }

  lemma SecondAccepted(y: Sys) returns (z: Sys)
    requires OneReady(y)
    ensures Enabled(y, Colliding(1)) && z == Apply(y, Colliding(1)) && TwoReady(z)
  {
    z := CollidingStep(y, 1);
    assert z.s.pendq == [71] + [70];
  }

  lemma FirstTwo(y: Sys) returns (run: seq<Step>, z: Sys)
    requires Initial(y)
    ensures Run(y, run, z) && TwoReady(z)
  {
    var y1 := FirstAccepted(y);
    RunExtend(y, [], y, Colliding(0));
    z := SecondAccepted(y1);
    run := [] + [Colliding(0)] + [Colliding(1)];
    RunExtend(y, [] + [Colliding(0)], y1, Colliding(1));
  }

  /** All three accepted: the third, in element 69, waits for the two before it. */
  ghost predicate ThirdBlocked(y: Sys) {
    && Inv(y) && Ordered(y) && (forall w: Thread :: y.ws[w] == Awake) && y.s.pendq == [71, 70, 69]
    && y.s.reqs[71].status == y.s.reqs[70].status == Pend && y.s.reqs[71].block == y.s.reqs[70].block == 8
    && y.s.StartsAt(69, 8) && !y.s.StartsAt(70, 8) && y.serial[70] < y.serial[69]
  }

  lemma ThirdAccepted(y: Sys) returns (z: Sys)
    requires TwoReady(y)
    ensures Enabled(y, Colliding(2)) && z == Apply(y, Colliding(2)) && ThirdBlocked(z)
  {
    assert y.s.pendq[0] == 71 && 71 in y.s.pendq;
    z := CollidingStep(y, 2);
    assert z.s.pendq == [71, 70] + [69];
  }

  lemma ThirdWaits(y0: Sys, before: seq<Step>, y: Sys) returns (run: seq<Step>, z: Sys)
    requires Run(y0, before, y) && TwoReady(y)
    ensures Run(y0, run, z) && ThirdBlocked(z)
  {
    z := ThirdAccepted(y);
    run := before + [Colliding(2)];
    RunExtend(y0, before, y, Colliding(2));
  }

  lemma FirstTaken(y: Sys) returns (z: Sys)
    requires ThirdBlocked(y)
    ensures Enabled(y, Turn(0)) && z == Apply(y, Turn(0)) && Inv(z) && Ordered(z)
    ensures z.ws == y.ws[0 := Working(71)] && z.s.pendq == [70, 69] && z.serial == y.serial
    ensures forall i: Slot :: i != 71 ==> z.s.reqs[i] == y.s.reqs[i]
    ensures z.s.reqs[71].block == 8
  {
    assert y.s.pendq[0] == 71 && y.s.FirstReady(0) == 0;
    StepInv(y, Turn(0));
    StepOrderedIff(y, Turn(0));
    z := Apply(y, Turn(0));
  }

  /** A worker is processing the first; the others are as they were. */
  ghost predicate FirstBusy(y: Sys) {
    && Inv(y) && Ordered(y) && y.ws[0] == Working(71) && (forall w: Thread :: w > 0 ==> y.ws[w] == Awake)
    && y.s.pendq == [70, 69] && y.s.reqs[71].block == y.s.reqs[70].block == 8 && y.s.reqs[70].status == Pend
    && y.s.StartsAt(69, 8) && !y.s.StartsAt(70, 8) && y.serial[70] < y.serial[69]
  }

  lemma ProcessedFirst(y: Sys) returns (z: Sys)
    requires FirstBusy(y)
    ensures Enabled(y, Process(0)) && z == Apply(y, Process(0)) && Inv(z) && Ordered(z)
    ensures z.ws[0] == Finished(71) && (forall w: Thread :: w > 0 ==> z.ws[w] == Awake)
    ensures z.s.pendq == [70, 69] && z.s.reqs[70].status == Pend && z.s.reqs[71].block == 8
    ensures Precedes(z, 70, 69) && z.s.StartsAt(69, 8) && !z.s.StartsAt(70, 8)
  {
    assert y.s.pendq[0] == 70 && y.s.pendq[1] == 69;
    assert 70 in y.s.pendq && 69 in y.s.pendq;
    StepInv(y, Process(0));
    StepOrderedIff(y, Process(0));
    z := Apply(y, Process(0));
  }

  lemma FirstProcessed(y: Sys) returns (y1: Sys, y2: Sys)
    requires ThirdBlocked(y)
    ensures Enabled(y, Turn(0)) && y1 == Apply(y, Turn(0))
    ensures Enabled(y1, Process(0)) && y2 == Apply(y1, Process(0))
    ensures Inv(y2) && Ordered(y2) && y2.ws[0] == Finished(71) && Precedes(y2, 70, 69)
    ensures y2.s.StartsAt(69, 8) && !y2.s.StartsAt(70, 8)
    ensures y2.s.pendq == [70, 69] && y2.s.reqs[70].status == Pend && y2.s.reqs[71].block == 8
    ensures forall w: Thread :: w > 0 ==> y2.ws[w] == Awake
  {
    y1 := FirstTaken(y);
    y2 := ProcessedFirst(y1);
  }

  /** The first request is done with, and both others are ready, the third too early. */
  ghost predicate BothReady(y: Sys) {
    && Inv(y) && Precedes(y, 70, 69) && y.s.pendq == [70, 69] && (forall w: Thread :: y.ws[w] == Awake)
    && y.s.reqs[70].status == y.s.reqs[69].status == Pend
  }

  lemma FirstServed(y0: Sys, before: seq<Step>, y: Sys) returns (run: seq<Step>, z: Sys)
    requires Run(y0, before, y) && ThirdBlocked(y)
    ensures Run(y0, run, z) && BothReady(z)
  {
    var y1, y2 := FirstProcessed(y);
    RunExtend(y0, before, y, Turn(0));
    RunExtend(y0, before + [Turn(0)], y1, Process(0));
    run := before + [Turn(0)] + [Process(0)] + [Complete(0)];
    RunExtend(y0, before + [Turn(0)] + [Process(0)], y2, Complete(0));
    z := Apply(y2, Complete(0));
    StepInv(y2, Complete(0));
    FirstGone(y2, z);
  }

  lemma FirstGone(y: Sys, z: Sys)
    requires Inv(y) && y.ws[0] == Finished(71) && Precedes(y, 70, 69)
    requires y.s.pendq == [70, 69] && y.s.reqs[70].status == Pend && y.s.reqs[71].block == 8
    requires y.s.StartsAt(69, 8) && !y.s.StartsAt(70, 8)
    requires z.s == y.s.Completed(71) && z.serial == y.serial
    ensures z.s.pendq == [70, 69] && Precedes(z, 70, 69) && z.s.reqs[70].status == z.s.reqs[69].status == Pend
  {
    CompletedOthers(y.s, 71);
    assert 70 in y.s.pendq && 69 in y.s.pendq;
  }

  /** Two more workers take both. */
  lemma BothTaken(y0: Sys, before: seq<Step>, y: Sys) returns (run: seq<Step>, z: Sys)
    requires Run(y0, before, y) && BothReady(y)
    ensures Run(y0, run, z) && Precedes(z, 70, 69) && z.s.reqs[69].status == Busy
  {
    assert y.s.pendq[0] == 70 && y.s.FirstReady(0) == 0;
    var y1 := Apply(y, Turn(1));
    RunExtend(y0, before, y, Turn(1));
    assert y1.s.pendq == [69] && y1.s.pendq[0] == 69 && y1.s.FirstReady(0) == 0;
    z := Apply(y1, Turn(2));
    RunExtend(y0, before + [Turn(1)], y1, Turn(2));
    run := before + [Turn(1)] + [Turn(2)];
  }

  /** Why the ends must differ: a reachable state has dispatched a request that an earlier live one precedes.
      Completing the first of the three requests above releases the third while the second still waits, and two
      more workers then take both. */
  lemma CollidingEndsBreakOrder(y: Sys) returns (run: seq<Step>, z: Sys)
    requires Initial(y)
    ensures Run(y, run, z) && Precedes(z, 70, 69) && z.s.reqs[69].status == Busy && !Ordered(z)
  {
    run, z := FirstTwo(y);
    run, z := ThirdWaits(y, run, z);
    run, z := FirstServed(y, run, z);
    run, z := BothTaken(y, run, z);
  }
}
