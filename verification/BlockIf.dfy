/** The block-device request scheduler: the request elements and their three queues, changed only with
    the context's mutex held. */
module BlockIf {
  import opened Words
  import opened Queues

  const BLOCKIF_NUMTHR: nat := 8
  const BLOCKIF_MAXREQ: nat := 64 + BLOCKIF_NUMTHR
  /** `1 << (sizeof(off_t) - 1)`, the end the code gives to a flush. */
  const FLUSH_END: int := 128

  datatype Op = Read | Write | Flush | Discard
  datatype Status = Free | Block | Pend | Busy | Done

  /** A caller's request; `ptr` is its address. */
  datatype Req = Req(ptr: nat, offset: int, lens: seq<nat>)

  datatype Elem = Elem(req: Option<Req>, op: Op, status: Status, tid: nat, block: int)

  /** An index into the fixed array of request elements. */
  type Slot = i: nat | i < BLOCKIF_MAXREQ

  type Elems = es: seq<Elem> | |es| == BLOCKIF_MAXREQ
    witness seq(BLOCKIF_MAXREQ, _ => Elem(None, Read, Free, 0, 0))

  datatype Outcome = Accepted | E2BIG
  datatype CancelResult = Cancelled | InFlight | NotFound

  function Sum(lens: seq<nat>): nat {
    if lens == [] then 0 else Sum(lens[..|lens| - 1]) + lens[|lens| - 1]
  }

  /** Where a request ends. */
  function End(op: Op, req: Req): int {
    if op == Flush then FLUSH_END else req.offset + Sum(req.lens)
  }

  /** Lengths add up. */
  lemma {:induction false} SumConcat(a: seq<nat>, b: seq<nat>)
    ensures Sum(a + b) == Sum(a) + Sum(b)
    decreases |b|
  {
    if b == [] {
      assert a + b == a;
    } else {
      var front, last := b[..|b| - 1], b[|b| - 1];
      assert (a + b)[..|a + b| - 1] == a + front;
      SumConcat(a, front);
    }
  }

  /** What an end is: a request with no buffers ends where it starts, each buffer moves the end by its length, a
      request cut in two ends where the second piece does, and a flush ends at 128. */
  lemma EndIs(op: Op, ptr: nat, offset: int, a: seq<nat>, b: seq<nat>, n: nat)
    ensures op != Flush ==> End(op, Req(ptr, offset, [])) == offset
    ensures op != Flush ==> End(op, Req(ptr, offset, a + [n])) == End(op, Req(ptr, offset, a)) + n
    ensures op != Flush ==> End(op, Req(ptr, offset, a + b)) == End(op, Req(ptr, End(op, Req(ptr, offset, a)), b))
    ensures End(Flush, Req(ptr, offset, a)) == 128
  {
    SumConcat(a, b);
    SumConcat(a, [n]);
    assert Sum([n]) == Sum([n][..0]) + n && [n][..0] == [];
  }

  datatype Sched = Sched(reqs: Elems, freeq: seq<Slot>, pendq: seq<Slot>, busyq: seq<Slot>) {

    /** Every element is on exactly the queue its status says, once. */
    ghost predicate Valid() {
      && NoDuplicates(freeq) && NoDuplicates(pendq) && NoDuplicates(busyq)
      && (forall i: Slot :: i in freeq <==> reqs[i].status == Free)
      && (forall i: Slot :: i in pendq <==> reqs[i].status == Block || reqs[i].status == Pend)
      && (forall i: Slot :: i in busyq <==> reqs[i].status == Busy || reqs[i].status == Done)
      && (forall i: Slot :: reqs[i].status != Free ==> reqs[i].req.Some?)
    }

    /** Element `i` holds a request that starts at `off`. */
    predicate StartsAt(i: Slot, off: int) {
      reqs[i].req.Some? && reqs[i].req.value.offset == off
    }

    /** Some pending or busy request ends at `off`. */
    predicate EndsAt(off: int) {
      (exists i :: i in pendq && reqs[i].block == off) || (exists i :: i in busyq && reqs[i].block == off)
    }

    function Enqueued(req: Req, op: Op): Sched
      requires |freeq| > 0
    {
      var be := freeq[0];
      var status := if EndsAt(req.offset) then Block else Pend;
      Sched(reqs[be := Elem(Some(req), op, status, reqs[be].tid, End(op, req))], freeq[1..], pendq + [be], busyq)
    }

    /** The position in `pendq` of the first request that is not blocked, or its length. */
    function FirstReady(k: nat): (r: nat)
      requires k <= |pendq|
      ensures k <= r <= |pendq|
      ensures r < |pendq| ==> reqs[pendq[r]].status == Pend
      ensures forall j :: k <= j < r ==> reqs[pendq[j]].status != Pend
      decreases |pendq| - k
    {
      if k == |pendq| || reqs[pendq[k]].status == Pend then k else FirstReady(k + 1)
    }

    function Dequeued(t: nat): Sched
      requires FirstReady(0) < |pendq|
    {
      var be := pendq[FirstReady(0)];
      Sched(reqs[be := reqs[be].(status := Busy, tid := t)], freeq, Remove(pendq, be), busyq + [be])
    }

    /** A worker has processed element `be` and is about to take the mutex again. */
    function Processed(be: Slot): Sched {
      this.(reqs := reqs[be := reqs[be].(status := Done)])
    }

    /** The elements after the requests of `waiting` that start at `off` have been made ready. */
    function Unblocked(waiting: seq<Slot>, off: int): Elems {
      seq(BLOCKIF_MAXREQ, i requires 0 <= i < BLOCKIF_MAXREQ =>
        if i in waiting && StartsAt(i, off) then reqs[i].(status := Pend) else reqs[i])
    }

    function Completed(be: Slot): Sched {
      var inBusy := reqs[be].status == Done || reqs[be].status == Busy;
      var pending := if inBusy then pendq else Remove(pendq, be);
      var freed := reqs[be].(tid := 0, status := Free, req := None);
      Sched(Unblocked(pending, reqs[be].block)[be := freed], freeq + [be], pending,
            if inBusy then Remove(busyq, be) else busyq)
    }

    /** The position in `q` of the first request at address `ptr`, or its length. */
    function FirstAt(q: seq<Slot>, ptr: nat, k: nat): (r: nat)
      requires k <= |q|
      ensures k <= r <= |q|
      ensures r < |q| ==> IsAt(q[r], ptr)
      ensures forall j :: k <= j < r ==> !IsAt(q[j], ptr)
      decreases |q| - k
    {
      if k == |q| || IsAt(q[k], ptr) then k else FirstAt(q, ptr, k + 1)
    }

    predicate IsAt(i: Slot, ptr: nat) {
      reqs[i].req.Some? && reqs[i].req.value.ptr == ptr
    }
  }

  lemma EnqueuedValid(s: Sched, req: Req, op: Op)
    requires s.Valid() && |s.freeq| > 0
    ensures s.Enqueued(req, op).Valid()
  {
    var be := s.freeq[0];
    var t := s.Enqueued(req, op);
    assert be in s.freeq && s.freeq == [be] + t.freeq;
    assert forall i :: i in t.freeq <==> i in s.freeq && i != be;
    assert be !in s.pendq;
    assert forall i :: i in t.pendq <==> i in s.pendq || i == be;
  }

  lemma DequeuedValid(s: Sched, t: nat)
    requires s.Valid() && s.FirstReady(0) < |s.pendq|
    ensures s.Dequeued(t).Valid()
  {
    var be := s.pendq[s.FirstReady(0)];
    RemoveKeeps(s.pendq, be);
    var u := s.Dequeued(t);
    assert be in s.pendq && be !in s.busyq;
    assert forall i :: i in u.busyq <==> i in s.busyq || i == be;
  }

  lemma SameUnblocked(s: Sched, t: Sched, waiting: seq<Slot>, off: int)
    requires s.reqs == t.reqs
    ensures s.Unblocked(waiting, off) == t.Unblocked(waiting, off)
  {
    assert forall i: Slot :: s.StartsAt(i, off) == t.StartsAt(i, off);
  }

  lemma CompletedValid(s: Sched, be: Slot)
    requires s.Valid() && s.reqs[be].status != Free
    ensures s.Completed(be).Valid()
  {
    RemoveKeeps(s.pendq, be);
    RemoveKeeps(s.busyq, be);
    var t := s.Completed(be);
    assert forall i: Slot :: i != be ==>
      t.reqs[i] == s.reqs[i] || (i in t.pendq && t.reqs[i] == s.reqs[i].(status := Pend));
    FreedValid(s, t, be);
  }

  /** Moving one element to the free queue and making pending ones ready keeps the queues in step with the
      elements' status. */
  lemma FreedValid(s: Sched, t: Sched, be: Slot)
    requires s.Valid() && s.reqs[be].status != Free && t.reqs[be].status == Free
    requires forall i: Slot :: i != be ==>
      t.reqs[i] == s.reqs[i] || (i in t.pendq && t.reqs[i] == s.reqs[i].(status := Pend))
    requires NoDuplicates(t.pendq) && NoDuplicates(t.busyq) && t.freeq == s.freeq + [be]
    requires forall i :: i in t.pendq <==> i in s.pendq && i != be
    requires forall i :: i in t.busyq <==> i in s.busyq && i != be
    ensures t.Valid()
  {
    assert be !in s.freeq;
    assert forall i :: i in t.freeq <==> i in s.freeq || i == be;
  }

  /** Accepting a request, field by field: the first free element goes to the tail of the pending queue holding the
      request, blocked exactly when some pending or busy request ends where it starts. */
  lemma EnqueuedIs(s: Sched, req: Req, op: Op)
    requires s.Valid() && |s.freeq| > 0
    ensures var be, t := s.freeq[0], s.Enqueued(req, op);
      && t.freeq == s.freeq[1..] && t.pendq == s.pendq + [be] && t.busyq == s.busyq
      && t.reqs[be].req == Some(req) && t.reqs[be].op == op && t.reqs[be].block == End(op, req)
      && t.reqs[be].status == (if exists i: Slot :: s.reqs[i].status != Free && s.reqs[i].block == req.offset
                               then Block else Pend)
      && forall i: Slot :: i != be ==> t.reqs[i] == s.reqs[i]
  {
    if s.EndsAt(req.offset) {
      var i: Slot :| (i in s.pendq || i in s.busyq) && s.reqs[i].block == req.offset;
      assert s.reqs[i].status != Free;
    } else {
      forall i: Slot | s.reqs[i].status != Free
        ensures s.reqs[i].block != req.offset
      {
        assert i in s.pendq || i in s.busyq;
      }
    }
  }

  /** Taking a request, field by field: the one at the first ready position goes to the tail of the busy queue as
      worker `t`'s, the others keep their order. */
  lemma DequeuedIs(s: Sched, t: nat)
    requires s.Valid() && s.FirstReady(0) < |s.pendq|
    ensures var f := s.FirstReady(0); var be, u := s.pendq[f], s.Dequeued(t);
      && u.freeq == s.freeq && u.pendq == s.pendq[..f] + s.pendq[f + 1..] && u.busyq == s.busyq + [be]
      && u.reqs[be] == Elem(s.reqs[be].req, s.reqs[be].op, Busy, t, s.reqs[be].block)
      && forall i: Slot :: i != be ==> u.reqs[i] == s.reqs[i]
  {
    RemoveAt(s.pendq, s.FirstReady(0));
  }

  /** Completing a request, field by field: its element goes to the tail of the free queue, emptied, and every other
      request that waits and starts where it ends is ready; nothing else changes. */
  lemma CompletedIs(s: Sched, be: Slot)
    requires s.Valid() && s.reqs[be].status != Free
    ensures var t := s.Completed(be);
      && t.freeq == s.freeq + [be] && t.pendq == Remove(s.pendq, be) && t.busyq == Remove(s.busyq, be)
      && t.reqs[be] == Elem(None, s.reqs[be].op, Free, 0, s.reqs[be].block)
      && forall i: Slot :: i != be ==>
           t.reqs[i] ==
           if (s.reqs[i].status == Block || s.reqs[i].status == Pend) && s.reqs[i].req.value.offset == s.reqs[be].block
           then Elem(s.reqs[i].req, s.reqs[i].op, Pend, s.reqs[i].tid, s.reqs[i].block)
           else s.reqs[i]
  {
    RemoveKeeps(s.pendq, be);
    RemoveAbsent(s.pendq, be);
    RemoveAbsent(s.busyq, be);
    forall i: Slot | i != be
      ensures i in s.Completed(be).pendq <==> s.reqs[i].status == Block || s.reqs[i].status == Pend
    {
    }
  }

  /** Which request a cancel finds: the first on the queue with that address. */
  lemma FoundIs(s: Sched, q: seq<Slot>, ptr: nat, k: nat)
    requires s.Valid() && k < |q| && (forall j :: 0 <= j < |q| ==> s.reqs[q[j]].status != Free)
    ensures s.FirstAt(q, ptr, 0) == k <==>
            s.reqs[q[k]].req.value.ptr == ptr && forall j :: 0 <= j < k ==> s.reqs[q[j]].req.value.ptr != ptr
  {
  }

  class Ctxt {
    const reqs: array<Elem>
    var freeq: seq<Slot>
    var pendq: seq<Slot>
    var busyq: seq<Slot>
    var signals: nat

    function View(): Sched
      reads this, reqs
      requires reqs.Length == BLOCKIF_MAXREQ
    {
      Sched(reqs[..], freeq, pendq, busyq)
    }

    /** The part of `blockif_open` that puts every element on the free queue, the last one first. */
    constructor ()
      ensures fresh(reqs) && reqs.Length == BLOCKIF_MAXREQ && View().Valid()
      ensures |freeq| == 72 && signals == 0
    {
      reqs := new Elem[BLOCKIF_MAXREQ](_ => Elem(None, Read, Free, 0, 0));
      freeq, pendq, busyq, signals := [], [], [], 0;
      new;
      for i := 0 to BLOCKIF_MAXREQ
        invariant |freeq| == i && pendq == busyq == [] && signals == 0
        invariant forall k :: 0 <= k < i ==> freeq[k] == i - 1 - k
        invariant forall k :: 0 <= k < BLOCKIF_MAXREQ ==> reqs[k] == Elem(None, Read, Free, 0, 0)
      {
        freeq := [i] + freeq;
      }
      forall i: Slot
        ensures i in freeq
      {
        assert freeq[BLOCKIF_MAXREQ - 1 - i] == i;
      }
    }

    /** One of the two searches of `blockif_enqueue`. */
    method AnyEndsAt(q: seq<Slot>, off: int) returns (found: bool)
      requires reqs.Length == BLOCKIF_MAXREQ
      ensures found <==> exists i :: i in q && reqs[i].block == off
    {
      for k := 0 to |q|
        invariant forall j :: 0 <= j < k ==> reqs[q[j]].block != off
      {
        if reqs[q[k]].block == off {
          assert q[k] in q;
          return true;
        }
      }
      return false;
    }

    /** `blockif_enqueue` */
    method Enqueue(breq: Req, op: Op) returns (ready: bool)
      requires reqs.Length == BLOCKIF_MAXREQ && View().Valid()
      modifies this`freeq, this`pendq, reqs
      ensures |old(freeq)| == 0 ==> !ready && View() == old(View())
      ensures |old(freeq)| > 0 ==> View() == old(View().Enqueued(breq, op))
      ensures |old(freeq)| > 0 ==> (ready <==> !old(View().EndsAt(breq.offset)))
      ensures View().Valid()
    {
      ghost var s := View();
      assert |freeq| > 0 ==> freeq[0] in freeq;
      if |freeq| == 0 || reqs[freeq[0]].status != Free {
        return false;
      }
      EnqueuedValid(s, breq, op);
      var be := freeq[0];
      var off: int;
      if op == Flush {
        off := FLUSH_END;
      } else {
        off := breq.offset;
        for i := 0 to |breq.lens|
          invariant off == breq.offset + Sum(breq.lens[..i])
        {
          assert breq.lens[..i + 1][..i] == breq.lens[..i];
          off := off + breq.lens[i];
        }
        assert breq.lens[..|breq.lens|] == breq.lens;
      }
      var blocked := AnyEndsAt(pendq, breq.offset);
      if !blocked {
        blocked := AnyEndsAt(busyq, breq.offset);
      }
      freeq := freeq[1..];
      reqs[be] := Elem(Some(breq), op, if blocked then Block else Pend, reqs[be].tid, off);
      pendq := pendq + [be];
      return !blocked;
    }

    /** `blockif_dequeue` */
    method Dequeue(t: nat) returns (be: Option<Slot>)
      requires reqs.Length == BLOCKIF_MAXREQ && View().Valid()
      modifies this`pendq, this`busyq, reqs
      ensures be.None? <==> old(View().FirstReady(0)) == |old(pendq)|
      ensures be.None? ==> View() == old(View())
      ensures be.Some? ==> be.value == old(pendq[View().FirstReady(0)]) && View() == old(View().Dequeued(t))
      ensures View().Valid()
    {
      ghost var s := View();
      var k := 0;
      while k < |pendq| && reqs[pendq[k]].status != Pend
        invariant k <= |pendq|
        invariant s.FirstReady(0) == s.FirstReady(k)
      {
        assert pendq[k] in pendq;
        k := k + 1;
      }
      if k == |pendq| {
        return None;
      }
      DequeuedValid(s, t);
      var e := pendq[k];
      pendq := Remove(pendq, e);
      reqs[e] := reqs[e].(status := Busy, tid := t);
      busyq := busyq + [e];
      return Some(e);
    }

    /** The loop of `blockif_complete`: everything pending that starts at `off` becomes ready. */
    method Unblock(off: int)
      requires reqs.Length == BLOCKIF_MAXREQ
      requires forall k :: 0 <= k < |pendq| ==> reqs[pendq[k]].req.Some?
      modifies reqs
      ensures reqs[..] == old(View()).Unblocked(pendq, off)
    {
      ghost var s := View();
      for k := 0 to |pendq|
        invariant forall i: Slot :: reqs[i] == s.reqs[i] || (i in pendq[..k] && reqs[i] == s.reqs[i].(status := Pend))
        invariant forall i: Slot :: s.StartsAt(i, off) && i in pendq[..k] ==> reqs[i].status == Pend
        invariant forall i: Slot :: !s.StartsAt(i, off) ==> reqs[i] == s.reqs[i]
      {
        var tbe := pendq[k];
        assert pendq[..k + 1] == pendq[..k] + [tbe];
        if reqs[tbe].req.value.offset == off {
          reqs[tbe] := reqs[tbe].(status := Pend);
        }
      }
      assert pendq[..|pendq|] == pendq;
      assert reqs[..] == s.Unblocked(pendq, off);
    }

    /** `blockif_complete` */
    method Complete(be: Slot)
      requires reqs.Length == BLOCKIF_MAXREQ && View().Valid() && reqs[be].status != Free
      modifies this`freeq, this`pendq, this`busyq, reqs
      ensures View() == old(View().Completed(be)) && View().Valid()
    {
      ghost var s := View();
      RemoveKeeps(pendq, be);
      if reqs[be].status == Done || reqs[be].status == Busy {
        busyq := Remove(busyq, be);
      } else {
        pendq := Remove(pendq, be);
      }
      assert forall k :: 0 <= k < |pendq| ==> pendq[k] in old(pendq);
      assert be !in pendq;
      SameUnblocked(s, View(), pendq, reqs[be].block);
      Unblock(reqs[be].block);
      reqs[be] := reqs[be].(tid := 0, status := Free, req := None);
      freeq := freeq + [be];
      assert reqs[..] == s.Completed(be).reqs;
      CompletedValid(s, be);
    }

    /** `blockif_request`: whether the condition variable was signalled shows in `signals`. */
    method Request(breq: Req, op: Op) returns (r: Outcome)
      requires reqs.Length == BLOCKIF_MAXREQ && View().Valid()
      modifies this, reqs
      ensures View().Valid()
      ensures r == E2BIG <==> old(freeq) == []
      ensures r == E2BIG ==> View() == old(View()) && signals == old(signals)
      ensures r == Accepted ==> View() == old(View().Enqueued(breq, op))
      ensures r == Accepted ==> signals == old(signals) + if old(View().EndsAt(breq.offset)) then 0 else 1
    {
      if freeq != [] {
        var ready := Enqueue(breq, op);
        if ready {
          signals := signals + 1;
        }
        return Accepted;
      } else {
        return E2BIG;
      }
    }

    method Find(q: seq<Slot>, ptr: nat) returns (k: nat)
      requires reqs.Length == BLOCKIF_MAXREQ && View().Valid() && forall k :: 0 <= k < |q| ==> reqs[q[k]].status != Free
      ensures k == View().FirstAt(q, ptr, 0)
    {
      k := 0;
      while k < |q| && reqs[q[k]].req.value.ptr != ptr
        invariant k <= |q|
        invariant View().FirstAt(q, ptr, 0) == View().FirstAt(q, ptr, k)
      {
        assert q[k] in q;
        k := k + 1;
      }
      assert k < |q| ==> q[k] in q;
    }

    /** `blockif_cancel`; the wait for an in-flight request changes no queue. */
    method Cancel(ptr: nat) returns (r: CancelResult)
      requires reqs.Length == BLOCKIF_MAXREQ && View().Valid()
      modifies this`freeq, this`pendq, this`busyq, reqs
      ensures View().Valid()
      ensures r == Cancelled <==> exists i :: i in old(pendq) && old(View()).IsAt(i, ptr)
      ensures r == Cancelled ==> View() == old(View().Completed(pendq[View().FirstAt(pendq, ptr, 0)]))
      ensures r != Cancelled ==> View() == old(View())
      ensures r != Cancelled ==> (r == InFlight <==> exists i :: i in old(busyq) && old(View()).IsAt(i, ptr))
    {
      ghost var s := View();
      var k := Find(pendq, ptr);
      if k < |pendq| {
        assert pendq[k] in pendq;
        Complete(pendq[k]);
        return Cancelled;
      }
      var b := Find(busyq, ptr);
      if b == |busyq| {
        return NotFound;
      }
      assert busyq[b] in busyq;
      return InFlight;
    }
  }
}
