/** The event loop among other threads: one atomic step for every section the code runs under its lock
    and for every access it makes outside it, with two exceptions. A deletion inside a callback is one step:
    the dispatch thread cannot poll meanwhile. So is the first part of adding an event, from the search for
    its key to its registration: nobody else knows the new event yet. */
module EventLoop {
  import opened Queues
  import opened Mevent

  /** How far another thread has got with deleting an event: off the list, `me_state` cleared, or
      unknown to epoll as well. */
  datatype Phase = OffList | Cleared | OffEpoll

  /** The dispatch thread waits, is about to look at event `i` of a batch, is inside that event's
      callback, or has left its loop. */
  datatype Dispatch = Polling | Handling(batch: seq<nat>, i: nat) | Calling(batch: seq<nat>, i: nat) | Stopped

  /** `enabling` holds, once for each caller, the events that `mevent_enable` has found listed and not yet
      handed to epoll; `disabled` those that were disabled and not enabled since. */
  datatype Sys = Sys(b: Books, adding: set<nat>, deleting: map<nat, Phase>, enabling: multiset<nat>, disabled: set<nat>,
                     d: Dispatch)

  datatype Step =
    | Create(key: Key)
    | Link(e: nat)
    | StartDelete(e: nat)
    | Clear(e: nat)
    | LeaveEpoll(e: nat)
    | Park(e: nat)
    | Disable(e: nat)
    | StartEnable(e: nat)
    | FinishEnable(e: nat, ok: bool)
    | Poll(batch: seq<nat>)
    | Touch
    | Return
    | DispatchDelete(e: nat)
    | Drain
    | Stop
    | Destroy

  predicate Initial(s: Sys) {
    s == Sys(Books([], [], [], {}, {}, []), {}, map[], multiset{}, {}, Polling)
  }

  /** Which steps can be taken. An event is deleted only while it is listed, so at most once. Enabling looks
      for the event on the list under the lock and registers it, if epoll is willing, after the lock has been
      dropped; an event that is not listed is left alone. Disabling asks nothing. Epoll reports each
      registered event at most once, and at most 64 of them. */
  predicate Enabled(s: Sys, st: Step) {
    match st
    case Create(_) => true
    case Link(e) => e in s.adding
    case StartDelete(e) => e in s.b.head
    case Clear(e) => e in s.deleting && s.deleting[e] == OffList
    case LeaveEpoll(e) => e in s.deleting && s.deleting[e] == Cleared
    case Park(e) => e in s.deleting && s.deleting[e] == OffEpoll
    case Disable(e) => e < s.b.Next()
    case StartEnable(e) => e in s.b.head
    case FinishEnable(e, _) => e in s.enabling
    case Poll(batch) =>
      && s.d.Polling? && NoDuplicates(batch) && |batch| <= MEVENT_MAX
      && forall j :: 0 <= j < |batch| ==> batch[j] in s.b.registered
    case Touch => s.d.Handling? && s.d.i < |s.d.batch|
    case Return => s.d.Calling?
    case DispatchDelete(e) => s.d.Calling? && e in s.b.head
    case Drain => s.d.Handling? && s.d.i >= |s.d.batch|
    case Stop => s.d.Polling?
    case Destroy => s.d.Stopped?
  }

  /** What threads must not do: a callback deletes no event at a later position of the current batch, no
      thread uses an event that has been freed, and none registers an event that deletion has already
      taken from epoll. */
  predicate Careful(s: Sys, st: Step) {
    match st
    case DispatchDelete(e) => s.d.Calling? ==> !Ahead(s.d.batch, s.d.i + 1, e)
    case Disable(e) => e !in s.b.torn
    case FinishEnable(e, ok) => e !in s.b.torn && (ok ==> Registrable(s, e))
    case _ => true
  }

  /** The event is being added, listed, or not yet off epoll. */
  predicate Registrable(s: Sys, e: nat) {
    e in s.adding || e in s.b.head || (e in s.deleting && s.deleting[e] != OffEpoll)
  }

  /** Event `e` is in the batch at position `from` or later. */
  predicate Ahead(batch: seq<nat>, from: nat, e: nat) {
    exists j :: from <= j < |batch| && batch[j] == e
  }

  function Apply(s: Sys, st: Step): Sys
    requires Enabled(s, st)
  {
    match st
    case Create(key) => s.(b := s.b.Created(key), adding := s.adding + {s.b.Next()})
    case Link(e) => s.(b := s.b.Linked(e), adding := s.adding - {e})
    case StartDelete(e) => s.(b := s.b.Unlinked(e), deleting := s.deleting[e := OffList])
    case Clear(e) => s.(b := s.b.Deactivated(e), deleting := s.deleting[e := Cleared])
    case LeaveEpoll(e) => s.(b := s.b.Unregistered(e), deleting := s.deleting[e := OffEpoll])
    case Park(e) => s.(b := s.b.Parked(e), deleting := s.deleting - {e})
    case Disable(e) => s.(b := s.b.Unregistered(e), disabled := s.disabled + {e})
    case StartEnable(e) => s.(enabling := s.enabling + multiset{e})
    case FinishEnable(e, ok) =>
      s.(b := if ok then s.b.(registered := s.b.registered + {e}) else s.b, enabling := s.enabling - multiset{e},
         disabled := if ok then s.disabled - {e} else s.disabled)
    case Poll(batch) => s.(d := Handling(batch, 0))
    case Touch =>
      s.(d := if s.d.batch[s.d.i] in s.b.active then Calling(s.d.batch, s.d.i) else Handling(s.d.batch, s.d.i + 1))
    case Return => s.(d := Handling(s.d.batch, s.d.i + 1))
    case DispatchDelete(e) => s.(b := s.b.Unlinked(e).Deactivated(e).Unregistered(e).Torn(e))
    case Drain => s.(b := s.b.Drained(), d := Polling)
    case Stop => s.(d := Stopped)
    case Destroy =>
      s.(b := s.b.(head := [], del := [], torn := s.b.torn + s.b.head + s.b.del,
                   registered := s.b.registered - (set e | e in s.b.head)))
  }

  /** The events whose memory a step reads or writes. */
  function Touches(s: Sys, st: Step): set<nat>
    requires Enabled(s, st)
  {
    match st
    case Create(_) => set e | e in s.b.head
    case Touch => {s.d.batch[s.d.i]}
    case Drain => set e | e in s.b.del
    case Destroy => set e | e in s.b.head + s.b.del
    case Poll(_) => {}
    case Return => {}
    case Stop => {}
    case Link(e) => {e}
    case StartDelete(e) => {e}
    case Clear(e) => {e}
    case LeaveEpoll(e) => {e}
    case Park(e) => {e}
    case Disable(e) => {e}
    case StartEnable(_) => set e | e in s.b.head
    case FinishEnable(e, _) => {e}
    case DispatchDelete(e) => {e}
  }

  /** Every step touches what it walks along or works on: the loop the next event of its batch, a search the list, a
      drain what is parked, the end of the program both lists, and any other step its own event. */
  lemma TouchesAre(s: Sys, st: Step, e: nat)
    requires Enabled(s, st)
    ensures st.Touch? ==> (e in Touches(s, st) <==> e == s.d.batch[s.d.i])
    ensures st.Create? || st.StartEnable? ==> (e in Touches(s, st) <==> e in s.b.head)
    ensures st.Drain? ==> (e in Touches(s, st) <==> e in s.b.del)
    ensures st.Destroy? ==> (e in Touches(s, st) <==> e in s.b.head || e in s.b.del)
    ensures st.Link? || st.StartDelete? || st.Clear? ==> (e in Touches(s, st) <==> e == st.e)
    ensures st.LeaveEpoll? || st.Park? ==> (e in Touches(s, st) <==> e == st.e)
    ensures st.Disable? || st.FinishEnable? || st.DispatchDelete? ==> (e in Touches(s, st) <==> e == st.e)
  {
  }

  function Here(b: bool): nat { if b then 1 else 0 }

  /** In how many of its possible places an event is: being added, listed, being deleted by another
      thread, parked, or torn down. */
  function Places(s: Sys, e: nat): nat {
    Here(e in s.adding) + Here(e in s.b.head) + Here(e in s.deleting) + Here(e in s.b.del) + Here(e in s.b.torn)
  }

  /** Every allocated event is in exactly one place, and once there. */
  ghost predicate OnePlace(s: Sys) {
    && NoDuplicates(s.b.head) && NoDuplicates(s.b.del) && NoDuplicates(s.b.torn)
    && forall e: nat :: Places(s, e) == Here(e < s.b.Next())
  }

  /** What epoll may still report is neither parked nor freed. */
  ghost predicate Reportable(s: Sys) {
    forall e :: e in s.b.registered ==> Registrable(s, e)
  }

  /** Only allocated events are being enabled. */
  ghost predicate EnablingKnown(s: Sys) {
    forall e :: e in s.enabling ==> e < s.b.Next()
  }

  /** The event is being added, or listed, or another thread has taken it off the list but not yet cleared its
      `me_state`. */
  predicate MayRun(s: Sys, e: nat) {
    e in s.adding || e in s.b.head || (e in s.deleting && s.deleting[e] == OffList)
  }

  /** `me_state` says just that, of every event that has not been freed. */
  ghost predicate ActiveExact(s: Sys) {
    && (forall e :: e in s.b.active ==> e < s.b.Next())
    && (forall e :: e !in s.b.torn ==> (e in s.b.active <==> MayRun(s, e)))
  }

  /** Epoll can report every event that has not left it, unless it was disabled last. */
  ghost predicate ReportsExact(s: Sys) {
    && (forall e :: e in s.disabled ==> e < s.b.Next())
    && (forall e :: Registrable(s, e) ==> (e in s.b.registered <==> e !in s.disabled))
  }

  /** Nothing the current batch has still to look at has been freed. */
  ghost predicate BatchAlive(s: Sys) {
    match s.d
    case Handling(batch, i) => forall j :: i <= j < |batch| ==> batch[j] !in s.b.torn && batch[j] < s.b.Next()
    case Calling(batch, i) => forall j :: i < j < |batch| ==> batch[j] !in s.b.torn && batch[j] < s.b.Next()
    case _ => true
  }

  ghost predicate Inv(s: Sys) {
    OnePlace(s) && Reportable(s) && EnablingKnown(s) && BatchAlive(s) && ActiveExact(s) && ReportsExact(s)
  }

  lemma InitialInv(s: Sys)
    requires Initial(s)
    ensures Inv(s)
  {
  }

  /** Moving one event from one place to another keeps the books. */
  lemma Moved(s: Sys, t: Sys, e: nat)
    requires OnePlace(s) && t.b.keys == s.b.keys && Places(t, e) == Places(s, e)
    requires forall f: nat :: f != e ==> Places(t, f) == Places(s, f)
    requires NoDuplicates(t.b.head) && NoDuplicates(t.b.del) && NoDuplicates(t.b.torn)
    ensures OnePlace(t)
  {
  }

  lemma CreateOnePlace(s: Sys, key: Key)
    requires Inv(s)
    ensures OnePlace(Apply(s, Create(key)))
  {
    var t := Apply(s, Create(key));
    forall e: nat
      ensures Places(t, e) == Here(e < t.b.Next())
    {
      assert Places(s, e) == Here(e < s.b.Next());
    }
  }

  lemma StartDeleteOnePlace(s: Sys, e: nat)
    requires Inv(s) && Enabled(s, StartDelete(e))
    ensures OnePlace(Apply(s, StartDelete(e)))
  {
    assert Places(s, e) == Here(e < s.b.Next());
    RemoveKeeps(s.b.head, e);
    Moved(s, Apply(s, StartDelete(e)), e);
  }

  lemma DispatchDeleteOnePlace(s: Sys, e: nat)
    requires Inv(s) && Enabled(s, DispatchDelete(e))
    ensures OnePlace(Apply(s, DispatchDelete(e)))
  {
    assert Places(s, e) == Here(e < s.b.Next());
    RemoveKeeps(s.b.head, e);
    Moved(s, Apply(s, DispatchDelete(e)), e);
  }

  lemma LinkOnePlace(s: Sys, e: nat)
    requires Inv(s) && Enabled(s, Link(e))
    ensures OnePlace(Apply(s, Link(e)))
  {
    assert Places(s, e) == Here(e < s.b.Next());
    Moved(s, Apply(s, Link(e)), e);
  }

  lemma ParkOnePlace(s: Sys, e: nat)
    requires Inv(s) && Enabled(s, Park(e))
    ensures OnePlace(Apply(s, Park(e)))
  {
    assert Places(s, e) == Here(e < s.b.Next());
    Moved(s, Apply(s, Park(e)), e);
  }

  lemma SamePlaces(s: Sys, t: Sys)
    requires OnePlace(s) && t.b.keys == s.b.keys && t.b.head == s.b.head && t.b.del == s.b.del && t.b.torn == s.b.torn
    requires t.adding == s.adding && t.deleting.Keys == s.deleting.Keys
    ensures OnePlace(t)
  {
    forall e: nat
      ensures Places(t, e) == Here(e < t.b.Next())
    {
      assert Places(s, e) == Here(e < s.b.Next());
    }
  }

  lemma StepOnePlace(s: Sys, st: Step)
    requires Inv(s) && Enabled(s, st)
    ensures OnePlace(Apply(s, st))
  {
    match st
    case Create(key) => CreateOnePlace(s, key);
    case Link(e) => LinkOnePlace(s, e);
    case StartDelete(e) => StartDeleteOnePlace(s, e);
    case Park(e) => ParkOnePlace(s, e);
    case DispatchDelete(e) => DispatchDeleteOnePlace(s, e);
    case Drain => DrainOnePlace(s);
    case Destroy => DestroyOnePlace(s);
    case _ => SamePlaces(s, Apply(s, st));
  }

  lemma DrainOnePlace(s: Sys)
    requires Inv(s) && Enabled(s, Drain)
    ensures OnePlace(Apply(s, Drain))
  {
    var t := Apply(s, Drain);
    forall e: nat
      ensures Places(t, e) == Here(e < t.b.Next()) && !(e in s.b.torn && e in s.b.del)
    {
      assert Places(s, e) == Here(e < s.b.Next());
    }
    assert forall k :: 0 <= k < |s.b.del| ==> s.b.del[k] in s.b.del;
    assert forall k :: 0 <= k < |s.b.torn| ==> s.b.torn[k] in s.b.torn;
  }

  lemma DestroyOnePlace(s: Sys)
    requires Inv(s) && Enabled(s, Destroy)
    ensures OnePlace(Apply(s, Destroy))
  {
    var t := Apply(s, Destroy);
    forall e: nat
      ensures Places(t, e) == Here(e < t.b.Next())
      ensures !(e in s.b.torn && e in s.b.del) && !(e in s.b.torn && e in s.b.head) && !(e in s.b.head && e in s.b.del)
    {
      assert Places(s, e) == Here(e < s.b.Next());
    }
    assert forall k :: 0 <= k < |s.b.head| ==> s.b.head[k] in s.b.head;
    assert forall k :: 0 <= k < |s.b.del| ==> s.b.del[k] in s.b.del;
    assert forall k :: 0 <= k < |s.b.torn| ==> s.b.torn[k] in s.b.torn;
  }

  lemma StepReportable(s: Sys, st: Step)
    requires Inv(s) && Enabled(s, st) && Careful(s, st)
    ensures Reportable(Apply(s, st))
  {
    match st
    case StartDelete(e) => RemoveKeeps(s.b.head, e);
    case DispatchDelete(e) => RemoveKeeps(s.b.head, e);
    case Park(e) =>
      assert Places(s, e) == Here(e < s.b.Next());
    case _ =>
  }

  lemma StepEnablingKnown(s: Sys, st: Step)
    requires Inv(s) && Enabled(s, st)
    ensures EnablingKnown(Apply(s, st))
  {
    match st
    case StartEnable(e) => assert Places(s, e) == Here(e < s.b.Next());
    case _ =>
  }

  lemma StepBatchAlive(s: Sys, st: Step)
    requires Inv(s) && Enabled(s, st) && Careful(s, st)
    ensures BatchAlive(Apply(s, st))
  {
    match st
    case Poll(batch) =>
      forall j | 0 <= j < |batch|
        ensures batch[j] !in s.b.torn && batch[j] < s.b.Next()
      {
        assert Places(s, batch[j]) == Here(batch[j] < s.b.Next());
      }
    case DispatchDelete(e) =>
      forall j | s.d.i < j < |s.d.batch|
        ensures s.d.batch[j] !in s.b.torn + [e]
      {
        assert !Ahead(s.d.batch, s.d.i + 1, e);
      }
    case _ =>
  }

  lemma StepActive(s: Sys, st: Step)
    requires Inv(s) && Enabled(s, st)
    ensures ActiveExact(Apply(s, st))
  {
    match st
    case Create(key) =>
      assert Places(s, s.b.Next()) == 0;
    case Link(e) => assert Places(s, e) == Here(e < s.b.Next());
    case StartDelete(e) =>
      assert Places(s, e) == Here(e < s.b.Next());
      RemoveKeeps(s.b.head, e);
    case Clear(e) => assert Places(s, e) == Here(e < s.b.Next());
    case LeaveEpoll(e) => assert Places(s, e) == Here(e < s.b.Next());
    case Park(e) => assert Places(s, e) == Here(e < s.b.Next());
    case DispatchDelete(e) =>
      assert Places(s, e) == Here(e < s.b.Next());
      RemoveKeeps(s.b.head, e);
    case _ =>
  }

  lemma StepReports(s: Sys, st: Step)
    requires Inv(s) && Enabled(s, st)
    ensures ReportsExact(Apply(s, st))
  {
    match st
    case Link(e) => assert Places(s, e) == Here(e < s.b.Next());
    case StartDelete(e) =>
      assert Places(s, e) == Here(e < s.b.Next());
      RemoveKeeps(s.b.head, e);
    case LeaveEpoll(e) => assert Places(s, e) == Here(e < s.b.Next());
    case Park(e) => assert Places(s, e) == Here(e < s.b.Next());
    case DispatchDelete(e) =>
      assert Places(s, e) == Here(e < s.b.Next());
      RemoveKeeps(s.b.head, e);
    case Destroy =>
      forall e: nat | e in s.b.head
        ensures e !in s.adding && e !in s.deleting
      {
        assert Places(s, e) == Here(e < s.b.Next());
      }
    case _ =>
  }

  /** In every interleaving of careful threads the invariants are kept. */
  lemma StepInv(s: Sys, st: Step)
    requires Inv(s) && Enabled(s, st) && Careful(s, st)
    ensures Inv(Apply(s, st))
  {
    StepOnePlace(s, st);
    StepReportable(s, st);
    StepEnablingKnown(s, st);
    StepActive(s, st);
    StepReports(s, st);
    StepBatchAlive(s, st);
  }

  /** `run` is a run from `s` to `t`, every step in it careful when `careful` is set. */
  ghost predicate Run(s: Sys, run: seq<Step>, t: Sys, careful: bool)
    decreases |run|
  {
    if |run| == 0 then s == t
    else Enabled(s, run[0]) && (careful ==> Careful(s, run[0])) && Run(Apply(s, run[0]), run[1..], t, careful)
  }

  lemma {:induction false} RunInv(s: Sys, run: seq<Step>, t: Sys)
    requires Inv(s) && Run(s, run, t, true)
    ensures Inv(t)
    decreases |run|
  {
    if |run| > 0 {
      StepInv(s, run[0]);
      RunInv(Apply(s, run[0]), run[1..], t);
    }
  }

  /** No step of a careful run touches an event that was freed or never allocated. */
  lemma NeverTouchesFreed(s: Sys, run: seq<Step>, t: Sys, st: Step, e: nat)
    requires Initial(s) && Run(s, run, t, true) && Enabled(t, st) && Careful(t, st) && e in Touches(t, st)
    ensures e !in t.b.torn && e < t.b.Next()
  {
    InitialInv(s);
    RunInv(s, run, t);
    assert Places(t, e) == Here(e < t.b.Next());
  }

  /** No event is ever on both lists, and none is torn down twice. */
  lemma TornDownOnce(s: Sys, run: seq<Step>, t: Sys)
    requires Initial(s) && Run(s, run, t, true)
    ensures NoDuplicates(t.b.torn)
    ensures forall e :: e in t.b.torn ==> e !in t.b.head && e !in t.b.del && e !in t.deleting
    ensures forall e :: e in t.b.head ==> e !in t.b.del
  {
    InitialInv(s);
    RunInv(s, run, t);
    forall e: nat
      ensures e in t.b.torn ==> e !in t.b.head && e !in t.b.del && e !in t.deleting
      ensures e in t.b.head ==> e !in t.b.del
    {
      assert Places(t, e) == Here(e < t.b.Next());
    }
  }

  /** Which callbacks the loop runs: after every careful run, looking at the next event of the batch enters its
      callback if and only if the event is being added, listed, or off the list but not yet cleared; it passes over
      every other, and goes on to the next position either way. */
  lemma CallbackRunsIff(s: Sys, run: seq<Step>, t: Sys)
    requires Initial(s) && Run(s, run, t, true) && Enabled(t, Touch)
    ensures var e, next := t.d.batch[t.d.i], Apply(t, Touch).d;
      && (MayRun(t, e) ==> next == Calling(t.d.batch, t.d.i))
      && (!MayRun(t, e) ==> next == Handling(t.d.batch, t.d.i + 1))
  {
    InitialInv(s);
    RunInv(s, run, t);
  }

  /** Which events epoll may report: after every careful run, those being added, listed, or not yet off epoll, except
      those disabled last. */
  lemma ReportedIff(s: Sys, run: seq<Step>, t: Sys, e: nat)
    requires Initial(s) && Run(s, run, t, true) && t.d.Polling?
    ensures Enabled(t, Poll([e])) <==> Registrable(t, e) && e !in t.disabled
  {
    InitialInv(s);
    RunInv(s, run, t);
    assert [e][0] == e;
  }

  /** The end of a batch frees everything parked by then; the end of the program everything else. */
  lemma EverythingTornDown(s: Sys)
    requires Inv(s)
    ensures Enabled(s, Drain) ==> forall e :: e in s.b.del ==> e in Apply(s, Drain).b.torn
    ensures Enabled(s, Destroy) && s.adding == {} && s.deleting == map[] ==>
              forall e: nat :: e < s.b.Next() ==> e in Apply(s, Destroy).b.torn
  {
    if Enabled(s, Destroy) && s.adding == {} && s.deleting == map[] {
      forall e: nat | e < s.b.Next()
        ensures e in Apply(s, Destroy).b.torn
      {
        assert Places(s, e) == Here(e < s.b.Next());
      }
    }
  }

  /** The rule for callbacks is exact: a deletion inside a callback is safe if and only if the event is
      not ahead in the batch. */
  lemma DispatchDeleteSafeIff(s: Sys, e: nat)
    requires Inv(s) && Enabled(s, DispatchDelete(e))
    ensures Inv(Apply(s, DispatchDelete(e))) <==> !Ahead(s.d.batch, s.d.i + 1, e)
  {
    var t := Apply(s, DispatchDelete(e));
    if !Ahead(s.d.batch, s.d.i + 1, e) {
      StepInv(s, DispatchDelete(e));
    } else {
      var j :| s.d.i + 1 <= j < |s.d.batch| && s.d.batch[j] == e;
      assert t.b.torn[|s.b.torn|] == e;
      assert t.d.batch[j] in t.b.torn;
    }
  }

  /** What goes wrong otherwise: the loop goes on, by itself, to touch the freed event. */
  lemma {:induction false} BatchReaches(s: Sys, j: nat) returns (run: seq<Step>, t: Sys)
    requires s.d.Handling? && s.d.i <= j <= |s.d.batch|
    ensures Run(s, run, t, false) && t == s.(d := Handling(s.d.batch, j))
    decreases j - s.d.i
  {
    if s.d.i == j {
      run, t := [], s;
    } else {
      var next := Apply(s, Touch);
      if next.d.Calling? {
        var later, end := BatchReaches(Apply(next, Return), j);
        run, t := [Touch, Return] + later, end;
        assert run[1..] == [Return] + later && run[1..][1..] == later;
      } else {
        var later, end := BatchReaches(next, j);
        run, t := [Touch] + later, end;
        assert run[1..] == later;
      }
    }
  }

  lemma CarelessDeleteTouchesFreed(s: Sys, e: nat) returns (run: seq<Step>, t: Sys)
    requires Inv(s) && Enabled(s, DispatchDelete(e)) && Ahead(s.d.batch, s.d.i + 1, e)
    ensures Run(s, run, t, false) && Enabled(t, Touch) && e in Touches(t, Touch) && e in t.b.torn
  {
    var j :| s.d.i + 1 <= j < |s.d.batch| && s.d.batch[j] == e;
    var gone := Apply(s, DispatchDelete(e));
    var back := Apply(gone, Return);
    RunOne(s, DispatchDelete(e), false);
    RunOne(gone, Return, false);
    RunConcat(s, [DispatchDelete(e)], gone, [Return], back, false);
    var later, end := BatchReaches(back, j);
    RunConcat(s, [DispatchDelete(e)] + [Return], back, later, end, false);
    run, t := [DispatchDelete(e)] + [Return] + later, end;
    assert gone.b.torn[|s.b.torn|] == e;
  }

  lemma {:induction false} RunConcat(s: Sys, run: seq<Step>, t: Sys, more: seq<Step>, u: Sys, careful: bool)
    requires Run(s, run, t, careful) && Run(t, more, u, careful)
    ensures Run(s, run + more, u, careful)
    decreases |run|
  {
    if run == [] {
      assert [] + more == more;
    } else {
      RunConcat(Apply(s, run[0]), run[1..], t, more, u, careful);
      assert (run + more)[1..] == run[1..] + more;
    }
  }

  lemma RunOne(s: Sys, st: Step, careful: bool)
    requires Enabled(s, st) && (careful ==> Careful(s, st))
    ensures Run(s, [st], Apply(s, st), careful)
  {
    assert [st][1..] == [];
    assert Run(Apply(s, st), [], Apply(s, st), careful);
  }

  /** Handing an event to epoll is safe if and only if it is being added, listed, or not yet off epoll. */
  lemma RegisterSafeIff(s: Sys, e: nat)
    requires Inv(s) && Enabled(s, FinishEnable(e, true))
    ensures Inv(Apply(s, FinishEnable(e, true))) <==> Registrable(s, e)
  {
    if Registrable(s, e) {
      assert Places(s, e) == Here(e < s.b.Next());
      StepInv(s, FinishEnable(e, true));
    } else {
      assert e in Apply(s, FinishEnable(e, true)).b.registered;
    }
  }

  /** The dispatch thread can always come round to waiting again, freeing everything parked. */
  lemma ComesRound(s: Sys) returns (run: seq<Step>, t: Sys)
    requires !s.d.Stopped?
    ensures Run(s, run, t, false) && t == s.(b := s.b.Drained(), d := Polling)
  {
    var first := if s.d.Polling? then [Poll([])] else if s.d.Calling? then [Return] else [];
    var s1 := if s.d.Polling? then Apply(s, Poll([])) else if s.d.Calling? then Apply(s, Return) else s;
    if first != [] {
      RunOne(s, first[0], false);
    }
    if s1.d.i <= |s1.d.batch| {
      var rest, s2 := BatchReaches(s1, |s1.d.batch|);
      RunConcat(s, first, s1, rest, s2, false);
      RunOne(s2, Drain, false);
      t := Apply(s2, Drain);
      RunConcat(s, first + rest, s2, [Drain], t, false);
      run := first + rest + [Drain];
    } else {
      RunOne(s1, Drain, false);
      t := Apply(s1, Drain);
      RunConcat(s, first, s1, [Drain], t, false);
      run := first + [Drain];
    }
  }

  /** What goes wrong otherwise: the event is registered while it is parked, freed when the batch ends, and
      reported after that. */
  lemma LateRegisterTouchesFreed(s: Sys, e: nat) returns (run: seq<Step>, t: Sys)
    requires Inv(s) && Enabled(s, FinishEnable(e, true)) && !Registrable(s, e) && e !in s.b.torn && !s.d.Stopped?
    ensures Run(s, run, t, false) && Enabled(t, Touch) && e in Touches(t, Touch) && e in t.b.torn
  {
    assert Places(s, e) == Here(e < s.b.Next());
    var s1 := Apply(s, FinishEnable(e, true));
    RunOne(s, FinishEnable(e, true), false);
    run := [FinishEnable(e, true)];
    if e in s1.deleting {
      RunOne(s1, Park(e), false);
      var s2 := Apply(s1, Park(e));
      RunConcat(s, run, s1, [Park(e)], s2, false);
      run, s1 := run + [Park(e)], s2;
    }
    assert e in s1.b.del && e in s1.b.registered;
    var round, s3 := ComesRound(s1);
    RunConcat(s, run, s1, round, s3, false);
    RunOne(s3, Poll([e]), false);
    t := Apply(s3, Poll([e]));
    RunConcat(s, run + round, s3, [Poll([e])], t, false);
    run := run + round + [Poll([e])];
  }

  /** A deletion by another thread, up to the point where epoll no longer knows the event. */
  lemma DeletedMeanwhile(s: Sys, e: nat) returns (run: seq<Step>, t: Sys)
    requires Inv(s) && e in s.b.head
    ensures Run(s, run, t, true) && t.d == s.d && t.enabling == s.enabling && t.b.torn == s.b.torn
    ensures !Registrable(t, e)
  {
    var s1, s2 := Apply(s, StartDelete(e)), Apply(Apply(s, StartDelete(e)), Clear(e));
    t := Apply(s2, LeaveEpoll(e));
    RunOne(s, StartDelete(e), true);
    RunOne(s1, Clear(e), true);
    RunOne(s2, LeaveEpoll(e), true);
    RunConcat(s, [StartDelete(e)], s1, [Clear(e)], s2, true);
    RunConcat(s, [StartDelete(e)] + [Clear(e)], s2, [LeaveEpoll(e)], t, true);
    run := [StartDelete(e)] + [Clear(e)] + [LeaveEpoll(e)];
    RemoveKeeps(s.b.head, e);
    assert Places(s, e) == Here(e < s.b.Next());
  }

  lemma AddedAndEnabling(s: Sys, key: Key) returns (run: seq<Step>, t: Sys)
    requires Initial(s)
    ensures Run(s, run, t, true) && t.d == Polling && t.b.head == [0] && 0 in t.enabling && t.b.torn == []
  {
    var s1, s2 := Apply(s, Create(key)), Apply(Apply(s, Create(key)), Link(0));
    t := Apply(s2, StartEnable(0));
    RunOne(s, Create(key), true);
    RunOne(s1, Link(0), true);
    RunOne(s2, StartEnable(0), true);
    RunConcat(s, [Create(key)], s1, [Link(0)], s2, true);
    RunConcat(s, [Create(key)] + [Link(0)], s2, [StartEnable(0)], t, true);
    run := [Create(key)] + [Link(0)] + [StartEnable(0)];
  }

  /** The careful steps that lead there: the event is added, found listed by an enabling thread, and then
      deleted by another. */
  lemma EnableRaceReachable(s: Sys, key: Key) returns (run: seq<Step>, t: Sys)
    requires Initial(s)
    ensures Run(s, run, t, true) && Inv(t) && t.d == Polling
    ensures Enabled(t, FinishEnable(0, true)) && !Registrable(t, 0) && 0 !in t.b.torn
  {
    var first, s1 := AddedAndEnabling(s, key);
    InitialInv(s);
    RunInv(s, first, s1);
    var second, s2 := DeletedMeanwhile(s1, 0);
    RunInv(s1, second, s2);
    RunConcat(s, first, s1, second, s2, true);
    run, t := first + second, s2;
  }

  /** A rule callers can follow: nobody deletes an event while somebody is enabling it, nobody disables a
      freed one, and callbacks spare what is ahead in the batch. */
  predicate Disciplined(s: Sys, st: Step) {
    match st
    case StartDelete(e) => e !in s.enabling
    case DispatchDelete(e) => e !in s.enabling && (s.d.Calling? ==> !Ahead(s.d.batch, s.d.i + 1, e))
    case Disable(e) => e !in s.b.torn
    case Destroy => s.enabling == multiset{}
    case _ => true
  }

  ghost predicate EnablingListed(s: Sys) {
    forall e :: e in s.enabling ==> e in s.b.head
  }

  lemma DisciplinedStep(s: Sys, st: Step)
    requires Inv(s) && EnablingListed(s) && Enabled(s, st) && Disciplined(s, st)
    ensures Careful(s, st) && EnablingListed(Apply(s, st))
  {
    match st
    case FinishEnable(e, _) => assert Places(s, e) == Here(e < s.b.Next());
    case StartDelete(e) => RemoveKeeps(s.b.head, e);
    case DispatchDelete(e) => RemoveKeeps(s.b.head, e);
    case _ =>
  }

  ghost predicate DisciplinedRun(s: Sys, run: seq<Step>, t: Sys)
    decreases |run|
  {
    if |run| == 0 then s == t
    else Enabled(s, run[0]) && Disciplined(s, run[0]) && DisciplinedRun(Apply(s, run[0]), run[1..], t)
  }

  /** Under that rule every run is careful, so all of the above holds of it. */
  lemma {:induction false} DisciplineSuffices(s: Sys, run: seq<Step>, t: Sys)
    requires Inv(s) && EnablingListed(s) && DisciplinedRun(s, run, t)
    ensures Run(s, run, t, true)
    decreases |run|
  {
    if |run| > 0 {
      DisciplinedStep(s, run[0]);
      StepInv(s, run[0]);
      DisciplineSuffices(Apply(s, run[0]), run[1..], t);
    }
  }
}
