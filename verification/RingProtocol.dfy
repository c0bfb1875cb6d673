/** A queue shared by the device and a conforming driver, over whole runs. The shared words are 16 bits
    wide and wrap; the histories beside them are unbounded and say what those words stand for. */
module RingProtocol {
  import opened Words
  import opened VirtQueue

  /** `published`, `used`: every head and every used entry so far, in order. `taken`, `consumed` and
      `examined` count chains the device took, used entries the driver read, and used entries that some
      call of `vq_endchains` has looked at. `inflight` are the heads the device holds. `calls` are the
      intervals of used entries the calls of `vq_endchains` covered, oldest first. */
  datatype Sys = Sys(ring: Ring, published: seq<u16>, taken: nat, inflight: multiset<u16>, used: seq<UsedElem>,
                     consumed: nat, examined: nat, calls: seq<(nat, nat)>)

  datatype Step =
    | Publish(head: u16)
    | Take
    | PutBack
    | Release(id: u16, len: u32)
    | Consume
    | End

  function Ids(used: seq<UsedElem>): (ids: seq<u16>)
    ensures |ids| == |used|
  {
    seq(|used|, i requires 0 <= i < |used| => used[i].id)
  }

  predicate Initial(s: Sys) {
    && s.ring.WellFormed() && PowerOfTwo(s.ring.qsize)
    && s.ring.availIdx == s.ring.usedIdx == s.ring.lastAvail == s.ring.saveUsed == 0
    && s.published == [] && s.used == [] && s.calls == []
    && s.taken == s.consumed == s.examined == 0 && s.inflight == multiset{}
  }

  /** When each party may act. The driver keeps at most `qsize` chains outstanding (VIRTIO 1.1 section
      2.6.13) and reads only published used entries; the device takes what it sees waiting, puts back
      only the chain it took last and still holds, releases each held chain once, and ends its
      batches before 2^16 entries pile up. What a party sees are the wrapping words. */
  predicate Enabled(s: Sys, st: Step)
    requires s.ring.WellFormed()
  {
    match st
    case Publish(_) => |s.published| - s.consumed < s.ring.qsize
    case Take => 1 <= s.ring.Waiting() <= s.ring.qsize
    case PutBack => 0 < s.taken <= |s.published| && s.published[s.taken - 1] in s.inflight
    case Release(id, _) => id in s.inflight
    case Consume => s.consumed % U16_SPAN != s.ring.usedIdx
    case End => |s.used| - s.examined < U16_SPAN
  }

  function Apply(s: Sys, st: Step): Sys
    requires s.ring.WellFormed() && Enabled(s, st)
  {
    match st
    case Publish(head) =>
      var slot := And(s.ring.availIdx, s.ring.qsize - 1);
      s.(ring := s.ring.(availRing := s.ring.availRing[slot := head], availIdx := Inc16(s.ring.availIdx)),
         published := s.published + [head])
    case Take =>
      s.(ring := s.ring.Taken(), taken := s.taken + 1, inflight := s.inflight + multiset{s.ring.NextHead()})
    case PutBack =>
      s.(ring := s.ring.PutBack(), taken := s.taken - 1, inflight := s.inflight - multiset{s.published[s.taken - 1]})
    case Release(id, len) =>
      s.(ring := s.ring.Released(id, len), inflight := s.inflight - multiset{id}, used := s.used + [UsedElem(id, len)])
    case Consume =>
      s.(consumed := s.consumed + 1)
    case End =>
      s.(ring := s.ring.Ended(), examined := |s.used|, calls := s.calls + [(s.examined, |s.used|)])
  }

  /** What the driver reads when it consumes an entry. */
  function Consumed(s: Sys): UsedElem
    requires s.ring.WellFormed()
  {
    s.ring.usedRing[And(s.consumed % U16_SPAN, s.ring.qsize - 1)]
  }

  ghost predicate Counters(s: Sys) {
    && s.consumed <= |s.used| <= s.taken <= |s.published| <= s.consumed + s.ring.qsize
    && s.examined <= |s.used|
  }

  /** Each 16-bit word is the residue of the unbounded counter it stands for. */
  ghost predicate Residues(s: Sys) {
    && s.ring.availIdx == |s.published| % U16_SPAN
    && s.ring.lastAvail == s.taken % U16_SPAN
    && s.ring.usedIdx == |s.used| % U16_SPAN
    && s.ring.saveUsed == s.examined % U16_SPAN
  }

  /** No slot of either ring is overwritten while its reader may still need it. */
  ghost predicate Intact(s: Sys)
    requires s.ring.WellFormed()
  {
    && (forall k :: s.consumed <= k < |s.published| ==> s.ring.availRing[Slot(k, s.ring.qsize)] == s.published[k])
    && (forall k :: s.consumed <= k < |s.used| ==> s.ring.usedRing[Slot(k, s.ring.qsize)] == s.used[k])
  }

  /** Every head the device took is either still held or was returned once. */
  ghost predicate Conserved(s: Sys)
    requires s.taken <= |s.published|
  {
    Balanced(s.published, s.taken, Ids(s.used), s.inflight)
  }

  ghost predicate Balanced(published: seq<u16>, taken: nat, ids: seq<u16>, inflight: multiset<u16>)
    requires taken <= |published|
  {
    multiset(published[..taken]) == multiset(ids) + inflight
  }

  lemma BalancedTake(published: seq<u16>, taken: nat, ids: seq<u16>, inflight: multiset<u16>)
    requires taken < |published|
    ensures Balanced(published, taken, ids, inflight) <==>
            Balanced(published, taken + 1, ids, inflight + multiset{published[taken]})
  {
    assert published[..taken + 1] == published[..taken] + [published[taken]];
    var x := multiset{published[taken]};
    assert multiset(published[..taken]) == multiset(published[..taken + 1]) - x;
    assert multiset(ids) + inflight == multiset(ids) + (inflight + x) - x;
  }

  lemma BalancedRelease(published: seq<u16>, taken: nat, ids: seq<u16>, inflight: multiset<u16>, id: u16)
    requires taken <= |published| && id in inflight
    requires Balanced(published, taken, ids, inflight)
    ensures Balanced(published, taken, ids + [id], inflight - multiset{id})
  {
  }

  /** The calls of `vq_endchains` cut the used entries examined so far into consecutive intervals. */
  ghost predicate Consecutive(calls: seq<(nat, nat)>, end: nat) {
    && (|calls| == 0 ==> end == 0)
    && (|calls| > 0 ==> calls[0].0 == 0 && calls[|calls| - 1].1 == end)
    && (forall c :: 0 <= c < |calls| ==> calls[c].0 <= calls[c].1 < calls[c].0 + U16_SPAN)
    && (forall c, d :: 0 <= c && d == c + 1 && d < |calls| ==> calls[c].1 == calls[d].0)
  }

  ghost predicate Inv(s: Sys) {
    && s.ring.WellFormed() && PowerOfTwo(s.ring.qsize)
    && Counters(s) && Residues(s) && Intact(s) && Conserved(s) && Consecutive(s.calls, s.examined)
  }

  lemma PowersAreSmall(q: nat)
    requires PowerOfTwo(q)
    ensures 0 < q <= 0x8000
  {
    var k: nat :| k <= 15 && q == Pow2(k);
    Pow2Of15();
    Pow2Split(k, 15 - k);
    MulMonotone(0, Pow2(15 - k), Pow2(k));
  }

  lemma Pow2Of15()
    ensures Pow2(15) == 0x8000
  {
    Pow2Of16();
    assert Pow2(16) == 2 * Pow2(15);
  }

  lemma InitialInv(s: Sys)
    requires Initial(s)
    ensures Inv(s)
  {
    assert s.published[..0] == [] && Ids(s.used) == [];
  }

  /** The chains that the wrapping words show as waiting are exactly those published and not taken. */
  lemma WaitingIsExact(s: Sys)
    requires Inv(s)
    ensures s.ring.Waiting() == |s.published| - s.taken
  {
    PowersAreSmall(s.ring.qsize);
    Sub16OfCounters(|s.published|, s.taken);
  }

  /** The device takes heads in the order the driver published them. */
  lemma TakesNextPublished(s: Sys)
    requires Inv(s) && s.taken < |s.published|
    ensures s.ring.NextHead() == s.published[s.taken]
  {
    SlotOfCounter(s.taken, s.ring.qsize);
  }

  /** The driver reads used entries in the order the device returned them, none lost to a wrap. */
  lemma ConsumesNextUsed(s: Sys)
    requires Inv(s)
    ensures Enabled(s, Consume) <==> s.consumed < |s.used|
    ensures Enabled(s, Consume) ==> Consumed(s) == s.used[s.consumed]
  {
    PowersAreSmall(s.ring.qsize);
    SameResidue(|s.used|, s.consumed);
    SlotOfCounter(s.consumed, s.ring.qsize);
  }

  /** Counters less than 2^16 apart have the same residue only if they are equal. */
  lemma SameResidue(a: nat, b: nat)
    requires b <= a < b + U16_SPAN
    ensures b % U16_SPAN == a % U16_SPAN <==> a == b
  {
    Sub16OfCounters(a, b);
  }

  /** A release writes no slot the driver has still to read. */
  lemma ReleaseSparesUnread(s: Sys, id: u16, len: u32, k: nat)
    requires Inv(s) && Enabled(s, Release(id, len))
    requires s.consumed <= k < |s.used|
    ensures Apply(s, Release(id, len)).ring.usedRing[Slot(k, s.ring.qsize)] == s.used[k]
  {
    InflightBound(s);
    ReleasedSlot(s, id, len);
    SlotsApart(k, |s.used|, s.ring.qsize);
  }

  lemma ReleasedSlot(s: Sys, id: u16, len: u32)
    requires Inv(s) && Enabled(s, Release(id, len))
    ensures Apply(s, Release(id, len)).ring.usedRing ==
            s.ring.usedRing[Slot(|s.used|, s.ring.qsize) := UsedElem(id, len)]
  {
    SlotOfCounter(|s.used|, s.ring.qsize);
  }

  lemma InflightBound(s: Sys)
    requires Inv(s)
    ensures |s.inflight| == s.taken - |s.used|
  {
    assert |multiset(s.published[..s.taken])| == s.taken;
    assert |multiset(Ids(s.used))| == |s.used|;
  }

  lemma StepCounters(s: Sys, st: Step)
    requires Inv(s) && Enabled(s, st)
    ensures Counters(Apply(s, st))
  {
    match st
    case Take => WaitingIsExact(s);
    case Consume => ConsumesNextUsed(s);
    case PutBack => InflightBound(s);
    case Release(id, _) => InflightBound(s);
    case _ =>
  }

  lemma StepResidues(s: Sys, st: Step)
    requires Inv(s) && Enabled(s, st)
    ensures Residues(Apply(s, st))
  {
    match st
    case Publish(_) => Inc16OfCounter(|s.published|);
    case Take => Inc16OfCounter(s.taken);
    case PutBack => Inc16OfCounter(s.taken - 1);
    case Release(_, _) => Inc16OfCounter(|s.used|);
    case _ =>
  }

  lemma PublishIntact(s: Sys, head: u16)
    requires Inv(s) && Enabled(s, Publish(head))
    ensures Intact(Apply(s, Publish(head)))
  {
    var s' := Apply(s, Publish(head));
    var n, q := |s.published|, s.ring.qsize;
    SlotOfCounter(n, q);
    forall k | s.consumed <= k < n + 1
      ensures s'.ring.availRing[Slot(k, q)] == s'.published[k]
    {
      if k < n {
        SlotsApart(k, n, q);
      }
    }
  }

  lemma ReleaseIntact(s: Sys, id: u16, len: u32)
    requires Inv(s) && Enabled(s, Release(id, len))
    ensures Intact(Apply(s, Release(id, len)))
  {
    var s' := Apply(s, Release(id, len));
    ReleasedSlot(s, id, len);
    forall k | s.consumed <= k < |s'.used|
      ensures s'.ring.usedRing[Slot(k, s.ring.qsize)] == s'.used[k]
    {
      if k < |s.used| {
        ReleaseSparesUnread(s, id, len, k);
      }
    }
  }

  lemma StepIntact(s: Sys, st: Step)
    requires Inv(s) && Enabled(s, st)
    ensures Intact(Apply(s, st))
  {
    match st
    case Publish(head) => PublishIntact(s, head);
    case Release(id, len) => ReleaseIntact(s, id, len);
    case _ =>
  }

  lemma BalancedPutBack(published: seq<u16>, taken: nat, ids: seq<u16>, inflight: multiset<u16>)
    requires taken < |published| && published[taken] in inflight
    requires Balanced(published, taken + 1, ids, inflight)
    ensures Balanced(published, taken, ids, inflight - multiset{published[taken]})
  {
    var rest := inflight - multiset{published[taken]};
    assert rest + multiset{published[taken]} == inflight;
    BalancedTake(published, taken, ids, rest);
  }

  lemma PutBackConserved(s: Sys)
    requires Inv(s) && Enabled(s, PutBack)
    ensures Conserved(Apply(s, PutBack))
  {
    BalancedPutBack(s.published, s.taken - 1, Ids(s.used), s.inflight);
  }

  lemma ReleaseConserved(s: Sys, id: u16, len: u32)
    requires Inv(s) && Enabled(s, Release(id, len))
    ensures Conserved(Apply(s, Release(id, len)))
  {
    assert Ids(s.used + [UsedElem(id, len)]) == Ids(s.used) + [id];
    BalancedRelease(s.published, s.taken, Ids(s.used), s.inflight, id);
  }

  lemma PublishConserved(s: Sys, head: u16)
    requires Inv(s) && Enabled(s, Publish(head))
    ensures Conserved(Apply(s, Publish(head)))
  {
    assert (s.published + [head])[..s.taken] == s.published[..s.taken];
  }

  lemma TakeConserved(s: Sys)
    requires Inv(s) && Enabled(s, Take) && s.taken < |s.published|
    ensures Conserved(Apply(s, Take))
  {
    TakesNextPublished(s);
    BalancedTake(s.published, s.taken, Ids(s.used), s.inflight);
  }

  lemma StepConserved(s: Sys, st: Step)
    requires Inv(s) && Enabled(s, st)
    ensures Apply(s, st).taken <= |Apply(s, st).published| && Conserved(Apply(s, st))
  {
    StepCounters(s, st);
    match st
    case Publish(head) => PublishConserved(s, head);
    case Take => TakeConserved(s);
    case PutBack => PutBackConserved(s);
    case Release(id, len) => ReleaseConserved(s, id, len);
    case _ =>
  }

  lemma StepShape(s: Sys, st: Step)
    requires Inv(s) && Enabled(s, st)
    ensures var t := Apply(s, st);
      t.ring.WellFormed() && t.ring.qsize == s.ring.qsize && Consecutive(t.calls, t.examined)
  {
  }

  lemma StepInv(s: Sys, st: Step)
    requires Inv(s) && Enabled(s, st)
    ensures Inv(Apply(s, st))
  {
    StepShape(s, st);
    StepCounters(s, st);
    StepResidues(s, st);
    StepIntact(s, st);
    StepConserved(s, st);
  }

  /** `run` is a run from `s`, ending in `t`. */
  ghost predicate Run(s: Sys, run: seq<Step>, t: Sys)
    decreases |run|
  {
    if |run| == 0 then s == t
    else s.ring.WellFormed() && Enabled(s, run[0]) && Run(Apply(s, run[0]), run[1..], t)
  }

  /** Over every run, of any length and through any number of wraps: consumed <= used <= taken <=
      published <= consumed + qsize, every word is a residue, and no unread slot is overwritten. */
  lemma {:induction false} RunInv(s: Sys, run: seq<Step>, t: Sys)
    requires Inv(s) && Run(s, run, t)
    ensures Inv(t)
    decreases |run|
  {
    if |run| > 0 {
      StepInv(s, run[0]);
      RunInv(Apply(s, run[0]), run[1..], t);
    }
  }

  /** When nothing is outstanding, every published head has come back exactly as often as it went out. */
  lemma QuietReturnsEverything(s: Sys, run: seq<Step>, t: Sys)
    requires Initial(s) && Run(s, run, t)
    requires t.consumed == |t.published|
    ensures multiset(Ids(t.used)) == multiset(t.published)
    ensures t.inflight == multiset{}
  {
    InitialInv(s);
    RunInv(s, run, t);
    InflightBound(t);
    assert t.published[..t.taken] == t.published;
  }

  /** Putting back the chain just taken undoes the take. */
  lemma PutBackUndoesTake(s: Sys)
    requires Inv(s) && Enabled(s, Take)
    ensures Enabled(Apply(s, Take), PutBack)
    ensures Apply(Apply(s, Take), PutBack) == s
  {
    WaitingIsExact(s);
    TakesNextPublished(s);
    Inc16OfCounter(s.taken);
    var t := Apply(s, Take);
    assert t.inflight - multiset{s.published[s.taken]} == s.inflight;
  }

  /** The driver's `used_event` names one of the used entries numbered from `from` up to, not including, `upto`. */
  ghost predicate Crossed(from: nat, upto: nat, event: u16) {
    exists k :: from <= k < upto && k % U16_SPAN == event
  }

  function EventOnly(event: u16): Suppression {
    Suppression(false, true, true, event, false)
  }

  /** How far the event lies behind the newest entry, in 16 bits; `q` is the number of wraps in between. */
  lemma BackDistance(upto: nat, event: u16) returns (q: int)
    ensures upto - 1 - Sub16(Sub16(upto % U16_SPAN, event), 1) == event + q * U16_SPAN
  {
    var d := upto % U16_SPAN;
    DivModForm(upto, U16_SPAN);
    Sub16Cases(d, event);
    Sub16Cases(Sub16(d, event), 1);
    q := upto / U16_SPAN + (if d > event then 0 else -1);
  }

  lemma Sub16Cases(a: u16, b: u16)
    ensures Sub16(a, b) == if a >= b then a - b else a - b + U16_SPAN
  {
  }

  /** The event is among the last `upto - from` entries exactly when it lies less than that far back. */
  lemma LiesBack(from: nat, upto: nat, event: u16, back: nat, q: int)
    requires from <= upto < from + U16_SPAN && back < U16_SPAN && upto - 1 - back == event + q * U16_SPAN
    ensures back < upto - from <==> Crossed(from, upto, event)
  {
    if back < upto - from {
      DivModUnique(upto - 1 - back, U16_SPAN, q, event);
    }
    forall k | from <= k < upto && k % U16_SPAN == event
      ensures back < upto - from
    {
      DivModForm(k, U16_SPAN);
    }
  }

  /** With fewer than 2^16 entries since the previous call, the event-index test is exact. */
  lemma EventTestExact(from: nat, upto: nat, event: u16)
    requires from <= upto < from + U16_SPAN
    ensures Interrupts(EventOnly(event), from % U16_SPAN, upto % U16_SPAN) <==> Crossed(from, upto, event)
  {
    var q := BackDistance(upto, event);
    Sub16OfCounters(upto, from);
    LiesBack(from, upto, event, Sub16(Sub16(upto % U16_SPAN, event), 1), q);
  }

  /** The bound of 2^16 is exact: beyond it some crossed event is missed. */
  lemma EventTestExactIff(from: nat, upto: nat)
    requires from <= upto
    ensures upto - from < U16_SPAN <==>
            forall event: u16 ::
              Interrupts(EventOnly(event), from % U16_SPAN, upto % U16_SPAN) <==> Crossed(from, upto, event)
  {
    if upto - from < U16_SPAN {
      forall event: u16
        ensures Interrupts(EventOnly(event), from % U16_SPAN, upto % U16_SPAN) <==> Crossed(from, upto, event)
      {
        EventTestExact(from, upto, event);
      }
    } else {
      var event: u16 := upto % U16_SPAN;
      assert !Interrupts(EventOnly(event), from % U16_SPAN, upto % U16_SPAN);
      assert (upto - U16_SPAN) % U16_SPAN == event;
      assert Crossed(from, upto, event);
    }
  }

  /** All of the rule, for fewer than 2^16 new entries: a device that saw the ring run empty interrupts if the driver
      asked to be told; otherwise the event decides when event indices are in use, and the driver's flag when not. */
  lemma InterruptsExactly(s: Suppression, from: nat, upto: nat)
    requires from <= upto < from + U16_SPAN
    ensures Interrupts(s, from % U16_SPAN, upto % U16_SPAN) <==>
            || (s.usedAll && s.notifyOnEmpty)
            || (s.eventIdx && exists k :: from <= k < upto && k % U16_SPAN == s.usedEvent)
            || (!s.eventIdx && from < upto && !s.noInterrupt)
  {
    Sub16OfCounters(upto, from);
    var q := BackDistance(upto, s.usedEvent);
    LiesBack(from, upto, s.usedEvent, Sub16(Sub16(upto % U16_SPAN, s.usedEvent), 1), q);
    SameResidue(upto, from);
  }

  /** In every reachable state, ending a batch interrupts exactly when the event lies in the interval
      this call is the one to examine. */
  lemma EndInterruptsExactly(s: Sys, event: u16)
    requires Inv(s) && Enabled(s, End)
    ensures Interrupts(EventOnly(event), s.ring.saveUsed, s.ring.usedIdx) <==> Crossed(s.examined, |s.used|, event)
    ensures var t := Apply(s, End); t.calls == s.calls + [(s.examined, |s.used|)]
  {
    EventTestExact(s.examined, |s.used|, event);
  }

  lemma {:induction false} CallsOrdered(calls: seq<(nat, nat)>, end: nat, c: nat, d: nat)
    requires Consecutive(calls, end) && c < d < |calls|
    ensures calls[c].1 <= calls[d].0
    decreases d
  {
    if d > c + 1 {
      CallsOrdered(calls, end, c, d - 1);
    }
  }

  lemma {:induction false} CallCovering(calls: seq<(nat, nat)>, end: nat, n: nat, k: nat) returns (c: nat)
    requires Consecutive(calls, end) && n < |calls| && k < calls[n].1
    ensures c <= n && calls[c].0 <= k < calls[c].1
    decreases n
  {
    if calls[n].0 <= k {
      c := n;
    } else {
      assert n > 0 && calls[n - 1].1 == calls[n].0;
      c := CallCovering(calls, end, n - 1, k);
    }
  }

  ghost predicate Covers(call: (nat, nat), k: nat) {
    call.0 <= k < call.1
  }

  /** Over a run, every used entry examined so far was examined by exactly one call. */
  lemma ExaminedOnce(s: Sys, k: nat)
    requires Inv(s) && k < s.examined
    ensures exists c :: 0 <= c < |s.calls| && Covers(s.calls[c], k) &&
                        forall d :: 0 <= d < |s.calls| && Covers(s.calls[d], k) ==> d == c
  {
    var c := CallCovering(s.calls, s.examined, |s.calls| - 1, k);
    forall d | 0 <= d < |s.calls| && Covers(s.calls[d], k)
      ensures d == c
    {
      if d < c {
        CallsOrdered(s.calls, s.examined, d, c);
      } else if c < d {
        CallsOrdered(s.calls, s.examined, c, d);
      }
    }
    assert Covers(s.calls[c], k);
  }
}
