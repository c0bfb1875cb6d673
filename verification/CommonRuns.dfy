/** What the common configuration registers hold after any sequence of writes, said from the writes alone: every
    register the last value written to it since the last reset, a queue register only by writes made while that
    queue was selected. */
module CommonRuns {
  import opened Words
  import opened CommonCfg

  function Run(b: Base, ws: seq<Write>): Base {
    if ws == [] then b else Written(Run(b, ws[..|ws| - 1]), ws[|ws| - 1])
  }

  predicate Resets(w: Write) {
    Effective(w) && w.offset == STATUS && w.value == 0
  }

  function Default(offset: nat): u16 {
    if offset == MSIX || offset == Q_MSIX then NO_VECTOR else 0
  }

  /** The last value a register that is not banked was given since the last reset. */
  function Last(ws: seq<Write>, offset: nat): nat {
    if ws == [] then Default(offset)
    else
      var w := ws[|ws| - 1];
      if Resets(w) then Default(offset)
      else if Effective(w) && w.offset == offset then w.value
      else Last(ws[..|ws| - 1], offset)
  }

  function Selected(ws: seq<Write>): nat {
    Last(ws, Q_SELECT)
  }

  /** The last value written to an address or vector register while `q` was selected, since the last reset. */
  function LastOf(ws: seq<Write>, q: nat, offset: nat): nat {
    if ws == [] then Default(offset)
    else
      var w, before := ws[|ws| - 1], ws[..|ws| - 1];
      if Resets(w) then Default(offset)
      else if Effective(w) && w.offset == offset && Selected(before) == q then w.value
      else LastOf(before, q, offset)
  }

  /** The last size written while `q` was selected; a reset does not touch it. */
  function LastSize(ws: seq<Write>, q: nat, initial: nat): nat {
    if ws == [] then initial
    else
      var w, before := ws[|ws| - 1], ws[..|ws| - 1];
      if Effective(w) && w.offset == Q_SIZE && Selected(before) == q then w.value else LastSize(before, q, initial)
  }

  /** Whether the three rings as last described while `q` was selected can all be mapped. */
  predicate Mappable(ws: seq<Write>, q: nat, initial: nat, toHost: (u64, nat) -> Option<u64>) {
    var n := LastSize(ws, q, initial);
    && LastOf(ws, q, Q_DESCHI) < U32_SPAN && LastOf(ws, q, Q_DESCLO) < U32_SPAN
    && LastOf(ws, q, Q_AVAILHI) < U32_SPAN && LastOf(ws, q, Q_AVAILLO) < U32_SPAN
    && LastOf(ws, q, Q_USEDHI) < U32_SPAN && LastOf(ws, q, Q_USEDLO) < U32_SPAN
    && toHost(Address(LastOf(ws, q, Q_DESCHI), LastOf(ws, q, Q_DESCLO)), n * 16).Some?
    && toHost(Address(LastOf(ws, q, Q_AVAILHI), LastOf(ws, q, Q_AVAILLO)), (2 + n + 1) * 2).Some?
    && toHost(Address(LastOf(ws, q, Q_USEDHI), LastOf(ws, q, Q_USEDLO)), 2 * 3 + 8 * n).Some?
  }

  predicate Enables(w: Write) {
    Effective(w) && w.offset == Q_ENABLE
  }

  /** Some enabling write since the last reset found the rings mappable. */
  predicate EverEnabled(ws: seq<Write>, q: nat, initial: nat, toHost: (u64, nat) -> Option<u64>) {
    ws != [] &&
    var w, before := ws[|ws| - 1], ws[..|ws| - 1];
    !Resets(w) &&
    (EverEnabled(before, q, initial, toHost)
     || (Enables(w) && Selected(before) == q && Mappable(before, q, initial, toHost)))
  }

  /** The last enabling write since the last reset found the rings mappable. */
  predicate LastEnabled(ws: seq<Write>, q: nat, initial: nat, toHost: (u64, nat) -> Option<u64>) {
    ws != [] &&
    var w, before := ws[|ws| - 1], ws[..|ws| - 1];
    !Resets(w) &&
    if Enables(w) && Selected(before) == q then Mappable(before, q, initial, toHost)
    else LastEnabled(before, q, initial, toHost)
  }

  /** Half `k` of the features: the offered bits among those the driver last wrote with `k` selected, before
      it set DRIVER_OK. */
  function LastFeatures(ws: seq<Write>, k: nat, offered: u32): u32 {
    if ws == [] then 0
    else
      var w, before := ws[|ws| - 1], ws[..|ws| - 1];
      if Resets(w) then 0
      else if Effective(w) && w.offset == GF && Last(before, GFSELECT) == k && !DriverOk(Last(before, STATUS)) then
        And(offered, w.value)
      else LastFeatures(before, k, offered)
  }

  lemma QuarterIs(n: nat)
    ensures n / 2 / 2 == n / 4
  {
  }

  /** DRIVER_OK is the third bit of the status. */
  lemma DriverOkIs(status: nat)
    ensures DriverOk(status) <==> Bit(status, 2)
  {
    QuarterIs(status);
    assert Bit(status, 2) == Bit(status / 2, 1) == Bit(status / 2 / 2, 0);
  }

  /** The device's own registers agree with the writes. */
  ghost predicate GlobalsAgree(b: Base, ws: seq<Write>) {
    && b.curq == Selected(ws)
    && b.dfselect == Last(ws, DFSELECT)
    && b.gfselect == Last(ws, GFSELECT)
    && b.msix == Last(ws, MSIX)
    && b.status == Last(ws, STATUS)
    && b.negotiated == Caps(LastFeatures(ws, 0, b.device.lo), LastFeatures(ws, 1, b.device.hi))
    && b.generation == 0 && b.status < 0x100
  }

  /** Queue `q`'s registers agree with the writes. */
  ghost predicate QueueAgrees(v: Vq, ws: seq<Write>, q: nat, initial: nat, toHost: (u64, nat) -> Option<u64>) {
    && ValuesAgree(v, ws, q, initial)
    && v.enabled == EverEnabled(ws, q, initial, toHost)
    && v.ready == LastEnabled(ws, q, initial, toHost)
    && (v.ready ==> RingsAt(v, EnabledAt(ws, q), q, initial, toHost))
  }

  /** The writes before the last enabling write made while `q` was selected. */
  function EnabledAt(ws: seq<Write>, q: nat): seq<Write> {
    if ws == [] then []
    else
      var w, before := ws[|ws| - 1], ws[..|ws| - 1];
      if Enables(w) && Selected(before) == q then before else EnabledAt(before, q)
  }

  /** The rings in use are where the registers said after the writes `at`, and both cursors are at 0. */
  ghost predicate RingsAt(v: Vq, at: seq<Write>, q: nat, initial: nat, toHost: (u64, nat) -> Option<u64>) {
    && Mappable(at, q, initial, toHost)
    && var n := LastSize(at, q, initial);
    && v.desc == toHost(Address(LastOf(at, q, Q_DESCHI), LastOf(at, q, Q_DESCLO)), n * 16)
    && v.avail == toHost(Address(LastOf(at, q, Q_AVAILHI), LastOf(at, q, Q_AVAILLO)), (2 + n + 1) * 2)
    && v.used == toHost(Address(LastOf(at, q, Q_USEDHI), LastOf(at, q, Q_USEDLO)), 2 * 3 + 8 * n)
    && v.lastAvail == v.saveUsed == 0
  }

  /** The vector and the six address words. */
  predicate IsValue(offset: nat) {
    offset == Q_MSIX || offset == Q_DESCLO || offset == Q_DESCHI || offset == Q_AVAILLO || offset == Q_AVAILHI
    || offset == Q_USEDLO || offset == Q_USEDHI
  }

  ghost predicate ValuesAgree(v: Vq, ws: seq<Write>, q: nat, initial: nat) {
    && v.qsize == LastSize(ws, q, initial)
    && forall offset: nat :: IsValue(offset) ==> QueueReg(v, offset) == LastOf(ws, q, offset)
  }

  ghost predicate Agrees(b: Base, ws: seq<Write>, start: Base) {
    && b.device == start.device && b.toHost == start.toHost && |b.queues| == |start.queues|
    && GlobalsAgree(b, ws)
    && forall q :: 0 <= q < |b.queues| ==> QueueAgrees(b.queues[q], ws, q, start.queues[q].qsize, b.toHost)
  }

  lemma GlobalsStep(b: Base, ws: seq<Write>, w: Write)
    requires GlobalsAgree(b, ws)
    ensures GlobalsAgree(Written(b, w), ws + [w])
  {
    assert (ws + [w])[..|ws|] == ws;
    assert Effective(w) && IsQueueReg(w.offset) ==> w.offset >= Q_SIZE;
  }

  /** What a write does to queue `q`: a reset, a write to it while it is selected, or nothing. */
  function Affected(v: Vq, w: Write, selected: bool, toHost: (u64, nat) -> Option<u64>): Vq {
    if Resets(w) then VqReset(v)
    else if Effective(w) && IsQueueReg(w.offset) && selected then QueueWritten(v, w, toHost)
    else v
  }

  lemma QueueAffected(b: Base, w: Write, q: nat)
    requires q < |b.queues|
    ensures |Written(b, w).queues| == |b.queues|
    ensures Written(b, w).queues[q] == Affected(b.queues[q], w, b.curq == q, b.toHost)
  {
  }

  lemma AffectedValue(v: Vq, w: Write, selected: bool, toHost: (u64, nat) -> Option<u64>, offset: nat)
    requires IsValue(offset)
    ensures QueueReg(Affected(v, w, selected, toHost), offset) ==
            if Resets(w) then Default(offset)
            else if Effective(w) && w.offset == offset && selected then w.value
            else QueueReg(v, offset)
  {
  }

  lemma AffectedSize(v: Vq, w: Write, selected: bool, toHost: (u64, nat) -> Option<u64>)
    ensures Affected(v, w, selected, toHost).qsize ==
            if Effective(w) && w.offset == Q_SIZE && selected then w.value else v.qsize
  {
  }

  lemma AffectedEnable(v: Vq, w: Write, selected: bool, toHost: (u64, nat) -> Option<u64>)
    ensures var v', on := Affected(v, w, selected, toHost), Enables(w) && selected;
      && v'.enabled == (!Resets(w) && (v.enabled || (on && AllMapped(v, toHost))))
      && v'.ready == (!Resets(w) && if on then AllMapped(v, toHost) else v.ready)
  {
  }

  lemma AffectedRings(v: Vq, w: Write, selected: bool, toHost: (u64, nat) -> Option<u64>)
    ensures var v', on := Affected(v, w, selected, toHost), Enables(w) && selected;
      && (on && v'.ready ==>
           && v'.desc == DescRing(v, toHost) && v'.avail == AvailRing(v, toHost) && v'.used == UsedRing(v, toHost)
           && v'.lastAvail == v'.saveUsed == 0)
      && (!on && v'.ready ==>
           && v.ready && v'.desc == v.desc && v'.avail == v.avail && v'.used == v.used
           && v'.lastAvail == v.lastAvail && v'.saveUsed == v.saveUsed)
  {
  }

  lemma RingsMade(v: Vq, ws: seq<Write>, q: nat, initial: nat, toHost: (u64, nat) -> Option<u64>, v': Vq)
    requires ValuesAgree(v, ws, q, initial) && AllMapped(v, toHost)
    requires v'.desc == DescRing(v, toHost) && v'.avail == AvailRing(v, toHost) && v'.used == UsedRing(v, toHost)
    requires v'.lastAvail == v'.saveUsed == 0
    ensures RingsAt(v', ws, q, initial, toHost)
  {
    ValuesMappable(v, ws, q, initial, toHost);
    ValuesAddresses(v, ws, q, initial);
  }

  lemma RingsKept(v: Vq, at: seq<Write>, q: nat, initial: nat, toHost: (u64, nat) -> Option<u64>, v': Vq)
    requires RingsAt(v, at, q, initial, toHost) && v'.desc == v.desc && v'.avail == v.avail && v'.used == v.used
    requires v'.lastAvail == v.lastAvail && v'.saveUsed == v.saveUsed
    ensures RingsAt(v', at, q, initial, toHost)
  {
  }

  lemma RingsStep(v: Vq, ws: seq<Write>, w: Write, q: nat, initial: nat, toHost: (u64, nat) -> Option<u64>)
    requires ValuesAgree(v, ws, q, initial) && (v.ready ==> RingsAt(v, EnabledAt(ws, q), q, initial, toHost))
    ensures var v' := Affected(v, w, Selected(ws) == q, toHost);
      v'.ready ==> RingsAt(v', EnabledAt(ws + [w], q), q, initial, toHost)
  {
    var on := Selected(ws) == q;
    var v' := Affected(v, w, on, toHost);
    assert (ws + [w])[..|ws|] == ws;
    AffectedRings(v, w, on, toHost);
    AffectedEnable(v, w, on, toHost);
    if v'.ready {
      if Enables(w) && on {
        RingsMade(v, ws, q, initial, toHost, v');
      } else {
        RingsKept(v, EnabledAt(ws, q), q, initial, toHost, v');
      }
    }
  }

  lemma ValuesAddresses(v: Vq, ws: seq<Write>, q: nat, initial: nat)
    requires ValuesAgree(v, ws, q, initial)
    ensures v.descHi == LastOf(ws, q, Q_DESCHI) && v.descLo == LastOf(ws, q, Q_DESCLO)
    ensures v.availHi == LastOf(ws, q, Q_AVAILHI) && v.availLo == LastOf(ws, q, Q_AVAILLO)
    ensures v.usedHi == LastOf(ws, q, Q_USEDHI) && v.usedLo == LastOf(ws, q, Q_USEDLO)
  {
    assert v.descHi == QueueReg(v, Q_DESCHI) && v.descLo == QueueReg(v, Q_DESCLO);
    assert v.availHi == QueueReg(v, Q_AVAILHI) && v.availLo == QueueReg(v, Q_AVAILLO);
    assert v.usedHi == QueueReg(v, Q_USEDHI) && v.usedLo == QueueReg(v, Q_USEDLO);
  }

  lemma ValuesStep(v: Vq, ws: seq<Write>, w: Write, q: nat, initial: nat, toHost: (u64, nat) -> Option<u64>)
    requires ValuesAgree(v, ws, q, initial)
    ensures ValuesAgree(Affected(v, w, Selected(ws) == q, toHost), ws + [w], q, initial)
  {
    var v' := Affected(v, w, Selected(ws) == q, toHost);
    assert (ws + [w])[..|ws|] == ws;
    AffectedSize(v, w, Selected(ws) == q, toHost);
    forall offset: nat | IsValue(offset)
      ensures QueueReg(v', offset) == LastOf(ws + [w], q, offset)
    {
      AffectedValue(v, w, Selected(ws) == q, toHost, offset);
    }
  }

  lemma ValuesMappable(v: Vq, ws: seq<Write>, q: nat, initial: nat, toHost: (u64, nat) -> Option<u64>)
    requires ValuesAgree(v, ws, q, initial)
    ensures AllMapped(v, toHost) == Mappable(ws, q, initial, toHost)
  {
    ValuesAddresses(v, ws, q, initial);
  }

  lemma QueueStep(v: Vq, ws: seq<Write>, w: Write, q: nat, initial: nat, toHost: (u64, nat) -> Option<u64>)
    requires QueueAgrees(v, ws, q, initial, toHost)
    ensures QueueAgrees(Affected(v, w, Selected(ws) == q, toHost), ws + [w], q, initial, toHost)
  {
    assert (ws + [w])[..|ws|] == ws;
    ValuesStep(v, ws, w, q, initial, toHost);
    ValuesMappable(v, ws, q, initial, toHost);
    AffectedEnable(v, w, Selected(ws) == q, toHost);
    RingsStep(v, ws, w, q, initial, toHost);
  }

  /** The banked registers refine the map from (queue, register) to the last value written. */
  lemma {:induction false} RunAgrees(device: Caps, toHost: (u64, nat) -> Option<u64>, sizes: seq<u16>, ws: seq<Write>)
    ensures Agrees(Run(Start(device, toHost, sizes), ws), ws, Start(device, toHost, sizes))
    decreases |ws|
  {
    var start := Start(device, toHost, sizes);
    if ws != [] {
      var n := |ws| - 1;
      var before, w := ws[..n], ws[n];
      RunAgrees(device, toHost, sizes, before);
      var b := Run(start, before);
      assert before + [w] == ws;
      GlobalsStep(b, before, w);
      forall q | 0 <= q < |b.queues|
        ensures QueueAgrees(Written(b, w).queues[q], ws, q, start.queues[q].qsize, toHost)
      {
        QueueAffected(b, w, q);
        QueueStep(b.queues[q], before, w, q, start.queues[q].qsize, toHost);
      }
    }
  }

  /** What the driver is shown of queue `q`, whichever queue that is. */
  function Shown(ws: seq<Write>, q: nat, offset: nat, sizes: seq<u16>, toHost: (u64, nat) -> Option<u64>): nat {
    if q >= |sizes| then Default(offset)
    else if offset == Q_SIZE then LastSize(ws, q, sizes[q])
    else if offset == Q_ENABLE then (if EverEnabled(ws, q, sizes[q], toHost) then 1 else 0)
    else LastOf(ws, q, offset)
  }

  /** Reading a queue register gives what was last written to it for the selected queue. */
  lemma ReadBack(device: Caps, toHost: (u64, nat) -> Option<u64>, sizes: seq<u16>, ws: seq<Write>, offset: nat)
    requires IsQueueReg(offset)
    ensures Read(Run(Start(device, toHost, sizes), ws), offset, Width(offset)) ==
            Shown(ws, Selected(ws), offset, sizes, toHost)
  {
    RunAgrees(device, toHost, sizes, ws);
    var b := Run(Start(device, toHost, sizes), ws);
    var q := Selected(ws);
    if q < |sizes| {
      assert QueueAgrees(b.queues[q], ws, q, sizes[q], toHost);
    }
  }

  /** Reading the device's own registers gives the last values written since the last reset, half the features by
      selector, the number of queues and the selection. */
  lemma ReadGlobalBack(device: Caps, toHost: (u64, nat) -> Option<u64>, sizes: seq<u16>, ws: seq<Write>)
    requires |sizes| < U32_SPAN
    ensures var b := Run(Start(device, toHost, sizes), ws);
      && Read(b, DFSELECT, 4) == Last(ws, DFSELECT) && Read(b, GFSELECT, 4) == Last(ws, GFSELECT)
      && Read(b, MSIX, 2) == Last(ws, MSIX) && Read(b, NUMQ, 2) == |sizes|
      && Read(b, STATUS, 1) == Last(ws, STATUS) && Read(b, CFGGENERATION, 1) == 0
      && Read(b, Q_SELECT, 2) == Read(b, Q_NOFF, 2) == Selected(ws)
      && Read(b, DF, 4) ==
         (if Last(ws, DFSELECT) == 0 then device.lo else if Last(ws, DFSELECT) == 1 then device.hi else 0)
      && Read(b, GF, 4) ==
         (if Last(ws, GFSELECT) == 0 then LastFeatures(ws, 0, device.lo)
          else if Last(ws, GFSELECT) == 1 then LastFeatures(ws, 1, device.hi) else 0)
  {
    RunAgrees(device, toHost, sizes, ws);
  }

  /** A queue in service uses the rings whose addresses were written while it was selected before its last enabling
      write, each for its own purpose. */
  lemma ReadyRings(device: Caps, toHost: (u64, nat) -> Option<u64>, sizes: seq<u16>, ws: seq<Write>, q: nat)
    requires q < |sizes|
    ensures var b := Run(Start(device, toHost, sizes), ws);
      |b.queues| == |sizes| && (b.queues[q].ready ==> RingsAt(b.queues[q], EnabledAt(ws, q), q, sizes[q], toHost))
  {
    RunAgrees(device, toHost, sizes, ws);
    var b := Run(Start(device, toHost, sizes), ws);
    assert QueueAgrees(b.queues[q], ws, q, sizes[q], toHost);
  }

  lemma {:induction false} LastIsEver(ws: seq<Write>, q: nat, initial: nat, toHost: (u64, nat) -> Option<u64>)
    ensures LastEnabled(ws, q, initial, toHost) ==> EverEnabled(ws, q, initial, toHost)
    decreases |ws|
  {
    if ws != [] {
      LastIsEver(ws[..|ws| - 1], q, initial, toHost);
    }
  }

  /** Over every run a queue in service reads as enabled; the enable register is right except when some enabling
      write since the last reset succeeded and a later one failed. */
  lemma EnableRegisterExact(device: Caps, toHost: (u64, nat) -> Option<u64>, sizes: seq<u16>, ws: seq<Write>, q: nat)
    requires q < |sizes|
    ensures var b := Run(Start(device, toHost, sizes), ws);
      && q < |b.queues|
      && (b.queues[q].ready ==> b.queues[q].enabled)
      && (b.queues[q].enabled == b.queues[q].ready <==>
          (EverEnabled(ws, q, sizes[q], toHost) ==> LastEnabled(ws, q, sizes[q], toHost)))
  {
    RunAgrees(device, toHost, sizes, ws);
    LastIsEver(ws, q, sizes[q], toHost);
    var b := Run(Start(device, toHost, sizes), ws);
    assert QueueAgrees(b.queues[q], ws, q, sizes[q], toHost);
  }

  /** Which write makes a right enable register wrong: one that enables the queue again when its rings can no
      longer be mapped. */
  lemma EnableTurnsWrongIff(b: Base, w: Write, q: nat)
    requires q < |b.queues| && b.queues[q].enabled == b.queues[q].ready
    ensures var v := Written(b, w).queues[q];
      v.enabled == v.ready <==> !(Enables(w) && b.curq == q && b.queues[q].enabled && !AllMapped(b.queues[q], b.toHost))
  {
    QueueAffected(b, w, q);
    AffectedEnable(b.queues[q], w, b.curq == q, b.toHost);
  }

  /** A driver that does so: it enables queue 0, moves the descriptor table to where nothing is, and enables the
      queue again. */
  const Reenabling: seq<Write> := [RawWrite(Q_ENABLE, 2, 1), RawWrite(Q_DESCLO, 4, 0x1000), RawWrite(Q_ENABLE, 2, 1)]

  function OnlyZeroMapped(gpa: u64, size: nat): Option<u64> {
    if gpa == 0 then Some(0) else None
  }

  lemma EnabledOutOfService(device: Caps)
    ensures var b := Run(Start(device, OnlyZeroMapped, [8]), Reenabling);
      |b.queues| == 1 && b.queues[0].enabled && !b.queues[0].ready
      && Read(b, Q_ENABLE, 2) == 1
  {
    var start := Start(device, OnlyZeroMapped, [8]);
    assert Reenabling[..3][..2] == Reenabling[..2] && Reenabling[..2][..1] == Reenabling[..1];
    assert Reenabling[..1][..0] == [];
    assert Run(start, Reenabling[..1]) == Written(start, Reenabling[0]);
    assert Run(start, Reenabling[..2]) == Written(Written(start, Reenabling[0]), Reenabling[1]);
    ThreeWrites(start);
  }

  lemma ThreeWrites(b: Base)
    requires |b.queues| == 1 && b.curq == 0 && b.queues[0] == FreshVq(8) && b.toHost == OnlyZeroMapped
    ensures var z := Written(Written(Written(b, Reenabling[0]), Reenabling[1]), Reenabling[2]);
      |z.queues| == 1 && z.queues[0].enabled && !z.queues[0].ready && z.curq == 0
  {
    var b1 := Written(b, Reenabling[0]);
    var b2 := Written(b1, Reenabling[1]);
    assert b1.queues[0].enabled && b1.queues[0].ready;
    assert b2.queues[0].descLo == 0x1000 && b2.queues[0].enabled;
  }

  /** No write of the run resets the device or is made while `q` is selected. */
  predicate NeverUnder(b: Base, ws: seq<Write>, q: nat) {
    ws == [] ||
    var before, w := ws[..|ws| - 1], ws[|ws| - 1];
    NeverUnder(b, before, q) && !Resets(w) && Run(b, before).curq != q
  }

  /** Over every run, writes made under other selections, or under one that names no queue, leave a queue as it
      is in every field. */
  lemma {:induction false} SelectionIsolates(b: Base, ws: seq<Write>, q: nat)
    requires q < |b.queues| && NeverUnder(b, ws, q)
    ensures |Run(b, ws).queues| == |b.queues| && Run(b, ws).queues[q] == b.queues[q]
    decreases |ws|
  {
    if ws != [] {
      var before := ws[..|ws| - 1];
      SelectionIsolates(b, before, q);
      QueueAffected(Run(b, before), ws[|ws| - 1], q);
    }
  }

  lemma {:induction false} AndIdempotent(a: nat, b: nat)
    ensures And(a, And(a, b)) == And(a, b)
  {
    if a > 0 && b > 0 {
      AndIdempotent(a / 2, b / 2);
    }
  }

  lemma {:induction false} FeaturesOffered(ws: seq<Write>, k: nat, offered: u32)
    ensures And(offered, LastFeatures(ws, k, offered)) == LastFeatures(ws, k, offered)
    decreases |ws|
  {
    if ws != [] {
      FeaturesOffered(ws[..|ws| - 1], k, offered);
      AndIdempotent(offered, ws[|ws| - 1].value);
    }
  }

  /** Over every run the negotiated features are among those offered. */
  lemma NegotiatedOffered(device: Caps, toHost: (u64, nat) -> Option<u64>, sizes: seq<u16>, ws: seq<Write>)
    ensures var n := Run(Start(device, toHost, sizes), ws).negotiated;
      And(device.lo, n.lo) == n.lo && And(device.hi, n.hi) == n.hi
  {
    RunAgrees(device, toHost, sizes, ws);
    FeaturesOffered(ws, 0, device.lo);
    FeaturesOffered(ws, 1, device.hi);
  }

  /** Once DRIVER_OK is set, no sequence of writes that leaves the status alone changes the features. */
  lemma {:induction false} NegotiatedFrozen(b: Base, ws: seq<Write>)
    requires DriverOk(b.status) && forall i :: 0 <= i < |ws| ==> ws[i].offset != STATUS
    ensures Run(b, ws).negotiated == b.negotiated && Run(b, ws).status == b.status
    decreases |ws|
  {
    if ws != [] {
      NegotiatedFrozen(b, ws[..|ws| - 1]);
    }
  }
}
