/** What the serial port's registers say, bit by bit and over whole runs. */
module UartRegisters {
  import opened Words
  import opened Uart
  import opened UartRuns

  /** Which reason is given when there are several: overrun, then received data, then an empty transmitter, then a
      modem line. */
  lemma ReasonIs(r: Regs, received: bool)
    ensures var overrun := r.lsr & 0x02 != 0 && r.ier & 0x04 != 0;
      var data, empty := received && r.ier & 0x01 != 0, r.thre && r.ier & 0x02 != 0;
      var modem := r.msr & 0x0f != 0 && r.ier & 0x08 != 0;
      && (overrun ==> Reason(r, received) == 0x06)
      && (!overrun && data ==> Reason(r, received) == 0x0c)
      && (!overrun && !data && empty ==> Reason(r, received) == 0x02)
      && (!overrun && !data && !empty && modem ==> Reason(r, received) == 0x00)
      && (!overrun && !data && !empty && !modem ==> Reason(r, received) == 0x01)
  {
  }

  /** The identification register: its two upper bits say whether the FIFO is enabled, the rest is the reason; reading
      it withdraws an empty transmitter when that is the reason, and nothing else. */
  lemma IirIs(r: Regs, fcr: bv8, received: bool)
    ensures var (r', v) := IirRead(r, fcr, received);
      && v & 0xc0 == (if fcr & 0x01 != 0 then 0xc0 else 0) && v & 0x3f == Reason(r, received)
      && r' == r.(thre := r.thre && Reason(r, received) != 0x02)
  {
  }

  /** The line status: data ready exactly when the ring holds some, the transmitter always empty, every other bit as
      it was; reading it clears the overrun bit. */
  lemma LineStatusIs(r: Regs, received: bool)
    ensures var (r', v) := LsrRead(r, received);
      && (v & 0x01 != 0 <==> received) && v & 0x60 == 0x60 && v & 0x9e == r.lsr & 0x9e
      && r'.lsr & 0x02 == 0 && r'.lsr & 0xfd == v & 0xfd && r' == r.(lsr := r'.lsr)
  {
  }

  /** The modem lines: in loopback CTS, DSR, RI and DCD follow RTS, DTR, OUT1 and OUT2; otherwise DSR and DCD are up. */
  lemma ModemLinesAre(mcr: bv8)
    ensures var s := ModemStatus(mcr);
      && s & 0x0f == 0
      && (mcr & 0x10 == 0 ==> s == 0xa0)
      && (mcr & 0x10 != 0 ==>
           && (s & 0x10 != 0 <==> mcr & 0x02 != 0) && (s & 0x20 != 0 <==> mcr & 0x01 != 0)
           && (s & 0x40 != 0 <==> mcr & 0x04 != 0) && (s & 0x80 != 0 <==> mcr & 0x08 != 0))
  {
  }

  /** Writing the FIFO control register empties the ring exactly when it switches the FIFO on or off, or resets it
      while switched on; the ring's size follows the switch, and only the bits that are kept are kept. */
  lemma FcrIs(p: Port, value: bv8)
    requires Ring(p)
    ensures var q, on, on' := FcrWritten(p, value), p.fcr & 0x01 != 0, value & 0x01 != 0;
      var reset := on != on' || (on' && value & 0x02 != 0);
      && (reset ==> q.queue == [] && q.input == [] && q.polled)
      && (!reset ==> q.queue == p.queue && q.input == p.input && q.polled == p.polled)
      && q.cap == (if on' then p.fifoSize else 1) && q.fcr == (if on' then value & 0xc9 else 0)
      && q.r == p.r && q.output == p.output && q.fifoSize == p.fifoSize
  {
  }

  /** A drain goes on until the terminal has nothing more or the ring is full; in loopback it drops the oldest byte. */
  lemma DrainIs(p: Port)
    requires Inv(p)
    ensures p.r.mcr & 0x10 == 0 ==> Drained(p).input == [] || |Drained(p).queue| == p.cap
    ensures p.r.mcr & 0x10 != 0 ==>
      Drained(p).queue == p.queue && Drained(p).input == if p.input == [] then [] else p.input[1..]
  {
  }

  /** Reading the data register gives the oldest byte, or all ones when there is none. */
  lemma DataReadIs(p: Port)
    requires p.r.lcr & 0x80 == 0
    ensures p.queue == [] ==> ReadReg(p, 0).1 == 0xff && ReadReg(p, 0).0.queue == []
    ensures p.queue != [] ==> ReadReg(p, 0).1 == p.queue[0] && ReadReg(p, 0).0.queue == p.queue[1..]
  {
  }

  /** A byte looped back is an overrun exactly when the ring is full. */
  lemma OverrunIs(p: Port, value: bv8)
    requires Inv(p)
    ensures |p.queue| == p.cap ==> LoopedBack(p, value).r.lsr == p.r.lsr | 0x02 && LoopedBack(p, value).queue == p.queue
    ensures |p.queue| < p.cap ==> LoopedBack(p, value).r == p.r && LoopedBack(p, value).queue == p.queue + [value]
  {
  }

  /** The transmitter counts as newly empty after a byte was sent, and when its interrupt is switched on. */
  lemma EmptyIs(p: Port, value: bv8)
    ensures Transmitted(p, value).r.thre
    ensures RegWritten(p.r, 1, value).thre <==> p.r.thre || (p.r.ier & 0x02 == 0 && value & 0x02 != 0)
  {
  }

  /** The registers that keep what is written to them. */
  datatype Latch = DivisorLow | DivisorHigh | InterruptEnable | LineControl | ModemControl | Scratch

  function Held(r: Regs, l: Latch): bv8 {
    match l
    case DivisorLow => r.dll
    case DivisorHigh => r.dlh
    case InterruptEnable => r.ier
    case LineControl => r.lcr
    case ModemControl => r.mcr
    case Scratch => r.scr
  }

  /** Where each is found: the divisor latch takes the place of the first two registers while the top bit of the line
      control register is set. */
  predicate Hits(l: Latch, offset: int, dlab: bool) {
    match l
    case DivisorLow => offset == 0 && dlab
    case DivisorHigh => offset == 1 && dlab
    case InterruptEnable => offset == 1 && !dlab
    case LineControl => offset == 3
    case ModemControl => offset == 4
    case Scratch => offset == 7
  }

  /** The bits each keeps. */
  function Kept(l: Latch, value: bv8): bv8 {
    match l
    case InterruptEnable => value & 0x0f
    case ModemControl => value & 0x1f
    case _ => value
  }

  /** The last value written to a register, from the steps alone. */
  function LastWritten(steps: seq<Step>, l: Latch): bv8
    decreases |steps|
  {
    if steps == [] then (if l == DivisorLow then 12 else 0)
    else
      var step, before := steps[|steps| - 1], steps[..|steps| - 1];
      if step.Write? && Hits(l, step.offset, LastWritten(before, LineControl) & 0x80 != 0) then Kept(l, step.value)
      else LastWritten(before, l)
  }

  /** Writing one latch and whatever else is none of the others' business. */
  predicate OnlyLatch(r: Regs, r': Regs, l: Latch, value: bv8) {
    Held(r', l) == value && forall k: Latch :: k != l ==> Held(r', k) == Held(r, k)
  }

  predicate NoLatch(r: Regs, r': Regs) {
    forall k: Latch :: Held(r', k) == Held(r, k)
  }

  lemma IerHolds(r: Regs, value: bv8)
    ensures OnlyLatch(r, RegWritten(r, 1, value), InterruptEnable, value & 0x0f)
  {
  }

  lemma LcrHolds(r: Regs, value: bv8)
    ensures OnlyLatch(r, RegWritten(r, 3, value), LineControl, value)
  {
  }

  lemma McrHolds(r: Regs, value: bv8)
    ensures OnlyLatch(r, RegWritten(r, 4, value), ModemControl, value & 0x1f)
  {
  }

  lemma ScrHolds(r: Regs, value: bv8)
    ensures OnlyLatch(r, RegWritten(r, 7, value), Scratch, value)
  {
  }

  lemma OtherHolds(r: Regs, offset: int, value: bv8)
    requires offset !in {1, 3, 4, 7}
    ensures NoLatch(r, RegWritten(r, offset, value))
  {
  }

  lemma LoopedHolds(p: Port, value: bv8)
    ensures NoLatch(p.r, LoopedBack(p, value).r)
  {
  }

  lemma SentHolds(p: Port, value: bv8)
    ensures NoLatch(p.r, Transmitted(p, value).r)
  {
    LoopedHolds(Toggled(WithThre(p, false)), value);
  }

  lemma DivisorHolds(p: Port, offset: int, value: bv8)
    requires Dlab(p.r, offset)
    ensures OnlyLatch(p.r, Written(p, offset, value).r, if offset == 0 then DivisorLow else DivisorHigh, value)
  {
  }

  /** The latch a write hits, if any. */
  function LatchAt(offset: int, dlab: bool): Option<Latch> {
    if offset == 0 && dlab then Some(DivisorLow)
    else if offset == 1 then Some(if dlab then DivisorHigh else InterruptEnable)
    else if offset == 3 then Some(LineControl)
    else if offset == 4 then Some(ModemControl)
    else if offset == 7 then Some(Scratch)
    else None
  }

  lemma HitsIs(l: Latch, offset: int, dlab: bool)
    ensures Hits(l, offset, dlab) <==> LatchAt(offset, dlab) == Some(l)
  {
  }

  lemma RegisterHolds(r: Regs, offset: int, value: bv8)
    requires offset != 0
    ensures var l := LatchAt(offset, false);
      if l == None then NoLatch(r, RegWritten(r, offset, value))
      else OnlyLatch(r, RegWritten(r, offset, value), l.value, Kept(l.value, value))
  {
    if offset == 1 {
      IerHolds(r, value);
    } else if offset == 3 {
      LcrHolds(r, value);
    } else if offset == 4 {
      McrHolds(r, value);
    } else if offset == 7 {
      ScrHolds(r, value);
    } else {
      OtherHolds(r, offset, value);
    }
  }

  lemma WrittenHolds(p: Port, offset: int, value: bv8)
    ensures var l := LatchAt(offset, p.r.lcr & 0x80 != 0);
      if l == None then NoLatch(p.r, Written(p, offset, value).r)
      else OnlyLatch(p.r, Written(p, offset, value).r, l.value, Kept(l.value, value))
  {
    if Dlab(p.r, offset) {
      DivisorHolds(p, offset, value);
    } else if offset == 0 {
      SentHolds(p, value);
    } else if offset == 2 {
      assert FcrWritten(p, value).r == p.r;
    } else {
      RegisterHolds(p.r, offset, value);
      assert Written(p, offset, value).r == RegWritten(p.r, offset, value);
    }
  }

  lemma WriteHolds(p: Port, offset: int, value: bv8, l: Latch)
    ensures Held(Wrote(p, offset, value).r, l) ==
            if Hits(l, offset, p.r.lcr & 0x80 != 0) then Kept(l, value) else Held(p.r, l)
  {
    WrittenHolds(p, offset, value);
    HitsIs(l, offset, p.r.lcr & 0x80 != 0);
    assert Wrote(p, offset, value).r == Written(p, offset, value).r;
  }

  lemma IirHolds(r: Regs, fcr: bv8, received: bool)
    ensures NoLatch(r, IirRead(r, fcr, received).0)
  {
  }

  lemma LsrHolds(r: Regs, received: bool)
    ensures NoLatch(r, LsrRead(r, received).0)
  {
  }

  lemma RegReadHolds(r: Regs, fcr: bv8, received: bool, offset: int, l: Latch)
    ensures Held(RegRead(r, fcr, received, offset).0, l) == Held(r, l)
  {
    if offset == REG_IIR {
      IirHolds(r, fcr, received);
    } else if offset == REG_LSR {
      LsrHolds(r, received);
    } else {
      assert NoLatch(r, RegRead(r, fcr, received, offset).0);
    }
  }

  lemma ReadHolds(p: Port, offset: int, l: Latch)
    ensures Held(ReadReg(p, offset).0.r, l) == Held(p.r, l)
  {
    if Dlab(p.r, offset) || offset != REG_DATA {
      RegReadHolds(p.r, p.fcr, p.queue != [], offset, l);
      assert ReadReg(p, offset).0.r == RegRead(p.r, p.fcr, p.queue != [], offset).0;
    }
  }

  lemma {:induction false} RunLast(p: Port, steps: seq<Step>)
    requires steps != []
    ensures var n := |steps| - 1; Run(p, steps) == Apply(Run(p, steps[..n]), steps[n])
    decreases |steps|
  {
    var n := |steps| - 1;
    if n > 0 {
      RunLast(Apply(p, steps[0]), steps[1..]);
      assert steps[1..][..n - 1] == steps[..n][1..];
    }
  }

  lemma StepHolds(p: Port, step: Step, l: Latch)
    ensures Held(Apply(p, step).r, l) ==
            if step.Write? && Hits(l, step.offset, p.r.lcr & 0x80 != 0) then Kept(l, step.value) else Held(p.r, l)
  {
    match step
    case Arrive(_) =>
    case Drain =>
    case Write(offset, value) => WriteHolds(p, offset, value, l);
    case Read(offset) => ReadHolds(p, offset, l);
  }

  /** Over every run from reset each register holds the bits it keeps of the last value written to it. */
  lemma {:induction false} RunHolds(fifoSize: nat, steps: seq<Step>, l: Latch)
    ensures Held(Run(Start(fifoSize), steps).r, l) == LastWritten(steps, l)
    decreases |steps|
  {
    if steps != [] {
      var before := steps[..|steps| - 1];
      RunHolds(fifoSize, before, l);
      RunHolds(fifoSize, before, LineControl);
      RunLast(Start(fifoSize), steps);
      StepHolds(Run(Start(fifoSize), before), steps[|steps| - 1], l);
    }
  }

  /** And reading gives it back. */
  lemma ReadsBack(p: Port, l: Latch, offset: int)
    requires Hits(l, offset, p.r.lcr & 0x80 != 0)
    ensures ReadReg(p, offset).1 == Held(p.r, l)
  {
  }

  /** The byte a step sends to the terminal. */
  function Sends(p: Port, step: Step): seq<bv8> {
    if step.Write? && step.offset == 0 && p.r.lcr & 0x80 == 0 && p.r.mcr & 0x10 == 0 then [step.value] else []
  }

  function AllSent(p: Port, steps: seq<Step>): seq<bv8>
    decreases |steps|
  {
    if steps == [] then [] else Sends(p, steps[0]) + AllSent(Apply(p, steps[0]), steps[1..])
  }

  lemma LoopedSends(p: Port, value: bv8)
    ensures LoopedBack(p, value).output == p.output
  {
  }

  lemma TransmittedSends(p: Port, value: bv8)
    ensures Transmitted(p, value).output == if p.r.mcr & 0x10 == 0 then p.output + [value] else p.output
  {
    LoopedSends(Toggled(WithThre(p, false)), value);
  }

  lemma WriteSends(p: Port, offset: int, value: bv8)
    ensures Wrote(p, offset, value).output == p.output + Sends(p, Write(offset, value))
  {
    WroteOutput(p, offset, value);
    if !Dlab(p.r, offset) && offset == 0 {
      TransmittedSends(p, value);
    }
  }

  lemma WroteOutput(p: Port, offset: int, value: bv8)
    ensures Wrote(p, offset, value).output ==
            if !Dlab(p.r, offset) && offset == 0 then Transmitted(p, value).output else p.output
  {
    ToggledOutput(Written(p, offset, value));
    FcrOutput(p, value);
  }

  lemma ToggledOutput(p: Port)
    ensures Toggled(p).output == p.output
  {
  }

  lemma FcrOutput(p: Port, value: bv8)
    ensures FcrWritten(p, value).output == p.output
  {
  }

  lemma StepSends(p: Port, step: Step)
    ensures Apply(p, step).output == p.output + Sends(p, step)
  {
    match step
    case Arrive(_) =>
    case Drain =>
    case Write(offset, value) => WriteSends(p, offset, value);
    case Read(offset) =>
  }

  /** Over every run the terminal gets exactly the bytes written to the data register outside loopback, in order. */
  lemma {:induction false} RunSends(p: Port, steps: seq<Step>)
    ensures Run(p, steps).output == p.output + AllSent(p, steps)
    decreases |steps|
  {
    if steps != [] {
      var q := Apply(p, steps[0]);
      StepSends(p, steps[0]);
      RunSends(q, steps[1..]);
      Regroup(p.output, Sends(p, steps[0]), AllSent(q, steps[1..]));
    }
  }

  lemma Regroup(a: seq<bv8>, b: seq<bv8>, c: seq<bv8>)
    ensures a + (b + c) == (a + b) + c
  {
  }
}
