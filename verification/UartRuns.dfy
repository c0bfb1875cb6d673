/** What the serial port keeps over every run: no byte it takes is lost, reordered or made up, its backend is
    polled exactly while there is room, and its interrupt line is up exactly when there is a cause. */
module UartRuns {
  import opened Words
  import opened Uart

  /** Something to report, said without the priorities of `uart_intr_reason`. */
  predicate Cause(p: Port) {
    || (Has(p.r.lsr, LSR_OE) && Has(p.r.ier, IER_ERLS))
    || (p.queue != [] && Has(p.r.ier, IER_ERXRDY))
    || (p.r.thre && Has(p.r.ier, IER_ETXRDY))
    || (Has(p.r.msr, MSR_DELTA_MASK) && Has(p.r.ier, IER_EMSC))
  }

  predicate Inv(p: Port) {
    && p.fifoSize > 0
    && p.cap == (if Has(p.fcr, FCR_ENABLE) then p.fifoSize else 1)
    && |p.queue| <= p.cap
    && (p.polled <==> |p.queue| < p.cap)
    && (p.line <==> Cause(p))
  }

  datatype Step =
    | Arrive(bytes: seq<bv8>) // the terminal has more to read
    | Drain
    | Write(offset: int, value: bv8)
    | Read(offset: int)

  function Apply(p: Port, step: Step): Port {
    match step
    case Arrive(bytes) => p.(input := p.input + bytes)
    case Drain => Drained(p)
    case Write(offset, value) => Wrote(p, offset, value)
    case Read(offset) => ReadReg(p, offset).0
  }

  function Run(p: Port, steps: seq<Step>): Port
    decreases |steps|
  {
    if steps == [] then p else Run(Apply(p, steps[0]), steps[1..])
  }

  lemma CauseIsReason(p: Port)
    ensures Cause(p) <==> Reason(p.r, p.queue != []) != IIR_NOPEND
  {
  }

  lemma ToggledInv(p: Port)
    requires Inv(p.(line := Cause(p)))
    ensures Inv(Toggled(p))
  {
    CauseIsReason(p);
  }

  lemma StartInv(fifoSize: nat)
    requires fifoSize > 0
    ensures Inv(Start(fifoSize))
  {
    assert Has(StartRegs().msr, MSR_DELTA_MASK) == Has(MSR_DCD | MSR_DSR, MSR_DELTA_MASK) == false;
  }

  /** The part of `Inv` about the ring. */
  predicate Ring(p: Port) {
    && p.fifoSize > 0
    && p.cap == (if Has(p.fcr, FCR_ENABLE) then p.fifoSize else 1)
    && |p.queue| <= p.cap
    && (p.polled <==> |p.queue| < p.cap)
  }

  lemma RingInv(p: Port)
    requires Ring(p)
    ensures Inv(Toggled(p))
  {
    ToggledInv(p);
  }

  /** The FIFO-enable bit survives the mask on the FIFO control register. */
  lemma FcrKeepsEnable(value: bv8)
    ensures Has(value & (FCR_ENABLE | FCR_DMA | FCR_RX_MASK), FCR_ENABLE) == Has(value, FCR_ENABLE)
    ensures !Has(0, FCR_ENABLE)
  {
    assert value & (FCR_ENABLE | FCR_DMA | FCR_RX_MASK) & FCR_ENABLE == value & FCR_ENABLE;
  }

  lemma FcrRing(p: Port, value: bv8)
    requires Ring(p)
    ensures Ring(FcrWritten(p, value))
  {
    FcrKeepsEnable(value);
  }

  lemma DrainInv(p: Port)
    requires Inv(p)
    ensures Inv(Drained(p))
  {
    if !Has(p.r.mcr, MCR_LOOPBACK) {
      var n := DrainCount(|p.queue|, p.cap, |p.input|);
      RingInv(p.(queue := p.queue + p.input[..n], input := p.input[n..],
                 polled := p.polled && (n == 0 || |p.queue| + n < p.cap)));
    }
  }

  lemma LoopedBackRing(p: Port, value: bv8)
    requires Ring(p)
    ensures Ring(LoopedBack(p, value))
  {
  }

  lemma TransmittedRing(p: Port, value: bv8)
    requires Ring(p)
    ensures Ring(Transmitted(p, value))
  {
    LoopedBackRing(Toggled(WithThre(p, false)), value);
  }

  lemma WrittenRing(p: Port, offset: int, value: bv8)
    requires Ring(p)
    ensures Ring(Written(p, offset, value))
  {
    FcrRing(p, value);
    TransmittedRing(p, value);
  }

  lemma WriteInv(p: Port, offset: int, value: bv8)
    requires Inv(p)
    ensures Inv(Wrote(p, offset, value))
  {
    WrittenRing(p, offset, value);
    RingInv(Written(p, offset, value));
  }

  lemma ReadInv(p: Port, offset: int)
    requires Inv(p)
    ensures Inv(ReadReg(p, offset).0)
  {
    if !Dlab(p.r, offset) && offset == REG_DATA {
      RingInv(if p.queue == [] then p else Got(p));
    } else {
      RingInv(p.(r := RegRead(p.r, p.fcr, p.queue != [], offset).0));
    }
  }

  lemma StepInv(p: Port, step: Step)
    requires Inv(p)
    ensures Inv(Apply(p, step))
  {
    match step
    case Arrive(bytes) =>
    case Drain => DrainInv(p);
    case Write(offset, value) => WriteInv(p, offset, value);
    case Read(offset) => ReadInv(p, offset);
  }

  lemma {:induction false} RunInv(p: Port, steps: seq<Step>)
    requires Inv(p)
    ensures Inv(Run(p, steps))
    decreases |steps|
  {
    if steps != [] {
      StepInv(p, steps[0]);
      RunInv(Apply(p, steps[0]), steps[1..]);
    }
  }

  /** The bytes taken in and handed to the guest since the ring was last reset. */
  datatype History = History(p: Port, accepted: seq<bv8>, delivered: seq<bv8>)

  predicate Resets(p: Port, step: Step) {
    step.Write? && step.offset == REG_FCR && ResetSize(p, step.value) != None
  }

  /** What a step takes in: all that a drain outside loopback removes from the terminal, or a byte sent in
      loopback that does not raise an overrun. */
  function Accepted(p: Port, step: Step): seq<bv8> {
    var q := Apply(p, step);
    match step
    case Drain =>
      if Has(p.r.mcr, MCR_LOOPBACK) || |q.input| > |p.input| then [] else p.input[..|p.input| - |q.input|]
    case Write(offset, value) =>
      if offset == REG_DATA && !Dlab(p.r, offset) && Has(p.r.mcr, MCR_LOOPBACK) && |p.queue| < p.cap then [value]
      else []
    case _ => []
  }

  /** What the guest reads from the data register, a read of an empty ring yielding only a filler. */
  function Delivered(p: Port, step: Step): seq<bv8> {
    if step.Read? && step.offset == REG_DATA && !Dlab(p.r, REG_DATA) && p.queue != [] then [ReadReg(p, REG_DATA).1]
    else []
  }

  function Record(h: History, step: Step): History {
    if Resets(h.p, step) then History(Apply(h.p, step), [], [])
    else History(Apply(h.p, step), h.accepted + Accepted(h.p, step), h.delivered + Delivered(h.p, step))
  }

  function RunHistory(h: History, steps: seq<Step>): History
    decreases |steps|
  {
    if steps == [] then h else RunHistory(Record(h, steps[0]), steps[1..])
  }

  lemma ResetEmpties(p: Port, offset: int, value: bv8)
    requires Resets(p, Write(offset, value))
    ensures Written(p, offset, value).queue == []
  {
  }

  lemma DrainMoves(p: Port)
    requires Inv(p) && !Has(p.r.mcr, MCR_LOOPBACK)
    ensures var q, n := Drained(p), |Accepted(p, Drain)|;
      Accepted(p, Drain) == p.input[..n] && q.input == p.input[n..] && q.queue == p.queue + p.input[..n]
  {
  }

  lemma LoopedBackMoves(p: Port, value: bv8)
    ensures var q := LoopedBack(p, value);
      q.input == p.input && q.queue == (if |p.queue| < p.cap then p.queue + [value] else p.queue)
  {
  }

  lemma SentMoves(p: Port, value: bv8)
    ensures var q := Sent(p, value);
      q.input == p.input &&
      q.queue == if Has(p.r.mcr, MCR_LOOPBACK) && |p.queue| < p.cap then p.queue + [value] else p.queue
  {
    if Has(p.r.mcr, MCR_LOOPBACK) {
      LoopedBackMoves(p, value);
    }
  }

  lemma WriteMoves(p: Port, offset: int, value: bv8)
    requires Ring(p) && !Resets(p, Write(offset, value))
    ensures var q := Written(p, offset, value);
      q.input == p.input && q.queue == p.queue + Accepted(p, Write(offset, value))
  {
    if offset == REG_DATA && !Dlab(p.r, offset) {
      SentMoves(Toggled(WithThre(p, false)), value);
    } else {
      assert Accepted(p, Write(offset, value)) == [];
    }
  }

  lemma ReadMoves(p: Port, offset: int)
    ensures var q := ReadReg(p, offset).0;
      q.input == p.input && p.queue == Delivered(p, Read(offset)) + q.queue
  {
    if offset == REG_DATA && !Dlab(p.r, REG_DATA) && p.queue != [] {
      assert p.queue == [p.queue[0]] + p.queue[1..];
    }
  }

  /** Whatever a step takes in is appended to the ring, and whatever it hands out is taken from the front. */
  ghost predicate Moves(p: Port, step: Step) {
    p.queue + Accepted(p, step) == Delivered(p, step) + Apply(p, step).queue
  }

  lemma StepMoves(p: Port, step: Step)
    requires Inv(p) && !Resets(p, step)
    ensures Moves(p, step)
  {
    match step
    case Arrive(bytes) =>
    case Drain => DrainStep(p);
    case Write(offset, value) => WriteStep(p, offset, value);
    case Read(offset) => ReadStep(p, offset);
  }

  lemma DrainStep(p: Port)
    requires Inv(p)
    ensures Moves(p, Drain)
  {
    if !Has(p.r.mcr, MCR_LOOPBACK) {
      DrainMoves(p);
    }
  }

  lemma WriteStep(p: Port, offset: int, value: bv8)
    requires Inv(p) && !Resets(p, Write(offset, value))
    ensures Moves(p, Write(offset, value))
  {
    WriteMoves(p, offset, value);
  }

  lemma ReadStep(p: Port, offset: int)
    requires Inv(p)
    ensures Moves(p, Read(offset))
  {
    ReadMoves(p, offset);
  }

  ghost predicate Lossless(h: History) {
    Inv(h.p) && h.accepted == h.delivered + h.p.queue
  }

  lemma RecordLossless(h: History, step: Step)
    requires Lossless(h)
    ensures Lossless(Record(h, step))
  {
    StepInv(h.p, step);
    if Resets(h.p, step) {
      ResetEmpties(h.p, step.offset, step.value);
    } else {
      StepMoves(h.p, step);
      Append(h.delivered, h.p.queue, Accepted(h.p, step), Delivered(h.p, step), Apply(h.p, step).queue);
    }
  }

  lemma Append(a: seq<bv8>, q: seq<bv8>, x: seq<bv8>, y: seq<bv8>, r: seq<bv8>)
    requires q + x == y + r
    ensures a + q + x == a + y + r
  {
    assert a + q + x == a + (q + x);
    assert a + (y + r) == a + y + r;
  }

  /** A lossless queue: between resets, the bytes delivered followed by the ring's are the bytes accepted. */
  lemma {:induction false} LosslessQueue(h: History, steps: seq<Step>)
    requires Lossless(h)
    ensures Lossless(RunHistory(h, steps))
    decreases |steps|
  {
    if steps != [] {
      RecordLossless(h, steps[0]);
      LosslessQueue(Record(h, steps[0]), steps[1..]);
    }
  }

  function Arrived(step: Step): seq<bv8> {
    if step.Arrive? then step.bytes else []
  }

  function AllArrived(steps: seq<Step>): seq<bv8> {
    if steps == [] then [] else Arrived(steps[0]) + AllArrived(steps[1..])
  }

  function AllDelivered(p: Port, steps: seq<Step>): seq<bv8>
    decreases |steps|
  {
    if steps == [] then [] else Delivered(p, steps[0]) + AllDelivered(Apply(p, steps[0]), steps[1..])
  }

  /** No reset and no loopback during the run. */
  predicate Plain(p: Port, steps: seq<Step>)
    decreases |steps|
  {
    steps == [] ||
    (!Has(p.r.mcr, MCR_LOOPBACK) && !Resets(p, steps[0]) && Plain(Apply(p, steps[0]), steps[1..]))
  }

  ghost predicate Streams(p: Port, step: Step) {
    p.queue + p.input + Arrived(step) == Delivered(p, step) + (Apply(p, step).queue + Apply(p, step).input)
  }

  lemma StepStreams(p: Port, step: Step)
    requires Inv(p) && !Resets(p, step) && !Has(p.r.mcr, MCR_LOOPBACK)
    ensures Streams(p, step)
  {
    match step
    case Arrive(bytes) =>
    case Drain => DrainStreams(p);
    case Write(offset, value) => WriteStreams(p, offset, value);
    case Read(offset) => ReadStreams(p, offset);
  }

  lemma Resplit(q: seq<bv8>, s: seq<bv8>, n: nat)
    requires n <= |s|
    ensures q + s + [] == [] + (q + s[..n] + s[n..])
  {
    assert q + s[..n] + s[n..] == q + (s[..n] + s[n..]);
  }

  lemma DrainStreams(p: Port)
    requires Inv(p) && !Has(p.r.mcr, MCR_LOOPBACK)
    ensures Streams(p, Drain)
  {
    DrainMoves(p);
    Resplit(p.queue, p.input, |Accepted(p, Drain)|);
  }

  lemma WriteStreams(p: Port, offset: int, value: bv8)
    requires Inv(p) && !Resets(p, Write(offset, value)) && !Has(p.r.mcr, MCR_LOOPBACK)
    ensures Streams(p, Write(offset, value))
  {
    WriteMoves(p, offset, value);
  }

  lemma ReadStreams(p: Port, offset: int)
    requires Inv(p)
    ensures Streams(p, Read(offset))
  {
    ReadMoves(p, offset);
    var q := ReadReg(p, offset).0;
    Extend(p.queue, Delivered(p, Read(offset)), q.queue, p.input);
  }

  lemma Extend(a: seq<bv8>, d: seq<bv8>, r: seq<bv8>, s: seq<bv8>)
    requires a == d + r
    ensures a + s + [] == d + (r + s)
  {
  }

  /** End to end, with neither reset nor loopback: what the guest reads, then the ring, then what the terminal
      still has, is exactly the stream that came in, in its order. */
  lemma {:induction false} StreamConserved(p: Port, steps: seq<Step>)
    requires Inv(p) && Plain(p, steps)
    ensures var q := Run(p, steps);
      p.queue + p.input + AllArrived(steps) == AllDelivered(p, steps) + (q.queue + q.input)
    decreases |steps|
  {
    if steps != [] {
      var q, rest := Apply(p, steps[0]), steps[1..];
      StepInv(p, steps[0]);
      StepStreams(p, steps[0]);
      StreamConserved(q, rest);
      var z := Run(q, rest);
      Chained(p.queue + p.input, Arrived(steps[0]), Delivered(p, steps[0]), q.queue + q.input,
              AllArrived(rest), AllDelivered(q, rest), z.queue + z.input);
    }
  }

  /** Two stretches of a stream put together. */
  lemma Chained(s: seq<bv8>, a: seq<bv8>, d: seq<bv8>, mid: seq<bv8>, a': seq<bv8>, d': seq<bv8>, end: seq<bv8>)
    requires s + a == d + mid && mid + a' == d' + end
    ensures s + (a + a') == (d + d') + end
  {
    assert s + (a + a') == (s + a) + a';
    assert (d + mid) + a' == d + (mid + a');
    assert d + (d' + end) == (d + d') + end;
  }

  /** From reset on, whatever software and terminal do, the ring loses nothing between its resets. */
  lemma LosslessFromStart(fifoSize: nat, steps: seq<Step>)
    requires fifoSize > 0
    ensures var h := RunHistory(History(Start(fifoSize), [], []), steps);
      Inv(h.p) && h.accepted == h.delivered + h.p.queue
  {
    StartInv(fifoSize);
    LosslessQueue(History(Start(fifoSize), [], []), steps);
  }

  /** From reset on, without loopback and another ring reset, everything that arrived was delivered or is held. */
  lemma StreamFromStart(fifoSize: nat, steps: seq<Step>)
    requires fifoSize > 0 && Plain(Start(fifoSize), steps)
    ensures var q := Run(Start(fifoSize), steps);
      AllArrived(steps) == AllDelivered(Start(fifoSize), steps) + (q.queue + q.input)
  {
    StartInv(fifoSize);
    StreamConserved(Start(fifoSize), steps);
    assert [] + [] + AllArrived(steps) == AllArrived(steps);
  }

  /** Bytes waiting at the terminal are never stuck: a drain moves some, or the guest reading one byte switches
      the backend on again. */
  lemma NeverStuck(p: Port)
    requires Inv(p) && p.input != [] && !Has(p.r.mcr, MCR_LOOPBACK) && !Has(p.r.lcr, LCR_DLAB)
    ensures p.polled ==> |Apply(p, Drain).input| < |p.input|
    ensures !p.polled ==> p.queue != [] && Apply(p, Read(REG_DATA)).polled
  {
  }

  /** After a modem control write the upper half of the modem status is the lines' state, and each delta bit
      stays until it is read and is set when its line changed, RI only when it fell. */
  lemma DeltasRemembered(was: bv8, mcr: bv8)
    ensures var lines := ModemStatus(mcr); var msr := NewMsr(was, lines);
      && msr & !MSR_DELTA_MASK == lines
      && (Has(msr, MSR_DCTS) <==> Has(was, MSR_DCTS) || Has(was, MSR_CTS) != Has(lines, MSR_CTS))
      && (Has(msr, MSR_DDSR) <==> Has(was, MSR_DDSR) || Has(was, MSR_DSR) != Has(lines, MSR_DSR))
      && (Has(msr, MSR_DDCD) <==> Has(was, MSR_DDCD) || Has(was, MSR_DCD) != Has(lines, MSR_DCD))
      && (Has(msr, MSR_TERI) <==> Has(was, MSR_TERI) || (Has(was, MSR_RI) && !Has(lines, MSR_RI)))
  {
  }
}
