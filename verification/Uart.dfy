/** The emulated serial port: its registers, its receive ring, and the flow control of its backend, an
    opened terminal whose event can always be switched on and off. */
module Uart {
  import opened Words

  const IER_ERXRDY: bv8 := 0x01
  const IER_ETXRDY: bv8 := 0x02
  const IER_ERLS: bv8 := 0x04
  const IER_EMSC: bv8 := 0x08
  const IIR_MLSC: bv8 := 0x00
  const IIR_NOPEND: bv8 := 0x01
  const IIR_TXRDY: bv8 := 0x02
  const IIR_RLS: bv8 := 0x06
  const IIR_RXTOUT: bv8 := 0x0c
  const IIR_FIFO_MASK: bv8 := 0xc0
  const LCR_DLAB: bv8 := 0x80
  const MCR_DTR: bv8 := 0x01
  const MCR_RTS: bv8 := 0x02
  const MCR_OUT1: bv8 := 0x04
  const MCR_OUT2: bv8 := 0x08
  const MCR_LOOPBACK: bv8 := 0x10
  const LSR_RXRDY: bv8 := 0x01
  const LSR_OE: bv8 := 0x02
  const LSR_THRE: bv8 := 0x20
  const LSR_TEMT: bv8 := 0x40
  const MSR_DCTS: bv8 := 0x01
  const MSR_DDSR: bv8 := 0x02
  const MSR_TERI: bv8 := 0x04
  const MSR_DDCD: bv8 := 0x08
  const MSR_DELTA_MASK: bv8 := 0x0f
  const MSR_CTS: bv8 := 0x10
  const MSR_DSR: bv8 := 0x20
  const MSR_RI: bv8 := 0x40
  const MSR_DCD: bv8 := 0x80
  const FCR_ENABLE: bv8 := 0x01
  const FCR_RCV_RST: bv8 := 0x02
  const FCR_DMA: bv8 := 0x08
  const FCR_RX_MASK: bv8 := 0xc0

  const DIVISOR: int := 1843200 / 9600 / 16

  const REG_DATA: int := 0
  const REG_IER: int := 1
  const REG_IIR: int := 2
  const REG_FCR: int := 2
  const REG_LCR: int := 3
  const REG_MCR: int := 4
  const REG_LSR: int := 5
  const REG_MSR: int := 6
  const REG_SCR: int := 7
  const REG_DLL: int := 0
  const REG_DLH: int := 1

  datatype Regs = Regs(ier: bv8, lcr: bv8, mcr: bv8, lsr: bv8, msr: bv8, scr: bv8, dll: bv8, dlh: bv8, thre: bool)

  /** The port: `fcr` is its FIFO control register and `r` the others; `queue` is what the receive ring holds and
      `cap` its size in use; `input` is what the terminal has ready, `polled` whether its event is enabled, `output`
      what was written to it; `line` is the level of the interrupt line. */
  datatype Port = Port(r: Regs, fcr: bv8, queue: seq<bv8>, cap: nat, fifoSize: nat, polled: bool,
                       input: seq<bv8>, output: seq<bv8>, line: bool)

  predicate Has(x: bv8, mask: bv8) { x & mask != 0 }

  function ModemStatus(mcr: bv8): bv8 {
    if Has(mcr, MCR_LOOPBACK) then
      (if Has(mcr, MCR_RTS) then MSR_CTS else 0) | (if Has(mcr, MCR_DTR) then MSR_DSR else 0)
      | (if Has(mcr, MCR_OUT1) then MSR_RI else 0) | (if Has(mcr, MCR_OUT2) then MSR_DCD else 0)
    else MSR_DCD | MSR_DSR
  }

  /** `uart_intr_reason` */
  function Reason(r: Regs, received: bool): bv8 {
    if Has(r.lsr, LSR_OE) && Has(r.ier, IER_ERLS) then IIR_RLS
    else if received && Has(r.ier, IER_ERXRDY) then IIR_RXTOUT
    else if r.thre && Has(r.ier, IER_ETXRDY) then IIR_TXRDY
    else if Has(r.msr, MSR_DELTA_MASK) && Has(r.ier, IER_EMSC) then IIR_MLSC
    else IIR_NOPEND
  }

  function Toggled(p: Port): Port {
    p.(line := Reason(p.r, p.queue != []) != IIR_NOPEND)
  }

  /** `rxfifo_reset`, which also throws away what the terminal has ready and enables its event. */
  function FifoReset(p: Port, size: nat): Port {
    p.(queue := [], cap := if size > p.fifoSize then p.fifoSize else size, input := [], polled := true)
  }

  function Put(p: Port, ch: bv8): Port
    requires |p.queue| < p.cap
  {
    p.(queue := p.queue + [ch], polled := p.polled && |p.queue| + 1 < p.cap)
  }

  function Got(p: Port): Port
    requires |p.queue| > 0
  {
    p.(queue := p.queue[1..], polled := p.polled || |p.queue| >= p.cap)
  }

  /** How many of `ready` bytes `uart_drain` moves to a ring of size `cap` holding `held`. */
  function DrainCount(held: nat, cap: nat, ready: nat): (n: nat)
    ensures n <= ready
  {
    if held >= cap then 0 else if ready < cap - held then ready else cap - held
  }

  /** `uart_drain`, which in loopback throws one byte away. */
  function Drained(p: Port): Port {
    if Has(p.r.mcr, MCR_LOOPBACK) then p.(input := if p.input == [] then [] else p.input[1..])
    else
      var n := DrainCount(|p.queue|, p.cap, |p.input|);
      Toggled(p.(queue := p.queue + p.input[..n], input := p.input[n..],
                 polled := p.polled && (n == 0 || |p.queue| + n < p.cap)))
  }

  /** Marks `delta` when the line `bit` differs. */
  function Marked(was: bv8, msr: bv8, bit: bv8, delta: bv8): bv8 {
    if Has(msr, bit) != Has(was, bit) then was | delta else was
  }

  function NewMsr(was: bv8, msr: bv8): bv8 {
    var d := Marked(Marked(Marked(was, msr, MSR_CTS, MSR_DCTS), msr, MSR_DSR, MSR_DDSR), msr, MSR_DCD, MSR_DDCD);
    ((if Has(d, MSR_RI) && !Has(msr, MSR_RI) then d | MSR_TERI else d) & MSR_DELTA_MASK) | msr
  }

  predicate Dlab(r: Regs, offset: int) {
    Has(r.lcr, LCR_DLAB) && (offset == REG_DLL || offset == REG_DLH)
  }

  /** A byte sent in loopback goes to the ring, marking an overrun when that is full. */
  function LoopedBack(p: Port, value: bv8): Port {
    if |p.queue| < p.cap then Put(p, value) else p.(r := p.r.(lsr := p.r.lsr | LSR_OE))
  }

  function Sent(p: Port, value: bv8): Port {
    if Has(p.r.mcr, MCR_LOOPBACK) then LoopedBack(p, value) else p.(output := p.output + [value])
  }

  function WithThre(p: Port, thre: bool): Port {
    p.(r := p.r.(thre := thre))
  }

  /** A write to the data register: the transmission is complete at once. */
  function Transmitted(p: Port, value: bv8): Port {
    WithThre(Sent(Toggled(WithThre(p, false)), value), true)
  }

  /** The size a FIFO control write gives the ring when it resets it. */
  function ResetSize(p: Port, value: bv8): Option<nat> {
    if Has(p.fcr, FCR_ENABLE) && !Has(value, FCR_ENABLE) then Some(1)
    else if Has(value, FCR_ENABLE) && (!Has(p.fcr, FCR_ENABLE) || Has(value, FCR_RCV_RST)) then Some(p.fifoSize)
    else None
  }

  function FcrWritten(p: Port, value: bv8): Port {
    var size := ResetSize(p, value);
    (if size == None then p else FifoReset(p, size.value)).(
      fcr := if Has(value, FCR_ENABLE) then value & (FCR_ENABLE | FCR_DMA | FCR_RX_MASK) else 0)
  }

  function Iir(r: Regs, fcr: bv8, received: bool): bv8 {
    (if Has(fcr, FCR_ENABLE) then IIR_FIFO_MASK else 0) | Reason(r, received)
  }

  function LineStatus(lsr: bv8, received: bool): bv8 {
    var ready := lsr | (LSR_TEMT | LSR_THRE);
    if received then ready | LSR_RXRDY else ready & !LSR_RXRDY
  }

  /** A write to a register that is only stored. */
  function RegWritten(r: Regs, offset: int, value: bv8): Regs {
    if offset == REG_IER then
      r.(ier := value & 0x0f, thre := r.thre || (!Has(r.ier, IER_ETXRDY) && Has(value, IER_ETXRDY)))
    else if offset == REG_LCR then r.(lcr := value)
    else if offset == REG_MCR then r.(mcr := value & 0x1f, msr := NewMsr(r.msr, ModemStatus(value & 0x1f)))
    else if offset == REG_SCR then r.(scr := value)
    else r
  }

  function Written(p: Port, offset: int, value: bv8): Port {
    if Dlab(p.r, offset) then p.(r := if offset == REG_DLL then p.r.(dll := value) else p.r.(dlh := value))
    else if offset == REG_DATA then Transmitted(p, value)
    else if offset == REG_FCR then FcrWritten(p, value)
    else p.(r := RegWritten(p.r, offset, value))
  }

  /** `uart_write` */
  function Wrote(p: Port, offset: int, value: bv8): Port {
    Toggled(Written(p, offset, value))
  }

  /** A read that changes nothing. */
  function PlainRead(r: Regs, offset: int): bv8 {
    if Dlab(r, offset) then (if offset == REG_DLL then r.dll else r.dlh)
    else if offset == REG_IER then r.ier
    else if offset == REG_LCR then r.lcr
    else if offset == REG_MCR then r.mcr
    else if offset == REG_SCR then r.scr
    else 0xff
  }

  function IirRead(r: Regs, fcr: bv8, received: bool): (Regs, bv8) {
    (r.(thre := r.thre && Reason(r, received) != IIR_TXRDY), Iir(r, fcr, received))
  }

  function LsrRead(r: Regs, received: bool): (Regs, bv8) {
    var lsr := LineStatus(r.lsr, received);
    (r.(lsr := lsr & !LSR_OE), lsr)
  }

  /** A read of a register other than the data register: the registers afterwards and the value read. */
  function RegRead(r: Regs, fcr: bv8, received: bool, offset: int): (Regs, bv8) {
    if offset == REG_IIR then IirRead(r, fcr, received)
    else if offset == REG_LSR then LsrRead(r, received)
    else if offset == REG_MSR then (r.(msr := r.msr & !MSR_DELTA_MASK), r.msr)
    else (r, PlainRead(r, offset))
  }

  /** `uart_read`: the port afterwards and the value read. */
  function ReadReg(p: Port, offset: int): (Port, bv8) {
    if !Dlab(p.r, offset) && offset == REG_DATA then
      if p.queue == [] then (Toggled(p), 0xff) else (Toggled(Got(p)), p.queue[0])
    else
      var (r, reg) := RegRead(p.r, p.fcr, p.queue != [], offset);
      (Toggled(p.(r := r)), reg)
  }

  /** The receive ring, with the flow control of the backend that feeds it. */
  class Fifo {
    const buf: array<bv8>
    var rindex: nat
    var windex: nat
    var num: nat
    var size: nat
    var polled: bool
    var input: seq<bv8>
    ghost var queue: seq<bv8> // what the ring holds, oldest first

    /** The indices are in range, and the bytes from `rindex` on, wrapping at `size`, are `queue`. */
    ghost predicate Valid()
      reads this, buf
    {
      && 0 < size <= buf.Length && num == |queue| <= size && rindex < size
      && windex == At(num)
      && forall k :: 0 <= k < num ==> queue[k] == buf[At(k)]
    }

    ghost function At(k: nat): (i: nat)
      reads this
      requires rindex < size && k <= size
      ensures i < size
    {
      if rindex + k < size then rindex + k else rindex + k - size
    }

    /** The places of a ring that is not full are distinct, and the next free one follows the last. */
    lemma AtApart(n: nat)
      requires rindex < size && n < size
      ensures forall k :: 0 <= k < n ==> At(k) != At(n)
      ensures At(n + 1) == if At(n) + 1 == size then 0 else At(n) + 1
    {
    }

    constructor (rxfifoSize: nat)
      requires rxfifoSize > 0
      ensures fresh(buf) && buf.Length == rxfifoSize && Valid()
      ensures queue == [] && size == 1 && polled && input == []
    {
      buf := new bv8[rxfifoSize];
      rindex, windex, num, size, queue := 0, 0, 0, 1, [];
      polled, input := true, [];
    }

    /** `(i + 1) % size` */
    method NextIndex(i: nat) returns (j: nat)
      requires i < size
      ensures j == if i + 1 == size then 0 else i + 1
    {
      j := (i + 1) % size;
      if i + 1 == size {
        DivModUnique(i + 1, size, 1, 0);
      } else {
        DivModUnique(i + 1, size, 0, i + 1);
      }
    }

    /** `rxfifo_reset` */
    method Reset(newSize: nat)
      requires Valid() && newSize > 0
      modifies this
      ensures Valid() && queue == [] && size == (if newSize > buf.Length then buf.Length else newSize)
      ensures polled && input == []
    {
      rindex, windex, num, queue := 0, 0, 0, [];
      size := if newSize > buf.Length then buf.Length else newSize;
      FlushBackend();
      polled := true;
    }

    /** The flush loop of `uart_reset_backend`, 32 bytes a read, until a read comes up short. */
    method FlushBackend()
      modifies this`input
      ensures input == []
    {
      var nread := 32;
      while nread == 32
        invariant nread <= 32 && (nread < 32 ==> input == [])
        decreases |input|, nread
      {
        nread := if |input| < 32 then |input| else 32;
        input := input[nread..];
      }
    }

    /** `rxfifo_putchar` */
    method Putchar(ch: bv8) returns (ok: bool)
      requires Valid()
      modifies this`windex, this`num, this`polled, this`queue, buf
      ensures Valid() && (ok <==> |old(queue)| < size)
      ensures queue == (if ok then old(queue) + [ch] else old(queue))
      ensures polled == (old(polled) && (ok ==> |queue| < size))
    {
      if num < size {
        Append(ch);
        if !(num < size) {
          polled := false;
        }
        return true;
      }
      return false;
    }

    method Append(ch: bv8)
      requires Valid() && num < size
      modifies this`windex, this`num, this`queue, buf
      ensures Valid() && queue == old(queue) + [ch]
    {
      AtApart(num);
      buf[windex] := ch;
      windex := NextIndex(windex);
      num, queue := num + 1, queue + [ch];
    }

    /** `rxfifo_getchar` */
    method Getchar() returns (c: Option<bv8>)
      requires Valid()
      modifies this`rindex, this`num, this`polled, this`queue
      ensures Valid()
      ensures c == (if old(queue) == [] then None else Some(old(queue)[0]))
      ensures queue == (if old(queue) == [] then [] else old(queue)[1..])
      ensures polled == (old(polled) || |old(queue)| >= size)
    {
      if num == 0 {
        return None;
      }
      var wasFull := !(num < size);
      assert At(0) == rindex;
      c := Some(buf[rindex]);
      rindex := NextIndex(rindex);
      num, queue := num - 1, queue[1..];
      if wasFull {
        polled := true;
      }
    }

    /** The loop of `uart_drain`: moves bytes from the terminal to the ring while both allow it. */
    method Fill()
      requires Valid()
      modifies this, buf
      ensures Valid() && size == old(size)
      ensures var n := DrainCount(|old(queue)|, size, |old(input)|);
        && queue == old(queue) + old(input)[..n] && input == old(input)[n..]
        && polled == (old(polled) && (n == 0 || |queue| < size))
    {
      ghost var q, in_, n := queue, input, 0;
      while num < size && input != []
        invariant Valid() && size == old(size)
        invariant n <= DrainCount(|q|, size, |in_|)
        invariant queue == q + in_[..n] && input == in_[n..]
        invariant polled == (old(polled) && (n == 0 || |queue| < size))
        decreases |input|
      {
        var ch := input[0];
        input := input[1..];
        var ok := Putchar(ch);
        Advance(q, in_, n);
        n := n + 1;
      }
    }
  }

  lemma Advance(q: seq<bv8>, s: seq<bv8>, n: nat)
    requires n < |s|
    ensures q + s[..n + 1] == q + s[..n] + [s[n]] && s[n..][1..] == s[n + 1..]
  {
    assert s[..n + 1] == s[..n] + [s[n]];
  }

  class UartVdev {
    const rxfifo: Fifo
    var r: Regs
    var fcr: bv8
    var output: seq<bv8>
    var line: bool

    ghost predicate Valid()
      reads this, rxfifo, rxfifo.buf
    {
      rxfifo.Valid()
    }

    ghost function View(): Port
      reads this, rxfifo
    {
      Port(r, fcr, rxfifo.queue, rxfifo.size, rxfifo.buf.Length, rxfifo.polled, rxfifo.input, output, line)
    }

    /** `uart_init` with the default settings, and the opening of the backend */
    constructor (rxfifoSize: nat)
      requires rxfifoSize > 0
      ensures fresh(rxfifo) && fresh(rxfifo.buf) && Valid() && View() == Start(rxfifoSize)
    {
      rxfifo := new Fifo(rxfifoSize);
      r, fcr := StartRegs(), 0;
      output, line := [], false;
    }

    method ToggleIntr()
      requires Valid()
      modifies this`line
      ensures Valid() && View() == old(Toggled(View()))
    {
      line := Reason(r, rxfifo.num > 0) != IIR_NOPEND;
    }

    /** `uart_drain` */
    method Drain()
      requires Valid()
      modifies this`line, rxfifo, rxfifo.buf
      ensures Valid() && View() == old(Drained(View()))
    {
      if Has(r.mcr, MCR_LOOPBACK) {
        if rxfifo.input != [] {
          rxfifo.input := rxfifo.input[1..];
        }
        return;
      }
      rxfifo.Fill();
      ToggleIntr();
    }

    /** `uart_write` */
    method Write(offset: int, value: bv8)
      requires Valid()
      modifies this, rxfifo, rxfifo.buf
      ensures Valid() && View() == old(Wrote(View(), offset, value))
    {
      Store(offset, value);
      ToggleIntr();
    }

    method Store(offset: int, value: bv8)
      requires Valid()
      modifies this, rxfifo, rxfifo.buf
      ensures Valid() && View() == old(Written(View(), offset, value))
    {
      if Dlab(r, offset) {
        WriteDivisor(offset, value);
      } else if offset == REG_DATA {
        WriteData(value);
      } else if offset == REG_FCR {
        WriteFcr(value);
      } else {
        WriteRegister(offset, value);
      }
    }

    method WriteData(value: bv8)
      requires Valid()
      modifies this, rxfifo, rxfifo.buf
      ensures Valid() && View() == old(Transmitted(View(), value))
    {
      SetThre(false);
      ToggleIntr();
      Send(value);
      SetThre(true);
    }

    method SetThre(thre: bool)
      requires Valid()
      modifies this`r
      ensures Valid() && View() == old(WithThre(View(), thre))
    {
      r := r.(thre := thre);
    }

    method Send(value: bv8)
      requires Valid()
      modifies this`r, this`output, rxfifo, rxfifo.buf
      ensures Valid() && View() == old(Sent(View(), value))
    {
      if Has(r.mcr, MCR_LOOPBACK) {
        var ok := rxfifo.Putchar(value);
        if !ok {
          r := r.(lsr := r.lsr | LSR_OE);
        }
      } else {
        output := output + [value];
      }
    }

    method WriteFcr(value: bv8)
      requires Valid()
      modifies this`fcr, rxfifo
      ensures Valid() && View() == old(FcrWritten(View(), value))
    {
      if Has(fcr, FCR_ENABLE) != Has(value, FCR_ENABLE) {
        var fifosz := if Has(value, FCR_ENABLE) then rxfifo.buf.Length else 1;
        rxfifo.Reset(fifosz);
      }
      if !Has(value, FCR_ENABLE) {
        fcr := 0;
      } else {
        if Has(value, FCR_RCV_RST) {
          rxfifo.Reset(rxfifo.buf.Length);
        }
        fcr := value & (FCR_ENABLE | FCR_DMA | FCR_RX_MASK);
      }
    }

    method WriteDivisor(offset: int, value: bv8)
      modifies this`r
      ensures r == (if offset == REG_DLL then old(r).(dll := value) else old(r).(dlh := value))
    {
      if offset == REG_DLL {
        r := r.(dll := value);
      } else {
        r := r.(dlh := value);
      }
    }

    /** The registers a write only stores to. */
    method WriteRegister(offset: int, value: bv8)
      modifies this`r
      ensures r == RegWritten(old(r), offset, value)
    {
      if offset == REG_IER {
        if !Has(r.ier, IER_ETXRDY) && Has(value, IER_ETXRDY) {
          r := r.(thre := true);
        }
        r := r.(ier := value & 0x0f);
      } else if offset == REG_LCR {
        r := r.(lcr := value);
      } else if offset == REG_MCR {
        r := r.(mcr := value & 0x1f);
        UpdateMsr();
      } else if offset == REG_SCR {
        r := r.(scr := value);
      }
    }

    method UpdateMsr()
      modifies this`r
      ensures r == old(r).(msr := NewMsr(old(r.msr), ModemStatus(r.mcr)))
    {
      var msr := ModemStatus(r.mcr);
      var was := Marked(r.msr, msr, MSR_CTS, MSR_DCTS);
      was := Marked(was, msr, MSR_DSR, MSR_DDSR);
      was := Marked(was, msr, MSR_DCD, MSR_DDCD);
      if Has(was, MSR_RI) && !Has(msr, MSR_RI) {
        was := was | MSR_TERI;
      }
      was := was & MSR_DELTA_MASK;
      was := was | msr;
      r := r.(msr := was);
    }

    /** `uart_read` */
    method Read(offset: int) returns (reg: bv8)
      requires Valid()
      modifies this`r, this`line, rxfifo
      ensures Valid() && (View(), reg) == old(ReadReg(View(), offset))
    {
      if !Dlab(r, offset) && offset == REG_DATA {
        var c := rxfifo.Getchar();
        reg := if c.Some? then c.value else 0xff;
      } else {
        reg := ReadRegister(offset);
      }
      ToggleIntr();
    }

    method ReadRegister(offset: int) returns (reg: bv8)
      requires Valid()
      modifies this`r
      ensures (r, reg) == RegRead(old(r), fcr, rxfifo.queue != [], offset)
    {
      if offset == REG_IIR {
        reg := ReadIir();
      } else if offset == REG_LSR {
        reg := ReadLsr();
      } else if offset == REG_MSR {
        reg := ReadMsr();
      } else {
        reg := ReadPlain(offset);
      }
    }

    method ReadPlain(offset: int) returns (reg: bv8)
      ensures reg == PlainRead(r, offset)
    {
      if Dlab(r, offset) {
        reg := if offset == REG_DLL then r.dll else r.dlh;
      } else if offset == REG_IER {
        reg := r.ier;
      } else if offset == REG_LCR {
        reg := r.lcr;
      } else if offset == REG_MCR {
        reg := r.mcr;
      } else if offset == REG_SCR {
        reg := r.scr;
      } else {
        reg := 0xff;
      }
    }

    method ReadIir() returns (reg: bv8)
      requires Valid()
      modifies this`r
      ensures (r, reg) == IirRead(old(r), fcr, rxfifo.queue != [])
    {
      var iir := if Has(fcr, FCR_ENABLE) then IIR_FIFO_MASK else 0;
      var reason := Reason(r, rxfifo.num > 0);
      if reason == IIR_TXRDY {
        r := r.(thre := false);
      }
      reg := iir | reason;
    }

    method ReadMsr() returns (reg: bv8)
      modifies this`r
      ensures reg == old(r.msr) && r == old(r).(msr := reg & !MSR_DELTA_MASK)
    {
      reg := r.msr;
      r := r.(msr := r.msr & !MSR_DELTA_MASK);
    }

    method ReadLsr() returns (reg: bv8)
      requires Valid()
      modifies this`r
      ensures (r, reg) == LsrRead(old(r), rxfifo.queue != [])
    {
      r := r.(lsr := LineStatus(r.lsr, rxfifo.num > 0));
      reg := r.lsr;
      r := r.(lsr := r.lsr & !LSR_OE);
    }
  }

  function StartRegs(): Regs {
    Regs(0, 0, 0, 0, ModemStatus(0), 0, DIVISOR as bv8, 0, true)
  }

  /** The port after `uart_reset`, with no FIFO until software enables it. */
  function Start(fifoSize: nat): Port {
    Port(StartRegs(), 0, [], 1, fifoSize, true, [], [], false)
  }
}
