/** The common configuration registers: one set of queue registers seen through `queue_select`, and feature
    negotiation in two 32-bit halves. */
module CommonCfg {
  import opened Words

  const NO_VECTOR: u16 := 0xffff

  const DFSELECT: nat := 0
  const DF: nat := 4
  const GFSELECT: nat := 8
  const GF: nat := 12
  const MSIX: nat := 16
  const NUMQ: nat := 18
  const STATUS: nat := 20
  const CFGGENERATION: nat := 21
  const Q_SELECT: nat := 22
  const Q_SIZE: nat := 24
  const Q_MSIX: nat := 26
  const Q_ENABLE: nat := 28
  const Q_NOFF: nat := 30
  const Q_DESCLO: nat := 32
  const Q_DESCHI: nat := 36
  const Q_AVAILLO: nat := 40
  const Q_AVAILHI: nat := 44
  const Q_USEDLO: nat := 48
  const Q_USEDHI: nat := 52

  datatype ConfigReg = ConfigReg(offset: nat, size: nat, ro: bool)

  /** `modern_config_regs` */
  const Modern: seq<ConfigReg> := [
    ConfigReg(DFSELECT, 4, false), ConfigReg(DF, 4, true), ConfigReg(GFSELECT, 4, false), ConfigReg(GF, 4, false),
    ConfigReg(MSIX, 2, false), ConfigReg(NUMQ, 2, true), ConfigReg(STATUS, 1, false), ConfigReg(CFGGENERATION, 1, true),
    ConfigReg(Q_SELECT, 2, false), ConfigReg(Q_SIZE, 2, false), ConfigReg(Q_MSIX, 2, false),
    ConfigReg(Q_ENABLE, 2, false),
    ConfigReg(Q_NOFF, 2, true), ConfigReg(Q_DESCLO, 4, false), ConfigReg(Q_DESCHI, 4, false),
    ConfigReg(Q_AVAILLO, 4, false),
    ConfigReg(Q_AVAILHI, 4, false), ConfigReg(Q_USEDLO, 4, false), ConfigReg(Q_USEDHI, 4, false)]

  /** The width of the register at an offset, 0 when there is none. */
  function Width(offset: nat): nat {
    if offset in {MSIX, NUMQ, Q_SELECT, Q_SIZE, Q_MSIX, Q_ENABLE, Q_NOFF} then 2
    else if offset in {STATUS, CFGGENERATION} then 1
    else if offset <= Q_USEDHI && offset % 4 == 0 then 4
    else 0
  }

  predicate ReadOnly(offset: nat) {
    offset in {DF, NUMQ, CFGGENERATION, Q_NOFF}
  }

  predicate Ascending(regs: seq<ConfigReg>) {
    forall i, j :: 0 <= i < j < |regs| ==> regs[i].offset < regs[j].offset
  }

  /** The table is in ascending order and gives each register its width, and no other register has one. */
  lemma ModernTable()
    ensures Ascending(Modern) && |Modern| == 19 && Modern[0].offset == 0
    ensures forall i :: 0 <= i < |Modern| ==>
      Modern[i].size == Width(Modern[i].offset) && Modern[i].size > 0 && Modern[i].ro == ReadOnly(Modern[i].offset)
    ensures forall o: nat :: Width(o) > 0 ==> exists i :: 0 <= i < |Modern| && Modern[i].offset == o
  {
    ModernAscending();
    ModernWidths();
    forall o: nat | Width(o) > 0
      ensures exists i :: 0 <= i < |Modern| && Modern[i].offset == o
    {
      ModernHas(o);
    }
  }

  lemma ModernAscending()
    ensures Ascending(Modern)
  {
  }

  /** Section 4.1.4.3 of VIRTIO 1.1: 32-bit selectors and features, 16- and 8-bit registers, the selected queue's 16-bit
      registers, and three 64-bit addresses in halves. */
  lemma ModernOffsets()
    ensures DFSELECT == 0 && DF == 4 && GFSELECT == 8 && GF == 12 && MSIX == 16 && NUMQ == 18 && STATUS == 20
    ensures CFGGENERATION == 21 && Q_SELECT == 22 && Q_SIZE == 24 && Q_MSIX == 26 && Q_ENABLE == 28 && Q_NOFF == 30
    ensures Q_DESCLO == 32 && Q_DESCHI == 36 && Q_AVAILLO == 40 && Q_AVAILHI == 44 && Q_USEDLO == 48 && Q_USEDHI == 52
  {
  }

  lemma ModernWidths()
    ensures forall i :: 0 <= i < |Modern| ==>
      Modern[i].size == Width(Modern[i].offset) && Modern[i].size > 0 && Modern[i].ro == ReadOnly(Modern[i].offset)
  {
  }

  lemma ModernHas(o: nat)
    requires Width(o) > 0
    ensures exists i :: 0 <= i < |Modern| && Modern[i].offset == o
  {
    var k := if o <= 12 then o / 4 else if o == 16 then 4 else if o == 18 then 5 else if o == 20 then 6
             else if o == 21 then 7 else if o <= 30 then 8 + (o - 22) / 2 else 13 + (o - 32) / 4;
    assert Modern[k].offset == o;
  }

  /** What a search comes to; `Outside` is a probe beyond the end of the table. */
  datatype Search = Found(reg: ConfigReg) | Absent | Outside

  /** `virtio_find_cr`: binary search with unsigned bounds. Below the first register the upper bound wraps. */
  method FindCr(regs: seq<ConfigReg>, offset: nat) returns (cr: Search)
    requires 0 < |regs| < 0x8000_0000 && Ascending(regs)
    ensures cr == Outside <==> offset < regs[0].offset
    ensures cr == Absent ==> forall i :: 0 <= i < |regs| ==> regs[i].offset != offset
    ensures cr.Found? ==> cr.reg in regs && cr.reg.offset == offset
  {
    var lo: u32, hi: u32 := 0, |regs| - 1;
    while hi >= lo
      invariant lo <= hi + 1 && (hi < |regs| || (hi == U32_SPAN - 1 && lo == 0 && offset < regs[0].offset))
      invariant forall i :: 0 <= i < lo ==> regs[i].offset < offset
      invariant forall i :: hi < i < |regs| ==> offset < regs[i].offset
      decreases if hi < |regs| then hi + 1 - lo else 0
    {
      var mid: u32 := (hi + lo) / 2;
      assert lo <= mid <= hi;
      if mid >= |regs| {
        return Outside;
      }
      if regs[mid].offset == offset {
        return Found(regs[mid]);
      }
      Halves(regs, mid, offset);
      if regs[mid].offset < offset {
        lo := (mid + 1) % U32_SPAN;
      } else {
        hi := (mid - 1) % U32_SPAN;
      }
    }
    cr := Absent;
  }

  lemma Halves(regs: seq<ConfigReg>, mid: nat, offset: nat)
    requires Ascending(regs) && mid < |regs|
    ensures regs[mid].offset < offset ==> forall i :: 0 <= i <= mid ==> regs[i].offset < offset
    ensures offset < regs[mid].offset ==> forall i :: mid <= i < |regs| ==> offset < regs[i].offset
  {
  }

  datatype Caps = Caps(lo: u32, hi: u32)

  datatype Vq = Vq(qsize: u16, msix: u16,
                   descLo: u32, descHi: u32, availLo: u32, availHi: u32, usedLo: u32, usedHi: u32,
                   enabled: bool, ready: bool, desc: Option<u64>, avail: Option<u64>, used: Option<u64>,
                   lastAvail: u16, saveUsed: u16, pfn: u32)

  /** `device` and `toHost` stay fixed: the capabilities offered and the mapping of guest addresses. `line` is
      the level of the legacy interrupt line that `isr` drives. */
  datatype Base = Base(device: Caps, toHost: (u64, nat) -> Option<u64>, negotiated: Caps, dfselect: u32, gfselect: u32,
                       msix: u16, status: nat, generation: nat, isr: nat, line: bool, polling: bool,
                       curq: u16, queues: seq<Vq>)

  function VqReset(v: Vq): Vq {
    Vq(v.qsize, NO_VECTOR, 0, 0, 0, 0, 0, 0, false, false, v.desc, v.avail, v.used, 0, 0, 0)
  }

  /** `virtio_reset_dev`, the queues' sizes and stale ring addresses staying. */
  function Reset(b: Base): Base {
    b.(negotiated := Caps(0, 0), dfselect := 0, gfselect := 0, msix := NO_VECTOR, generation := 0, curq := 0,
       isr := 0, line := b.line && b.isr == 0, polling := false,
       queues := seq(|b.queues|, i requires 0 <= i < |b.queues| => VqReset(b.queues[i])))
  }

  function Address(hi: u32, lo: u32): u64 {
    hi * U32_SPAN + lo
  }

  /** The host addresses of the three rings, as far as the guest's addresses can be mapped. */
  function DescRing(v: Vq, toHost: (u64, nat) -> Option<u64>): Option<u64> {
    toHost(Address(v.descHi, v.descLo), v.qsize * 16)
  }

  function AvailRing(v: Vq, toHost: (u64, nat) -> Option<u64>): Option<u64> {
    toHost(Address(v.availHi, v.availLo), (2 + v.qsize + 1) * 2)
  }

  function UsedRing(v: Vq, toHost: (u64, nat) -> Option<u64>): Option<u64> {
    toHost(Address(v.usedHi, v.usedLo), 2 * 3 + 8 * v.qsize)
  }

  predicate AllMapped(v: Vq, toHost: (u64, nat) -> Option<u64>) {
    DescRing(v, toHost).Some? && AvailRing(v, toHost).Some? && UsedRing(v, toHost).Some?
  }

  /** `virtio_vq_enable`; a failure leaves `enabled`, and the rings mapped before it, as they are. */
  function Enabled(v: Vq, toHost: (u64, nat) -> Option<u64>): Vq {
    var d, a, u := DescRing(v, toHost), AvailRing(v, toHost), UsedRing(v, toHost);
    if d == None then v.(ready := false)
    else if a == None then v.(desc := d, ready := false)
    else if u == None then v.(desc := d, avail := a, ready := false)
    else v.(desc := d, avail := a, used := u, lastAvail := 0, saveUsed := 0, enabled := true, ready := true)
  }

  /** The queue's three rings are where its own address registers say: 16 bytes a descriptor, 2 bytes a slot of the
      available ring and 8 a slot of the used ring, each ring with three more 16-bit words. */
  predicate RingsAre(v: Vq, toHost: (u64, nat) -> Option<u64>) {
    && v.desc.Some? && v.desc == toHost(v.descHi * 0x1_0000_0000 + v.descLo, 16 * v.qsize)
    && v.avail.Some? && v.avail == toHost(v.availHi * 0x1_0000_0000 + v.availLo, 2 * v.qsize + 6)
    && v.used.Some? && v.used == toHost(v.usedHi * 0x1_0000_0000 + v.usedLo, 8 * v.qsize + 6)
  }

  predicate SameRegisters(v: Vq, u: Vq) {
    && v.qsize == u.qsize && v.msix == u.msix && v.pfn == u.pfn
    && v.descLo == u.descLo && v.descHi == u.descHi && v.availLo == u.availLo && v.availHi == u.availHi
    && v.usedLo == u.usedLo && v.usedHi == u.usedHi
  }

  /** What enabling does to a queue: it is in service afterwards if and only if all three rings can be mapped, which are
      then those in use, with both cursors at 0; otherwise it is out of service with its enable register as it was. */
  lemma EnabledIs(v: Vq, toHost: (u64, nat) -> Option<u64>)
    ensures var u := Enabled(v, toHost);
      && SameRegisters(u, v) && (u.ready <==> AllMapped(v, toHost))
      && (u.ready ==> RingsAre(u, toHost) && u.enabled && u.lastAvail == u.saveUsed == 0)
      && (!u.ready ==> u.enabled == v.enabled && u.lastAvail == v.lastAvail && u.saveUsed == v.saveUsed)
  {
  }

  /** What a reset leaves, field by field. */
  lemma ResetIs(b: Base, q: nat)
    requires q < |b.queues|
    ensures var r := Reset(b);
      && r.negotiated == Caps(0, 0) && r.dfselect == r.gfselect == 0 && r.msix == 0xffff && r.generation == 0
      && r.curq == 0 && r.isr == 0 && (r.line <==> b.line && b.isr == 0) && !r.polling
      && r.device == b.device && r.toHost == b.toHost && r.status == b.status && |r.queues| == |b.queues|
    ensures var v := Reset(b).queues[q];
      && v.qsize == b.queues[q].qsize && v.msix == 0xffff && !v.enabled && !v.ready && v.pfn == 0
      && v.descLo == v.descHi == v.availLo == v.availHi == v.usedLo == v.usedHi == 0 && v.lastAvail == v.saveUsed == 0
      && v.desc == b.queues[q].desc && v.avail == b.queues[q].avail && v.used == b.queues[q].used
  {
  }

  /** The value of a queue register. */
  function QueueReg(v: Vq, offset: nat): nat {
    if offset == Q_SIZE then v.qsize
    else if offset == Q_MSIX then v.msix
    else if offset == Q_ENABLE then (if v.enabled then 1 else 0)
    else if offset == Q_DESCLO then v.descLo
    else if offset == Q_DESCHI then v.descHi
    else if offset == Q_AVAILLO then v.availLo
    else if offset == Q_AVAILHI then v.availHi
    else if offset == Q_USEDLO then v.usedLo
    else v.usedHi
  }

  predicate IsQueueReg(offset: nat) {
    Width(offset) > 0 && Q_SIZE <= offset && offset != Q_NOFF
  }

  /** `virtio_common_cfg_read` */
  function Read(b: Base, offset: nat, size: nat): u32 {
    if Width(offset) == 0 || Width(offset) != size then
      (if size == 1 then 0xff else if size == 2 then 0xffff else 0xffffffff)
    else if offset == DFSELECT then b.dfselect
    else if offset == DF then (if b.dfselect == 0 then b.device.lo else if b.dfselect == 1 then b.device.hi else 0)
    else if offset == GFSELECT then b.gfselect
    else if offset == GF then
      (if b.gfselect == 0 then b.negotiated.lo else if b.gfselect == 1 then b.negotiated.hi else 0)
    else if offset == MSIX then b.msix
    else if offset == NUMQ then |b.queues| % U32_SPAN
    else if offset == STATUS then b.status % U32_SPAN
    else if offset == CFGGENERATION then b.generation % U32_SPAN
    else if offset == Q_SELECT || offset == Q_NOFF then b.curq
    else if b.curq < |b.queues| then QueueReg(b.queues[b.curq], offset)
    else if offset == Q_MSIX then NO_VECTOR
    else 0
  }

  /** A write of `size` bytes. */
  type Write = w: RawWrite | w.value < Limit(w.size) witness RawWrite(0, 0, 0)
  datatype RawWrite = RawWrite(offset: nat, size: nat, value: nat)

  function Limit(size: nat): nat {
    if size == 1 then 0x100 else if size == 2 then U16_SPAN else U32_SPAN
  }

  /** A write that reaches a register: it names one, at its width, and the register can be written. */
  predicate Effective(w: Write) {
    Width(w.offset) > 0 && Width(w.offset) == w.size && !ReadOnly(w.offset)
  }

  /** VIRTIO_CONFIG_S_DRIVER_OK */
  predicate DriverOk(status: nat) {
    status / 4 % 2 == 1
  }

  /** A queue register after a write to it. */
  function QueueWritten(v: Vq, w: Write, toHost: (u64, nat) -> Option<u64>): Vq
    requires Effective(w) && IsQueueReg(w.offset)
  {
    if w.offset == Q_SIZE then v.(qsize := w.value)
    else if w.offset == Q_MSIX then v.(msix := w.value)
    else if w.offset == Q_ENABLE then Enabled(v, toHost)
    else if w.offset == Q_DESCLO then v.(descLo := w.value)
    else if w.offset == Q_DESCHI then v.(descHi := w.value)
    else if w.offset == Q_AVAILLO then v.(availLo := w.value)
    else if w.offset == Q_AVAILHI then v.(availHi := w.value)
    else if w.offset == Q_USEDLO then v.(usedLo := w.value)
    else v.(usedHi := w.value)
  }

  function Negotiated(b: Base, value: u32): Caps {
    if DriverOk(b.status) || b.gfselect >= 2 then b.negotiated
    else if b.gfselect == 0 then b.negotiated.(lo := And(b.device.lo, value))
    else b.negotiated.(hi := And(b.device.hi, value))
  }

  /** `virtio_common_cfg_write` */
  function Written(b: Base, w: Write): Base {
    if !Effective(w) then b
    else if w.offset == DFSELECT then b.(dfselect := w.value)
    else if w.offset == GFSELECT then b.(gfselect := w.value)
    else if w.offset == GF then b.(negotiated := Negotiated(b, w.value))
    else if w.offset == MSIX then b.(msix := w.value)
    else if w.offset == STATUS then
      if w.value == 0 then Reset(b.(status := 0)) else b.(status := w.value)
    else if w.offset == Q_SELECT then b.(curq := w.value)
    else if b.curq >= |b.queues| then b
    else b.(queues := b.queues[b.curq := QueueWritten(b.queues[b.curq], w, b.toHost)])
  }

  class VirtioBase {
    const device: Caps
    const toHost: (u64, nat) -> Option<u64>
    const queues: array<Vq>
    var negotiated: Caps
    var dfselect: u32
    var gfselect: u32
    var msix: u16
    var status: nat
    var generation: nat
    var isr: nat
    var line: bool
    var polling: bool
    var curq: u16

    ghost function View(): Base
      reads this, queues
    {
      Base(device, toHost, negotiated, dfselect, gfselect, msix, status, generation, isr, line, polling, curq,
           queues[..])
    }

    /** The device after the reset that ends its set-up, its queues sized by the device model. */
    constructor (device: Caps, toHost: (u64, nat) -> Option<u64>, sizes: seq<u16>)
      ensures fresh(queues) && View() == Start(device, toHost, sizes)
    {
      this.device, this.toHost := device, toHost;
      queues := new Vq[|sizes|](i requires 0 <= i < |sizes| => FreshVq(sizes[i]));
      negotiated, dfselect, gfselect, msix, status, generation, curq := Caps(0, 0), 0, 0, NO_VECTOR, 0, 0, 0;
      isr, line, polling := 0, false, false;
    }

    /** `virtio_reset_dev` */
    method ResetDev()
      modifies this, queues
      ensures View() == Reset(old(View()))
    {
      polling := false;
      var i := 0;
      while i < queues.Length
        modifies queues
        invariant i <= queues.Length
        invariant forall k :: 0 <= k < i ==> queues[k] == VqReset(old(queues[k]))
        invariant forall k :: i <= k < queues.Length ==> queues[k] == old(queues[k])
      {
        queues[i] := queues[i].(msix := NO_VECTOR, descLo := 0, descHi := 0, availLo := 0, availHi := 0,
                                usedLo := 0, usedHi := 0, enabled := false, ready := false,
                                lastAvail := 0, saveUsed := 0, pfn := 0);
        i := i + 1;
      }
      negotiated, curq := Caps(0, 0), 0;
      if isr != 0 {
        line := false;
      }
      isr := 0;
      msix, dfselect, gfselect, generation := NO_VECTOR, 0, 0, 0;
      assert queues[..] == Reset(old(View())).queues;
    }

    /** `virtio_vq_enable` */
    method VqEnable()
      requires curq < queues.Length
      modifies queues
      ensures queues[..] == old(queues[..])[curq := Enabled(old(queues[..])[curq], toHost)]
      ensures queues[curq].ready ==> RingsAre(queues[curq], toHost) && queues[curq].enabled
      ensures queues[curq].ready ==> queues[curq].lastAvail == queues[curq].saveUsed == 0
      ensures SameRegisters(queues[curq], old(queues[curq]))
    {
      var v := queues[curq];
      EnabledIs(v, toHost);
      var d := toHost(Address(v.descHi, v.descLo), v.qsize * 16);
      if d == None {
        queues[curq] := v.(ready := false);
        return;
      }
      queues[curq] := queues[curq].(desc := d);
      var a := toHost(Address(v.availHi, v.availLo), (2 + v.qsize + 1) * 2);
      if a == None {
        queues[curq] := queues[curq].(ready := false);
        return;
      }
      queues[curq] := queues[curq].(avail := a);
      var u := toHost(Address(v.usedHi, v.usedLo), 2 * 3 + 8 * v.qsize);
      if u == None {
        queues[curq] := queues[curq].(ready := false);
        return;
      }
      queues[curq] := queues[curq].(used := u);
      queues[curq] := queues[curq].(lastAvail := 0, saveUsed := 0);
      queues[curq] := queues[curq].(enabled := true);
      queues[curq] := queues[curq].(ready := true);
      assert queues[curq] == Enabled(v, toHost);
    }

    /** `virtio_common_cfg_write` */
    method CfgWrite(w: Write)
      modifies this, queues
      ensures View() == Written(old(View()), w)
    {
      ModernTable();
      var cr := FindCr(Modern, w.offset);
      if !cr.Found? || cr.reg.size != w.size || cr.reg.ro {
        return;
      }
      if w.offset == DFSELECT {
        dfselect := w.value;
      } else if w.offset == GFSELECT {
        gfselect := w.value;
      } else if w.offset == GF {
        WriteFeatures(w.value);
      } else if w.offset == MSIX {
        msix := w.value;
      } else if w.offset == STATUS {
        status := w.value;
        if status == 0 {
          ResetDev();
        }
      } else if w.offset == Q_SELECT {
        curq := w.value;
      } else if curq < queues.Length {
        WriteQueue(w);
      }
    }

    method WriteFeatures(value: u32)
      modifies this`negotiated
      ensures View() == old(View()).(negotiated := Negotiated(old(View()), value))
    {
      if DriverOk(status) {
        return;
      }
      if gfselect < 2 {
        if gfselect == 0 {
          negotiated := negotiated.(lo := And(device.lo, value));
        } else {
          negotiated := negotiated.(hi := And(value, device.hi));
          AndCommutes(value, device.hi);
        }
      }
    }

    method WriteQueue(w: Write)
      requires Effective(w) && IsQueueReg(w.offset) && curq < queues.Length
      modifies queues
      ensures queues[..] == old(queues[..])[curq := QueueWritten(old(queues[..])[curq], w, toHost)]
    {
      if w.offset == Q_SIZE {
        queues[curq] := queues[curq].(qsize := w.value);
      } else if w.offset == Q_MSIX {
        queues[curq] := queues[curq].(msix := w.value);
      } else if w.offset == Q_ENABLE {
        VqEnable();
      } else if w.offset == Q_DESCLO {
        queues[curq] := queues[curq].(descLo := w.value);
      } else if w.offset == Q_DESCHI {
        queues[curq] := queues[curq].(descHi := w.value);
      } else if w.offset == Q_AVAILLO {
        queues[curq] := queues[curq].(availLo := w.value);
      } else if w.offset == Q_AVAILHI {
        queues[curq] := queues[curq].(availHi := w.value);
      } else if w.offset == Q_USEDLO {
        queues[curq] := queues[curq].(usedLo := w.value);
      } else {
        queues[curq] := queues[curq].(usedHi := w.value);
      }
    }

    /** `virtio_common_cfg_read` */
    method CfgRead(offset: nat, size: nat) returns (value: u32)
      ensures value == Read(View(), offset, size)
    {
      ModernTable();
      var cr := FindCr(Modern, offset);
      value := if size == 1 then 0xff else if size == 2 then 0xffff else 0xffffffff;
      if !cr.Found? || cr.reg.size != size {
        return;
      }
      if offset < Q_SIZE || offset == Q_NOFF {
        value := ReadGlobal(offset);
      } else if curq < queues.Length {
        value := QueueReg(queues[curq], offset);
      } else {
        value := if offset == Q_MSIX then NO_VECTOR else 0;
      }
    }

    method ReadGlobal(offset: nat) returns (value: u32)
      requires Width(offset) > 0 && (offset < Q_SIZE || offset == Q_NOFF)
      ensures value == Read(View(), offset, Width(offset))
    {
      if offset == DFSELECT {
        value := dfselect;
      } else if offset == DF {
        value := if dfselect == 0 then device.lo else if dfselect == 1 then device.hi else 0;
      } else if offset == GFSELECT {
        value := gfselect;
      } else if offset == GF {
        value := if gfselect == 0 then negotiated.lo else if gfselect == 1 then negotiated.hi else 0;
      } else if offset == MSIX {
        value := msix;
      } else if offset == NUMQ {
        value := queues.Length % U32_SPAN;
      } else if offset == STATUS {
        value := status % U32_SPAN;
      } else if offset == CFGGENERATION {
        value := generation % U32_SPAN;
      } else {
        value := curq;
      }
    }
  }

  lemma {:induction false} AndCommutes(a: nat, b: nat)
    ensures And(a, b) == And(b, a)
  {
    if a > 0 && b > 0 {
      AndCommutes(a / 2, b / 2);
    }
  }

  function FreshVq(qsize: u16): Vq {
    Vq(qsize, NO_VECTOR, 0, 0, 0, 0, 0, 0, false, false, None, None, None, 0, 0, 0)
  }

  function Start(device: Caps, toHost: (u64, nat) -> Option<u64>, sizes: seq<u16>): Base {
    Base(device, toHost, Caps(0, 0), 0, 0, NO_VECTOR, 0, 0, 0, false, false, 0,
         seq(|sizes|, i requires 0 <= i < |sizes| => FreshVq(sizes[i])))
  }
}
