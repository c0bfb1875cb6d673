/** The header that front end and back end share: write transactions on the common configuration, and the
    mirror of the selected queue's registers. */
module SharedHeader {
  import opened Words
  import opened CommonCfg
  import opened CommonRuns

  type u8 = x: nat | x < 0x100

  const TRANSACTION: nat := 16
  const COMMON: nat := 32
  const CONFIG: nat := 88
  /** Any 16-bit offset names a place in the shared memory. */
  const MAPPED: nat := 0x1_0004

  type Bytes = h: seq<u8> | |h| >= MAPPED witness seq(MAPPED, _ => 0)

  /** A little-endian number. */
  function Value(s: seq<u8>): nat {
    if s == [] then 0 else s[0] + 0x100 * Value(s[1..])
  }

  /** Four words, the transaction's two half words, two words of events and flags for either side, and the common
      configuration up to and with its last register. */
  lemma HeaderLayout()
    ensures TRANSACTION == 4 * 4 && COMMON == TRANSACTION + 4 + 4 + 2 * 4 && CONFIG == COMMON + Q_USEDHI + 4
  {
  }

  /** Least significant byte first. */
  lemma ValueIs(s: seq<u8>)
    ensures |s| == 1 ==> Value(s) == s[0]
    ensures |s| == 2 ==> Value(s) == 0x100 * (s[1] as nat) + s[0]
    ensures |s| == 4 ==>
      Value(s) == 0x100_0000 * (s[3] as nat) + 0x1_0000 * (s[2] as nat) + 0x100 * (s[1] as nat) + s[0]
  {
    assert |s| > 1 ==> Value(s[1..]) == s[1] + 0x100 * Value(s[2..]);
    assert |s| == 4 ==> Value(s[2..]) == s[2] + 0x100 * (s[3] + 0x100 * Value(s[4..]));
  }

  lemma ValueFits(s: seq<u8>)
    requires |s| in {1, 2, 4}
    ensures Value(s) < Limit(|s|)
  {
    assert |s| > 1 ==> Value(s[1..]) == s[1] + 0x100 * Value(s[2..]);
    assert |s| == 4 ==> Value(s[2..]) == s[2] + 0x100 * (s[3] + 0x100 * Value(s[4..]));
  }

  lemma ValueOfBytes(s: seq<u8>, v: nat)
    requires |s| in {1, 2, 4} && v < Limit(|s|) && s[0] == v % 0x100
    requires |s| >= 2 ==> s[1] == v / 0x100 % 0x100
    requires |s| == 4 ==> s[2] == v / 0x1_0000 % 0x100 && s[3] == v / 0x100_0000
    ensures Value(s) == v
  {
    assert |s| >= 2 ==> Value(s[1..]) == s[1] + 0x100 * Value(s[2..]);
    assert |s| == 4 ==> Value(s[2..]) == s[2] + 0x100 * (s[3] + 0x100 * Value(s[4..]));
    BytesOf(v);
  }

  lemma BytesOf(v: nat)
    ensures v == v % 0x100 + 0x100 * (v / 0x100)
    ensures v / 0x100 == v / 0x100 % 0x100 + 0x100 * (v / 0x1_0000)
    ensures v / 0x1_0000 == v / 0x1_0000 % 0x100 + 0x100 * (v / 0x100_0000)
  {
  }

  function Load(h: seq<u8>, at: nat, n: nat): nat
    requires at + n <= |h|
  {
    Value(h[at..at + n])
  }

  function NewValue(h: Bytes): (v: u32)
    ensures v < Limit(Load(h, TRANSACTION + 2, 2))
  {
    var size := Load(h, TRANSACTION + 2, 2);
    var offset := Load(h, TRANSACTION, 2);
    ValueFits(h[TRANSACTION..TRANSACTION + 2]);
    if size in {1, 2, 4} then
      ValueFits(h[offset..offset + size]);
      Load(h, offset, size)
    else 0xffff_ffff
  }

  predicate Pending(h: Bytes) {
    Load(h, TRANSACTION, 2) != 0 || Load(h, TRANSACTION + 2, 2) != 0
  }

  predicate InCommon(h: Bytes) {
    Pending(h) && COMMON <= Load(h, TRANSACTION, 2) < CONFIG
  }

  function Transaction(h: Bytes): Write
    requires InCommon(h)
  {
    RawWrite(Load(h, TRANSACTION, 2) - COMMON, Load(h, TRANSACTION + 2, 2), NewValue(h))
  }

  function BaseAfter(b: Base, h: Bytes): Base {
    if InCommon(h) then Written(b, Transaction(h)) else b
  }

  /** The bytes of the common configuration that a transaction brings up to date. */
  predicate Refreshes(h: Bytes, k: nat) {
    InCommon(h) &&
    var offset := Transaction(h).offset;
    || (offset == DFSELECT && DF <= k < GFSELECT)
    || (offset == GFSELECT && GF <= k < MSIX)
    || (offset == Q_SELECT && Q_SIZE <= k < CONFIG - COMMON)
  }

  /** VIRTIO_F_VERSION_1 and VIRTIO_F_ACCESS_PLATFORM, the two lowest bits of the upper half, are always offered;
      every other bit is as it is. */
  function Forced(features: u32, select: nat): (r: u32)
    ensures select == 1 ==> r % 4 == 3 && r / 4 == features / 4
    ensures select != 1 ==> r == features
  {
    if select == 1 then features / 4 * 4 + 3 else features
  }

  /** The registers from Q_SIZE on that end by `limit` show what a read of them gives. */
  ghost predicate Mirrors(h: Bytes, b: Base, limit: nat) {
    forall r: nat :: Q_SIZE <= r && Width(r) > 0 && r + Width(r) <= limit <= CONFIG - COMMON ==>
      Load(h, COMMON + r, Width(r)) == Read(b, r, Width(r))
  }

  /** The fields brought up to date by a transaction on the common configuration. */
  ghost predicate Refreshed(h: Bytes, h': Bytes, b: Base)
    requires InCommon(h)
  {
    var offset := Transaction(h).offset;
    && (offset == DFSELECT ==> Load(h', COMMON + DF, 4) == Forced(Read(b, DF, 4), Load(h, COMMON + DFSELECT, 4)))
    && (offset == GFSELECT ==> Load(h', COMMON + GF, 4) == Read(b, GF, 4))
    && (offset == Q_SELECT ==> Mirrors(h', b, CONFIG - COMMON))
  }

  /** The header once a transaction has been processed. */
  ghost predicate HeaderAfter(h: Bytes, h': Bytes, b: Base) {
    && |h'| == |h|
    && (!Pending(h) ==> h' == h)
    && (Pending(h) ==>
      && !Pending(h')
      && (forall i :: 0 <= i < |h| && !(TRANSACTION <= i < TRANSACTION + 4) ==>
            h'[i] == h[i] || (COMMON <= i && Refreshes(h, i - COMMON)))
      && (InCommon(h) ==> Refreshed(h, h', b)))
  }

  lemma Finished(h: Bytes, h1: Bytes, h2: Bytes, b: Base)
    requires |h1| == |h| && Pending(h) && Cleared(h1, h2, b)
    requires forall i :: 0 <= i < |h| ==> h1[i] == h[i] || (COMMON <= i && Refreshes(h, i - COMMON))
    requires InCommon(h) ==> Refreshed(h, h1, b)
    ensures HeaderAfter(h, h2, b)
  {
  }

  lemma LoadSame(h: seq<u8>, h': seq<u8>, at: nat, n: nat)
    requires |h| == |h'| && at + n <= |h| && forall i :: at <= i < at + n ==> h'[i] == h[i]
    ensures Load(h', at, n) == Load(h, at, n)
  {
    assert h'[at..at + n] == h[at..at + n];
  }

  /** A queue register fits its field. */
  lemma ReadFits(b: Base, r: nat)
    requires Q_SIZE <= r && Width(r) > 0
    ensures Read(b, r, Width(r)) < Limit(Width(r))
  {
  }

  class Backend {
    const header: array<u8>
    const base: VirtioBase

    constructor (header: array<u8>, base: VirtioBase)
      ensures this.header == header && this.base == base
    {
      this.header, this.base := header, base;
    }

    /** Assigns a field of `n` bytes. */
    method Store(at: nat, n: nat, value: nat)
      requires n in {1, 2, 4} && value < Limit(n) && at + n <= header.Length
      modifies header
      ensures Load(header[..], at, n) == value
      ensures forall i :: 0 <= i < header.Length && !(at <= i < at + n) ==> header[i] == old(header[i])
    {
      header[at] := value % 0x100;
      if n >= 2 {
        header[at + 1] := value / 0x100 % 0x100;
      }
      if n == 4 {
        header[at + 2] := value / 0x1_0000 % 0x100;
        header[at + 3] := value / 0x100_0000;
      }
      ValueOfBytes(header[..][at..at + n], value);
    }

    /** Brings one queue register of the header up to date. */
    method MirrorReg(r: nat)
      requires header.Length >= MAPPED && Q_SIZE <= r && Width(r) > 0
      requires Mirrors(header[..], base.View(), r)
      modifies header
      ensures Mirrors(header[..], base.View(), r + Width(r))
      ensures forall i :: 0 <= i < header.Length && !(COMMON + r <= i < COMMON + r + Width(r)) ==>
        header[i] == old(header[i])
    {
      ghost var h, b := header[..], base.View();
      var value := base.CfgRead(r, Width(r));
      ReadFits(base.View(), r);
      Store(COMMON + r, Width(r), value);
      forall t: nat | Q_SIZE <= t && Width(t) > 0 && t + Width(t) <= r + Width(r) && t != r
        ensures Load(header[..], COMMON + t, Width(t)) == Read(b, t, Width(t))
      {
        assert t + Width(t) <= r;
        LoadSame(h, header[..], COMMON + t, Width(t));
      }
    }

    method MirrorQueue()
      requires header.Length >= MAPPED
      modifies header
      ensures Mirrors(header[..], base.View(), CONFIG - COMMON)
      ensures forall i :: 0 <= i < header.Length && !(COMMON + Q_SIZE <= i < CONFIG) ==> header[i] == old(header[i])
    {
      MirrorReg(Q_SIZE);
      MirrorReg(Q_MSIX);
      MirrorReg(Q_ENABLE);
      MirrorReg(Q_NOFF);
      MirrorRings();
    }

    method MirrorRings()
      requires header.Length >= MAPPED && Mirrors(header[..], base.View(), Q_DESCLO)
      modifies header
      ensures Mirrors(header[..], base.View(), CONFIG - COMMON)
      ensures forall i :: 0 <= i < header.Length && !(COMMON + Q_DESCLO <= i < CONFIG) ==> header[i] == old(header[i])
    {
      MirrorReg(Q_DESCLO);
      MirrorReg(Q_DESCHI);
      MirrorReg(Q_AVAILLO);
      MirrorReg(Q_AVAILHI);
      MirrorReg(Q_USEDLO);
      MirrorReg(Q_USEDHI);
    }

    method ReadField(at: nat, n: nat) returns (value: nat)
      requires at + n <= header.Length && n in {1, 2, 4}
      ensures value == Load(header[..], at, n) < Limit(n)
    {
      value := Value(header[at..at + n]);
      assert header[at..at + n] == header[..][at..at + n];
      ValueFits(header[at..at + n]);
    }

    /** `process_write_transaction` */
    method ProcessWriteTransaction()
      requires header.Length >= MAPPED
      modifies header, base, base.queues
      ensures base.View() == BaseAfter(old(base.View()), old(header[..]))
      ensures HeaderAfter(old(header[..]), header[..], base.View())
    {
      ghost var h: Bytes := header[..];
      var offset := ReadField(TRANSACTION, 2);
      var size := ReadField(TRANSACTION + 2, 2);
      if offset == 0 && size == 0 {
        return;
      }
      var value := 0xffff_ffff;
      if size in {1, 2, 4} {
        value := ReadField(offset, size);
      }
      if COMMON <= offset < CONFIG {
        base.CfgWrite(RawWrite(offset - COMMON, size, value));
        SideEffects(offset - COMMON);
      }
      ghost var h1: Bytes := header[..];
      EndTransaction();
      Finished(h, h1, header[..], base.View());
    }

    /** `write_transaction = 0` */
    method EndTransaction()
      requires header.Length >= MAPPED
      modifies header
      ensures Cleared(old(header[..]), header[..], base.View())
    {
      ghost var h: Bytes := header[..];
      Store(TRANSACTION, 2, 0);
      ghost var h1: Bytes := header[..];
      Store(TRANSACTION + 2, 2, 0);
      ClearedShows(h, h1, header[..], base.View());
    }

    /** The fields that a write to a select register brings up to date. */
    method SideEffects(offset: nat)
      requires header.Length >= MAPPED
      modifies header
      ensures forall i :: 0 <= i < header.Length ==>
        || header[i] == old(header[i])
        || (offset == DFSELECT && COMMON + DF <= i < COMMON + GFSELECT)
        || (offset == GFSELECT && COMMON + GF <= i < COMMON + MSIX)
        || (offset == Q_SELECT && COMMON + Q_SIZE <= i < CONFIG)
      ensures offset == DFSELECT ==>
        Load(header[..], COMMON + DF, 4) ==
        Forced(Read(base.View(), DF, 4), Load(old(header[..]), COMMON + DFSELECT, 4))
      ensures offset == GFSELECT ==> Load(header[..], COMMON + GF, 4) == Read(base.View(), GF, 4)
      ensures offset == Q_SELECT ==> Mirrors(header[..], base.View(), CONFIG - COMMON)
    {
      if offset == DFSELECT {
        var features := base.CfgRead(DF, 4);
        var select := ReadField(COMMON + DFSELECT, 4);
        Store(COMMON + DF, 4, Forced(features, select));
      } else if offset == GFSELECT {
        var features := base.CfgRead(GF, 4);
        Store(COMMON + GF, 4, features);
      } else if offset == Q_SELECT {
        MirrorQueue();
      }
    }
  }

  /** Ending the transaction touches nothing else that the header shows. */
  ghost predicate Cleared(h: Bytes, h2: Bytes, b: Base) {
    && |h| == |h2| && !Pending(h2) && (Mirrors(h, b, CONFIG - COMMON) ==> Mirrors(h2, b, CONFIG - COMMON))
    && Load(h2, COMMON + DF, 4) == Load(h, COMMON + DF, 4) && Load(h2, COMMON + GF, 4) == Load(h, COMMON + GF, 4)
    && forall i :: 0 <= i < |h| && !(TRANSACTION <= i < TRANSACTION + 4) ==> h2[i] == h[i]
  }

  lemma ClearedShows(h: Bytes, h1: Bytes, h2: Bytes, b: Base)
    requires |h| == |h1| == |h2| && Load(h1, TRANSACTION, 2) == 0 && Load(h2, TRANSACTION + 2, 2) == 0
    requires forall i :: 0 <= i < |h| && !(TRANSACTION <= i < TRANSACTION + 2) ==> h1[i] == h[i]
    requires forall i :: 0 <= i < |h| && !(TRANSACTION + 2 <= i < TRANSACTION + 4) ==> h2[i] == h1[i]
    ensures Cleared(h, h2, b)
  {
    LoadSame(h1, h2, TRANSACTION, 2);
    LoadSame(h, h2, COMMON + DF, 4);
    LoadSame(h, h2, COMMON + GF, 4);
    forall r: nat | Q_SIZE <= r && Width(r) > 0 && r + Width(r) <= CONFIG - COMMON
      ensures Load(h2, COMMON + r, Width(r)) == Load(h, COMMON + r, Width(r))
    {
      LoadSame(h, h2, COMMON + r, Width(r));
    }
  }

  /** The register writes that a sequence of processed headers stands for. */
  function Writes(hs: seq<Bytes>): seq<Write> {
    if hs == [] then []
    else
      var h := hs[|hs| - 1];
      Writes(hs[..|hs| - 1]) + (if InCommon(h) then [Transaction(h)] else [])
  }

  /** The device after processing headers with these contents, whatever the front end put there each time. */
  function Served(b: Base, hs: seq<Bytes>): Base {
    if hs == [] then b else BaseAfter(Served(b, hs[..|hs| - 1]), hs[|hs| - 1])
  }

  lemma {:induction false} ServedIsRun(b: Base, hs: seq<Bytes>)
    ensures Served(b, hs) == Run(b, Writes(hs))
    decreases |hs|
  {
    if hs != [] {
      var before, h := hs[..|hs| - 1], hs[|hs| - 1];
      ServedIsRun(b, before);
      if InCommon(h) {
        assert Writes(hs)[..|Writes(before)|] == Writes(before);
      } else {
        assert Writes(hs) == Writes(before);
      }
    }
  }

  /** After any history, a transaction that selects queue `q` leaves in the header, for every register of a
      queue, the last value written while `q` was selected since the last reset, and for a selection that names
      no queue the defaults. */
  lemma SelectShows(device: Caps, toHost: (u64, nat) -> Option<u64>, sizes: seq<u16>,
    hs: seq<Bytes>, h: Bytes, h': Bytes, r: nat)
    requires InCommon(h) && Transaction(h).offset == Q_SELECT && Transaction(h).size == 2 && IsQueueReg(r)
    requires HeaderAfter(h, h', Served(Start(device, toHost, sizes), hs + [h]))
    ensures Load(h', COMMON + r, Width(r)) == Shown(Writes(hs), Transaction(h).value, r, sizes, toHost)
  {
    var all, w := hs + [h], Transaction(h);
    assert all[..|hs|] == hs;
    var ws := Writes(hs);
    assert Writes(all) == ws + [w] && (ws + [w])[..|ws|] == ws;
    ServedIsRun(Start(device, toHost, sizes), all);
    ReadBack(device, toHost, sizes, ws + [w], r);
    assert Selected(ws + [w]) == w.value;
  }

  /** A selection written at the wrong width is ignored, yet the mirror is refreshed, for the queue selected
      before. */
  lemma BadSelectShowsOld(device: Caps, toHost: (u64, nat) -> Option<u64>, sizes: seq<u16>,
    hs: seq<Bytes>, h: Bytes, h': Bytes, r: nat)
    requires InCommon(h) && Transaction(h).offset == Q_SELECT && Transaction(h).size != 2 && IsQueueReg(r)
    requires HeaderAfter(h, h', Served(Start(device, toHost, sizes), hs + [h]))
    ensures Load(h', COMMON + r, Width(r)) == Shown(Writes(hs), Selected(Writes(hs)), r, sizes, toHost)
  {
    var all := hs + [h];
    assert all[..|hs|] == hs;
    assert Served(Start(device, toHost, sizes), all) == Served(Start(device, toHost, sizes), hs);
    ServedIsRun(Start(device, toHost, sizes), hs);
    ReadBack(device, toHost, sizes, Writes(hs), r);
  }
}
