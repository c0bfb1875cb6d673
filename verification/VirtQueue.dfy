/** The device side of a split virtqueue. */
module VirtQueue {
  import opened Words
  import opened ChainWalk

  datatype UsedElem = UsedElem(id: u16, len: u32)

  /** The words the two parties share, and the device's two private cursors. */
  datatype Ring = Ring(qsize: u16, availIdx: u16, availRing: seq<u16>, usedIdx: u16,
                       usedRing: seq<UsedElem>, lastAvail: u16, saveUsed: u16)
  {
    predicate WellFormed() {
      |availRing| == qsize && |usedRing| == qsize && qsize > 0
    }

    /** How many chains the device believes are waiting. */
    function Waiting(): u16 {
      Sub16(availIdx, lastAvail)
    }

    /** The head index in the available slot the device reads next. */
    function NextHead(): u16
      requires WellFormed()
    {
      availRing[And(lastAvail, qsize - 1)]
    }

    function Taken(): Ring {
      this.(lastAvail := Inc16(lastAvail))
    }

    function PutBack(): Ring {
      this.(lastAvail := Dec16(lastAvail))
    }

    function Released(id: u16, len: u32): Ring
      requires WellFormed()
    {
      this.(usedRing := usedRing[And(usedIdx, qsize - 1) := UsedElem(id, len)], usedIdx := Inc16(usedIdx))
    }

    function Ended(): Ring {
      this.(saveUsed := usedIdx)
    }
  }

  /** What suppresses or forces an interrupt: the two negotiated features, whether the caller saw the
      available ring empty, and the driver's `used_event` and VRING_AVAIL_F_NO_INTERRUPT. */
  datatype Suppression = Suppression(notifyOnEmpty: bool, eventIdx: bool,
                                     usedAll: bool, usedEvent: u16, noInterrupt: bool)

  predicate Interrupts(s: Suppression, oldIdx: u16, newIdx: u16) {
    if s.usedAll && s.notifyOnEmpty then true
    else if s.eventIdx then Sub16(Sub16(newIdx, s.usedEvent), 1) < Sub16(newIdx, oldIdx)
    else newIdx != oldIdx && !s.noInterrupt
  }

  /** The caller's two arrays are separate and have room for `nIov` entries; `flags` may be absent. */
  ghost predicate LargeEnough(iov: array<IoVec>, nIov: int, flags: array?<bv16>) {
    nIov <= iov.Length && (flags != null ==> nIov <= flags.Length && (iov as object) != flags)
  }

  /** The first cells of the caller's arrays hold the buffers of `ds`, in order: the host address each is mapped to,
      its length and its flags. */
  ghost predicate Holds(g: Guest, ds: seq<Desc>, iov: array<IoVec>, flags: array?<bv16>, nIov: int)
    reads iov, flags
    requires LargeEnough(iov, nIov, flags)
  {
    && |ds| <= (if nIov < 0 then 0 else nIov)
    && (forall k :: 0 <= k < |ds| ==> g.toHost(ds[k].addr, ds[k].len) == Some(iov[k].base) && iov[k].len == ds[k].len)
    && (flags != null ==> forall k :: 0 <= k < |ds| ==> flags[k] == ds[k].flags)
  }

  /** The chain stands for a list of at most `cap` buffers. */
  ghost predicate Fits(t: Table, head: nat, cap: nat) {
    exists ds :: Flat(t, head, ds) && |ds| <= cap
  }

  function Capacity(nIov: int): nat {
    if nIov < 0 then 0 else if nIov < VQ_MAX_DESCRIPTORS then nIov else VQ_MAX_DESCRIPTORS
  }

  class Queue {
    var qsize: u16
    var availIdx: u16
    var availRing: seq<u16>
    var usedIdx: u16
    var usedRing: seq<UsedElem>
    var lastAvail: u16
    var saveUsed: u16
    var table: Table
    var interrupts: nat

    constructor (qsize: u16, table: Table, availRing: seq<u16>, usedRing: seq<UsedElem>)
      requires qsize > 0 && |availRing| == |usedRing| == |table.desc| == qsize
      ensures Valid()
      ensures View() == Ring(qsize, 0, availRing, 0, usedRing, 0, 0)
      ensures this.table == table && interrupts == 0
    {
      this.qsize, this.table, this.availRing, this.usedRing := qsize, table, availRing, usedRing;
      availIdx, usedIdx, lastAvail, saveUsed, interrupts := 0, 0, 0, 0, 0;
    }

    function View(): Ring
      reads this
    {
      Ring(qsize, availIdx, availRing, usedIdx, usedRing, lastAvail, saveUsed)
    }

    ghost predicate Valid()
      reads this
    {
      View().WellFormed() && |table.desc| == qsize
    }

    /** `_vq_record` */
    method Record(i: nat, d: Desc, iov: array<IoVec>, nIov: int, flags: array?<bv16>, ghost done: seq<Desc>)
      returns (ok: bool)
      requires LargeEnough(iov, nIov, flags)
      requires Holds(table.guest, done, iov, flags, nIov) && |done| == i
      modifies iov, flags
      ensures ok <==> i < nIov && Mapped(table.guest, d)
      ensures ok ==> Holds(table.guest, done + [d], iov, flags, nIov)
      ensures ok ==> table.guest.toHost(d.addr, d.len) == Some(iov[i].base) && iov[i].len == d.len
      ensures ok && flags != null ==> flags[i] == d.flags
      ensures !ok ==> iov[..] == old(iov[..]) && (flags != null ==> flags[..] == old(flags[..]))
    {
      if i >= nIov {
        return false;
      }
      var host := table.guest.toHost(d.addr, d.len);
      if host == None {
        return false;
      }
      iov[i] := IoVec(host.value, d.len);
      if flags != null {
        flags[i] := d.flags;
      }
      assert forall k :: 0 <= k < i ==> (done + [d])[k] == done[k];
      return true;
    }

    /** The inner loop of `vq_getchain`: follow the chain inside the indirect table that `d` names. On
        success `inner` is what that chain stands for; otherwise no list it stands for would fit. */
    method WalkIndirect(d: Desc, start: nat, iov: array<IoVec>, nIov: int, flags: array?<bv16>, ghost done: seq<Desc>)
      returns (ok: bool, i: nat, ghost inner: seq<Desc>)
      requires GoodIndirect(table, d)
      requires LargeEnough(iov, nIov, flags)
      requires Holds(table.guest, done, iov, flags, nIov) && |done| == start < VQ_MAX_DESCRIPTORS
      modifies iov, flags
      ensures ok ==> FlatIndirect(table.guest, IndirectTable(table, d), 0, inner)
      ensures ok ==> Holds(table.guest, done + inner, iov, flags, nIov)
      ensures ok ==> i == start + |inner| <= VQ_MAX_DESCRIPTORS
      ensures !ok ==>
        forall ds :: FlatIndirect(table.guest, IndirectTable(table, d), 0, ds) ==> start + |ds| > Capacity(nIov)
    {
      var tbl := IndirectTable(table, d);
      var next: nat := 0;
      i, inner := start, [];
      while true
        invariant next < |tbl|
        invariant i == start + |inner| <= VQ_MAX_DESCRIPTORS
        invariant Holds(table.guest, done + inner, iov, flags, nIov)
        invariant ReachedIndirect(table.guest, tbl, inner, next)
        decreases VQ_MAX_DESCRIPTORS + 1 - i
      {
        var vp := tbl[next];
        LongerIndirect(table.guest, tbl, inner, next);
        if IsIndirect(vp) {
          return false, i, inner;
        }
        var recorded := Record(i, vp, iov, nIov, flags, done + inner);
        if !recorded {
          return false, i, inner;
        }
        assert (done + inner) + [vp] == done + (inner + [vp]);
        i := i + 1;
        if i > VQ_MAX_DESCRIPTORS {
          return false, i, inner;
        }
        if !HasNext(vp) {
          EndIndirect(table.guest, tbl, inner, next);
          inner := inner + [vp];
          return true, i, inner;
        }
        StepIndirect(table.guest, tbl, inner, next);
        inner := inner + [vp];
        next := vp.next;
        if next >= |tbl| {
          return false, i, inner;
        }
      }
    }

    /** One descriptor of the queue's table, as the outer loop of `vq_getchain` treats it: `more` is what it adds to the
        list. */
    method WalkOne(i: nat, iov: array<IoVec>, nIov: int, flags: array?<bv16>, next: nat, ghost head: nat,
                   ghost done: seq<Desc>)
      returns (ok: bool, j: nat, ghost more: seq<Desc>)
      requires Valid() && next < qsize && Reached(table, head, done, next)
      requires LargeEnough(iov, nIov, flags)
      requires Holds(table.guest, done, iov, flags, nIov) && |done| == i < VQ_MAX_DESCRIPTORS
      modifies iov, flags
      ensures ok ==> Holds(table.guest, done + more, iov, flags, nIov) && i < j == i + |more| <= VQ_MAX_DESCRIPTORS
      ensures ok && HasNext(table.desc[next]) ==> Reached(table, head, done + more, table.desc[next].next)
      ensures ok && !HasNext(table.desc[next]) ==> Flat(table, head, done + more)
      ensures !ok ==> !Fits(table, head, Capacity(nIov))
    {
      var vdir := table.desc[next];
      j, more := i, [];
      Dead(table, head, done, next, Capacity(nIov));
      if !IsIndirect(vdir) {
        ok := Record(i, vdir, iov, nIov, flags, done);
        j, more := i + 1, [vdir];
        if ok && HasNext(vdir) {
          StepDirect(table, head, done, next);
        } else if ok {
          EndDirect(table, head, done, next);
        }
      } else if !table.indirectOk {
        ok := false;
      } else if vdir.len % DESC_SIZE != 0 || vdir.len / DESC_SIZE == 0 {
        ok := false;
      } else if table.guest.toHost(vdir.addr, vdir.len) == None {
        ok := false;
      } else {
        ok, j, more := WalkIndirect(vdir, i, iov, nIov, flags, done);
        if ok {
          StepThroughIndirect(table, head, done, next, more);
        } else {
          LongInner(table, head, done, next, Capacity(nIov));
        }
      }
    }

    /** The outer loop of `vq_getchain`, from the head of a chain. */
    method Walk(head: nat, iov: array<IoVec>, nIov: int, flags: array?<bv16>) returns (r: int, ghost ds: seq<Desc>)
      requires Valid()
      requires LargeEnough(iov, nIov, flags)
      modifies iov, flags
      ensures r == -1 || 0 < r <= Capacity(nIov)
      ensures r > 0 ==> Flat(table, head, ds) && |ds| == r && Holds(table.guest, ds, iov, flags, nIov)
      ensures r == -1 ==> !Fits(table, head, Capacity(nIov))
    {
      var next: nat, i: nat := head, 0;
      ghost var done: seq<Desc> := [];
      assert Reached(table, head, done, next) by {
        assert forall xs: seq<Desc> :: xs[0..] == xs;
      }
      while i < VQ_MAX_DESCRIPTORS
        invariant i == |done| <= VQ_MAX_DESCRIPTORS
        invariant Holds(table.guest, done, iov, flags, nIov)
        invariant Reached(table, head, done, next)
      {
        Dead(table, head, done, next, Capacity(nIov));
        if next >= qsize {
          return -1, done;
        }
        var ok, j, more := WalkOne(i, iov, nIov, flags, next, head, done);
        if !ok {
          return -1, done;
        }
        i := j;
        done := done + more;
        if !HasNext(table.desc[next]) {
          return i, done;
        }
        next := table.desc[next].next;
      }
      LongRest(table, head, done, next);
      return -1, done;
    }

    /** `vq_getchain` */
    method GetChain(iov: array<IoVec>, nIov: int, flags: array?<bv16>)
      returns (r: int, pidx: Option<u16>, ghost ds: seq<Desc>)
      requires Valid()
      requires LargeEnough(iov, nIov, flags)
      modifies this`lastAvail, iov, flags
      ensures Valid() && table == old(table)
      ensures old(View().Waiting()) == 0 ==> r == 0
      ensures old(View().Waiting()) > qsize ==> r == -1
      ensures !(1 <= old(View().Waiting()) <= qsize) ==> pidx == None && View() == old(View())
      ensures 1 <= old(View().Waiting()) <= qsize ==>
                View() == old(View().Taken()) && pidx == Some(old(View().NextHead()))
      ensures r > 0 <==> 1 <= old(View().Waiting()) <= qsize && Fits(table, old(View().NextHead()), Capacity(nIov))
      ensures Capacity(nIov) == if nIov < 0 then 0 else if nIov < 512 then nIov else 512
      ensures r > 0 ==> Flat(table, old(View().NextHead()), ds) && |ds| == r && Holds(table.guest, ds, iov, flags, nIov)
      ensures r > 0 ==> forall k :: 0 <= k < r ==>
        table.guest.toHost(ds[k].addr, ds[k].len) == Some(iov[k].base) && iov[k].len == ds[k].len
      ensures r > 0 && flags != null ==> forall k :: 0 <= k < r ==> flags[k] == ds[k].flags
      ensures r <= 0 ==> r == if old(View().Waiting()) == 0 then 0 else -1
    {
      var idx := lastAvail;
      var ndesc := Sub16(availIdx, idx);
      if ndesc == 0 {
        return 0, None, [];
      }
      if ndesc > qsize {
        return -1, None, [];
      }
      var head := availRing[And(idx, qsize - 1)];
      lastAvail := Inc16(lastAvail);
      r, ds := Walk(head, iov, nIov, flags);
      pidx := Some(head);
    }

    /** `vq_retchain` */
    method RetChain()
      requires Valid()
      modifies this`lastAvail
      ensures Valid() && View() == old(View().PutBack())
    {
      lastAvail := Dec16(lastAvail);
    }

    /** `vq_relchain` */
    method RelChain(idx: u16, ioLen: u32)
      requires Valid()
      modifies this`usedRing, this`usedIdx
      ensures Valid() && View() == old(View().Released(idx, ioLen))
    {
      var mask := qsize - 1;
      var uidx := usedIdx;
      usedRing := usedRing[And(uidx, mask) := UsedElem(idx, ioLen)];
      usedIdx := Inc16(uidx);
    }

    /** `vq_endchains`, which does nothing for a queue that never had a used ring; raising the interrupt is
        counted, not modelled further. */
    method EndChains(hasUsedRing: bool, s: Suppression)
      requires Valid()
      modifies this`saveUsed, this`interrupts
      ensures Valid() && View() == if hasUsedRing then old(View().Ended()) else old(View())
      ensures interrupts == old(interrupts) + if hasUsedRing && Interrupts(s, old(saveUsed), usedIdx) then 1 else 0
    {
      if !hasUsedRing {
        return;
      }
      var oldIdx := saveUsed;
      var newIdx := usedIdx;
      saveUsed := newIdx;
      var intr: bool;
      if s.usedAll && s.notifyOnEmpty {
        intr := true;
      } else if s.eventIdx {
        intr := Sub16(Sub16(newIdx, s.usedEvent), 1) < Sub16(newIdx, oldIdx);
      } else {
        intr := newIdx != oldIdx && !s.noInterrupt;
      }
      if intr {
        interrupts := interrupts + 1;
      }
    }
  }

  lemma LongInner(t: Table, head: nat, done: seq<Desc>, next: nat, cap: nat)
    requires Reached(t, head, done, next) && next < |t.desc|
    requires IsIndirect(t.desc[next]) && GoodIndirect(t, t.desc[next])
    requires forall ds :: FlatIndirect(t.guest, IndirectTable(t, t.desc[next]), 0, ds) ==> |done| + |ds| > cap
    ensures forall xs :: Flat(t, head, xs) ==> |xs| > cap
  {
  }

  /** Where the walk can go no further, or has no room left, no list fits. */
  lemma Dead(t: Table, head: nat, done: seq<Desc>, next: nat, cap: nat)
    requires Reached(t, head, done, next)
    ensures next >= |t.desc| ==> !Fits(t, head, cap)
    ensures next < |t.desc| && !IsIndirect(t.desc[next]) && !Mapped(t.guest, t.desc[next]) ==> !Fits(t, head, cap)
    ensures next < |t.desc| && IsIndirect(t.desc[next]) && !GoodIndirect(t, t.desc[next]) ==> !Fits(t, head, cap)
    ensures |done| >= cap ==> !Fits(t, head, cap)
  {
  }

  lemma LongRest(t: Table, head: nat, done: seq<Desc>, next: nat)
    requires Reached(t, head, done, next)
    ensures forall xs :: Flat(t, head, xs) ==> |xs| > |done|
  {
  }
}
