/** What a descriptor chain means: the list of buffers it stands for, if it stands for any. */
module ChainWalk {
  import opened Words

  const VQ_MAX_DESCRIPTORS: nat := 512
  const DESC_SIZE: nat := 16

  datatype Desc = Desc(addr: u64, len: u32, flags: bv16, next: u16)
  datatype IoVec = IoVec(base: u64, len: u32)

  /** Guest memory as the device sees it. `toHost` is `paddr_guest2host`, which may refuse any range;
      `descAt` reads the i-th descriptor of a table that starts at a host address. */
  datatype Guest = Guest(toHost: (u64, u32) -> Option<u64>, descAt: (u64, nat) -> Desc)

  /** Everything a walk reads: guest memory, the queue's descriptor table, and whether the device
      offers VIRTIO_RING_F_INDIRECT_DESC. */
  datatype Table = Table(guest: Guest, desc: seq<Desc>, indirectOk: bool)

  /** VIRTIO 1.1 section 2.6.5 */
  const VRING_DESC_F_NEXT: bv16 := 1
  const VRING_DESC_F_INDIRECT: bv16 := 4

  predicate HasNext(d: Desc) { d.flags & VRING_DESC_F_NEXT != 0 }

  predicate IsIndirect(d: Desc) { d.flags & VRING_DESC_F_INDIRECT != 0 }

  predicate Mapped(g: Guest, d: Desc) { g.toHost(d.addr, d.len).Some? }

  /** The indirect table a descriptor refers to: `len` must be a positive multiple of 16 and mapped. */
  predicate GoodIndirect(t: Table, d: Desc) {
    t.indirectOk && d.len % DESC_SIZE == 0 && d.len / DESC_SIZE > 0 && Mapped(t.guest, d)
  }

  /** What makes an indirect descriptor acceptable, and how many entries its table has: one for every 16 bytes. */
  lemma GoodIndirectIs(t: Table, d: Desc)
    ensures GoodIndirect(t, d) <==>
            t.indirectOk && d.len >= 16 && d.len % 16 == 0 && t.guest.toHost(d.addr, d.len).Some?
    ensures GoodIndirect(t, d) ==> |IndirectTable(t, d)| * 16 == d.len
    ensures HasNext(d) == (d.flags & 0x1 != 0) && IsIndirect(d) == (d.flags & 0x4 != 0)
  {
  }

  function IndirectTable(t: Table, d: Desc): (tbl: seq<Desc>)
    requires GoodIndirect(t, d)
  {
    var host := t.guest.toHost(d.addr, d.len).value;
    seq(d.len / DESC_SIZE, i requires i >= 0 => t.guest.descAt(host, i))
  }

  /** `ds` is what the chain inside an indirect table stands for, from entry `idx` on. */
  ghost predicate FlatIndirect(g: Guest, tbl: seq<Desc>, idx: nat, ds: seq<Desc>)
    decreases |ds|
  {
    && idx < |tbl|
    && |ds| > 0
    && ds[0] == tbl[idx]
    && !IsIndirect(ds[0])
    && Mapped(g, ds[0])
    && if HasNext(ds[0]) then FlatIndirect(g, tbl, ds[0].next, ds[1..]) else |ds| == 1
  }

  /** `ds` is the finite list of buffers that the chain from descriptor `idx` stands for. No finite
      list satisfies this when the chain is cyclic, leaves a table, or meets a bad descriptor. */
  ghost predicate Flat(t: Table, idx: nat, ds: seq<Desc>)
    decreases |ds|
  {
    && idx < |t.desc|
    && var d := t.desc[idx];
    if !IsIndirect(d) then
      |ds| > 0 && ds[0] == d && Mapped(t.guest, d) &&
      if HasNext(d) then Flat(t, d.next, ds[1..]) else |ds| == 1
    else
      GoodIndirect(t, d) &&
      exists k :: 1 <= k <= |ds| && FlatIndirect(t.guest, IndirectTable(t, d), 0, ds[..k]) &&
                  if HasNext(d) then Flat(t, d.next, ds[k..]) else k == |ds|
  }

  /** Where the walk has got to: a list is the chain's meaning exactly when it starts with `done` and
      goes on with a meaning of the chain from `next`. */
  ghost predicate Reached(t: Table, head: nat, done: seq<Desc>, next: nat) {
    forall ds :: Flat(t, head, ds) <==> done <= ds && Flat(t, next, ds[|done|..])
  }

  ghost predicate ReachedIndirect(g: Guest, tbl: seq<Desc>, done: seq<Desc>, next: nat) {
    forall ds :: FlatIndirect(g, tbl, 0, ds) <==> done <= ds && FlatIndirect(g, tbl, next, ds[|done|..])
  }

  lemma StepIndirect(g: Guest, tbl: seq<Desc>, done: seq<Desc>, next: nat)
    requires ReachedIndirect(g, tbl, done, next) && next < |tbl|
    requires !IsIndirect(tbl[next]) && Mapped(g, tbl[next]) && HasNext(tbl[next])
    ensures ReachedIndirect(g, tbl, done + [tbl[next]], tbl[next].next)
  {
    var d := tbl[next];
    forall ds
      ensures FlatIndirect(g, tbl, 0, ds) <==> done + [d] <= ds && FlatIndirect(g, tbl, d.next, ds[|done| + 1..])
    {
      if done <= ds && |ds| > |done| {
        assert ds[|done|..][1..] == ds[|done| + 1..];
        assert ds[|done|..][0] == ds[|done|];
      }
    }
  }

  /** Every list the chain may stand for is longer than what has been walked. */
  lemma LongerIndirect(g: Guest, tbl: seq<Desc>, done: seq<Desc>, next: nat)
    requires ReachedIndirect(g, tbl, done, next)
    ensures forall ds :: FlatIndirect(g, tbl, 0, ds) ==> |ds| > |done|
  {
  }

  lemma EndIndirect(g: Guest, tbl: seq<Desc>, done: seq<Desc>, next: nat)
    requires ReachedIndirect(g, tbl, done, next) && next < |tbl|
    requires !IsIndirect(tbl[next]) && Mapped(g, tbl[next]) && !HasNext(tbl[next])
    ensures FlatIndirect(g, tbl, 0, done + [tbl[next]])
  {
    assert (done + [tbl[next]])[|done|..] == [tbl[next]];
  }

  lemma StepDirect(t: Table, head: nat, done: seq<Desc>, next: nat)
    requires Reached(t, head, done, next) && next < |t.desc|
    requires !IsIndirect(t.desc[next]) && Mapped(t.guest, t.desc[next]) && HasNext(t.desc[next])
    ensures Reached(t, head, done + [t.desc[next]], t.desc[next].next)
  {
    var d := t.desc[next];
    forall ds
      ensures Flat(t, head, ds) <==> done + [d] <= ds && Flat(t, d.next, ds[|done| + 1..])
    {
      if done <= ds && |ds| > |done| {
        assert ds[|done|..][1..] == ds[|done| + 1..];
        assert ds[|done|..][0] == ds[|done|];
      }
    }
  }

  lemma EndDirect(t: Table, head: nat, done: seq<Desc>, next: nat)
    requires Reached(t, head, done, next) && next < |t.desc|
    requires !IsIndirect(t.desc[next]) && Mapped(t.guest, t.desc[next]) && !HasNext(t.desc[next])
    ensures Flat(t, head, done + [t.desc[next]])
  {
    assert (done + [t.desc[next]])[|done|..] == [t.desc[next]];
  }

  /** A table entry has at most one meaning. */
  lemma {:induction false} FlatIndirectPrefix(g: Guest, tbl: seq<Desc>, idx: nat, xs: seq<Desc>, ys: seq<Desc>)
    requires FlatIndirect(g, tbl, idx, xs) && FlatIndirect(g, tbl, idx, ys)
    ensures xs == ys
    decreases |xs|
  {
    if HasNext(xs[0]) {
      FlatIndirectPrefix(g, tbl, xs[0].next, xs[1..], ys[1..]);
    }
    assert xs == [xs[0]] + xs[1..] && ys == [ys[0]] + ys[1..];
  }

  /** With the inner list known, an indirect descriptor contributes exactly that list. */
  lemma FlatAtIndirect(t: Table, idx: nat, inner: seq<Desc>, ds: seq<Desc>)
    requires idx < |t.desc| && IsIndirect(t.desc[idx]) && GoodIndirect(t, t.desc[idx])
    requires FlatIndirect(t.guest, IndirectTable(t, t.desc[idx]), 0, inner)
    ensures Flat(t, idx, ds) <==>
            inner <= ds && if HasNext(t.desc[idx]) then Flat(t, t.desc[idx].next, ds[|inner|..]) else ds == inner
  {
    var d := t.desc[idx];
    var tbl := IndirectTable(t, d);
    if Flat(t, idx, ds) {
      var k := InnerLength(t, idx, ds);
      FlatIndirectPrefix(t.guest, tbl, 0, ds[..k], inner);
    }
    if inner <= ds {
      assert ds[..|inner|] == inner;
    }
  }

  lemma StepThroughIndirect(t: Table, head: nat, done: seq<Desc>, next: nat, inner: seq<Desc>)
    requires Reached(t, head, done, next) && next < |t.desc|
    requires IsIndirect(t.desc[next]) && GoodIndirect(t, t.desc[next])
    requires FlatIndirect(t.guest, IndirectTable(t, t.desc[next]), 0, inner)
    ensures HasNext(t.desc[next]) ==> Reached(t, head, done + inner, t.desc[next].next)
    ensures !HasNext(t.desc[next]) ==> Flat(t, head, done + inner)
  {
    var d := t.desc[next];
    if HasNext(d) {
      forall ds
        ensures Flat(t, head, ds) <==> done + inner <= ds && Flat(t, d.next, ds[|done + inner|..])
      {
        if done <= ds {
          var rest := ds[|done|..];
          FlatAtIndirect(t, next, inner, rest);
          assert ds == done + rest;
          if inner <= rest {
            assert rest[|inner|..] == ds[|done + inner|..];
          }
          assert done + inner <= ds <==> inner <= rest by {
            if done + inner <= ds {
              assert ds[..|done + inner|] == done + inner;
              assert rest[..|inner|] == ds[..|done + inner|][|done|..];
              assert (done + inner)[|done|..] == inner;
            }
          }
        }
      }
    } else {
      FlatAtIndirect(t, next, inner, inner);
      assert (done + inner)[|done|..] == inner;
    }
  }

  lemma SamePieces(xs: seq<Desc>, ys: seq<Desc>, k: nat)
    requires k <= |xs| && k <= |ys| && xs[..k] == ys[..k] && xs[k..] == ys[k..]
    ensures xs == ys
  {
    assert xs == xs[..k] + xs[k..] && ys == ys[..k] + ys[k..];
  }

  /** A chain stands for at most one list. */
  lemma {:induction false} FlatUnique(t: Table, idx: nat, xs: seq<Desc>, ys: seq<Desc>)
    requires Flat(t, idx, xs) && Flat(t, idx, ys)
    ensures xs == ys
    decreases |xs|
  {
    var d := t.desc[idx];
    if !IsIndirect(d) {
      if HasNext(d) {
        FlatUnique(t, d.next, xs[1..], ys[1..]);
      }
      SamePieces(xs, ys, 1);
    } else {
      var k := InnerLength(t, idx, xs);
      FlatAtIndirect(t, idx, xs[..k], ys);
      if HasNext(d) {
        FlatUnique(t, d.next, xs[k..], ys[k..]);
      }
      SamePieces(xs, ys, k);
    }
  }

  /** How much of a list an indirect descriptor contributes. */
  lemma InnerLength(t: Table, idx: nat, xs: seq<Desc>) returns (k: nat)
    requires Flat(t, idx, xs) && IsIndirect(t.desc[idx])
    ensures 1 <= k <= |xs| && FlatIndirect(t.guest, IndirectTable(t, t.desc[idx]), 0, xs[..k])
    ensures if HasNext(t.desc[idx]) then Flat(t, t.desc[idx].next, xs[k..]) else k == |xs|
  {
    var d, tbl := t.desc[idx], IndirectTable(t, t.desc[idx]);
    k :| 1 <= k <= |xs| && FlatIndirect(t.guest, tbl, 0, xs[..k]) &&
         if HasNext(d) then Flat(t, d.next, xs[k..]) else k == |xs|;
  }

  /** A chain that can never leave a set of descriptors, all of which continue, stands for nothing: this
      is every cyclic chain. */
  lemma {:induction false} CyclicStandsForNothing(t: Table, cycle: set<nat>, idx: nat, ds: seq<Desc>)
    requires forall i :: i in cycle ==> i < |t.desc| && HasNext(t.desc[i]) && t.desc[i].next in cycle
    requires idx in cycle
    ensures !Flat(t, idx, ds)
    decreases |ds|
  {
    var d := t.desc[idx];
    if !IsIndirect(d) {
      if |ds| > 0 {
        CyclicStandsForNothing(t, cycle, d.next, ds[1..]);
      }
    } else {
      forall k | 1 <= k <= |ds|
        ensures !Flat(t, d.next, ds[k..])
      {
        CyclicStandsForNothing(t, cycle, d.next, ds[k..]);
      }
    }
  }
}
