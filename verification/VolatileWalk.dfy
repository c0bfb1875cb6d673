/** The chain walk over memory that the driver may change at any moment: each time the code reads a field of a
    descriptor, it may see anything. */
module VolatileWalk {
  import opened Words
  import opened ChainWalk
  import opened VirtQueue

  /** A buffer as recorded: the address and length it was mapped with, and the length stored, read separately. */
  datatype Buffer = Buffer(addr: u64, mapped: u32, base: u64, stored: u32)

  /** A read of a descriptor: of the queue's table, or of an indirect table that has `entries` entries by the length
      read first and was mapped with the length read last. */
  datatype Access = Direct(i: nat) | Indirect(i: nat, entries: nat, mapped: u32)

  predicate InBounds(a: Access, qsize: u16) {
    match a
    case Direct(i) => i < qsize
    case Indirect(i, entries, _) => i < entries
  }

  /** The descriptor lies within the memory that was mapped. */
  predicate InMapped(a: Access) {
    a.Indirect? ==> (a.i + 1) * DESC_SIZE <= a.mapped
  }

  /** The buffer is what was mapped and no more. */
  predicate Exact(b: Buffer) {
    b.stored == b.mapped
  }

  /** Every index was in its table, every buffer was mapped, and its recorded length is the mapped one exactly when
      the reads agreed. */
  ghost predicate Sound(toHost: (u64, u32) -> Option<u64>, qsize: u16, bufs: seq<Buffer>, trace: seq<Access>,
                        agreed: bool, covered: bool) {
    && (forall a <- trace :: InBounds(a, qsize))
    && (forall b <- bufs :: toHost(b.addr, b.mapped) == Some(b.base))
    && (agreed <==> forall b <- bufs :: Exact(b))
    && (covered ==> forall a <- trace :: InMapped(a))
  }

  /** The walk's state: buffers recorded, and reads made, so far. The `k`-th read of a field sees what `seen(k)` holds
      then, whichever descriptor it is a read of. */
  class Walker {
    const toHost: (u64, u32) -> Option<u64>
    const seen: nat -> Desc
    const qsize: u16
    var bufs: seq<Buffer>
    var ticks: nat
    ghost var trace: seq<Access>
    ghost var agreed: bool // the two reads of the length have agreed for every buffer recorded
    ghost var covered: bool // every indirect table was mapped with at least the length it was measured by

    ghost predicate Valid()
      reads this
    {
      Sound(toHost, qsize, bufs, trace, agreed, covered)
    }

    constructor (toHost: (u64, u32) -> Option<u64>, seen: nat -> Desc, qsize: u16)
      ensures Valid() && bufs == [] && trace == [] && ticks == 0 && agreed && covered
      ensures this.toHost == toHost && this.seen == seen && this.qsize == qsize
    {
      this.toHost, this.seen, this.qsize := toHost, seen, qsize;
      bufs, trace, ticks, agreed, covered := [], [], 0, true, true;
    }

    /** What was seen at tick `t` is reason to give up: an address that cannot be mapped, an indirect flag where none
        may be, a table of no or broken length, or an index of at least `limit`. */
    predicate Bad(t: nat, limit: nat) {
      || toHost(seen(t).addr, seen(t + 1).len) == None
      || IsIndirect(seen(t))
      || seen(t).len % DESC_SIZE != 0 || seen(t).len < DESC_SIZE
      || seen(t).next >= limit
    }

    /** Reading one field of a descriptor */
    method Read() returns (d: Desc)
      requires Valid()
      modifies this`ticks
      ensures Valid() && d == seen(old(ticks)) && ticks == old(ticks) + 1
    {
      d := seen(ticks);
      ticks := ticks + 1;
    }

    /** Going to a descriptor */
    ghost method Visit(a: Access)
      requires Valid() && InBounds(a, qsize) && (covered ==> InMapped(a))
      modifies this`trace
      ensures Valid() && trace == old(trace) + [a]
    {
      trace := trace + [a];
    }

    /** `_vq_record`, which reads the length twice */
    method Record(nIov: int) returns (ok: bool)
      requires Valid()
      modifies this`bufs, this`agreed, this`ticks
      ensures Valid() && ticks >= old(ticks)
      ensures var t := old(ticks); var host := toHost(seen(t).addr, seen(t + 1).len);
        && (ok <==> |old(bufs)| < nIov && host.Some?)
        && (ok ==> bufs == old(bufs) + [Buffer(seen(t).addr, seen(t + 1).len, host.value, seen(t + 2).len)])
        && (!ok ==> bufs == old(bufs))
        && (!ok && |bufs| < nIov ==> t < ticks && host == None)
    {
      if |bufs| >= nIov {
        return false;
      }
      var first := Read();
      var second := Read();
      var host := toHost(first.addr, second.len);
      if host == None {
        return false;
      }
      var third := Read();
      ghost var was := bufs;
      bufs := bufs + [Buffer(first.addr, second.len, host.value, third.len)];
      assert forall b <- was :: b in bufs;
      assert bufs[|was|] in bufs;
      agreed := agreed && second.len == third.len;
      return true;
    }

    /** One entry of an indirect table */
    method RecordEntry(i: nat, entries: nat, mapped: u32, nIov: int) returns (ok: bool, ghost why: nat)
      requires Valid() && i < entries && (covered ==> entries * DESC_SIZE <= mapped)
      modifies this`bufs, this`trace, this`agreed, this`ticks
      ensures Valid() && ticks > old(ticks) && |bufs| == |old(bufs)| + if ok then 1 else 0
      ensures ok ==> |old(bufs)| < nIov
      ensures !ok && |bufs| < nIov ==> old(ticks) <= why < ticks && Bad(why, entries)
    {
      Visit(Indirect(i, entries, mapped));
      why := ticks;
      var flags := Read();
      if IsIndirect(flags) {
        return false, why;
      }
      why := ticks;
      ok := Record(nIov);
    }

    /** The inner loop of `vq_getchain`. When it fails with room left, what was seen at `why` is the reason. */
    method WalkIndirect(entries: nat, mapped: u32, nIov: int) returns (ok: bool, ghost why: nat)
      requires Valid() && entries > 0 && |bufs| < VQ_MAX_DESCRIPTORS
      requires |bufs| <= Limit(nIov) && (covered ==> entries * DESC_SIZE <= mapped)
      modifies this`bufs, this`trace, this`agreed, this`ticks
      ensures Valid() && |bufs| <= Limit(nIov) && ticks > old(ticks)
      ensures ok ==> |old(bufs)| < |bufs| <= VQ_MAX_DESCRIPTORS && !HasNext(seen(ticks - 1))
      ensures !ok && |bufs| < Capacity(nIov) ==> old(ticks) <= why < ticks && Bad(why, entries)
    {
      var next: nat := 0;
      why := 0;
      while true
        invariant Valid() && next < entries && |old(bufs)| <= |bufs| <= VQ_MAX_DESCRIPTORS && |bufs| <= Limit(nIov)
        invariant (covered ==> entries * DESC_SIZE <= mapped) && ticks >= old(ticks)
        decreases VQ_MAX_DESCRIPTORS + 1 - |bufs|
      {
        var recorded: bool;
        recorded, why := RecordEntry(next, entries, mapped, nIov);
        if !recorded || |bufs| > VQ_MAX_DESCRIPTORS {
          return false, why;
        }
        var more := Read();
        if !HasNext(more) {
          return true, why;
        }
        why := ticks;
        var index := Read();
        next := index.next;
        if next >= entries {
          return false, why;
        }
      }
    }

    /** The indirect table that a descriptor points to: its entries by the length read first, and the length it was
        mapped with. */
    method TableAt() returns (ok: bool, entries: nat, mapped: u32, ghost why: nat)
      requires Valid()
      modifies this`ticks
      ensures Valid() && ticks > old(ticks)
      ensures var t := old(ticks);
        && entries == seen(t).len / DESC_SIZE
        && (ok <==>
             && seen(t + 1).len % DESC_SIZE == 0 && entries > 0
             && toHost(seen(t + 2).addr, seen(t + 3).len).Some?)
        && (ok ==> mapped == seen(t + 3).len)
        && (!ok ==> t <= why < ticks && forall limit :: Bad(why, limit))
    {
      var first := Read();
      var second := Read();
      entries, mapped := first.len / DESC_SIZE, 0;
      if second.len % DESC_SIZE != 0 || entries == 0 {
        why := if entries == 0 then ticks - 2 else ticks - 1;
        return false, entries, mapped, why;
      }
      why := ticks;
      var place := Read();
      var third := Read();
      mapped := third.len;
      ok := toHost(place.addr, third.len).Some?;
    }

    /** The length of the queue's table, or of the indirect table whose length was seen at a tick */
    function LimitAt(table: Option<nat>): nat {
      if table == None then qsize else seen(table.value).len / DESC_SIZE
    }

    /** One descriptor of the queue's table, as the outer loop of `vq_getchain` treats it */
    method WalkOne(next: u16, nIov: int, indirectOk: bool) returns (ok: bool, ghost why: nat, ghost table: Option<nat>)
      requires Valid() && next < qsize && |bufs| < VQ_MAX_DESCRIPTORS && |bufs| <= Limit(nIov)
      modifies this`bufs, this`trace, this`agreed, this`covered, this`ticks
      ensures Valid() && |bufs| <= Limit(nIov) && ticks > old(ticks)
      ensures ok ==> |old(bufs)| < |bufs| <= VQ_MAX_DESCRIPTORS
      ensures !ok && |bufs| < Capacity(nIov) ==> old(ticks) <= why < ticks && Bad(why, LimitAt(table))
    {
      Visit(Direct(next));
      why, table := ticks, None;
      var flags := Read();
      if !IsIndirect(flags) {
        why := ticks;
        ok := Record(nIov);
      } else if !indirectOk {
        ok := false;
      } else {
        var entries: nat, mapped: u32;
        ghost var measured := ticks;
        ok, entries, mapped, why := TableAt();
        if ok {
          covered, table := covered && entries * DESC_SIZE <= mapped, Some(measured);
          ok, why := WalkIndirect(entries, mapped, nIov);
        }
      }
    }

    /** `vq_getchain` from the head of a chain: whatever each read sees, it ends, stays within the tables it
        knows of, and records only buffers it has mapped. It succeeds only at a descriptor it saw to be the last, and
        fails only for want of room, for its head, or for what was seen at `why`, walking the indirect table of the
        length seen at `table`, if that is a tick, and the queue's own table otherwise. */
    method Walk(head: u16, nIov: int, indirectOk: bool) returns (r: int, ghost why: nat, ghost table: Option<nat>)
      requires Valid() && bufs == [] && trace == []
      modifies this`bufs, this`trace, this`agreed, this`covered, this`ticks
      ensures Valid() && |bufs| <= Limit(nIov)
      ensures r == -1 || (0 < r == |bufs| <= Capacity(nIov) && ticks > 0 && !HasNext(seen(ticks - 1)))
      ensures r == -1 && head < qsize && |bufs| < Capacity(nIov) ==>
              old(ticks) <= why < ticks && Bad(why, LimitAt(table))
    {
      var next: u16 := head;
      why, table := 0, None;
      while |bufs| < VQ_MAX_DESCRIPTORS
        invariant Valid() && |bufs| <= VQ_MAX_DESCRIPTORS && |bufs| <= Limit(nIov) && ticks >= old(ticks)
        invariant next >= qsize && head < qsize ==> old(ticks) <= why < ticks && Bad(why, LimitAt(table))
        decreases VQ_MAX_DESCRIPTORS - |bufs|
      {
        if next >= qsize {
          return -1, why, table;
        }
        var ok: bool;
        ok, why, table := WalkOne(next, nIov, indirectOk);
        if !ok {
          return -1, why, table;
        }
        var more := Read();
        if !HasNext(more) {
          return |bufs|, why, table;
        }
        why, table := ticks, None;
        var index := Read();
        next := index.next;
      }
      return -1, why, table;
    }
  }

  /** The most buffers ever stored: one more than the limit that ends a walk, if the caller's array has room. */
  function Limit(nIov: int): nat {
    if nIov < 0 then 0 else if nIov <= VQ_MAX_DESCRIPTORS then nIov else VQ_MAX_DESCRIPTORS + 1
  }

  /** When the length an indirect table is mapped with covers the entries counted before, every read of it that is in
      bounds is in mapped memory; otherwise the read of its last entry is not. */
  lemma TableCoveredIff(entries: nat, mapped: u32, qsize: u16)
    requires entries > 0
    ensures entries * DESC_SIZE <= mapped <==>
            forall i: nat :: InBounds(Indirect(i, entries, mapped), qsize) ==> InMapped(Indirect(i, entries, mapped))
  {
    if entries * DESC_SIZE > mapped {
      assert InBounds(Indirect(entries - 1, entries, mapped), qsize);
      assert !InMapped(Indirect(entries - 1, entries, mapped));
    }
  }
}
