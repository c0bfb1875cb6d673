/** The e820 memory map handed to the guest: a table of typed address ranges. */
module E820 {
  import opened Words

  datatype Entry = Entry(base: u64, length: u64, kind: u32)

  function Add64(a: u64, b: u64): u64 { (a + b) % U64_SPAN }

  function Sub64(a: u64, b: u64): u64 { (a - b) % U64_SPAN }

  /** What the table says about an address: the type of the first entry that contains it. */
  function TypeAt(t: seq<Entry>, addr: nat): Option<u32> {
    if t == [] then None
    else if t[0].base <= addr < t[0].base + t[0].length then Some(t[0].kind)
    else TypeAt(t[1..], addr)
  }

  /** Ascending and disjoint, and no entry reaches past the address space. */
  predicate Sorted(t: seq<Entry>) {
    && (forall i :: 0 <= i < |t| ==> t[i].base + t[i].length < U64_SPAN)
    && (forall i, j :: 0 <= i < j < |t| ==> t[i].base + t[i].length <= t[j].base)
  }

  function TotalLength(t: seq<Entry>): nat {
    if t == [] then 0 else t[0].length + TotalLength(t[1..])
  }

  predicate Contains(e: Entry, start: u64, size: u64) {
    e.base <= start && Add64(start, size) <= Add64(e.base, e.length)
  }

  /** The first entry from position `k` on that contains the range, or the length of the table. */
  function FirstContaining(t: seq<Entry>, start: u64, size: u64, k: nat): (i: nat)
    requires k <= |t|
    ensures k <= i <= |t|
    ensures i < |t| ==> Contains(t[i], start, size)
    ensures forall j :: k <= j < i ==> !Contains(t[j], start, size)
    decreases |t| - k
  {
    if k == |t| || Contains(t[k], start, size) then k else FirstContaining(t, start, size, k + 1)
  }

  /** The one to three entries that replace `e`. */
  function Pieces(e: Entry, start: u64, size: u64, kind: u32): seq<Entry> {
    var stop, end := Add64(start, size), Add64(e.base, e.length);
    (if e.base == start then [] else [Entry(e.base, Sub64(start, e.base), e.kind)])
    + [Entry(start, Sub64(stop, start), kind)]
    + (if end == stop then [] else [Entry(stop, Sub64(end, stop), e.kind)])
  }

  function Added(t: seq<Entry>, start: u64, size: u64, kind: u32): seq<Entry> {
    var i := FirstContaining(t, start, size, 0);
    if i == |t| then t else t[..i] + Pieces(t[i], start, size, kind) + t[i + 1..]
  }

  /** A sequence after `n` of its entries have been copied from `src` to `dst`. */
  function Moved(s: seq<Entry>, dst: nat, src: nat, n: nat): (r: seq<Entry>)
    requires dst + n <= |s| && src + n <= |s|
    ensures |r| == |s|
  {
    seq(|s|, k requires 0 <= k < |s| => if dst <= k < dst + n then s[k - dst + src] else s[k])
  }

  /** `memmove` of `n` entries */
  method MemMove(a: array<Entry>, dst: nat, src: nat, n: nat)
    requires dst + n <= a.Length && src + n <= a.Length
    modifies a
    ensures a[..] == old(Moved(a[..], dst, src, n))
  {
    if dst <= src {
      MoveForward(a, dst, src, n);
    } else {
      MoveBackward(a, dst, src, n);
    }
  }

  method MoveForward(a: array<Entry>, dst: nat, src: nat, n: nat)
    requires dst <= src && src + n <= a.Length
    modifies a
    ensures a[..] == old(Moved(a[..], dst, src, n))
  {
    ghost var was := a[..];
    for k := 0 to n
      invariant a[..] == Moved(was, dst, src, k)
    {
      a[dst + k] := a[src + k];
    }
  }

  method MoveBackward(a: array<Entry>, dst: nat, src: nat, n: nat)
    requires src <= dst && dst + n <= a.Length
    modifies a
    ensures a[..] == old(Moved(a[..], dst, src, n))
  {
    ghost var was := a[..];
    for k := n downto 0
      invariant a[..] == Moved(was, dst + k, src + k, n - k)
    {
      a[dst + k] := a[src + k];
    }
  }

  function Piece(pt: seq<u64>, kinds: seq<u32>, k: nat): Entry
    requires |pt| == 4 && |kinds| == 3 && k < 3
  {
    Entry(pt[k], Sub64(pt[k + 1], pt[k]), kinds[k])
  }

  /** The part of `add_e820_entry` that splits the entry at position `i`. */
  method Split(e820: array<Entry>, len: nat, i: nat, start: u64, size: u64, kind: u32) returns (length: nat)
    requires i < len && len + 2 <= e820.Length
    requires Contains(e820[i], start, size)
    modifies e820
    ensures var p := Pieces(old(e820[i]), start, size, kind);
      length == len + |p| - 1 &&
      e820[..length] == old(e820[..i]) + p + old(e820[i + 1..len])
  {
    ghost var was := e820[..];
    var e := e820[i];
    var end, stop := Add64(e.base, e.length), Add64(start, size);
    var pt := [e.base, start, stop, end];
    var kinds := [e.kind, kind, e.kind];
    var from := if e.base == start then 1 else 0;
    var upto := if end == stop then 2 else 3;
    length := len + (upto - from - 1);
    MakeRoom(e820, len, i, upto - from);
    ghost var moved := e820[..];
    WritePieces(e820, i, pt, kinds, from, upto);
    ghost var p := seq(upto - from, k requires 0 <= k < upto - from => Piece(pt, kinds, k + from));
    PiecesByIndex(e, start, size, kind, pt, kinds, from, upto);
    Replaced(was, moved, e820[..], i, len, p);
  }

  /** Moves what follows entry `i` so that `pieces` entries fit in its place. */
  method MakeRoom(e820: array<Entry>, len: nat, i: nat, pieces: nat)
    requires i < len && 1 <= pieces <= 3 && len + 2 <= e820.Length
    modifies e820
    ensures e820[..][..i] == old(e820[..])[..i]
    ensures e820[..][i + pieces..len - 1 + pieces] == old(e820[..])[i + 1..len]
  {
    if i != len - 1 && pieces > 1 {
      MovedParts(e820[..], i + pieces, i + 1, len - i - 1, i);
      MemMove(e820, i + pieces, i + 1, len - i - 1);
    }
  }

  /** Writing `p` in front of the moved tail. */
  lemma Replaced(was: seq<Entry>, moved: seq<Entry>, now: seq<Entry>, i: nat, len: nat, p: seq<Entry>)
    requires |was| == |moved| == |now| && i < len <= |was| && len - 1 + |p| <= |was|
    requires moved[..i] == was[..i] && moved[i + |p|..len - 1 + |p|] == was[i + 1..len]
    requires now == moved[..i] + p + moved[i + |p|..]
    ensures now[..len - 1 + |p|] == was[..i] + p + was[i + 1..len]
  {
    assert now[..len - 1 + |p|] == moved[..i] + p + moved[i + |p|..len - 1 + |p|];
  }

  lemma PiecesByIndex(e: Entry, start: u64, size: u64, kind: u32, pt: seq<u64>, kinds: seq<u32>, from: nat, upto: nat)
    requires pt == [e.base, start, Add64(start, size), Add64(e.base, e.length)] && kinds == [e.kind, kind, e.kind]
    requires from == (if e.base == start then 1 else 0)
    requires upto == (if Add64(e.base, e.length) == Add64(start, size) then 2 else 3)
    ensures seq(upto - from, k requires 0 <= k < upto - from => Piece(pt, kinds, k + from)) ==
            Pieces(e, start, size, kind)
  {
    var p := Pieces(e, start, size, kind);
    assert |p| == upto - from;
    assert p[1 - from] == Piece(pt, kinds, 1);
    assert from == 0 ==> p[0] == Piece(pt, kinds, 0);
    assert upto == 3 ==> p[2 - from] == Piece(pt, kinds, 2);
  }

  lemma MovedParts(s: seq<Entry>, dst: nat, src: nat, n: nat, keep: nat)
    requires dst + n <= |s| && src + n <= |s| && keep <= dst
    ensures Moved(s, dst, src, n)[..keep] == s[..keep]
    ensures Moved(s, dst, src, n)[dst..dst + n] == s[src..src + n]
  {
  }

  /** The loop of `add_e820_entry` that overwrites entries from position `i` on. */
  method WritePieces(e820: array<Entry>, i: nat, pt: seq<u64>, kinds: seq<u32>, from: nat, upto: nat)
    requires |pt| == 4 && |kinds| == 3 && from <= upto <= 3 && i + (upto - from) <= e820.Length
    modifies e820
    ensures e820[..] == old(e820[..i]) + seq(upto - from, k requires 0 <= k < upto - from => Piece(pt, kinds, k + from))
                        + old(e820[i + (upto - from)..])
  {
    ghost var was := e820[..];
    for index := from to upto
      invariant forall k :: i <= k < i + (index - from) ==> e820[k] == Piece(pt, kinds, k - i + from)
      invariant forall k :: 0 <= k < e820.Length && !(i <= k < i + (index - from)) ==> e820[k] == was[k]
    {
      e820[i + (index - from)] := Piece(pt, kinds, index);
    }
  }

  /** `add_e820_entry`, on an array with two spare slots */
  method AddEntry(e820: array<Entry>, len: nat, start: u64, size: u64, kind: u32) returns (length: nat)
    requires len + 2 <= e820.Length
    modifies e820
    ensures length <= e820.Length && e820[..length] == old(Added(e820[..len], start, size, kind))
  {
    ghost var was := e820[..len];
    for i := 0 to len
      invariant e820[..] == old(e820[..])
      invariant FirstContaining(was, start, size, 0) == FirstContaining(was, start, size, i)
    {
      assert e820[i] == was[i];
      if e820[i].base <= start && Add64(start, size) <= Add64(e820[i].base, e820[i].length) {
        length := Split(e820, len, i, start, size, kind);
        assert was[..i] == old(e820[..i]) && was[i + 1..] == old(e820[i + 1..len]);
        return;
      }
    }
    return len;
  }

  lemma {:induction false} TypeAtConcat(s: seq<Entry>, t: seq<Entry>, addr: nat)
    ensures TypeAt(s + t, addr) == if TypeAt(s, addr).Some? then TypeAt(s, addr) else TypeAt(t, addr)
  {
    if s == [] {
      assert s + t == t;
    } else {
      assert (s + t)[1..] == s[1..] + t;
      TypeAtConcat(s[1..], t, addr);
    }
  }

  lemma {:induction false} TypeAtNone(t: seq<Entry>, addr: nat)
    requires forall i :: 0 <= i < |t| ==> !(t[i].base <= addr < t[i].base + t[i].length)
    ensures TypeAt(t, addr) == None
  {
    if t != [] {
      TypeAtNone(t[1..], addr);
    }
  }

  lemma {:induction false} TotalLengthConcat(s: seq<Entry>, t: seq<Entry>)
    ensures TotalLength(s + t) == TotalLength(s) + TotalLength(t)
  {
    if s == [] {
      assert s + t == t;
    } else {
      assert (s + t)[1..] == s[1..] + t;
      TotalLengthConcat(s[1..], t);
    }
  }

  lemma NoWrap(e: Entry, start: u64, size: u64)
    requires e.base + e.length < U64_SPAN && start + size < U64_SPAN && Contains(e, start, size)
    ensures Add64(start, size) == start + size && Add64(e.base, e.length) == e.base + e.length
    ensures Sub64(start, e.base) == start - e.base && Sub64(start + size, start) == size
    ensures Sub64(e.base + e.length, start + size) == e.base + e.length - (start + size)
  {
  }

  /** The pieces give the new type to the new range and the old type to the rest of the entry. */
  lemma PiecesMeaning(e: Entry, start: u64, size: u64, kind: u32, addr: nat)
    requires e.base + e.length < U64_SPAN && start + size < U64_SPAN && Contains(e, start, size)
    ensures TypeAt(Pieces(e, start, size, kind), addr) ==
            if start <= addr < start + size then Some(kind) else TypeAt([e], addr)
  {
    NoWrap(e, start, size);
    var left := if e.base == start then [] else [Entry(e.base, start - e.base, e.kind)];
    var mid := Entry(start, size, kind);
    var end, stop := e.base + e.length, start + size;
    var right := if end == stop then [] else [Entry(stop, end - stop, e.kind)];
    assert Pieces(e, start, size, kind) == left + ([mid] + right);
    TypeAtConcat(left, [mid] + right, addr);
    TypeAtConcat([mid], right, addr);
  }

  lemma PiecesLength(e: Entry, start: u64, size: u64, kind: u32)
    requires e.base + e.length < U64_SPAN && start + size < U64_SPAN && Contains(e, start, size)
    ensures TotalLength(Pieces(e, start, size, kind)) == e.length
  {
    NoWrap(e, start, size);
    var left := if e.base == start then [] else [Entry(e.base, start - e.base, e.kind)];
    var mid := Entry(start, size, kind);
    var end, stop := e.base + e.length, start + size;
    var right := if end == stop then [] else [Entry(stop, end - stop, e.kind)];
    assert Pieces(e, start, size, kind) == left + ([mid] + right);
    TotalLengthConcat(left, [mid] + right);
    TotalLengthConcat([mid], right);
  }

  lemma PiecesSorted(e: Entry, start: u64, size: u64, kind: u32)
    requires e.base + e.length < U64_SPAN && start + size < U64_SPAN && Contains(e, start, size)
    ensures Sorted(Pieces(e, start, size, kind)) && Within(Pieces(e, start, size, kind), e)
    ensures |Pieces(e, start, size, kind)| ==
            1 + (if e.base == start then 0 else 1) + (if e.base + e.length == start + size then 0 else 1)
  {
    NoWrap(e, start, size);
  }

  /** Every entry of `p` lies inside `e`. */
  predicate Within(p: seq<Entry>, e: Entry) {
    forall k :: 0 <= k < |p| ==> e.base <= p[k].base && p[k].base + p[k].length <= e.base + e.length
  }

  lemma ReplacedMeaning(front: seq<Entry>, back: seq<Entry>, p: seq<Entry>, addr: nat)
    ensures TypeAt(front + p + back, addr) ==
            if TypeAt(front, addr).Some? then TypeAt(front, addr)
            else if TypeAt(p, addr).Some? then TypeAt(p, addr) else TypeAt(back, addr)
    ensures TotalLength(front + p + back) == TotalLength(front) + TotalLength(p) + TotalLength(back)
  {
    TypeAtConcat(front + p, back, addr);
    TypeAtConcat(front, p, addr);
    TotalLengthConcat(front + p, back);
    TotalLengthConcat(front, p);
  }

  lemma ReplacedSorted(t: seq<Entry>, i: nat, p: seq<Entry>)
    requires i < |t| && Sorted(t) && Sorted(p) && Within(p, t[i]) && |p| > 0
    ensures Sorted(t[..i] + p + t[i + 1..])
  {
    var a := t[..i] + p + t[i + 1..];
    assert forall k :: 0 <= k < i ==> a[k] == t[k];
    assert forall k :: i <= k < i + |p| ==> a[k] == p[k - i];
    assert forall k :: i + |p| <= k < |a| ==> a[k] == t[k - (|p| - 1)];
  }

  /** The range lies inside one entry. */
  predicate SomeContains(t: seq<Entry>, start: u64, size: u64) {
    exists i :: 0 <= i < |t| && t[i].base <= start && start + size <= t[i].base + t[i].length
  }

  lemma ContainsIs(e: Entry, start: u64, size: u64)
    requires e.base + e.length < U64_SPAN && start + size < U64_SPAN
    ensures Contains(e, start, size) <==> e.base <= start && start + size <= e.base + e.length
  {
  }

  lemma FoundIffContained(t: seq<Entry>, start: u64, size: u64)
    requires Sorted(t) && start + size < U64_SPAN
    ensures FirstContaining(t, start, size, 0) < |t| <==> SomeContains(t, start, size)
  {
    forall i | 0 <= i < |t|
      ensures Contains(t[i], start, size) <==> t[i].base <= start && start + size <= t[i].base + t[i].length
    {
      ContainsIs(t[i], start, size);
    }
  }

  /** Adding a range that some entry contains gives the new type to exactly its addresses; every other address,
      and every address when no entry contains the range, is left as it was. */
  lemma AddedMeaning(t: seq<Entry>, start: u64, size: u64, kind: u32, addr: nat)
    requires Sorted(t) && start + size < U64_SPAN
    ensures TypeAt(Added(t, start, size, kind), addr) ==
            if SomeContains(t, start, size) && start <= addr < start + size then Some(kind) else TypeAt(t, addr)
  {
    FoundIffContained(t, start, size);
    var i := FirstContaining(t, start, size, 0);
    if i < |t| {
      assert t == t[..i] + [t[i]] + t[i + 1..];
      PiecesMeaning(t[i], start, size, kind, addr);
      ReplacedMeaning(t[..i], t[i + 1..], [t[i]], addr);
      ReplacedMeaning(t[..i], t[i + 1..], Pieces(t[i], start, size, kind), addr);
      if start <= addr < start + size {
        NoWrap(t[i], start, size);
        TypeAtNone(t[..i], addr);
      }
    }
  }

  /** The table stays ascending and disjoint, keeps its total length, and grows by one entry for each
      end the new range does not share with the entry it falls in, if it falls in one. */
  lemma AddedShape(t: seq<Entry>, start: u64, size: u64, kind: u32)
    requires Sorted(t) && start + size < U64_SPAN
    ensures Sorted(Added(t, start, size, kind))
    ensures TotalLength(Added(t, start, size, kind)) == TotalLength(t)
    ensures var i := FirstContaining(t, start, size, 0);
            |Added(t, start, size, kind)| ==
              if i == |t| then |t|
              else |t| + (if t[i].base == start then 0 else 1)
                       + (if t[i].base + t[i].length == start + size then 0 else 1)
  {
    var i := FirstContaining(t, start, size, 0);
    if i < |t| {
      PiecesSorted(t[i], start, size, kind);
      PiecesLength(t[i], start, size, kind);
      SplitShape(t, i, Pieces(t[i], start, size, kind));
    }
  }

  /** Replacing an entry by pieces of it, in order and of the same total length. */
  lemma SplitShape(t: seq<Entry>, i: nat, p: seq<Entry>)
    requires i < |t| && Sorted(t) && Sorted(p) && Within(p, t[i]) && |p| > 0 && TotalLength(p) == t[i].length
    ensures var u := t[..i] + p + t[i + 1..];
      Sorted(u) && TotalLength(u) == TotalLength(t) && |u| == |t| - 1 + |p|
  {
    ReplacedSorted(t, i, p);
    ReplacedLength(t, i, p);
  }

  lemma ReplacedLength(t: seq<Entry>, i: nat, p: seq<Entry>)
    requires i < |t|
    ensures TotalLength(t[..i] + p + t[i + 1..]) == TotalLength(t) - t[i].length + TotalLength(p)
    ensures |t[..i] + p + t[i + 1..]| == |t| - 1 + |p|
  {
    assert t == t[..i] + [t[i]] + t[i + 1..];
    TotalOfThree(t[..i], [t[i]], t[i + 1..]);
    TotalOfThree(t[..i], p, t[i + 1..]);
    assert TotalLength([t[i]]) == t[i].length + TotalLength([t[i]][1..]);
  }

  lemma TotalOfThree(front: seq<Entry>, p: seq<Entry>, back: seq<Entry>)
    ensures TotalLength(front + p + back) == TotalLength(front) + TotalLength(p) + TotalLength(back)
  {
    TotalLengthConcat(front + p, back);
    TotalLengthConcat(front, p);
  }

  function NonEmpty(t: seq<Entry>): (r: seq<Entry>)
    ensures forall k :: 0 <= k < |r| ==> r[k].length != 0
  {
    if t == [] then []
    else if t[|t| - 1].length == 0 then NonEmpty(t[..|t| - 1])
    else NonEmpty(t[..|t| - 1]) + [t[|t| - 1]]
  }

  function Compacted(t: seq<Entry>): seq<Entry>
    requires |t| > 0
  {
    NonEmpty(t[..|t| - 1]) + [t[|t| - 1]]
  }

  /** `cur` is `was` with `removed` empty entries taken out of its first `k + removed`. */
  ghost predicate Compacting(was: seq<Entry>, cur: seq<Entry>, k: nat, removed: nat)
    requires |cur| == |was| && k + removed <= |was|
  {
    && cur[..|was| - removed] == NonEmpty(was[..k + removed]) + was[k + removed..]
    && |NonEmpty(was[..k + removed])| == k
  }

  lemma CompactNext(was: seq<Entry>, cur: seq<Entry>, k: nat, removed: nat)
    requires |cur| == |was| && k + removed < |was| && Compacting(was, cur, k, removed)
    ensures cur[k] == was[k + removed]
    ensures NonEmpty(was[..k + removed + 1]) ==
            NonEmpty(was[..k + removed]) + if cur[k].length == 0 then [] else [cur[k]]
    ensures was[k + removed..] == [cur[k]] + was[k + removed + 1..]
  {
    var n, m := k + removed, |was| - removed;
    assert was[..n + 1][..n] == was[..n];
    assert cur[k] == cur[..m][k] == was[n..][0];
  }

  lemma CompactKeeps(was: seq<Entry>, cur: seq<Entry>, k: nat, removed: nat)
    requires |cur| == |was| && k + removed < |was| && Compacting(was, cur, k, removed)
    requires cur[k].length != 0
    ensures Compacting(was, cur, k + 1, removed)
  {
    CompactNext(was, cur, k, removed);
    var kept, rest := NonEmpty(was[..k + removed]), was[k + removed + 1..];
    assert kept + ([cur[k]] + rest) == (kept + [cur[k]]) + rest;
  }

  lemma CompactDrops(was: seq<Entry>, cur: seq<Entry>, k: nat, removed: nat)
    requires |cur| == |was| && k + removed < |was| && Compacting(was, cur, k, removed)
    requires cur[k].length == 0
    ensures Compacting(was, Moved(cur, k, k + 1, |was| - (k + 1)), k, removed + 1)
  {
    CompactNext(was, cur, k, removed);
    var kept, rest := NonEmpty(was[..k + removed]), was[k + removed + 1..];
    MovedDown(cur, k, |was| - removed, kept, cur[k], rest);
  }

  /** Moving everything after position `k` down by one takes the entry there out of the front part. */
  lemma MovedDown(cur: seq<Entry>, k: nat, m: nat, kept: seq<Entry>, e: Entry, rest: seq<Entry>)
    requires k < m <= |cur| && |kept| == k && cur[..m] == kept + ([e] + rest)
    ensures Moved(cur, k, k + 1, |cur| - (k + 1))[..m - 1] == kept + rest
  {
    var next := Moved(cur, k, k + 1, |cur| - (k + 1));
    forall j | 0 <= j < m - 1
      ensures next[j] == (kept + rest)[j]
    {
      var from := if j < k then j else j + 1;
      assert next[j] == cur[from] == cur[..m][from];
    }
  }

  lemma CompactDone(was: seq<Entry>, cur: seq<Entry>, k: nat, removed: nat)
    requires |cur| == |was| && k + removed == |was| - 1 && Compacting(was, cur, k, removed)
    ensures cur[..|was| - removed] == Compacted(was)
  {
    assert was[k + removed..] == [was[|was| - 1]];
  }

  /** The loop of `acrn_create_e820_table` that removes empty entries: it never looks at the last one. */
  method Compact(e820: array<Entry>) returns (count: nat)
    requires e820.Length > 0
    modifies e820
    ensures count <= e820.Length && e820[..count] == old(Compacted(e820[..]))
  {
    var n := e820.Length;
    ghost var was := e820[..];
    var k, removed := 0, 0;
    while k < n - 1 - removed
      invariant 0 <= k <= n - 1 - removed <= n - 1
      invariant Compacting(was, e820[..], k, removed)
      decreases n - removed - k
    {
      ghost var cur := e820[..];
      assert cur[k] == e820[k];
      if e820[k].length == 0 {
        CompactDrops(was, cur, k, removed);
        MemMove(e820, k, k + 1, n - (k + 1));
        removed := removed + 1;
      } else {
        CompactKeeps(was, cur, k, removed);
        k := k + 1;
      }
    }
    count := n - removed;
    ghost var cur := e820[..];
    CompactDone(was, cur, k, removed);
    assert e820[..count] == cur[..count];
  }

  /** The compacted table has an empty entry exactly when the last entry was empty. */
  lemma NoEmptyEntryIff(t: seq<Entry>)
    requires |t| > 0
    ensures (forall k :: 0 <= k < |Compacted(t)| ==> Compacted(t)[k].length != 0) <==> t[|t| - 1].length != 0
  {
    var c := Compacted(t);
    assert c[|c| - 1] == t[|t| - 1];
  }

  /** Compaction changes the type of no address. */
  lemma CompactedMeaning(t: seq<Entry>, addr: nat)
    requires |t| > 0
    ensures TypeAt(Compacted(t), addr) == TypeAt(t, addr)
  {
    var last := [t[|t| - 1]];
    assert t == t[..|t| - 1] + last;
    TypeAtConcat(t[..|t| - 1], last, addr);
    TypeAtConcat(NonEmpty(t[..|t| - 1]), last, addr);
    NonEmptyMeaning(t[..|t| - 1], addr);
  }

  lemma {:induction false} NonEmptyMeaning(t: seq<Entry>, addr: nat)
    ensures TypeAt(NonEmpty(t), addr) == TypeAt(t, addr)
  {
    if t != [] {
      var front, last := t[..|t| - 1], t[|t| - 1];
      NonEmptyMeaning(front, addr);
      assert t == front + [last];
      TypeAtConcat(front, [last], addr);
      TypeAtConcat(NonEmpty(front), [last], addr);
    }
  }

  /** Compaction neither loses nor adds nor reorders anything else: every non-empty entry stays as often as it was,
      and an ascending table stays ascending. */
  lemma CompactedKeeps(t: seq<Entry>, e: Entry)
    requires |t| > 0
    ensures e.length != 0 ==> multiset(Compacted(t))[e] == multiset(t)[e]
    ensures Sorted(t) ==> Sorted(Compacted(t))
  {
    var front, last := t[..|t| - 1], [t[|t| - 1]];
    assert t == front + last;
    assert multiset(t) == multiset(front) + multiset(last);
    NonEmptyKeeps(front, e);
    if Sorted(t) {
      NonEmptySorted(front, t[|t| - 1].base);
    }
  }

  lemma {:induction false} NonEmptyKeeps(t: seq<Entry>, e: Entry)
    ensures e.length != 0 ==> multiset(NonEmpty(t))[e] == multiset(t)[e]
  {
    if t != [] {
      var front, last := t[..|t| - 1], t[|t| - 1];
      NonEmptyKeeps(front, e);
      assert t == front + [last];
    }
  }

  lemma {:induction false} NonEmptySorted(t: seq<Entry>, limit: nat)
    requires Sorted(t) && forall i :: 0 <= i < |t| ==> t[i].base + t[i].length <= limit
    ensures Sorted(NonEmpty(t))
    ensures forall i :: 0 <= i < |NonEmpty(t)| ==> NonEmpty(t)[i].base + NonEmpty(t)[i].length <= limit
  {
    if t != [] {
      var last := t[|t| - 1];
      NonEmptySorted(t[..|t| - 1], last.base);
    }
  }
}
