/** The map from guest MMIO addresses to their handlers: two search trees of address ranges and a hint
    that remembers the last range found. */
module Mmio {
  import opened Words

  const MEMNAMESZ: nat := 80

  /** A caller's `mem_range`; its handler and handler arguments are one opaque number here. */
  datatype MemRange = MemRange(name: string, immutable: bool, base: u64, size: u64, handler: nat) {
    predicate Covers(addr: nat) { base <= addr < base + size }

    predicate Overlaps(m: MemRange) { base < m.base + m.size && m.base < base + size }

    /** Non-empty, and not past the end of the address space. */
    predicate Proper() { 0 < size && base + size <= U64_SPAN }

    /** What unregistering compares: the first 80 characters of the name, the base and the size. */
    predicate SameAs(m: MemRange) {
      Prefix(name) == Prefix(m.name) && base == m.base && size == m.size
    }
  }

  function Prefix(name: string): string {
    if |name| <= MEMNAMESZ then name else name[..MEMNAMESZ]
  }

  /** A tree entry. `id` is the address it was allocated at: no two allocations share one. */
  datatype Range = Range(id: nat, base: u64, end: u64, param: MemRange)

  function MakeRange(id: nat, m: MemRange): Range {
    Range(id, m.base, (m.base + m.size - 1) % U64_SPAN, m)
  }

  /** `mmio_rb_range_compare`: ranges that overlap compare equal. */
  function Compare(aBase: u64, aEnd: u64, b: Range): int {
    if aEnd < b.base then -1 else if aBase > b.end then 1 else 0
  }

  datatype Tree = Leaf | Node(left: Tree, entry: Range, right: Tree)

  function InOrder(t: Tree): seq<Range> {
    match t
    case Leaf => []
    case Node(l, e, r) => InOrder(l) + [e] + InOrder(r)
  }

  predicate Ascending(s: seq<Range>) {
    forall i, j :: 0 <= i < j < |s| ==> s[i].end < s[j].base
  }

  predicate Faithful(e: Range) {
    e.param.Proper() && e == MakeRange(e.id, e.param)
  }

  /** In search order, disjoint, and every entry made from a proper range. */
  predicate WellFormed(t: Tree) {
    Ascending(InOrder(t)) && forall e :: e in InOrder(t) ==> Faithful(e)
  }

  function Params(t: Tree): set<MemRange> {
    set e | e in InOrder(t) :: e.param
  }

  /** `RB_INSERT` before rebalancing: the tree with `x` in it, or the entry `x` overlaps. */
  function Insert(t: Tree, x: Range): (Tree, Option<Range>) {
    match t
    case Leaf => (Node(Leaf, x, Leaf), None)
    case Node(l, e, r) =>
      var c := Compare(x.base, x.end, e);
      if c < 0 then var (l', o) := Insert(l, x); (Node(l', e, r), o)
      else if c > 0 then var (r', o) := Insert(r, x); (Node(l, e, r'), o)
      else (t, Some(e))
  }

  function Join(l: Tree, r: Tree): (t: Tree)
    ensures InOrder(t) == InOrder(l) + InOrder(r)
  {
    match l
    case Leaf => r
    case Node(a, e, b) =>
      var t := Node(a, e, Join(b, r));
      assert InOrder(t) == InOrder(a) + [e] + (InOrder(b) + InOrder(r));
      t
  }

  /** `RB_REMOVE` before rebalancing */
  function Delete(t: Tree, x: Range): Tree {
    match t
    case Leaf => Leaf
    case Node(l, e, r) =>
      var c := Compare(x.base, x.end, e);
      if c < 0 then Node(Delete(l, x), e, r)
      else if c > 0 then Node(l, e, Delete(r, x))
      else Join(l, r)
  }

  lemma AscendingParts(l: seq<Range>, e: Range, r: seq<Range>)
    requires Ascending(l + [e] + r)
    ensures Ascending(l) && Ascending(r)
    ensures forall x :: x in l ==> x.end < e.base
    ensures forall x :: x in r ==> e.end < x.base
  {
    var s := l + [e] + r;
    assert s[|l|] == e;
    forall i, j | 0 <= i < j < |l|
      ensures l[i].end < l[j].base
    {
      assert s[i] == l[i] && s[j] == l[j];
    }
    forall i, j | 0 <= i < j < |r|
      ensures r[i].end < r[j].base
    {
      assert s[|l| + 1 + i] == r[i] && s[|l| + 1 + j] == r[j];
    }
    forall x | x in l
      ensures x.end < e.base
    {
      var k :| 0 <= k < |l| && l[k] == x;
      assert s[k] == x;
    }
    forall x | x in r
      ensures e.end < x.base
    {
      var k :| 0 <= k < |r| && r[k] == x;
      assert s[|l| + 1 + k] == x;
    }
  }

  lemma AscendingWhole(l: seq<Range>, e: Range, r: seq<Range>)
    requires Ascending(l) && Ascending(r) && e.base <= e.end
    requires forall x :: x in l ==> x.end < e.base
    requires forall x :: x in r ==> e.end < x.base
    ensures Ascending(l + [e] + r)
  {
    var s := l + [e] + r;
    forall i, j | 0 <= i < j < |s|
      ensures s[i].end < s[j].base
    {
      if j < |l| {
        assert s[i] == l[i] && s[j] == l[j];
      } else if i > |l| {
        assert s[i] == r[i - |l| - 1] && s[j] == r[j - |l| - 1];
      } else {
        assert if i < |l| then s[i] in l else s[i] == e;
        assert if j > |l| then s[j] in r else s[j] == e;
      }
    }
  }

  lemma SubtreesWellFormed(t: Tree)
    requires WellFormed(t) && t.Node?
    ensures WellFormed(t.left) && WellFormed(t.right) && Faithful(t.entry)
    ensures forall e :: e in InOrder(t.left) ==> e.end < t.entry.base
    ensures forall e :: e in InOrder(t.right) ==> t.entry.end < e.base
    ensures forall e :: e in InOrder(t) <==> e in InOrder(t.left) || e == t.entry || e in InOrder(t.right)
  {
    AscendingParts(InOrder(t.left), t.entry, InOrder(t.right));
  }

  lemma EntryCovers(e: Range, addr: u64)
    requires Faithful(e)
    ensures e.param.Covers(addr) <==> e.base <= addr <= e.end
  {
  }

  /** Where the search for an address goes on. */
  lemma Descend(t: Tree, addr: u64)
    requires WellFormed(t) && t.Node?
    ensures Compare(addr, addr, t.entry) == 0 ==> t.entry.param.Covers(addr)
    ensures Compare(addr, addr, t.entry) < 0 ==>
      forall e :: e in InOrder(t) && e.param.Covers(addr) ==> e in InOrder(t.left)
    ensures Compare(addr, addr, t.entry) > 0 ==>
      forall e :: e in InOrder(t) && e.param.Covers(addr) ==> e in InOrder(t.right)
  {
    SubtreesWellFormed(t);
    EntryCovers(t.entry, addr);
    forall e | e in InOrder(t) && e.param.Covers(addr)
      ensures e.base <= addr <= e.end
    {
      EntryCovers(e, addr);
    }
  }

  lemma NodeWellFormed(l: Tree, e: Range, r: Tree)
    requires WellFormed(l) && WellFormed(r) && Faithful(e)
    requires forall x :: x in InOrder(l) ==> x.end < e.base
    requires forall x :: x in InOrder(r) ==> e.end < x.base
    ensures WellFormed(Node(l, e, r))
  {
    AscendingWhole(InOrder(l), e, InOrder(r));
  }

  ghost predicate Clear(t: Tree, x: Range) {
    forall e :: e in InOrder(t) ==> Compare(x.base, x.end, e) != 0
  }

  ghost predicate Adds(t: Tree, t': Tree, x: Range) {
    forall e :: e in InOrder(t') <==> e in InOrder(t) || e == x
  }

  ghost predicate Drops(t: Tree, t': Tree, x: Range) {
    forall e :: e in InOrder(t') <==> e in InOrder(t) && e != x
  }

  /** What `x` overlaps is in the subtree the comparison points to. */
  lemma ClearSide(t: Tree, x: Range)
    requires WellFormed(t) && t.Node? && Faithful(x)
    ensures Compare(x.base, x.end, t.entry) < 0 ==> (Clear(t, x) <==> Clear(t.left, x))
    ensures Compare(x.base, x.end, t.entry) > 0 ==> (Clear(t, x) <==> Clear(t.right, x))
    ensures Compare(x.base, x.end, t.entry) == 0 ==> !Clear(t, x)
  {
    SubtreesWellFormed(t);
    assert t.entry.base <= t.entry.end && x.base <= x.end;
    assert t.entry in InOrder(t);
  }

  lemma AddLeft(t: Tree, x: Range, l': Tree)
    requires WellFormed(t) && t.Node? && x.end < t.entry.base
    requires WellFormed(l') && Adds(t.left, l', x)
    ensures WellFormed(Node(l', t.entry, t.right)) && Adds(t, Node(l', t.entry, t.right), x)
  {
    SubtreesWellFormed(t);
    NodeWellFormed(l', t.entry, t.right);
  }

  lemma AddRight(t: Tree, x: Range, r': Tree)
    requires WellFormed(t) && t.Node? && t.entry.end < x.base
    requires WellFormed(r') && Adds(t.right, r', x)
    ensures WellFormed(Node(t.left, t.entry, r')) && Adds(t, Node(t.left, t.entry, r'), x)
  {
    SubtreesWellFormed(t);
    NodeWellFormed(t.left, t.entry, r');
  }

  /** Inserting succeeds exactly when nothing overlaps, and then adds the entry and keeps the order. */
  lemma {:induction false} InsertSpec(t: Tree, x: Range)
    requires WellFormed(t) && Faithful(x)
    ensures Insert(t, x).1.None? <==> Clear(t, x)
    ensures Insert(t, x).1.None? ==> WellFormed(Insert(t, x).0) && Adds(t, Insert(t, x).0, x)
  {
    match t
    case Leaf => NodeWellFormed(Leaf, x, Leaf);
    case Node(l, e, r) =>
      SubtreesWellFormed(t);
      ClearSide(t, x);
      var c := Compare(x.base, x.end, e);
      if c < 0 {
        InsertSpec(l, x);
        if Insert(l, x).1.None? {
          AddLeft(t, x, Insert(l, x).0);
        }
      } else if c > 0 {
        InsertSpec(r, x);
        if Insert(r, x).1.None? {
          AddRight(t, x, Insert(r, x).0);
        }
      }
  }

  lemma DropLeft(t: Tree, x: Range, l': Tree)
    requires WellFormed(t) && t.Node? && x.end < t.entry.base && x.base <= x.end
    requires WellFormed(l') && Drops(t.left, l', x)
    ensures WellFormed(Node(l', t.entry, t.right)) && Drops(t, Node(l', t.entry, t.right), x)
  {
    SubtreesWellFormed(t);
    NodeWellFormed(l', t.entry, t.right);
  }

  lemma DropRight(t: Tree, x: Range, r': Tree)
    requires WellFormed(t) && t.Node? && t.entry.end < x.base && x.base <= x.end
    requires WellFormed(r') && Drops(t.right, r', x)
    ensures WellFormed(Node(t.left, t.entry, r')) && Drops(t, Node(t.left, t.entry, r'), x)
  {
    SubtreesWellFormed(t);
    NodeWellFormed(t.left, t.entry, r');
  }

  lemma DropHere(t: Tree)
    requires WellFormed(t) && t.Node?
    ensures WellFormed(Join(t.left, t.right)) && Drops(t, Join(t.left, t.right), t.entry)
  {
    SubtreesWellFormed(t);
    AscendingJoined(InOrder(t.left), t.entry, InOrder(t.right));
    assert t.entry.base <= t.entry.end;
  }

  /** The comparison leads to the entry itself. */
  lemma LeadsTo(t: Tree, x: Range)
    requires WellFormed(t) && t.Node? && x in InOrder(t)
    ensures Faithful(x) && x.base <= x.end
    ensures var c := Compare(x.base, x.end, t.entry);
      if c < 0 then x in InOrder(t.left) && x.end < t.entry.base
      else if c > 0 then x in InOrder(t.right) && t.entry.end < x.base
      else x == t.entry
  {
    SubtreesWellFormed(t);
    InOrderEnds(x);
    InOrderEnds(t.entry);
    if x in InOrder(t.left) {
      assert x.end < t.entry.base;
    } else if x in InOrder(t.right) {
      assert t.entry.end < x.base;
    }
  }

  lemma InOrderEnds(e: Range)
    requires Faithful(e)
    ensures e.base <= e.end
  {
  }

  /** Deleting an entry of the tree takes out that entry and keeps the order. */
  lemma {:induction false} DeleteSpec(t: Tree, x: Range)
    requires WellFormed(t) && x in InOrder(t)
    ensures WellFormed(Delete(t, x)) && Drops(t, Delete(t, x), x)
  {
    match t
    case Node(l, e, r) =>
      SubtreesWellFormed(t);
      LeadsTo(t, x);
      var c := Compare(x.base, x.end, e);
      if c < 0 {
        DeleteSpec(l, x);
        DropLeft(t, x, Delete(l, x));
      } else if c > 0 {
        DeleteSpec(r, x);
        DropRight(t, x, Delete(r, x));
      } else {
        DropHere(t);
      }
  }

  lemma AscendingJoined(l: seq<Range>, e: Range, r: seq<Range>)
    requires Ascending(l + [e] + r) && e.base <= e.end
    ensures Ascending(l + r)
  {
    var s, t := l + [e] + r, l + r;
    forall i, j | 0 <= i < j < |t|
      ensures t[i].end < t[j].base
    {
      assert t[i] == s[if i < |l| then i else i + 1] && t[j] == s[if j < |l| then j else j + 1];
    }
  }

  /** The character at a position of a name, which ends there if there is none. */
  function CharAt(name: string, k: nat): Option<char> {
    if k < |name| then Some(name[k]) else None
  }

  /** What unregistering compares: base, size, and the names up to their end or their 80th character. */
  lemma SameAsIff(a: MemRange, b: MemRange)
    ensures a.SameAs(b) <==>
            a.base == b.base && a.size == b.size && forall k: nat :: k < 80 ==> CharAt(a.name, k) == CharAt(b.name, k)
  {
    if forall k: nat :: k < 80 ==> CharAt(a.name, k) == CharAt(b.name, k) {
      SameLength(a.name, b.name);
      SameLength(b.name, a.name);
      assert forall k :: 0 <= k < |Prefix(a.name)| ==>
        CharAt(a.name, k) == CharAt(b.name, k) == Some(Prefix(a.name)[k]);
      assert Prefix(a.name) == Prefix(b.name);
    } else if Prefix(a.name) == Prefix(b.name) {
      forall k: nat | k < 80
        ensures CharAt(a.name, k) == CharAt(b.name, k)
      {
        assert CharAt(a.name, k) == CharAt(Prefix(a.name), k);
        assert CharAt(b.name, k) == CharAt(Prefix(b.name), k);
      }
    }
  }

  lemma SameLength(a: string, b: string)
    requires forall k: nat :: k < 80 ==> CharAt(a, k) == CharAt(b, k)
    ensures |a| < 80 ==> |b| <= |a|
  {
    if |a| < 80 {
      assert CharAt(b, |a|) == None;
    }
  }

  /** Two non-empty ranges overlap if and only if some address is in both. */
  lemma OverlapsIff(a: MemRange, b: MemRange)
    requires a.size > 0 && b.size > 0
    ensures a.Overlaps(b) <==> exists addr: nat :: a.Covers(addr) && b.Covers(addr)
  {
    if a.Overlaps(b) {
      var addr: nat := if a.base < b.base then b.base else a.base;
      assert a.Covers(addr) && b.Covers(addr);
    }
  }

  /** At most one entry of a tree covers an address. */
  lemma CoverUnique(t: Tree, a: Range, b: Range, addr: nat)
    requires WellFormed(t) && a in InOrder(t) && b in InOrder(t)
    requires a.param.Covers(addr) && b.param.Covers(addr)
    ensures a == b
  {
    var s := InOrder(t);
    var i :| 0 <= i < |s| && s[i] == a;
    var j :| 0 <= j < |s| && s[j] == b;
    EntryCovers(a, addr);
    EntryCovers(b, addr);
  }

  datatype Which = Root | Fallback

  /** What an access comes to: the entry's handler, or -ESRCH. */
  datatype Access = Handled(m: MemRange) | NotFound

  /** The simple map the two trees stand for, with no hint: two sets of ranges. */
  datatype SimpleMap = SimpleMap(root: set<MemRange>, fallback: set<MemRange>) {
    function Get(w: Which): set<MemRange> { if w == Root then root else fallback }

    function Set(w: Which, s: set<MemRange>): SimpleMap {
      if w == Root then this.(root := s) else this.(fallback := s)
    }
  }

  ghost function Lookup(s: set<MemRange>, addr: nat): (r: Option<MemRange>)
    ensures r.Some? ==> r.value in s && r.value.Covers(addr)
    ensures r.None? ==> forall m :: m in s ==> !m.Covers(addr)
  {
    if m :| m in s && m.Covers(addr) then Some(m) else None
  }

  ghost function SimpleAccess(s: SimpleMap, addr: nat): Access {
    match Lookup(s.root, addr)
    case Some(m) => Handled(m)
    case None =>
      match Lookup(s.fallback, addr)
      case Some(m) => Handled(m)
      case None => NotFound
  }

  /** The simple map with what the hint remembers. */
  datatype Hinted = Hinted(ranges: SimpleMap, memo: Memo) {
    function With(w: Which, s: set<MemRange>): Hinted { this.(ranges := ranges.Set(w, s)) }

    /** After range `m` has been removed. */
    function Without(w: Which, m: MemRange): Hinted {
      With(w, ranges.Get(w) - {m}).(memo := if w == Root && memo == Live(m) then Nothing else memo)
    }

    function Emptied(): Hinted {
      Hinted(SimpleMap({}, {}), if memo.Live? then Stale(memo.m) else memo)
    }
  }

  /** An access asks the remembered range first, and remembers a root range it has had to look up. */
  ghost function HintedAccess(h: Hinted, addr: nat): (Hinted, Access) {
    if h.memo != Nothing && h.memo.m.Covers(addr) then (h, Handled(h.memo.m))
    else
      match Lookup(h.ranges.root, addr)
      case Some(m) => (h.(memo := Live(m)), Handled(m))
      case None => (h, SimpleAccess(h.ranges, addr))
  }

  /** Root ranges come before fallback ranges, and what answers covers the address. */
  lemma AccessIs(s: SimpleMap, addr: nat)
    ensures (exists m :: m in s.root && m.Covers(addr)) ==>
      SimpleAccess(s, addr).Handled? && SimpleAccess(s, addr).m in s.root && SimpleAccess(s, addr).m.Covers(addr)
    ensures (forall m :: m in s.root ==> !m.Covers(addr)) && (exists m :: m in s.fallback && m.Covers(addr)) ==>
      SimpleAccess(s, addr).Handled? && SimpleAccess(s, addr).m in s.fallback && SimpleAccess(s, addr).m.Covers(addr)
    ensures SimpleAccess(s, addr) == NotFound <==> forall m :: m in s.root || m in s.fallback ==> !m.Covers(addr)
  {
  }

  /** Among disjoint ranges, a removal succeeds if and only if one with that name, base and size covers the base and is
      not immutable. */
  lemma CanUnregisterIff(s: SimpleMap, w: Which, m: MemRange)
    requires forall a, b :: a in s.Get(w) && b in s.Get(w) && a != b ==> !a.Overlaps(b)
    ensures CanUnregister(s, w, m) <==> exists x :: x in s.Get(w) && x.Covers(m.base) && x.SameAs(m) && !x.immutable
  {
    if x :| x in s.Get(w) && x.Covers(m.base) && x.SameAs(m) && !x.immutable {
      var y := Lookup(s.Get(w), m.base).value;
      assert y == x || y.Overlaps(x);
    }
  }

  ghost predicate CanRegister(s: SimpleMap, w: Which, m: MemRange) {
    forall x :: x in s.Get(w) ==> !m.Overlaps(x)
  }

  ghost predicate CanUnregister(s: SimpleMap, w: Which, m: MemRange) {
    match Lookup(s.Get(w), m.base)
    case Some(x) => x.SameAs(m) && !x.immutable
    case None => false
  }

  /** What the hint remembers: nothing, a range of the root map, or a range that is not in it any more. */
  datatype Memo = Nothing | Live(m: MemRange) | Stale(m: MemRange)

  function MemoOf(root: Tree, hint: Option<Range>): Memo {
    if hint == None then Nothing
    else if hint.value in InOrder(root) then Live(hint.value.param)
    else Stale(hint.value.param)
  }

  /** Both trees are in order, no two entries were allocated at one address, and the hint is null or an entry
      that is, or once was, in the root tree. */
  ghost predicate Sound(root: Tree, fallback: Tree, hint: Option<Range>, nextId: nat) {
    && WellFormed(root) && WellFormed(fallback)
    && (forall e :: e in InOrder(root) ==> e.id < nextId)
    && (forall e :: e in InOrder(fallback) ==> e.id < nextId)
    && (forall e, f :: e in InOrder(root) && f in InOrder(fallback) ==> e.id != f.id)
    && (hint.Some? ==> Faithful(hint.value) && hint.value.id < nextId)
    && (hint.Some? ==> forall f :: f in InOrder(fallback) ==> f.id != hint.value.id)
  }

  /** Removing an entry, and the hint if it is that entry, from either tree. */
  lemma DroppedSound(root: Tree, fallback: Tree, hint: Option<Range>, nextId: nat, t: Tree, x: Range)
    requires Sound(root, fallback, hint, nextId) && WellFormed(t)
    ensures x in InOrder(root) && Drops(root, t, x) ==>
      Sound(t, fallback, if hint == Some(x) then None else hint, nextId)
    ensures x in InOrder(fallback) && Drops(fallback, t, x) ==>
      Sound(root, t, if hint == Some(x) then None else hint, nextId)
  {
  }

  /** Adding an entry at a fresh address to either tree. */
  lemma AddedSound(root: Tree, fallback: Tree, hint: Option<Range>, nextId: nat, t: Tree, x: Range)
    requires Sound(root, fallback, hint, nextId) && WellFormed(t) && x.id < nextId
    requires forall e :: e in InOrder(root) || e in InOrder(fallback) ==> e.id != x.id
    requires hint.Some? ==> hint.value.id != x.id
    ensures Adds(root, t, x) ==> Sound(t, fallback, hint, nextId) && MemoOf(t, hint) == MemoOf(root, hint)
    ensures Adds(fallback, t, x) ==> Sound(root, t, hint, nextId)
  {
  }

  /** The map after an entry has been added to either tree. */
  lemma AddedMap(w: Which, root: Tree, fallback: Tree, hint: Option<Range>, nextId: nat, t: Tree, x: Range)
    requires Sound(root, fallback, hint, nextId) && WellFormed(t) && x.id < nextId
    requires forall e :: e in InOrder(root) || e in InOrder(fallback) ==> e.id != x.id
    requires hint.Some? ==> hint.value.id != x.id
    requires Adds(if w == Root then root else fallback, t, x)
    ensures var root', fallback' := if w == Root then t else root, if w == Root then fallback else t;
      && Sound(root', fallback', hint, nextId) && MemoOf(root', hint) == MemoOf(root, hint)
      && var s := SimpleMap(Params(root), Params(fallback));
         SimpleMap(Params(root'), Params(fallback')) == s.Set(w, s.Get(w) + {x.param})
  {
    ParamsAdded(if w == Root then root else fallback, t, x);
    AddedSound(root, fallback, hint, nextId, t, x);
  }

  /** What is left of the hint when entry `x` is removed. */
  function Flushed(hint: Option<Range>, x: Range): Option<Range> {
    if hint == Some(x) then None else hint
  }

  /** The map after an entry has been taken out of either tree. */
  lemma RemovedSound(w: Which, root: Tree, fallback: Tree, hint: Option<Range>, nextId: nat, t: Tree, x: Range)
    requires Sound(root, fallback, hint, nextId)
    requires var was := if w == Root then root else fallback; x in InOrder(was) && InOrder(t) == InOrder(Delete(was, x))
    ensures var root', fallback' := if w == Root then t else root, if w == Root then fallback else t;
      && Sound(root', fallback', Flushed(hint, x), nextId)
      && var s := SimpleMap(Params(root), Params(fallback));
         SimpleMap(Params(root'), Params(fallback')) == s.Set(w, s.Get(w) - {x.param})
  {
    DeletedTree(if w == Root then root else fallback, t, x);
    DroppedSound(root, fallback, hint, nextId, t, x);
  }

  /** The hint goes exactly when it is a live one and its range is the one removed from the root tree. */
  lemma RemovedMemo(w: Which, root: Tree, fallback: Tree, hint: Option<Range>, nextId: nat, t: Tree, x: Range)
    requires Sound(root, fallback, hint, nextId)
    requires var was := if w == Root then root else fallback; x in InOrder(was) && InOrder(t) == InOrder(Delete(was, x))
    ensures MemoOf(if w == Root then t else root, Flushed(hint, x)) ==
            if w == Root && MemoOf(root, hint) == Live(x.param) then Nothing else MemoOf(root, hint)
  {
    if w == Root {
      DeleteSpec(root, x);
      if MemoOf(root, hint) == Live(x.param) {
        CoverUnique(root, hint.value, x, x.param.base);
      }
    }
  }

  class MmioMap {
    var root: Tree
    var fallback: Tree
    var hint: Option<Range>
    var nextId: nat

    function Get(w: Which): Tree
      reads this
    {
      if w == Root then root else fallback
    }

    ghost predicate Valid()
      reads this
    {
      Sound(root, fallback, hint, nextId)
    }

    ghost function View(): Hinted
      reads this
    {
      Hinted(SimpleMap(Params(root), Params(fallback)), MemoOf(root, hint))
    }

    /** The state before the first `init_mem`: the hint is null, the trees empty. */
    constructor ()
      ensures Valid() && View() == Hinted(SimpleMap({}, {}), Nothing)
    {
      root, fallback, hint, nextId := Leaf, Leaf, None, 0;
    }

    /** `init_mem` empties the trees but leaves the hint, which from then on remembers a range the map no
        longer holds. */
    method InitMem()
      requires Valid()
      modifies this`root, this`fallback
      ensures Valid() && View() == old(View().Emptied())
    {
      root, fallback := Leaf, Leaf;
    }

    /** `RB_FIND` with a one-address key: `mmio_rb_lookup` */
    method Find(w: Which, addr: u64) returns (entry: Option<Range>)
      requires WellFormed(Get(w))
      ensures entry.Some? ==> entry.value in InOrder(Get(w)) && entry.value.param.Covers(addr)
      ensures entry.None? ==> forall e :: e in InOrder(Get(w)) ==> !e.param.Covers(addr)
    {
      var tmp := Get(w);
      while tmp != Leaf
        invariant WellFormed(tmp)
        invariant forall e :: e in InOrder(tmp) ==> e in InOrder(Get(w))
        invariant forall e :: e in InOrder(Get(w)) && e.param.Covers(addr) ==> e in InOrder(tmp)
        decreases tmp
      {
        SubtreesWellFormed(tmp);
        Descend(tmp, addr);
        var c := Compare(addr, addr, tmp.entry);
        if c < 0 {
          tmp := tmp.left;
        } else if c > 0 {
          tmp := tmp.right;
        } else {
          return Some(tmp.entry);
        }
      }
      return None;
    }

    /** Whatever rebalancing does to a tree, its entries stay in the same order. */
    method Rebalance(t: Tree) returns (t': Tree)
      ensures InOrder(t') == InOrder(t)
    {
      var any: Tree := *;
      t' := if InOrder(any) == InOrder(t) then any else t;
    }

    method Put(w: Which, t: Tree)
      modifies this`root, this`fallback
      ensures Get(w) == t
      ensures w == Root ==> fallback == old(fallback)
      ensures w == Fallback ==> root == old(root)
    {
      if w == Root { root := t; } else { fallback := t; }
    }

    /** `register_mem_int`; `gotMemory` is what `malloc` answers. */
    method Register(w: Which, memp: MemRange, gotMemory: bool) returns (err: int)
      requires Valid() && memp.Proper()
      modifies this
      ensures Valid()
      ensures err == 0 <==> gotMemory && old(CanRegister(View().ranges, w, memp))
      ensures err == 0 || err == -1
      ensures View() == if err == 0 then old(View().With(w, View().ranges.Get(w) + {memp})) else old(View())
    {
      err := -1;
      if gotMemory {
        var mrp := MakeRange(nextId, memp);
        nextId := nextId + 1;
        OverlapIsCompare(Get(w), mrp);
        var found := Find(w, memp.base);
        if found.None? {
          err := Add(w, mrp);
        }
      }
    }

    /** `mmio_rb_add` */
    method Add(w: Which, mrp: Range) returns (err: int)
      requires Valid() && Faithful(mrp) && mrp.id < nextId
      requires forall e :: e in InOrder(root) || e in InOrder(fallback) ==> e.id != mrp.id
      requires hint.Some? ==> hint.value.id != mrp.id
      modifies this`root, this`fallback
      ensures Valid()
      ensures err == if old(Clear(Get(w), mrp)) then 0 else -1
      ensures View() == if err == 0 then old(View().With(w, View().ranges.Get(w) + {mrp.param})) else old(View())
    {
      InsertSpec(Get(w), mrp);
      var (t, overlap) := Insert(Get(w), mrp);
      if overlap.Some? {
        return -1;
      }
      var t' := Rebalance(t);
      AddedMap(w, root, fallback, hint, nextId, t', mrp);
      Put(w, t');
      return 0;
    }

    /** `unregister_mem_int` */
    method Unregister(w: Which, memp: MemRange) returns (err: int)
      requires Valid()
      modifies this
      ensures Valid()
      ensures err == 0 <==> old(CanUnregister(View().ranges, w, memp))
      ensures err == 0 || err == -1
      ensures old(CanUnregister(View().ranges, w, memp)) ==>
        View() == old(View().Without(w, Lookup(View().ranges.Get(w), memp.base).value))
      ensures !old(CanUnregister(View().ranges, w, memp)) ==> View() == old(View())
    {
      err := -1;
      var found := Find(w, memp.base);
      FoundIsLookup(Get(w), memp.base, found);
      if found.Some? {
        var entry := found.value;
        if entry.param.SameAs(memp) && !entry.param.immutable {
          err := 0;
          Remove(w, entry);
        }
      }
    }

    /** Takes an entry out, and forgets the hint if it is that entry. */
    method Remove(w: Which, entry: Range)
      requires Valid() && entry in InOrder(Get(w))
      modifies this
      ensures Valid()
      ensures View() == old(View().Without(w, entry.param))
    {
      var t := Rebalance(Delete(Get(w), entry));
      RemovedSound(w, root, fallback, hint, nextId, t, entry);
      RemovedMemo(w, root, fallback, hint, nextId, t, entry);
      if hint == Some(entry) {
        hint := None;
      }
      Put(w, t);
    }

    /** The choice `emulate_mem` makes, and what it does to the hint. */
    method Emulate(addr: u64) returns (r: Access)
      requires Valid()
      modifies this`hint
      ensures Valid() && (View(), r) == old(HintedAccess(View(), addr))
    {
      if hint.Some? {
        EntryCovers(hint.value, addr);
      }
      if hint.Some? && hint.value.base <= addr <= hint.value.end {
        return Handled(hint.value.param);
      }
      r := LookUpBoth(addr);
    }

    /** The two lookups, when the hint does not help. */
    method LookUpBoth(addr: u64) returns (r: Access)
      requires Valid() && (View().memo != Nothing ==> !View().memo.m.Covers(addr))
      modifies this`hint
      ensures Valid() && (View(), r) == old(HintedAccess(View(), addr))
    {
      var entry := Find(Root, addr);
      FoundIsLookup(root, addr, entry);
      if entry.Some? {
        hint := entry;
        return Handled(entry.value.param);
      }
      entry := Find(Fallback, addr);
      FoundIsLookup(fallback, addr, entry);
      if entry.Some? {
        return Handled(entry.value.param);
      }
      return NotFound;
    }
  }

  /** An entry that covers an address is what looking the address up in the plain set finds. */
  lemma FoundIsLookup(t: Tree, addr: nat, found: Option<Range>)
    requires WellFormed(t)
    requires found.Some? ==> found.value in InOrder(t) && found.value.param.Covers(addr)
    requires found.None? ==> forall e :: e in InOrder(t) ==> !e.param.Covers(addr)
    ensures Lookup(Params(t), addr) == if found.Some? then Some(found.value.param) else None
  {
    var m := Lookup(Params(t), addr);
    assert found.Some? ==> found.value.param in Params(t);
    if m.Some? {
      var e :| e in InOrder(t) && e.param == m.value;
      if found.Some? {
        CoverUnique(t, e, found.value, addr);
      }
    }
  }

  lemma EntriesOverlap(x: Range, e: Range)
    requires Faithful(x) && Faithful(e)
    ensures Compare(x.base, x.end, e) == 0 <==> x.param.Overlaps(e.param)
    ensures e.param.Covers(x.param.base) ==> x.param.Overlaps(e.param)
  {
  }

  lemma OverlapIsCompare(t: Tree, x: Range)
    requires WellFormed(t) && Faithful(x)
    ensures Clear(t, x) <==> (forall m :: m in Params(t) ==> !x.param.Overlaps(m))
    ensures forall e :: e in InOrder(t) && e.param.Covers(x.param.base) ==> x.param.Overlaps(e.param)
  {
    forall e | e in InOrder(t)
      ensures Compare(x.base, x.end, e) == 0 <==> x.param.Overlaps(e.param)
      ensures e.param.Covers(x.param.base) ==> x.param.Overlaps(e.param)
      ensures e.param in Params(t)
    {
      EntriesOverlap(x, e);
    }
  }

  lemma ParamsAdded(t: Tree, t': Tree, x: Range)
    requires Adds(t, t', x)
    ensures Params(t') == Params(t) + {x.param}
  {
  }

  lemma ParamsRemoved(t: Tree, t': Tree, x: Range)
    requires WellFormed(t) && x in InOrder(t)
    requires Drops(t, t', x)
    ensures Params(t') == Params(t) - {x.param}
  {
    forall e | e in InOrder(t) && e.param == x.param
      ensures e == x
    {
      CoverUnique(t, e, x, x.param.base);
    }
  }

  lemma DeletedTree(t: Tree, t': Tree, x: Range)
    requires WellFormed(t) && x in InOrder(t) && InOrder(t') == InOrder(Delete(t, x))
    ensures WellFormed(t') && Drops(t, t', x) && Params(t') == Params(t) - {x.param}
  {
    DeleteSpec(t, x);
    ParamsRemoved(t, t', x);
  }

  datatype Op =
    | DoRegister(w: Which, m: MemRange, gotMemory: bool)
    | DoUnregister(w: Which, m: MemRange)
    | DoAccess(addr: u64)
    | DoInit

  datatype Reply = Status(err: int) | Accessed(access: Access)

  ghost function SimpleStep(s: SimpleMap, op: Op): (SimpleMap, Reply) {
    match op
    case DoRegister(w, m, gotMemory) =>
      if gotMemory && CanRegister(s, w, m) then (s.Set(w, s.Get(w) + {m}), Status(0)) else (s, Status(-1))
    case DoUnregister(w, m) =>
      if CanUnregister(s, w, m) then (s.Set(w, s.Get(w) - {Lookup(s.Get(w), m.base).value}), Status(0))
      else (s, Status(-1))
    case DoAccess(addr) => (s, Accessed(SimpleAccess(s, addr)))
    case DoInit => (SimpleMap({}, {}), Status(0))
  }

  ghost function SimpleRun(s: SimpleMap, ops: seq<Op>): (SimpleMap, seq<Reply>) {
    if ops == [] then (s, [])
    else
      var (mid, replies) := SimpleRun(s, ops[..|ops| - 1]);
      var (end, reply) := SimpleStep(mid, ops[|ops| - 1]);
      (end, replies + [reply])
  }

  /** The same with the hint remembered. */
  ghost function HintedStep(h: Hinted, op: Op): (Hinted, Reply) {
    match op
    case DoRegister(w, m, gotMemory) =>
      if gotMemory && CanRegister(h.ranges, w, m) then (h.With(w, h.ranges.Get(w) + {m}), Status(0))
      else (h, Status(-1))
    case DoUnregister(w, m) =>
      if CanUnregister(h.ranges, w, m) then (h.Without(w, Lookup(h.ranges.Get(w), m.base).value), Status(0))
      else (h, Status(-1))
    case DoAccess(addr) =>
      var (next, access) := HintedAccess(h, addr);
      (next, Accessed(access))
    case DoInit => (h.Emptied(), Status(0))
  }

  ghost function HintedRun(h: Hinted, ops: seq<Op>): (Hinted, seq<Reply>) {
    if ops == [] then (h, [])
    else
      var (mid, replies) := HintedRun(h, ops[..|ops| - 1]);
      var (end, reply) := HintedStep(mid, ops[|ops| - 1]);
      (end, replies + [reply])
  }

  const Fresh: Hinted := Hinted(SimpleMap({}, {}), Nothing)

  /** From a fresh map, every sequence of operations gets the replies of the simple map with a remembered range:
      the shape of the trees never shows. */
  method RunAll(ops: seq<Op>) returns (replies: seq<Reply>)
    requires forall k :: 0 <= k < |ops| && ops[k].DoRegister? ==> ops[k].m.Proper()
    ensures replies == HintedRun(Fresh, ops).1
  {
    var mmio := new MmioMap();
    replies := [];
    for k := 0 to |ops|
      invariant mmio.Valid()
      invariant (mmio.View(), replies) == HintedRun(Fresh, ops[..k])
    {
      assert ops[..k + 1][..k] == ops[..k];
      match ops[k] {
        case DoRegister(w, m, gotMemory) =>
          var err := mmio.Register(w, m, gotMemory);
          replies := replies + [Status(err)];
        case DoUnregister(w, m) =>
          var err := mmio.Unregister(w, m);
          replies := replies + [Status(err)];
        case DoAccess(addr) =>
          var r := mmio.Emulate(addr);
          replies := replies + [Accessed(r)];
        case DoInit =>
          mmio.InitMem();
          replies := replies + [Status(0)];
      }
    }
    assert ops[..|ops|] == ops;
  }

  /** The root ranges are disjoint, and a live hint is one of them. */
  ghost predicate Sane(h: Hinted) {
    && (forall a, b :: a in h.ranges.root && b in h.ranges.root && a != b ==> !a.Overlaps(b))
    && (h.memo.Live? ==> h.memo.m in h.ranges.root)
  }

  /** The access falls into a remembered range that the map no longer holds, and the map would answer otherwise. */
  ghost predicate Misled(h: Hinted, op: Op) {
    && op.DoAccess? && h.memo.Stale? && h.memo.m.Covers(op.addr)
    && SimpleAccess(h.ranges, op.addr) != Handled(h.memo.m)
  }

  /** A live hint gives the answer of the map. */
  lemma LiveAgrees(h: Hinted, addr: nat)
    requires Sane(h) && h.memo.Live? && h.memo.m.Covers(addr)
    ensures SimpleAccess(h.ranges, addr) == Handled(h.memo.m)
  {
    var found := Lookup(h.ranges.root, addr);
    assert found.Some? && (found.value == h.memo.m || found.value.Overlaps(h.memo.m));
  }

  /** One operation does to the map what it does without a hint, and answers alike exactly when it is not misled. */
  lemma HintedStepIff(h: Hinted, op: Op)
    requires Sane(h)
    ensures var (next, reply) := HintedStep(h, op);
      && Sane(next) && next.ranges == SimpleStep(h.ranges, op).0
      && (reply == SimpleStep(h.ranges, op).1 <==> !Misled(h, op))
  {
    if op.DoAccess? && h.memo.Live? && h.memo.m.Covers(op.addr) {
      LiveAgrees(h, op.addr);
    }
  }

  lemma {:induction false} RunsTogether(ops: seq<Op>)
    ensures var (h, replies) := HintedRun(Fresh, ops);
      && Sane(h) && h.ranges == SimpleRun(SimpleMap({}, {}), ops).0
      && |replies| == |SimpleRun(SimpleMap({}, {}), ops).1| == |ops|
    decreases |ops|
  {
    if ops != [] {
      var n := |ops| - 1;
      RunsTogether(ops[..n]);
      HintedStepIff(HintedRun(Fresh, ops[..n]).0, ops[n]);
    }
  }

  ghost predicate Alike(ops: seq<Op>) {
    HintedRun(Fresh, ops).1 == SimpleRun(SimpleMap({}, {}), ops).1
  }

  ghost predicate MisledAt(ops: seq<Op>, k: nat)
    requires k < |ops|
  {
    Misled(HintedRun(Fresh, ops[..k]).0, ops[k])
  }

  lemma LastAlike(ops: seq<Op>)
    requires ops != []
    ensures Alike(ops) <==> Alike(ops[..|ops| - 1]) && !MisledAt(ops, |ops| - 1)
  {
    var n := |ops| - 1;
    var before := ops[..n];
    RunsTogether(before);
    HintedStepIff(HintedRun(Fresh, before).0, ops[n]);
    LastReply(HintedRun(Fresh, before).1, HintedRun(Fresh, ops).1,
              SimpleRun(SimpleMap({}, {}), before).1, SimpleRun(SimpleMap({}, {}), ops).1);
  }

  /** Over every run, all replies are those of the simple map if and only if no access is misled. */
  lemma {:induction false} RepliesAgreeIff(ops: seq<Op>)
    ensures Alike(ops) <==> forall k :: 0 <= k < |ops| ==> !MisledAt(ops, k)
    decreases |ops|
  {
    if ops != [] {
      var n := |ops| - 1;
      RepliesAgreeIff(ops[..n]);
      LastAlike(ops);
      forall k | 0 <= k < n
        ensures MisledAt(ops[..n], k) <==> MisledAt(ops, k)
      {
        assert ops[..n][..k] == ops[..k];
      }
    }
  }

  /** Two equally long lists of replies are equal exactly when their beginnings and their last replies are. */
  lemma LastReply(r: seq<Reply>, r': seq<Reply>, s: seq<Reply>, s': seq<Reply>)
    requires |r| == |s| && |r'| == |r| + 1 == |s'| && r'[..|r|] == r && s'[..|s|] == s
    ensures r' == s' <==> r == s && r'[|r|] == s'[|s|]
  {
    assert r' == r'[..|r|] + [r'[|r|]] && s' == s'[..|s|] + [s'[|s|]];
  }

  /** The hint is null whenever the map is emptied, as it is the first time. */
  ghost predicate EmptiedUnhinted(ops: seq<Op>) {
    forall k :: 0 <= k < |ops| && ops[k].DoInit? ==> HintedRun(Fresh, ops[..k]).0.memo == Nothing
  }

  lemma {:induction false} NeverStale(ops: seq<Op>)
    requires EmptiedUnhinted(ops)
    ensures !HintedRun(Fresh, ops).0.memo.Stale?
    decreases |ops|
  {
    if ops != [] {
      var n := |ops| - 1;
      assert forall k :: 0 <= k < n ==> ops[..n][..k] == ops[..k];
      NeverStale(ops[..n]);
    }
  }

  /** Then neither the shape of the trees nor the history of the hint ever shows. */
  lemma HintNeverShows(ops: seq<Op>)
    requires EmptiedUnhinted(ops)
    ensures Alike(ops)
  {
    RepliesAgreeIff(ops);
    forall k | 0 <= k < |ops|
      ensures !MisledAt(ops, k)
    {
      assert forall j :: 0 <= j < k ==> ops[..k][..j] == ops[..j];
      NeverStale(ops[..k]);
    }
  }

  /** What a reboot can do otherwise: a range is registered and accessed, the map emptied, and the address accessed
      again. */
  function Reboot(m: MemRange, addr: u64): seq<Op> {
    [DoRegister(Root, m, true), DoAccess(addr), DoInit, DoAccess(addr)]
  }

  lemma RebootMisleads(m: MemRange, addr: u64)
    requires m.Proper() && m.Covers(addr)
    ensures HintedRun(Fresh, Reboot(m, addr)).1 ==
            [Status(0), Accessed(Handled(m)), Status(0), Accessed(Handled(m))]
    ensures SimpleRun(SimpleMap({}, {}), Reboot(m, addr)).1 ==
            [Status(0), Accessed(Handled(m)), Status(0), Accessed(NotFound)]
  {
    var ops := Reboot(m, addr);
    var none, s1, h1 := SimpleMap({}, {}), SimpleMap({m}, {}), Hinted(SimpleMap({m}, {}), Nothing);
    assert none.Get(Root) + {m} == {m};
    assert SimpleStep(none, ops[0]) == (s1, Status(0)) && HintedStep(Fresh, ops[0]) == (h1, Status(0));
    assert ops[..0] == [];
    RunNext(ops, 0);
    assert HintedRun(Fresh, ops[..1]).1 == SimpleRun(none, ops[..1]).1 == [Status(0)];
    assert m in s1.root && Lookup(s1.root, addr) == Some(m);
    RunNext(ops, 1);
    assert HintedRun(Fresh, ops[..2]).0 == h1.(memo := Live(m)) && SimpleRun(none, ops[..2]).0 == s1;
    assert HintedRun(Fresh, ops[..2]).1 == SimpleRun(none, ops[..2]).1 == [Status(0), Accessed(Handled(m))];
    RunNext(ops, 2);
    RunNext(ops, 3);
    assert ops[..4] == ops;
  }

  /** The runs, one operation further. */
  lemma RunNext(ops: seq<Op>, k: nat)
    requires k < |ops|
    ensures var (h, r) := HintedRun(Fresh, ops[..k]);
      HintedRun(Fresh, ops[..k + 1]) == (HintedStep(h, ops[k]).0, r + [HintedStep(h, ops[k]).1])
    ensures var (s, r) := SimpleRun(SimpleMap({}, {}), ops[..k]);
      SimpleRun(SimpleMap({}, {}), ops[..k + 1]) == (SimpleStep(s, ops[k]).0, r + [SimpleStep(s, ops[k]).1])
  {
    assert ops[..k + 1][..k] == ops[..k];
  }
}
