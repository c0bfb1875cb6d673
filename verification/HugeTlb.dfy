/** Guest memory made of huge pages of two sizes. Level 0 has 2 MB pages, level 1 has 1 GB pages. */
module HugeTlb {
  import opened Words

  const MB: nat := 0x10_0000
  const GB: nat := 0x4000_0000
  const FB_SIZE: nat := 16 * MB
  const MAX_REGIONS: nat := 16
  /** 1 GB pages in 2 MB pages. */
  const PAGE_RATIO: nat := 512

  const ENOMEM: int := 12
  const EFAULT: int := 14

  function PageSize(level: nat): (size: nat)
    ensures size > 0
  {
    if level == 0 then 2 * MB else GB
  }

  /** The four kinds of guest memory, in the order they are mapped. */
  datatype Segment = Low | High | Bios | Fb

  datatype Level = Level(fd: int, low: nat, high: nat, bios: nat, fb: nat, pagesDelta: int) {
    function Size(seg: Segment): nat {
      match seg
      case Low => low
      case High => high
      case Bios => bios
      case Fb => fb
    }

    function WithSize(seg: Segment, n: nat): Level {
      match seg
      case Low => this.(low := n)
      case High => this.(high := n)
      case Bios => this.(bios := n)
      case Fb => this.(fb := n)
    }

    predicate Empty() { low == high == bios == fb == 0 }

    predicate SameSizes(l: Level) { low == l.low && high == l.high && bios == l.bios && fb == l.fb }

    /** What comes before a segment in the level's file. */
    function Skip(seg: Segment): nat {
      match seg
      case Low => 0
      case High => low
      case Bios => low + high
      case Fb => low + high + bios
    }
  }

  type Levels = lv: seq<Level> | |lv| == 2
    witness [Level(-1, 0, 0, 0, 0, 0), Level(-1, 0, 0, 0, 0, 0)]

  /** `get_..._param`: the length to map. The framebuffer's is the constant 16 MB at level 0. */
  function MapLength(lv: Levels, level: nat, seg: Segment): nat
    requires level < 2
  {
    if seg == Fb then (if level == 0 then FB_SIZE else 0) else lv[level].Size(seg)
  }

  datatype Region = Region(start: nat, end: nat, fdOffset: nat, fd: int) {
    predicate Has(gpa: nat) { start <= gpa < end }
  }

  /** What the virtual machine is given. */
  datatype Ctx = Ctx(low: nat, high: nat, bios: nat, fb: nat, highBase: nat) {
    function Size(seg: Segment): nat {
      match seg
      case Low => low
      case High => high
      case Bios => bios
      case Fb => fb
    }

    /** Where a segment lies in guest memory. */
    function Base(seg: Segment): int {
      match seg
      case Low => 0
      case High => highBase
      case Bios => 4 * GB - bios
      case Fb => 4 * GB - bios - fb
    }

    predicate InSegment(seg: Segment, gpa: nat) {
      Base(seg) <= gpa < Base(seg) + Size(seg)
    }

    predicate IsRam(gpa: nat) {
      InSegment(Low, gpa) || InSegment(High, gpa) || InSegment(Bios, gpa) || InSegment(Fb, gpa)
    }

    /** The segments do not overlap. */
    predicate Apart() {
      low + bios + fb <= 4 * GB <= highBase
    }
  }

  /** The one or two regions of a segment: the part in large pages, then the part in small pages. */
  function RegionsOf(lv: Levels, seg: Segment, base: nat): seq<Region> {
    var big, small := MapLength(lv, 1, seg), MapLength(lv, 0, seg);
    RegionAt(lv[1], seg, base, big) + RegionAt(lv[0], seg, base + big, small)
  }

  function RegionAt(l: Level, seg: Segment, base: nat, len: nat): seq<Region> {
    if len == 0 then [] else [Region(base, base + len, l.Skip(seg), l.fd)]
  }

  /** `lv` after some large pages of a segment have been given up for small ones. */
  predicate Shifted(lv: Levels, lv': Levels, seg: Segment) {
    && lv'[1].Size(seg) <= lv[1].Size(seg) && lv'[1].Size(seg) % GB == 0
    && lv'[0].Size(seg) + lv'[1].Size(seg) == lv[0].Size(seg) + lv[1].Size(seg)
    && lv' == [lv[0].WithSize(seg, lv'[0].Size(seg)), lv[1].WithSize(seg, lv'[1].Size(seg))]
  }

  /** The levels share out what the machine was given: nothing is lost between page sizes. */
  predicate SharesOut(lv: Levels, c: Ctx) {
    WholePages(lv) && Shares(lv, c, Low) && Shares(lv, c, High) && Shares(lv, c, Bios) && Shares(lv, c, Fb)
  }

  predicate Shares(lv: Levels, c: Ctx, seg: Segment) {
    lv[0].Size(seg) + lv[1].Size(seg) == c.Size(seg)
  }

  /** Level 1 holds whole large pages of every segment. */
  predicate WholePages(lv: Levels) {
    lv[1].low % GB == 0 && lv[1].high % GB == 0 && lv[1].bios % GB == 0 && lv[1].fb % GB == 0
  }

  lemma ShiftedShares(lv: Levels, lv': Levels, seg: Segment, c: Ctx)
    requires Shifted(lv, lv', seg) && WholePages(lv)
    ensures Keeps(lv, lv', c)
  {
  }

  /** What giving up large pages leaves as it is. */
  predicate Keeps(lv: Levels, lv': Levels, c: Ctx) {
    && WholePages(lv') && SameFiles(lv, lv')
    && (SharesOut(lv, c) ==> SharesOut(lv', c))
    && (lv[1].Empty() ==> lv'[1].Empty())
    && (lv[1].fb == 0 ==> lv'[1].fb == 0)
  }

  lemma KeepsTransitive(lv: Levels, lv': Levels, lv'': Levels, c: Ctx)
    requires Keeps(lv, lv', c) && Keeps(lv', lv'', c)
    ensures Keeps(lv, lv'', c)
  {
  }

  /** The regions recorded once all four segments are mapped. */
  function AllRegions(lv: Levels, c: Ctx): seq<Region>
    requires c.Apart()
  {
    RegionsOf(lv, Low, 0) + RegionsOf(lv, High, c.highBase)
    + RegionsOf(lv, Bios, 4 * GB - c.bios) + RegionsOf(lv, Fb, 4 * GB - c.bios - c.fb)
  }

  /** The bytes a level holds. */
  function LargeBytes(l: Level): nat {
    l.low + l.high + l.bios + l.fb
  }

  /** The level holds no more of any segment than there is. */
  predicate Inside(l: Level, c: Ctx) {
    l.low <= c.low && l.high <= c.high && l.bios <= c.bios && l.fb <= c.fb
  }

  /** And all of each segment but less than one large page. */
  predicate Floors(l: Level, c: Ctx) {
    && l.low <= c.low < l.low + GB && l.high <= c.high < l.high + GB
    && l.bios <= c.bios < l.bios + GB && l.fb <= c.fb < l.fb + GB
  }

  /** The whole large pages of the four segments, in bytes. */
  function WholeLargePages(c: Ctx): int {
    (c.low - c.low % GB) + (c.high - c.high % GB) + (c.bios - c.bios % GB) + (c.fb - c.fb % GB)
  }

  lemma WholePagesAddUp(l: Level, c: Ctx)
    requires l.low % GB == l.high % GB == l.bios % GB == l.fb % GB == 0
    requires Floors(l, c)
    ensures LargeBytes(l) == WholeLargePages(c)
  {
    WholePart(c.low, l.low);
    WholePart(c.high, l.high);
    WholePart(c.bios, l.bios);
    WholePart(c.fb, l.fb);
  }

  lemma WholePart(n: nat, whole: nat)
    requires whole % GB == 0 && whole <= n < whole + GB
    ensures n - n % GB == whole
  {
    DivModForm(whole, GB);
    DivModUnique(n, GB, whole / GB, n - whole);
  }

  /** Every level that holds memory has a file. */
  predicate Usable(lv: Levels) {
    lv[0].fd >= 0 && LargeUsable(lv)
  }

  predicate LargeUsable(lv: Levels) {
    lv[1].fd >= 0 || lv[1].Empty()
  }

  /** Level 1 has given up `n` large pages between `lv` and `lv'`, and no segment has gained any. */
  predicate Gave(lv: Levels, lv': Levels, n: nat) {
    && LargeBytes(lv'[1]) == LargeBytes(lv[1]) - GB * n
    && lv'[1].low <= lv[1].low && lv'[1].high <= lv[1].high && lv'[1].bios <= lv[1].bios && lv'[1].fb <= lv[1].fb
  }

  lemma GaveOne(lv: Levels, lv': Levels, seg: Segment, n: nat)
    requires Shifted(lv, lv', seg) && lv'[1].Size(seg) == lv[1].Size(seg) - GB * n
    ensures Gave(lv, lv', n)
  {
  }

  lemma GaveTwice(lv: Levels, lv': Levels, lv'': Levels, n: nat, m: nat)
    requires Gave(lv, lv', n) && Gave(lv', lv'', m)
    ensures Gave(lv, lv'', n + m)
  {
  }

  /** A segment's large pages, counted. */
  lemma WholeBytes(lv: Levels, seg: Segment)
    requires WholePages(lv)
    ensures MapLength(lv, 1, seg) == GB * (MapLength(lv, 1, seg) / GB)
  {
  }

  /** The attempts from the `k`-th on: `given` of them refused, and the next one granted if one was. `open` says
      whether any can be. */
  ghost predicate TriedUntil(os: Kernel, k: nat, open: bool, given: nat, granted: bool) {
    && (open ==> forall j :: k <= j < k + given ==> !os.grants(j))
    && (granted ==> open && os.grants(k + given))
  }

  lemma {:induction false} RefusalsAre(os: Kernel, k: nat, n: nat, r: nat)
    requires r <= n && (forall j :: k <= j < k + r ==> !os.grants(j)) && (r < n ==> os.grants(k + r))
    ensures Refusals(os, k, n) == r
    decreases n
  {
    if r > 0 {
      assert !os.grants(k);
      RefusalsAre(os, k + 1, n - 1, r - 1);
    }
  }

  /** What has been given up by a segment other than the framebuffer is mapped as small pages. */
  lemma TriedGrows(lv: Levels, lv': Levels, seg: Segment, given: nat)
    requires Tried(lv, lv', seg, given) && given > 0 && seg != Fb
    ensures MapLength(lv', 0, seg) > 0
  {
  }

  lemma GivenIsRefused(os: Kernel, lv: Levels, lv': Levels, seg: Segment, given: nat, k: nat, open: bool)
    requires WholePages(lv) && Tried(lv, lv', seg, given)
    requires TriedUntil(os, k, open, given, MapLength(lv', 1, seg) > 0)
    requires seg == Fb ==> given == 0
    ensures var pages := MapLength(lv, 1, seg) / GB; given == if open then Refusals(os, k, pages) else pages
  {
    WholeBytes(lv, seg);
    if open {
      RefusalsAre(os, k, MapLength(lv, 1, seg) / GB, given);
    }
  }

  /** `given` large pages of a segment have become small pages. */
  predicate Tried(lv: Levels, lv': Levels, seg: Segment, given: nat) {
    Shifted(lv, lv', seg) && lv'[1].fd == lv[1].fd && lv'[1].Size(seg) == lv[1].Size(seg) - GB * given
  }

  lemma TriedNothing(lv: Levels, seg: Segment)
    requires WholePages(lv)
    ensures Tried(lv, lv, seg, 0)
  {
  }

  /** One more large page becomes small pages. */
  lemma TriedMore(lv: Levels, lv': Levels, lv'': Levels, seg: Segment, given: nat)
    requires Tried(lv, lv', seg, given) && lv'[1].Size(seg) >= GB
    requires lv'' == [lv'[0].WithSize(seg, lv'[0].Size(seg) + GB), lv'[1].WithSize(seg, lv'[1].Size(seg) - GB)]
    ensures Tried(lv, lv'', seg, given + 1)
  {
  }

  /** The pages a level's share of guest memory takes. */
  function Needed(lv: Levels, level: nat): nat
    requires level < 2
  {
    (lv[level].low + lv[level].fb + lv[level].bios + lv[level].high) / PageSize(level)
  }

  lemma SizesAre()
    ensures PageSize(0) == 0x20_0000 && PageSize(1) == 0x4000_0000 && FB_SIZE == 0x100_0000 && MAX_REGIONS == 16
  {
  }

  lemma NeededIs(lv: Levels)
    ensures Needed(lv, 0) == (lv[0].low + lv[0].high + lv[0].bios + lv[0].fb) / 0x20_0000
    ensures Needed(lv, 1) == (lv[1].low + lv[1].high + lv[1].bios + lv[1].fb) / 0x4000_0000
  {
  }

  /** What the system will answer, fixed in advance and otherwise arbitrary: the descriptor of a new file for each
      level, whether the k-th mapping is granted, the free pages of each level, whether lock and address space can
      be had, and whether resizing, sealing and mapping into the machine work out. */
  datatype Kernel = Kernel(memfd: nat -> int, grants: nat -> bool, free: nat -> int, answers: nat -> Answer,
                           ready: bool, finishes: bool)

  /** The `k`-th time a count of pages is changed: whether the command ran, and the counts before and after it. */
  datatype Answer = Answer(ran: bool, before: int, now: int)

  /** By how much a count rose. */
  function Gain(os: Kernel, k: nat): int {
    if os.answers(k).ran then os.answers(k).now - os.answers(k).before else 0
  }

  /** The count fell. */
  predicate Fell(os: Kernel, k: nat) {
    os.answers(k).ran && os.answers(k).now < os.answers(k).before
  }

  /** The tries from the `k`-th change on take two changes each: pages reserved at level 0, and one released at level 1
      if that was not enough. */
  function Second(k: nat, j: nat): nat {
    k + 2 * j + 1
  }

  /** What the first `n` tries reserve. */
  function Gains(os: Kernel, k: nat, n: nat): int {
    if n == 0 then 0 else Gains(os, k, n - 1) + Gain(os, k + 2 * (n - 1))
  }

  /** How the tries at level 0 go, from `need` pages missing there and `spare`, if negative, large pages unused: none if
      nothing is missing, otherwise one, and one more for every large page released. Every page released was unused,
      went back when asked for, and was still wanted; success means that nothing is missing any more, and failure that
      something is, and that no page is left to release or the next one was refused. */
  ghost predicate Retried(os: Kernel, k: nat, need: int, spare: int, two: bool, released: nat, lv: Levels, ok: bool) {
    if need <= 0 then
      ok && released == 0 && lv[0].pagesDelta == need && lv[1].pagesDelta == spare
    else
      && lv[0].pagesDelta == need - Gains(os, k, released + 1) && lv[1].pagesDelta == spare + released
      && (released > 0 ==> two && spare + released <= 0)
      && (forall j :: 0 <= j <= released ==> need - Gains(os, k, j) > 0)
      && (forall j :: 0 <= j < released ==> Fell(os, Second(k, j)))
      && (ok <==> lv[0].pagesDelta <= 0)
      && (!ok ==> !two || spare + released >= 0 || !Fell(os, Second(k, released)))
  }

  /** A level's share takes no more pages than the whole machine would. */
  lemma NeedsBound(lv: Levels, c: Ctx, level: nat)
    requires level < 2 && SharesOut(lv, c)
    ensures Needed(lv, level) <= (c.low + c.fb + c.bios + c.high) / PageSize(level)
  {
    assert Shares(lv, c, Low) && Shares(lv, c, High) && Shares(lv, c, Bios) && Shares(lv, c, Fb);
    DivMonotone(lv[level].low + lv[level].fb + lv[level].bios + lv[level].high, c.low + c.fb + c.bios + c.high,
                PageSize(level));
  }

  lemma DivMonotone(a: nat, b: nat, n: nat)
    requires a <= b && n > 0
    ensures a / n <= b / n
  {
    DivModForm(a, n);
    DivModForm(b, n);
    MulMonotone(b / n, a / n, n);
  }

  /** How many of the mappings from the `k`-th on are refused before one is granted, at most `n`. */
  function Refusals(os: Kernel, k: nat, n: nat): (r: nat)
    ensures r <= n
    ensures forall j :: k <= j < k + r ==> !os.grants(j)
    ensures r < n ==> os.grants(k + r)
    decreases n
  {
    if n == 0 || os.grants(k) then 0 else 1 + Refusals(os, k + 1, n - 1)
  }

  /** How many of the mappings from the `k`-th up to the `end`-th are refused. */
  function Refused(os: Kernel, k: nat, end: nat): nat {
    if end <= k then 0 else Refused(os, k, end - 1) + if os.grants(end - 1) then 0 else 1
  }

  lemma {:induction false} RefusedSplits(os: Kernel, k: nat, mid: nat, end: nat)
    requires k <= mid <= end
    ensures Refused(os, k, end) == Refused(os, k, mid) + Refused(os, mid, end)
    decreases end
  {
    if mid < end {
      RefusedSplits(os, k, mid, end - 1);
    }
  }

  lemma {:induction false} NoneRefused(os: Kernel, k: nat, end: nat)
    requires forall j: nat :: os.grants(j)
    ensures Refused(os, k, end) == 0
    decreases end
  {
    if k < end {
      NoneRefused(os, k, end - 1);
    }
  }

  /** What mapping does to the split, whatever is refused: `n` large pages are given up, and if it succeeds that is how
      many of the mappings from the `k`-th up to the `end`-th were refused. */
  ghost predicate Outcome(os: Kernel, lv: Levels, lv': Levels, c: Ctx, k: nat, end: nat, n: nat, ok: bool) {
    && Keeps(lv, lv', c) && Gave(lv, lv', n) && k <= end
    && (ok && LargeUsable(lv) ==> n == Refused(os, k, end))
  }

  lemma OutcomeTwice(os: Kernel, lv: Levels, lv': Levels, lv'': Levels, c: Ctx, k: nat, mid: nat, end: nat,
                     n: nat, m: nat, ok: bool)
    requires Outcome(os, lv, lv', c, k, mid, n, true) && Outcome(os, lv', lv'', c, mid, end, m, ok)
    ensures Outcome(os, lv, lv'', c, k, end, n + m, ok)
  {
    KeepsTransitive(lv, lv', lv'', c);
    GaveTwice(lv, lv', lv'', n, m);
    RefusedSplits(os, k, mid, end);
  }

  class Memory {
    const os: Kernel
    var lv: Levels
    var lvMax: nat
    var regions: seq<Region>
    var calls: nat // how often `mmap` has been asked
    var asks: nat // how often a count of pages has been changed

    predicate Valid()
      reads this
    {
      1 <= lvMax <= 2 && (lvMax == 1 ==> lv[1].Empty())
    }

    constructor (lvMax: nat, os: Kernel)
      requires 1 <= lvMax <= 2
      ensures Valid() && this.lvMax == lvMax && this.os == os && regions == [] && calls == asks == 0
      ensures forall level :: 0 <= level < 2 ==> lv[level].fd == -1 && lv[level].Empty()
    {
      this.os, calls, asks := os, 0, 0;
      lv := [Level(-1, 0, 0, 0, 0, 0), Level(-1, 0, 0, 0, 0, 0)];
      this.lvMax := lvMax;
      regions := [];
    }

    /** `mmap_hugetlbfs_from_level`; `mmap` refuses a bad descriptor and whatever else it likes. */
    method MapFromLevel(level: nat, len: nat, offset: nat, skip: nat) returns (ret: int)
      requires level < 2
      modifies this`regions, this`calls
      ensures calls == old(calls) + if |old(regions)| < MAX_REGIONS then 1 else 0
      ensures ret == 0 <==> |old(regions)| < MAX_REGIONS && lv[level].fd >= 0 && os.grants(old(calls))
      ensures ret == 0 ==> regions == old(regions) + [Region(offset, offset + len, skip, lv[level].fd)]
      ensures ret != 0 ==> ret == (if |old(regions)| < MAX_REGIONS then -ENOMEM else -EFAULT) && regions == old(regions)
    {
      if |regions| >= MAX_REGIONS {
        return -EFAULT;
      }
      var mapped := os.grants(calls);
      calls := calls + 1;
      if !mapped || lv[level].fd < 0 {
        return -ENOMEM;
      }
      regions := regions + [Region(offset, offset + len, skip, lv[level].fd)];
      return 0;
    }

    /** `adj_..._param`: one large page of a segment becomes small pages. */
    method Adjust(seg: Segment) returns (len: nat)
      requires lv[1].Size(seg) >= GB
      modifies this`lv
      ensures lv == old([lv[0].WithSize(seg, lv[0].Size(seg) + GB), lv[1].WithSize(seg, lv[1].Size(seg) - GB)])
      ensures len == lv[1].Size(seg)
    {
      lv := [lv[0].WithSize(seg, lv[0].Size(seg) + GB), lv[1].WithSize(seg, lv[1].Size(seg) - GB)];
      len := lv[1].Size(seg);
    }

    /** How many large pages of a segment are given up: one for each refusal before a mapping is granted, and
        all of them when no mapping can be. */
    function GivenUp(seg: Segment): nat
      reads this
    {
      var pages := MapLength(lv, 1, seg) / GB;
      if lvMax < 2 then 0
      else if |regions| < MAX_REGIONS && lv[1].fd >= 0 then Refusals(os, calls, pages)
      else pages
    }

    /** `mmap_hugetlbfs`. Whatever `mmap` refuses, success means that the segment is mapped without gaps,
        large pages first, at the place in each file that comes after the segments before it; one large page is
        given up per refusal, and without refusals nothing fails. */
    method Map(seg: Segment, base: nat, ghost c: Ctx) returns (ret: int, ghost given: nat)
      requires Valid() && WholePages(lv)
      modifies this`lv, this`regions, this`calls
      ensures Valid() && Shifted(old(lv), lv, seg) && given == old(GivenUp(seg))
      ensures Outcome(os, old(lv), lv, c, old(calls), calls, given, ret >= 0 && |old(regions)| + 2 <= MAX_REGIONS)
      ensures ret >= 0 ==> regions == old(regions) + RegionsOf(lv, seg, base)
      ensures ret >= 0 && MapLength(lv, 0, seg) > 0 ==> lv[0].fd >= 0
      ensures |regions| <= |old(regions)| + 2
      ensures AllGranted() && |old(regions)| + 2 <= MAX_REGIONS && Usable(old(lv)) ==> ret >= 0
      ensures AllGranted() && |old(regions)| + 2 <= MAX_REGIONS && lv[1].fd >= 0 ==> given == 0
    {
      var offset: nat;
      ret, offset, given := MapAnyLarge(seg, base, c);
      ghost var asked := calls;
      ret := MapSmall(seg, offset, ret);
      RefusedSplits(os, old(calls), asked, calls);
    }

    /** Large pages, if there is a level for them. */
    method MapAnyLarge(seg: Segment, base: nat, ghost c: Ctx) returns (ret: int, offset: nat, ghost given: nat)
      requires Valid() && WholePages(lv)
      modifies this`lv, this`regions, this`calls
      ensures Valid() && Shifted(old(lv), lv, seg) && Keeps(old(lv), lv, c)
      ensures given == old(GivenUp(seg)) && Gave(old(lv), lv, given)
      ensures regions == old(regions) + RegionAt(lv[1], seg, base, MapLength(lv, 1, seg))
      ensures offset == base + MapLength(lv, 1, seg) && |regions| <= |old(regions)| + 1
      ensures ret < 0 ==> MapLength(lv, 0, seg) > 0
      ensures AllGranted() && |old(regions)| < MAX_REGIONS && lv[1].fd >= 0 ==> given == 0
      ensures calls >= old(calls)
      ensures |old(regions)| < MAX_REGIONS && LargeUsable(old(lv)) ==> given == Refused(os, old(calls), calls)
    {
      ghost var was := lv;
      ret, offset, given := 0, base, 0;
      if lvMax == 2 {
        ret, offset, given := MapLarge(seg, base);
      } else {
        TriedNothing(lv, seg);
      }
      ShiftedShares(was, lv, seg, c);
      GaveOne(was, lv, seg, given);
    }

    /** The attempt of `mmap_hugetlbfs` at small pages, for what is left. */
    method MapSmall(seg: Segment, offset: nat, before: int) returns (ret: int)
      modifies this`regions, this`calls
      ensures MapLength(lv, 0, seg) == 0 ==> ret == before && regions == old(regions)
      ensures MapLength(lv, 0, seg) > 0 ==>
        (ret >= 0 <==> |old(regions)| < MAX_REGIONS && lv[0].fd >= 0 && os.grants(old(calls)))
      ensures ret >= 0 ==> regions == old(regions) + RegionAt(lv[0], seg, offset, MapLength(lv, 0, seg))
      ensures |regions| <= |old(regions)| + 1
      ensures calls >= old(calls) && (ret >= 0 ==> Refused(os, old(calls), calls) == 0)
    {
      ret := before;
      var len, skip := MapLength(lv, 0, seg), lv[0].Skip(seg);
      if len > 0 {
        ret := MapFromLevel(0, len, offset, skip);
      }
    }

    ghost predicate AllGranted()
    {
      forall k: nat :: os.grants(k)
    }

    /** The attempts of `mmap_hugetlbfs` at large pages: exactly as many pages are given up as are refused. */
    method MapLarge(seg: Segment, base: nat) returns (ret: int, offset: nat, ghost given: nat)
      requires Valid() && WholePages(lv) && lvMax == 2
      modifies this`lv, this`regions, this`calls
      ensures Valid() && Tried(old(lv), lv, seg, given) && given == old(GivenUp(seg))
      ensures AllGranted() && |old(regions)| < MAX_REGIONS && lv[1].fd >= 0 ==> given == 0
      ensures |regions| <= |old(regions)| + 1
      ensures regions == old(regions) + RegionAt(lv[1], seg, base, MapLength(lv, 1, seg))
      ensures offset == base + MapLength(lv, 1, seg)
      ensures ret < 0 ==> MapLength(lv, 0, seg) > 0
      ensures calls >= old(calls)
      ensures (|old(regions)| < MAX_REGIONS && lv[1].fd >= 0) || given == 0 ==> given == Refused(os, old(calls), calls)
    {
      ghost var was, asked := lv, calls;
      ghost var open := |regions| < MAX_REGIONS && lv[1].fd >= 0;
      ret, offset, given := TryLarge(seg, base);
      if ret < 0 {
        TriedGrows(was, lv, seg, given);
      }
      GivenIsRefused(os, was, lv, seg, given, asked, open);
    }

    /** The loop itself, one large page fewer each time. */
    method TryLarge(seg: Segment, base: nat) returns (ret: int, offset: nat, ghost given: nat)
      requires Valid() && WholePages(lv) && lvMax == 2
      modifies this`lv, this`regions, this`calls
      ensures Valid() && Tried(old(lv), lv, seg, given)
      ensures regions == old(regions) + RegionAt(lv[1], seg, base, MapLength(lv, 1, seg))
      ensures offset == base + MapLength(lv, 1, seg)
      ensures ret < 0 ==> given > 0
      ensures seg == Fb ==> given == 0
      ensures var open := |old(regions)| < MAX_REGIONS && old(lv)[1].fd >= 0;
        && TriedUntil(os, old(calls), open, given, MapLength(lv, 1, seg) > 0)
        && calls >= old(calls) && (open || given == 0 ==> given == Refused(os, old(calls), calls))
    {
      ghost var was, before, asked := lv, regions, calls;
      ghost var open := |regions| < MAX_REGIONS && lv[1].fd >= 0;
      ret, offset, given := 0, base, 0;
      TriedNothing(lv, seg);
      var len, skip := MapLength(lv, 1, seg), lv[1].Skip(seg);
      while len > 0
        invariant len == MapLength(lv, 1, seg) && skip == lv[1].Skip(seg)
        invariant Valid() && Tried(was, lv, seg, given) && regions == before && offset == base
        invariant calls >= asked && (open ==> calls == asked + given)
        invariant open || given == 0 ==> given == Refused(os, asked, calls)
        invariant TriedUntil(os, asked, open, given, false) && (seg == Fb ==> given == 0)
        invariant ret < 0 ==> given > 0
        decreases len
      {
        ghost var last := lv;
        ret := MapFromLevel(1, len, offset, skip);
        if ret < 0 {
          len := Adjust(seg);
          TriedMore(was, last, lv, seg, given);
          given := given + 1;
        } else {
          offset := offset + len;
          break;
        }
      }
    }

    /** Whether the file of a level can be had: it is open, or the system makes one that is not open already. */
    predicate Opens(level: nat)
      reads this
      requires level < 2
    {
      lv[level].fd > 0 || (os.memfd(level) >= 0 && os.memfd(level) != lv[1 - level].fd)
    }

    /** The memfd loop of `hugetlb_setup_memory`: missing files are created, from level 0 up, until one
        cannot be. A new descriptor differs from the open ones. */
    method OpenFiles()
      requires Valid() && Distinct(lv)
      modifies this`lv
      ensures Valid() && Distinct(lv) && SameSizes(lv, old(lv))
      ensures forall level :: 0 <= level < 2 && old(lv)[level].fd > 0 ==> lv[level].fd == old(lv)[level].fd
      ensures forall level :: 0 <= level < 2 && lv[level].fd != old(lv)[level].fd ==> lv[level].fd == os.memfd(level)
      ensures old(Opens(0)) ==> lv[0].fd >= 0
      ensures old(Opens(0)) && os.memfd(1) >= 0 && os.memfd(1) != lv[0].fd ==> lv[1].fd >= 0
      ensures !old(Opens(0)) ==> lv == old(lv)
    {
      for level := 0 to 2
        invariant Valid() && Distinct(lv) && SameSizes(lv, old(lv))
        invariant level == 0 ==> lv == old(lv)
        invariant level == 1 ==> lv[1] == old(lv)[1] && lv[0].fd >= 0 && old(Opens(0))
        invariant level == 1 ==> lv[0].fd == if old(lv)[0].fd > 0 then old(lv)[0].fd else os.memfd(0)
        invariant level == 2 ==> old(Opens(0)) && lv[1].fd >= 0 && lv[0].fd >= 0
        invariant level == 2 ==> lv[1].fd == if old(lv)[1].fd > 0 then old(lv)[1].fd else os.memfd(1)
        invariant level == 2 ==> lv[0].fd == if old(lv)[0].fd > 0 then old(lv)[0].fd else os.memfd(0)
      {
        if lv[level].fd <= 0 {
          var fd := os.memfd(level);
          if fd < 0 || fd == lv[1 - level].fd {
            break;
          }
          lv := lv[level := lv[level].(fd := fd)];
        }
      }
    }

    /** The level split of `hugetlb_setup_memory`. */
    method SplitLevels(c: Ctx)
      requires Valid() && Aligned(c)
      modifies this`lv
      ensures Valid() && SameFiles(lv, old(lv)) && WholePages(lv)
      ensures lv[0].fd >= 0 ==> SharesOut(lv, c)
      ensures lvMax == 2 && lv[1].fd >= 0 ==> Floors(lv[1], c)
      ensures lvMax == 2 && lv[1].fd < 0 ==> lv[1].Empty()
      ensures c.fb < GB ==> lv[1].fb == 0
    {
      SplitLarge(c);
      SplitSmall(c);
    }

    /** Level 1 takes what is whole large pages. */
    method SplitLarge(c: Ctx)
      requires Valid()
      modifies this`lv
      ensures Valid() && SameFiles(lv, old(lv)) && WholePages(lv) && Inside(lv[1], c)
      ensures lvMax == 2 && lv[1].fd >= 0 ==> Floors(lv[1], c)
      ensures lvMax == 2 && lv[1].fd < 0 ==> lv[1].Empty()
      ensures c.fb < GB ==> lv[1].fb == 0
    {
      if lvMax == 2 {
        if lv[1].fd < 0 {
          lv := lv[1 := lv[1].(low := 0, high := 0, bios := 0, fb := 0)];
        } else {
          lv := lv[1 := lv[1].(low := AlignDown(c.low, GB), fb := AlignDown(c.fb, GB),
                               bios := AlignDown(c.bios, GB), high := AlignDown(c.high, GB))];
        }
      }
    }

    /** Level 0 takes the rest. */
    method SplitSmall(c: Ctx)
      requires Valid() && Aligned(c) && WholePages(lv) && Inside(lv[1], c)
      modifies this`lv
      ensures Valid() && SameFiles(lv, old(lv)) && lv[1] == old(lv)[1]
      ensures lv[0].fd >= 0 ==> SharesOut(lv, c)
    {
      var low, fb, bios, high := c.low - lv[1].low, c.fb - lv[1].fb, c.bios - lv[1].bios, c.high - lv[1].high;
      RestAligned(c.low, lv[1].low);
      RestAligned(c.fb, lv[1].fb);
      RestAligned(c.bios, lv[1].bios);
      RestAligned(c.high, lv[1].high);
      if lv[0].fd < 0 {
        lv := lv[0 := lv[0].(low := 0, high := 0, bios := 0, fb := 0)];
      } else {
        var size := PageSize(0);
        lv := lv[0 := lv[0].(low := AlignDown(low, size), fb := AlignDown(fb, size),
                             bios := AlignDown(bios, size), high := AlignDown(high, size))];
      }
    }

    /** `hugetlb_check_memgap` */
    method CheckMemgap() returns (hasGap: bool)
      requires Valid()
      modifies this`lv
      ensures Valid() && SameSizes(lv, old(lv)) && SameFiles(lv, old(lv))
      ensures forall level :: 0 <= level < lvMax ==>
        lv[level].pagesDelta == if lv[level].fd < 0 then 0 else Needed(lv, level) - os.free(level)
      ensures hasGap <==> exists level :: 0 <= level < lvMax && lv[level].pagesDelta > 0
    {
      hasGap := false;
      for level := 0 to lvMax
        invariant Valid() && SameSizes(lv, old(lv)) && SameFiles(lv, old(lv))
        invariant forall l :: 0 <= l < level ==>
          lv[l].pagesDelta == if lv[l].fd < 0 then 0 else Needed(lv, l) - os.free(l)
        invariant hasGap <==> exists l :: 0 <= l < level && lv[l].pagesDelta > 0
      {
        CountPages(level);
        if lv[level].pagesDelta > 0 {
          hasGap := true;
        }
      }
    }

    /** What one level needs beyond its free pages. */
    method CountPages(level: nat)
      requires Valid() && level < lvMax
      modifies this`lv
      ensures Valid()
      ensures lv == old(lv)[level := old(lv)[level].(pagesDelta := lv[level].pagesDelta)]
      ensures lv[level].pagesDelta == if lv[level].fd < 0 then 0 else Needed(lv, level) - os.free(level)
    {
      if lv[level].fd < 0 {
        lv := lv[level := lv[level].(pagesDelta := 0)];
      } else {
        var needed := Needed(lv, level);
        lv := lv[level := lv[level].(pagesDelta := needed - os.free(level))];
      }
    }

    /** `reserve_more_pages`: what is still missing falls by what the count of pages rose. */
    method ReserveMorePages(level: nat)
      requires Valid() && level < 2
      modifies this`lv, this`asks
      ensures Valid() && asks == old(asks) + 1
      ensures lv == old(lv)[level := old(lv)[level].(pagesDelta := old(lv)[level].pagesDelta - Gain(os, old(asks)))]
    {
      var a := os.answers(asks);
      asks := asks + 1;
      if a.ran {
        var total := a.before + lv[level].pagesDelta;
        lv := lv[level := lv[level].(pagesDelta := total - a.now)];
      }
    }

    /** `release_larger_freepage` from level 1 up: an unused large page goes back if there is one and the system lets
        its count fall. */
    method ReleaseLargerFreepage() returns (released: bool)
      requires Valid()
      modifies this`lv, this`asks
      ensures Valid()
      ensures released <==> lvMax == 2 && old(lv)[1].pagesDelta < 0 && Fell(os, old(asks))
      ensures asks == old(asks) + if lvMax == 2 && old(lv)[1].pagesDelta < 0 then 1 else 0
      ensures released ==> lv == old(lv)[1 := old(lv)[1].(pagesDelta := old(lv)[1].pagesDelta + 1)]
      ensures !released ==> lv == old(lv)
    {
      if lvMax < 2 || lv[1].pagesDelta >= 0 {
        return false;
      }
      var a := os.answers(asks);
      asks := asks + 1;
      if !a.ran || a.now >= a.before {
        return false;
      }
      lv := lv[1 := lv[1].(pagesDelta := lv[1].pagesDelta + 1)];
      return true;
    }

    /** `hugetlb_reserve_pages`. What is missing at level 1 is reserved there first, and 512 small pages are wanted for
        every large one still missing. */
    method ReservePages() returns (ok: bool, ghost gap: nat, ghost released: nat)
      requires Valid()
      modifies this`lv, this`asks
      ensures Valid() && SameSizes(lv, old(lv)) && SameFiles(lv, old(lv))
      ensures var first, left := old(asks), old(lv)[1].pagesDelta - Gain(os, old(asks));
        if lvMax == 2 && old(lv)[1].pagesDelta > 0 then
          && gap == (if left > 0 then left else 0)
          && Retried(os, first + 1, old(lv)[0].pagesDelta + 512 * gap, left, true, released, lv, ok)
        else
          && gap == 0
          && Retried(os, first, old(lv)[0].pagesDelta, old(lv)[1].pagesDelta, lvMax == 2, released, lv, ok)
    {
      gap, released := 0, 0;
      if lvMax == 2 && lv[1].pagesDelta > 0 {
        ReserveMorePages(1);
        if lv[1].pagesDelta > 0 {
          gap := lv[1].pagesDelta;
          lv := lv[0 := lv[0].(pagesDelta := lv[0].pagesDelta + lv[1].pagesDelta * (PageSize(1) / PageSize(0)))];
        }
      }
      ok, released := Retry();
    }

    /** The tries at level 0. They end whatever the kernel reports, for each further one costs an unused large page. */
    method Retry() returns (ok: bool, ghost released: nat)
      requires Valid()
      modifies this`lv, this`asks
      ensures Valid() && SameSizes(lv, old(lv)) && SameFiles(lv, old(lv))
      ensures Retried(os, old(asks), old(lv)[0].pagesDelta, old(lv)[1].pagesDelta, lvMax == 2, released, lv, ok)
    {
      ghost var first, start := asks, lv;
      released := 0;
      while lv[0].pagesDelta > 0
        invariant Valid() && SameSizes(lv, start) && SameFiles(lv, start)
        invariant asks == first + 2 * released
        invariant lv[0].pagesDelta == start[0].pagesDelta - Gains(os, first, released)
        invariant lv[1].pagesDelta == start[1].pagesDelta + released
        invariant released > 0 ==> lvMax == 2 && lv[1].pagesDelta <= 0 && lv[0].pagesDelta > 0
        invariant forall j :: 0 <= j < released ==> start[0].pagesDelta - Gains(os, first, j) > 0
        invariant forall j :: 0 <= j < released ==> Fell(os, Second(first, j))
        decreases if lv[1].pagesDelta < 0 then -lv[1].pagesDelta else 0
      {
        ReserveMorePages(0);
        if lv[0].pagesDelta <= 0 {
          return true, released;
        }
        var freed := ReleaseLargerFreepage();
        if !freed {
          return false, released;
        }
        released := released + 1;
      }
      return true, released;
    }

    /** The error path: the files are closed. */
    method CloseFiles()
      requires Valid()
      modifies this`lv
      ensures Valid() && Distinct(lv)
      ensures forall level :: 0 <= level < lvMax ==> lv[level].fd < 0
      ensures lvMax == 1 ==> lv[1] == old(lv)[1]
    {
      for level := 0 to lvMax
        invariant Valid() && forall l :: 0 <= l < level ==> lv[l].fd < 0
        invariant SameSizes(lv, old(lv)) && (lvMax == 1 ==> lv[1] == old(lv)[1])
      {
        if lv[level].fd >= 0 {
          lv := lv[level := lv[level].(fd := -1)];
        }
      }
    }

    /** The system grants everything, and each level has pages enough for the whole machine. */
    ghost predicate Generous(c: Ctx)
      reads this
    {
      && AllGranted() && os.ready && os.finishes
      && forall level :: 0 <= level < 2 ==> os.free(level) >= (c.low + c.fb + c.bios + c.high) / PageSize(level)
    }

    /** `hugetlb_setup_memory`. Every answer of the system is arbitrary; success still means that the
        regions are those of the four segments under the final split, which loses no byte. A generous system makes
        it succeed, with less than one large page of each segment in small pages if there is a file for large
        ones; a failure closes the files. `refused` counts the large pages given up to refusals. */
    method Setup(c: Ctx) returns (ok: bool, ghost refused: nat)
      requires Valid() && Distinct(lv) && c.Apart()
      modifies this
      ensures lvMax == old(lvMax) && Valid() && Distinct(lv)
      ensures ok ==> SharesOut(lv, c) && regions == AllRegions(lv, c)
      ensures ok ==> lv[0].fd >= 0 && (lv[1].fd < 0 ==> lv[1].Empty()) && (c.fb < GB ==> lv[1].fb == 0)
      ensures ok && lvMax == 2 && lv[1].fd >= 0 ==> LargeBytes(lv[1]) == WholeLargePages(c) - GB * refused
      ensures ok ==> refused == Refused(os, old(calls), calls)
      ensures ok && AllGranted() ==> refused == 0
      ensures ok && lvMax == 2 && lv[1].fd >= 0 && refused == 0 ==> Floors(lv[1], c)
      ensures c.low > 0 && Aligned(c) && old(Opens(0)) && Generous(c) ==> ok
      ensures !ok ==> forall level :: 0 <= level < lvMax ==> lv[level].fd < 0
    {
      regions := [];
      ok, refused := false, 0;
      if c.low == 0 {
        CloseFiles();
        return;
      }
      var ready := Prepare(c);
      if ready && os.ready {
        ghost var split := lv;
        ok, refused := MapSegments(c);
        if lvMax == 2 && split[1].fd >= 0 {
          WholePagesAddUp(split[1], c);
        }
        ok := ok && os.finishes;
        if AllGranted() {
          NoneRefused(os, old(calls), calls);
        }
      }
      if !ok {
        CloseFiles();
      }
    }

    /** The first half of `hugetlb_setup_memory`: files, split and pages. */
    method Prepare(c: Ctx) returns (ready: bool)
      requires Valid() && Distinct(lv)
      modifies this`lv, this`asks
      ensures Valid() && Distinct(lv)
      ensures ready ==> WholePages(lv) && (lv[0].fd >= 0 ==> SharesOut(lv, c)) && (c.fb < GB ==> lv[1].fb == 0)
      ensures ready && lvMax == 2 && lv[1].fd >= 0 ==> Floors(lv[1], c)
      ensures ready && lv[1].fd < 0 ==> lv[1].Empty()
      ensures Aligned(c) && old(Opens(0)) && Generous(c) ==> ready && lv[0].fd >= 0
    {
      OpenFiles();
      if !Aligned(c) {
        return false;
      }
      SplitLevels(c);
      if lv[0].fd >= 0 {
        NeedsBound(lv, c, 0);
        NeedsBound(lv, c, 1);
      }
      ready := EnoughPages();
    }

    /** The pages are there, or can be reserved. */
    method EnoughPages() returns (ready: bool)
      requires Valid()
      modifies this`lv, this`asks
      ensures Valid() && SameSizes(lv, old(lv)) && SameFiles(lv, old(lv))
      ensures (forall level :: 0 <= level < lvMax ==> Needed(old(lv), level) <= os.free(level)) ==> ready
      ensures ready <==> lv[0].pagesDelta <= 0
    {
      ghost var was := lv;
      var hasGap := CheckMemgap();
      ready := true;
      if hasGap {
        assert exists level :: 0 <= level < lvMax && Needed(was, level) > os.free(level);
        ghost var gap, released;
        ready, gap, released := ReservePages();
      }
    }

    /** The four calls of `mmap_hugetlbfs` */
    method MapSegments(c: Ctx) returns (ok: bool, ghost refused: nat)
      requires Valid() && c.Apart() && regions == [] && WholePages(lv)
      modifies this`lv, this`regions, this`calls
      ensures Valid() && Outcome(os, old(lv), lv, c, old(calls), calls, refused, ok)
      ensures ok ==> regions == AllRegions(lv, c) && lv[0].fd >= 0
      ensures AllGranted() && Usable(old(lv)) ==> ok
    {
      ghost var was, k := lv, calls;
      ok, refused := MapRam(c);
      if ok {
        ok, refused := MapRest(c, was, k, refused);
      }
    }

    method MapRam(c: Ctx) returns (ok: bool, ghost refused: nat)
      requires Valid() && c.Apart() && regions == [] && WholePages(lv)
      modifies this`lv, this`regions, this`calls
      ensures Valid() && Outcome(os, old(lv), lv, c, old(calls), calls, refused, ok) && |regions| <= 4
      ensures ok ==> regions == RegionsOf(lv, Low, 0) + RegionsOf(lv, High, c.highBase)
      ensures AllGranted() && Usable(old(lv)) ==> ok
    {
      ghost var was, k := lv, calls;
      var ret: int;
      ret, refused := Map(Low, 0, c);
      if ret < 0 {
        return false, refused;
      }
      ghost var before := lv;
      ok, refused := MapNext(High, c.highBase, c, was, k, refused);
      LaterKeepsEarlier(before, lv, Low, High, 0);
    }

    method MapRest(c: Ctx, ghost was: Levels, ghost k: nat, ghost n: nat) returns (ok: bool, ghost refused: nat)
      requires Valid() && c.Apart() && Outcome(os, was, lv, c, k, calls, n, true) && |regions| <= 4
      requires regions == RegionsOf(lv, Low, 0) + RegionsOf(lv, High, c.highBase)
      modifies this`lv, this`regions, this`calls
      ensures Valid() && Outcome(os, was, lv, c, k, calls, refused, ok)
      ensures ok ==> regions == AllRegions(lv, c) && lv[0].fd >= 0
      ensures AllGranted() && Usable(was) ==> ok
    {
      ghost var start := lv;
      ok, refused := MapNext(Bios, 4 * GB - c.bios, c, was, k, n);
      if ok {
        ghost var before := lv;
        ok, refused := MapNext(Fb, 4 * GB - c.bios - c.fb, c, was, k, refused);
        RegionsAddUp(start, before, lv, c);
      }
    }

    /** One more segment after those that began at `was`. */
    method MapNext(seg: Segment, base: nat, ghost c: Ctx, ghost was: Levels, ghost k: nat, ghost n: nat)
      returns (ok: bool, ghost refused: nat)
      requires Valid() && Outcome(os, was, lv, c, k, calls, n, true) && |regions| + 2 <= MAX_REGIONS
      modifies this`lv, this`regions, this`calls
      ensures Valid() && Shifted(old(lv), lv, seg) && Outcome(os, was, lv, c, k, calls, refused, ok)
      ensures |regions| <= |old(regions)| + 2 && (ok ==> regions == old(regions) + RegionsOf(lv, seg, base))
      ensures ok && MapLength(lv, 0, seg) > 0 ==> lv[0].fd >= 0
      ensures AllGranted() && Usable(was) ==> ok
    {
      ghost var before, mid := lv, calls;
      ghost var given;
      var ret: int;
      ret, given := Map(seg, base, c);
      ok, refused := ret >= 0, n + given;
      OutcomeTwice(os, was, before, lv, c, k, mid, calls, n, given, ok);
    }

    /** `vm_setup_memory`: memory beyond 2 GB goes above 4 GB. */
    method SetupVm(memsize: nat, bios: nat) returns (ok: bool, c: Ctx, ghost refused: nat)
      requires Valid() && Distinct(lv) && bios + FB_SIZE <= 2 * GB
      modifies this
      ensures lvMax == old(lvMax) && Valid() && Distinct(lv)
      ensures c == Ctx(if memsize > 2 * GB then 2 * GB else memsize, if memsize > 2 * GB then memsize - 2 * GB else 0,
                       bios, FB_SIZE, 4 * GB)
      ensures ok ==> IsSetUp(lv, c) && regions == AllRegions(lv, c)
      ensures ok && lvMax == 2 && lv[1].fd >= 0 ==>
        LargeBytes(lv[1]) == WholeLargePages(c) - GB * Refused(os, old(calls), calls)
    {
      var limit := 2 * GB;
      if memsize > limit {
        c := Ctx(limit, memsize - limit, bios, FB_SIZE, 4 * GB);
      } else {
        c := Ctx(memsize, 0, bios, FB_SIZE, 4 * GB);
      }
      ok, refused := Setup(c);
    }

    /** `vm_find_memfd_region` */
    method FindMemfdRegion(gpa: nat) returns (place: Option<Place>)
      ensures place == Find(regions, gpa)
    {
      for i := 0 to |regions|
        invariant Find(regions, gpa) == Find(regions[i..], gpa)
      {
        if regions[i].start <= gpa < regions[i].end {
          return Some(Place(regions[i].fd, gpa - regions[i].start + regions[i].fdOffset));
        }
      }
      return None;
    }

    /** `vm_allow_dmabuf` */
    method AllowDmabuf(c: Ctx) returns (allow: bool)
      ensures allow <==> AllowsDmabuf(lv, c)
    {
      if c.high > 0 && lv[0].fd > 0 && lv[0].high > 0 && lv[1].fd > 0 && lv[1].high > 0 {
        return false;
      }
      if c.low > 0 && lv[0].fd > 0 && lv[0].low > 0 && lv[1].fd > 0 && lv[1].low > 0 {
        return false;
      }
      return true;
    }
  }

  predicate OnBothLevels(lv: Levels, seg: Segment) {
    lv[0].fd > 0 && lv[0].Size(seg) > 0 && lv[1].fd > 0 && lv[1].Size(seg) > 0
  }

  /** A descriptor and an offset in its file. */
  datatype Place = Place(fd: int, offset: nat)

  function Find(regions: seq<Region>, gpa: nat): Option<Place> {
    if regions == [] then None
    else if regions[0].Has(gpa) then Some(Place(regions[0].fd, gpa - regions[0].start + regions[0].fdOffset))
    else Find(regions[1..], gpa)
  }

  /** The state a successful setup leaves. */
  predicate IsSetUp(lv: Levels, c: Ctx) {
    && c.Apart() && c.fb == FB_SIZE && SharesOut(lv, c) && Distinct(lv)
    && lv[0].fd >= 0 && (lv[1].fd < 0 ==> lv[1].Empty()) && lv[1].fb == 0
  }

  lemma RegionsAddUp(lv: Levels, lv': Levels, lv'': Levels, c: Ctx)
    requires c.Apart() && Shifted(lv, lv', Bios) && Shifted(lv', lv'', Fb)
    ensures RegionsOf(lv, Low, 0) + RegionsOf(lv, High, c.highBase) + RegionsOf(lv', Bios, 4 * GB - c.bios)
            + RegionsOf(lv'', Fb, 4 * GB - c.bios - c.fb) == AllRegions(lv'', c)
  {
    LaterKeepsEarlier(lv, lv', Low, Bios, 0);
    LaterKeepsEarlier(lv', lv'', Low, Fb, 0);
    LaterKeepsEarlier(lv, lv', High, Bios, c.highBase);
    LaterKeepsEarlier(lv', lv'', High, Fb, c.highBase);
    LaterKeepsEarlier(lv', lv'', Bios, Fb, 4 * GB - c.bios);
  }

  lemma LaterKeepsEarlier(lv: Levels, lv': Levels, earlier: Segment, seg: Segment, base: nat)
    requires Shifted(lv, lv', seg)
    requires earlier == Low || (earlier == High && seg != Low) || (earlier == Bios && seg == Fb)
    requires earlier != seg
    ensures RegionsOf(lv', earlier, base) == RegionsOf(lv, earlier, base)
  {
  }

  /** Where a guest address is kept, straight from the split. */
  function Locate(lv: Levels, c: Ctx, gpa: nat): Option<Place>
    requires c.Apart()
  {
    if c.InSegment(Low, gpa) then Some(LocateIn(lv, Low, gpa))
    else if c.InSegment(High, gpa) then Some(LocateIn(lv, High, gpa - c.highBase))
    else if c.InSegment(Bios, gpa) then Some(LocateIn(lv, Bios, gpa - (4 * GB - c.bios)))
    else if c.InSegment(Fb, gpa) then Some(LocateIn(lv, Fb, gpa - (4 * GB - c.bios - c.fb)))
    else None
  }

  /** Byte `k` of a segment: the large pages hold its first bytes. */
  function LocateIn(lv: Levels, seg: Segment, k: nat): Place {
    var big := lv[1].Size(seg);
    if k < big then Place(lv[1].fd, lv[1].Skip(seg) + k) else Place(lv[0].fd, lv[0].Skip(seg) + (k - big))
  }

  lemma {:induction false} FindConcat(s: seq<Region>, t: seq<Region>, gpa: nat)
    ensures Find(s + t, gpa) == if Find(s, gpa).Some? then Find(s, gpa) else Find(t, gpa)
  {
    if s == [] {
      assert s + t == t;
    } else {
      assert (s + t)[1..] == s[1..] + t;
      FindConcat(s[1..], t, gpa);
    }
  }

  lemma FindRegionAt(l: Level, seg: Segment, base: nat, len: nat, gpa: nat)
    ensures Find(RegionAt(l, seg, base, len), gpa) ==
            if base <= gpa < base + len then Some(Place(l.fd, l.Skip(seg) + (gpa - base))) else None
  {
    if len > 0 {
      var r := Region(base, base + len, l.Skip(seg), l.fd);
      assert Find([r][1..], gpa) == None;
    }
  }

  lemma MapLengthIsSize(lv: Levels, c: Ctx, seg: Segment)
    requires IsSetUp(lv, c)
    ensures MapLength(lv, 1, seg) == lv[1].Size(seg) && MapLength(lv, 0, seg) == lv[0].Size(seg)
    ensures lv[1].Size(seg) + lv[0].Size(seg) == c.Size(seg)
  {
    assert Shares(lv, c, seg);
  }

  /** The lookup over the regions of one segment, `big` and `small` bytes long. */
  lemma FindInTwo(lv: Levels, seg: Segment, base: nat, gpa: nat)
    requires MapLength(lv, 1, seg) == lv[1].Size(seg) && MapLength(lv, 0, seg) == lv[0].Size(seg)
    ensures Find(RegionsOf(lv, seg, base), gpa) ==
            if base <= gpa < base + lv[1].Size(seg) + lv[0].Size(seg) then Some(LocateIn(lv, seg, gpa - base)) else None
  {
    var big, small := MapLength(lv, 1, seg), MapLength(lv, 0, seg);
    FindConcat(RegionAt(lv[1], seg, base, big), RegionAt(lv[0], seg, base + big, small), gpa);
    FindRegionAt(lv[1], seg, base, big, gpa);
    FindRegionAt(lv[0], seg, base + big, small, gpa);
  }

  lemma FindInSegment(lv: Levels, c: Ctx, seg: Segment, base: nat, gpa: nat)
    requires IsSetUp(lv, c) && base == c.Base(seg)
    ensures Find(RegionsOf(lv, seg, base), gpa) ==
            if c.InSegment(seg, gpa) then Some(LocateIn(lv, seg, gpa - base)) else None
  {
    MapLengthIsSize(lv, c, seg);
    FindInTwo(lv, seg, base, gpa);
  }

  /** The lookup over the recorded regions finds the place the split dictates: the regions tile guest
      memory, each byte of a segment once and no other address. */
  lemma FindIsLocate(lv: Levels, c: Ctx, gpa: nat)
    requires IsSetUp(lv, c)
    ensures Find(AllRegions(lv, c), gpa) == Locate(lv, c, gpa)
    ensures Find(AllRegions(lv, c), gpa).Some? <==> c.IsRam(gpa)
  {
    var low, high := RegionsOf(lv, Low, 0), RegionsOf(lv, High, c.highBase);
    var bios, fb := RegionsOf(lv, Bios, 4 * GB - c.bios), RegionsOf(lv, Fb, 4 * GB - c.bios - c.fb);
    assert AllRegions(lv, c) == low + high + bios + fb;
    FindConcat(low + high + bios, fb, gpa);
    FindConcat(low + high, bios, gpa);
    FindConcat(low, high, gpa);
    FindInSegment(lv, c, Low, 0, gpa);
    FindInSegment(lv, c, High, c.highBase, gpa);
    FindInSegment(lv, c, Bios, 4 * GB - c.bios, gpa);
    FindInSegment(lv, c, Fb, 4 * GB - c.bios - c.fb, gpa);
  }

  /** Every place, written out: where each segment of guest memory lies, and where in which file it is kept. */
  lemma PlacesInFull(lv: Levels, c: Ctx, gpa: nat)
    requires IsSetUp(lv, c)
    ensures gpa < c.low ==>
      Find(AllRegions(lv, c), gpa) ==
      Some(if gpa < lv[1].low then Place(lv[1].fd, gpa) else Place(lv[0].fd, gpa - lv[1].low))
    ensures c.highBase <= gpa < c.highBase + c.high ==> var k := gpa - c.highBase;
      Find(AllRegions(lv, c), gpa) ==
      Some(if k < lv[1].high then Place(lv[1].fd, lv[1].low + k) else Place(lv[0].fd, lv[0].low + (k - lv[1].high)))
    ensures 4 * GB - c.bios <= gpa < 4 * GB ==> var k := gpa - (4 * GB - c.bios);
      Find(AllRegions(lv, c), gpa) ==
      Some(if k < lv[1].bios then Place(lv[1].fd, lv[1].low + lv[1].high + k)
           else Place(lv[0].fd, lv[0].low + lv[0].high + (k - lv[1].bios)))
    ensures 4 * GB - c.bios - c.fb <= gpa < 4 * GB - c.bios ==>
      Find(AllRegions(lv, c), gpa) ==
      Some(Place(lv[0].fd, lv[0].low + lv[0].high + lv[0].bios + (gpa - (4 * GB - c.bios - c.fb))))
  {
    FindIsLocate(lv, c, gpa);
    MapLengthIsSize(lv, c, Fb);
  }

  predicate DisjointRegions(r: Region, t: Region) {
    r.end <= t.start || t.end <= r.start
  }

  predicate Disjoint(s: seq<Region>) {
    forall i, j :: 0 <= i < j < |s| ==> DisjointRegions(s[i], s[j])
  }

  /** All the regions lie in one range. */
  predicate WithinRange(s: seq<Region>, start: int, end: int) {
    forall i :: 0 <= i < |s| ==> start <= s[i].start < s[i].end <= end
  }

  lemma SegmentDisjoint(lv: Levels, c: Ctx, seg: Segment, base: nat)
    requires IsSetUp(lv, c)
    ensures Disjoint(RegionsOf(lv, seg, base)) && WithinRange(RegionsOf(lv, seg, base), base, base + c.Size(seg))
  {
    MapLengthIsSize(lv, c, seg);
  }

  predicate Separate(s: seq<Region>, t: seq<Region>) {
    forall i, j :: 0 <= i < |s| && 0 <= j < |t| ==> DisjointRegions(s[i], t[j])
  }

  lemma SeparateRanges(s: seq<Region>, a: int, b: int, t: seq<Region>, c: int, d: int)
    requires WithinRange(s, a, b) && WithinRange(t, c, d) && (b <= c || d <= a)
    ensures Separate(s, t)
  {
  }

  lemma SeparateConcat(s: seq<Region>, t: seq<Region>, u: seq<Region>)
    requires Separate(s, u) && Separate(t, u)
    ensures Separate(s + t, u)
  {
  }

  lemma DisjointConcat(s: seq<Region>, t: seq<Region>)
    requires Disjoint(s) && Disjoint(t) && Separate(s, t)
    ensures Disjoint(s + t)
  {
    var all := s + t;
    forall i, j | 0 <= i < j < |all|
      ensures DisjointRegions(all[i], all[j])
    {
      if j < |s| {
        assert DisjointRegions(s[i], s[j]);
      } else if i >= |s| {
        assert DisjointRegions(t[i - |s|], t[j - |s|]);
      } else {
        assert DisjointRegions(s[i], t[j - |s|]);
      }
    }
  }

  lemma FourDisjoint(p: seq<Region>, q: seq<Region>, r: seq<Region>, s: seq<Region>)
    requires Disjoint(p) && Disjoint(q) && Disjoint(r) && Disjoint(s)
    requires Separate(p, q) && Separate(p, r) && Separate(q, r) && Separate(p, s) && Separate(q, s) && Separate(r, s)
    ensures Disjoint(p + q + r + s)
  {
    DisjointConcat(p, q);
    SeparateConcat(p, q, r);
    DisjointConcat(p + q, r);
    SeparateConcat(p, q, s);
    SeparateConcat(p + q, r, s);
    DisjointConcat(p + q + r, s);
  }

  lemma SegmentsSeparate(lv: Levels, c: Ctx, s: Segment, at: nat, t: Segment, at': nat)
    requires IsSetUp(lv, c) && s != t && at == c.Base(s) && at' == c.Base(t)
    ensures Separate(RegionsOf(lv, s, at), RegionsOf(lv, t, at'))
  {
    SegmentDisjoint(lv, c, s, at);
    SegmentDisjoint(lv, c, t, at');
    SeparateRanges(RegionsOf(lv, s, at), at, at + c.Size(s), RegionsOf(lv, t, at'), at', at' + c.Size(t));
  }

  lemma SegmentAlone(lv: Levels, c: Ctx, seg: Segment, at: nat)
    requires IsSetUp(lv, c)
    ensures Disjoint(RegionsOf(lv, seg, at))
  {
    SegmentDisjoint(lv, c, seg, at);
  }

  /** No two of the recorded regions share a guest address. */
  lemma RegionsDisjoint(lv: Levels, c: Ctx)
    requires IsSetUp(lv, c)
    ensures Disjoint(AllRegions(lv, c))
  {
    var atBios, atFb := 4 * GB - c.bios, 4 * GB - c.bios - c.fb;
    SegmentAlone(lv, c, Low, 0);
    SegmentAlone(lv, c, High, c.highBase);
    SegmentAlone(lv, c, Bios, atBios);
    SegmentAlone(lv, c, Fb, atFb);
    SegmentsSeparate(lv, c, Low, 0, High, c.highBase);
    SegmentsSeparate(lv, c, Low, 0, Bios, atBios);
    SegmentsSeparate(lv, c, High, c.highBase, Bios, atBios);
    SegmentsSeparate(lv, c, Low, 0, Fb, atFb);
    SegmentsSeparate(lv, c, High, c.highBase, Fb, atFb);
    SegmentsSeparate(lv, c, Bios, atBios, Fb, atFb);
    FourDisjoint(RegionsOf(lv, Low, 0), RegionsOf(lv, High, c.highBase),
                 RegionsOf(lv, Bios, atBios), RegionsOf(lv, Fb, atFb));
  }

  /** A byte of a segment lies in its level's file between the segments before and after it. */
  lemma PlaceInFile(lv: Levels, c: Ctx, seg: Segment, k: nat)
    requires IsSetUp(lv, c) && k < c.Size(seg)
    ensures var p := LocateIn(lv, seg, k);
      if p.fd == lv[1].fd then k < lv[1].Size(seg) && p.offset == lv[1].Skip(seg) + k
      else
        && p.fd == lv[0].fd && lv[1].Size(seg) <= k < lv[1].Size(seg) + lv[0].Size(seg)
        && p.offset == lv[0].Skip(seg) + (k - lv[1].Size(seg))
  {
    assert Shares(lv, c, seg);
  }

  lemma SkipsApart(l: Level, s: Segment, t: Segment, a: nat, b: nat)
    requires a < l.Size(s) && b < l.Size(t) && l.Skip(s) + a == l.Skip(t) + b
    ensures s == t && a == b
  {
  }

  lemma LocateInInjective(lv: Levels, c: Ctx, s: Segment, a: nat, t: Segment, b: nat)
    requires IsSetUp(lv, c) && a < c.Size(s) && b < c.Size(t)
    requires LocateIn(lv, s, a) == LocateIn(lv, t, b)
    ensures s == t && a == b
  {
    PlaceInFile(lv, c, s, a);
    PlaceInFile(lv, c, t, b);
    if LocateIn(lv, s, a).fd == lv[1].fd {
      SkipsApart(lv[1], s, t, a, b);
    } else {
      SkipsApart(lv[0], s, t, a - lv[1].Size(s), b - lv[1].Size(t));
    }
  }

  /** The segment an address of guest memory is in, and where in it. */
  lemma InWhichSegment(lv: Levels, c: Ctx, gpa: nat) returns (seg: Segment, k: nat)
    requires IsSetUp(lv, c) && c.IsRam(gpa)
    ensures k < c.Size(seg) && gpa == c.Base(seg) + k && Locate(lv, c, gpa) == Some(LocateIn(lv, seg, k))
  {
    seg := if c.InSegment(Low, gpa) then Low else if c.InSegment(High, gpa) then High
           else if c.InSegment(Bios, gpa) then Bios else Fb;
    k := gpa - c.Base(seg);
  }

  /** Distinct guest addresses are kept at distinct places. */
  lemma FindInjective(lv: Levels, c: Ctx, a: nat, b: nat)
    requires IsSetUp(lv, c) && c.IsRam(a) && c.IsRam(b)
    requires Find(AllRegions(lv, c), a) == Find(AllRegions(lv, c), b)
    ensures a == b
  {
    FindIsLocate(lv, c, a);
    FindIsLocate(lv, c, b);
    var s, i := InWhichSegment(lv, c, a);
    var t, j := InWhichSegment(lv, c, b);
    LocateInInjective(lv, c, s, i, t, j);
  }

  /** The second place is `d` bytes after the first, in the same file. */
  predicate Follows(p: Option<Place>, q: Option<Place>, d: nat) {
    p.Some? && q == Some(Place(p.value.fd, p.value.offset + d))
  }

  /** Consecutive addresses of a segment are consecutive in one file. */
  ghost predicate Contiguous(lv: Levels, c: Ctx, seg: Segment)
    requires c.Apart()
  {
    forall a: nat, b: nat :: c.InSegment(seg, a) && c.InSegment(seg, b) && a <= b ==>
      var regions := AllRegions(lv, c);
      Follows(Find(regions, a), Find(regions, b), b - a)
  }

  /** The lookup of an address of a segment. */
  lemma FindWithin(lv: Levels, c: Ctx, seg: Segment, gpa: nat)
    requires IsSetUp(lv, c) && c.InSegment(seg, gpa)
    ensures Find(AllRegions(lv, c), gpa) == Some(LocateIn(lv, seg, gpa - c.Base(seg)))
  {
    FindIsLocate(lv, c, gpa);
  }

  /** On one level, later bytes of a segment come later in the same file. */
  lemma LocateStep(lv: Levels, seg: Segment, i: nat, j: nat)
    requires lv[0].Size(seg) == 0 || lv[1].Size(seg) == 0
    requires i <= j < lv[0].Size(seg) + lv[1].Size(seg)
    ensures LocateIn(lv, seg, j) == Place(LocateIn(lv, seg, i).fd, LocateIn(lv, seg, i).offset + (j - i))
  {
  }

  lemma PairContiguous(lv: Levels, c: Ctx, seg: Segment, a: nat, b: nat)
    requires IsSetUp(lv, c) && !Split(lv, seg)
    requires c.InSegment(seg, a) && c.InSegment(seg, b) && a <= b
    ensures var regions := AllRegions(lv, c);
      Follows(Find(regions, a), Find(regions, b), b - a)
  {
    MapLengthIsSize(lv, c, seg);
    FindWithin(lv, c, seg, a);
    FindWithin(lv, c, seg, b);
    LocateStep(lv, seg, a - c.Base(seg), b - c.Base(seg));
  }

  lemma OneLevelContiguous(lv: Levels, c: Ctx, seg: Segment)
    requires IsSetUp(lv, c) && !Split(lv, seg)
    ensures Contiguous(lv, c, seg)
  {
    forall a: nat, b: nat | c.InSegment(seg, a) && c.InSegment(seg, b) && a <= b
      ensures var regions := AllRegions(lv, c);
        Follows(Find(regions, a), Find(regions, b), b - a)
    {
      PairContiguous(lv, c, seg, a, b);
    }
  }

  /** Some of a segment is in large pages and some in small ones. */
  predicate Split(lv: Levels, seg: Segment) {
    lv[0].Size(seg) > 0 && lv[1].Size(seg) > 0
  }

  lemma TwoLevelsApart(lv: Levels, c: Ctx, seg: Segment)
    requires IsSetUp(lv, c) && Split(lv, seg)
    ensures !Contiguous(lv, c, seg)
  {
    MapLengthIsSize(lv, c, seg);
    var b: nat := c.Base(seg) + lv[1].Size(seg);
    var a: nat := b - 1;
    FindWithin(lv, c, seg, a);
    FindWithin(lv, c, seg, b);
  }

  /** A segment is contiguous exactly when it is not split between the levels. */
  lemma ContiguousIff(lv: Levels, c: Ctx, seg: Segment)
    requires IsSetUp(lv, c)
    ensures Contiguous(lv, c, seg) <==> !Split(lv, seg)
  {
    if Split(lv, seg) {
      TwoLevelsApart(lv, c, seg);
    } else {
      OneLevelContiguous(lv, c, seg);
    }
  }

  /** What `vm_allow_dmabuf` answers. */
  predicate AllowsDmabuf(lv: Levels, c: Ctx) {
    (c.high > 0 ==> !OnBothLevels(lv, High)) && (c.low > 0 ==> !OnBothLevels(lv, Low))
  }

  /** Low and high memory being contiguous is always reason enough to allow dma-buf; the answer is right exactly
      when no file of a split segment has descriptor 0, which the code takes for a closed one. */
  lemma DmabufIffContiguous(lv: Levels, c: Ctx)
    requires IsSetUp(lv, c)
    ensures Contiguous(lv, c, Low) && Contiguous(lv, c, High) ==> AllowsDmabuf(lv, c)
    ensures (AllowsDmabuf(lv, c) <==> Contiguous(lv, c, Low) && Contiguous(lv, c, High)) <==>
            (lv[0].fd > 0 && lv[1].fd > 0) || (!Split(lv, Low) && !Split(lv, High))
  {
    ContiguousIff(lv, c, Low);
    ContiguousIff(lv, c, High);
    MapLengthIsSize(lv, c, Low);
    MapLengthIsSize(lv, c, High);
  }

  /** The answer can be wrong: with descriptor 0 for the small pages and low memory in both sizes, dma-buf is allowed
      although low memory is not consecutive in one file. */
  lemma DmabufWrongAtZero()
    ensures var lv: Levels := [Level(0, 2 * MB, 0, 0, FB_SIZE, 0), Level(5, GB, 0, 0, 0, 0)];
      var c := Ctx(GB + 2 * MB, 0, 0, FB_SIZE, 4 * GB);
      IsSetUp(lv, c) && AllowsDmabuf(lv, c) && !Contiguous(lv, c, Low)
  {
    var lv: Levels := [Level(0, 2 * MB, 0, 0, FB_SIZE, 0), Level(5, GB, 0, 0, 0, 0)];
    TwoLevelsApart(lv, Ctx(GB + 2 * MB, 0, 0, FB_SIZE, 4 * GB), Low);
  }

  /** `vm_map_gpa` relative to the host base: what it adds, or nothing; the sum of address and length
      is taken in 64 bits. */
  function MapGpa(c: Ctx, gaddr: u64, len: u64): Option<u64> {
    var end := (gaddr + len) % U64_SPAN;
    if c.low > 0 && gaddr < c.low && len <= c.low && end <= c.low then Some(gaddr)
    else if c.high > 0 && c.highBase <= gaddr < c.highBase + c.high && len <= c.high && end <= c.highBase + c.high then
      Some(gaddr)
    else None
  }

  /** It answers exactly when the whole range lies in low memory or in high memory, starting inside. */
  lemma MapGpaIff(c: Ctx, gaddr: u64, len: u64)
    requires c.highBase + 2 * c.high < U64_SPAN && 2 * c.low < U64_SPAN
    ensures MapGpa(c, gaddr, len).Some? <==>
            (gaddr < c.low && gaddr + len <= c.low) ||
            (c.highBase <= gaddr < c.highBase + c.high && gaddr + len <= c.highBase + c.high)
  {
  }

  /** `ALIGN_CHECK` of the four sizes */
  predicate Aligned(c: Ctx) {
    c.low % (2 * MB) == 0 && c.fb % (2 * MB) == 0 && c.bios % (2 * MB) == 0 && c.high % (2 * MB) == 0
  }

  /** What large pages leave of an aligned size is whole small pages. */
  lemma RestAligned(n: nat, big: nat)
    requires n % (2 * MB) == 0
    ensures big <= n && big % GB == 0 ==> AlignDown(n - big, 2 * MB) == n - big
  {
    if big <= n && big % GB == 0 {
      var q, r := n / (2 * MB), big / GB;
      DivModForm(n, 2 * MB);
      DivModForm(big, GB);
      assert n - big == (q - PAGE_RATIO * r) * (2 * MB);
      MultipleMod(q - PAGE_RATIO * r, 2 * MB);
    }
  }

  function AlignDown(x: nat, size: nat): (r: nat)
    requires size > 0
    ensures r <= x && r % size == 0 && x - r < size
  {
    DivModForm(x, size);
    MultipleMod(x / size, size);
    assert x - x % size == (x / size) * size;
    x - x % size
  }

  lemma MultipleMod(q: nat, size: nat)
    requires size > 0
    ensures (q * size) % size == 0
  {
    DivModUnique(q * size, size, q, 0);
  }

  predicate SameFiles(lv: Levels, lv': Levels) {
    lv[0].fd == lv'[0].fd && lv[1].fd == lv'[1].fd
  }

  predicate SameSizes(lv: Levels, lv': Levels) {
    lv[0].SameSizes(lv'[0]) && lv[1].SameSizes(lv'[1])
  }

  /** No two levels share an open file. */
  predicate Distinct(lv: Levels) {
    lv[0].fd >= 0 ==> lv[0].fd != lv[1].fd
  }
}
