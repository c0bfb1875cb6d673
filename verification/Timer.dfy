/** Conversion between timer ticks and timespecs. */
module Timer {
  import opened Words

  const NS_PER_SEC: nat := 1_000_000_000
  /** One more than the largest `time_t`. */
  const I64_SPAN: nat := 0x8000_0000_0000_0000

  datatype TimeSpec = TimeSpec(sec: nat, nsec: nat) {
    predicate Normalised() { nsec < NS_PER_SEC }

    function Ns(): nat { sec * NS_PER_SEC + nsec }
  }

  /** `howmany` in 64-bit arithmetic: the division rounds up unless the sum wraps. */
  function HowMany(x: u64, y: nat): u64
    requires y > 0
  {
    ((x + (y - 1)) % U64_SPAN) / y
  }

  /** `ts_to_ticks`, each 64-bit product wrapping. */
  function TsToTicks(freq: u32, ts: TimeSpec): u64 {
    (((ts.sec * freq) % U64_SPAN) + ((ts.nsec * freq) % U64_SPAN) / NS_PER_SEC) % U64_SPAN
  }

  /** `ticks_to_ts` */
  function TicksToTs(freq: u32, ticks: u64): TimeSpec
    requires freq > 0
  {
    var ns := HowMany((ticks * NS_PER_SEC) % U64_SPAN, freq);
    TimeSpec(ns / NS_PER_SEC, ns % NS_PER_SEC)
  }

  /** No product or sum of the conversion from ticks exceeds 64 bits. */
  predicate TicksFit(freq: u32, ticks: u64) {
    ticks * NS_PER_SEC + freq <= U64_SPAN
  }

  /** The signed product of the conversion to ticks does not overflow. */
  predicate TsFits(freq: u32, ts: TimeSpec) {
    ts.sec * freq < I64_SPAN
  }

  lemma FloorExact(n: nat, f: nat, sec: nat, nsec: nat)
    requires n == sec * NS_PER_SEC + nsec && nsec < NS_PER_SEC
    ensures sec * f + (nsec * f) / NS_PER_SEC == (n * f) / NS_PER_SEC
  {
    var q, r := (nsec * f) / NS_PER_SEC, (nsec * f) % NS_PER_SEC;
    assert n * f == (sec * f) * NS_PER_SEC + nsec * f;
    DivModUnique(n * f, NS_PER_SEC, sec * f + q, r);
  }

  lemma NothingWraps(freq: u32, a: nat, b: nat)
    requires a < I64_SPAN && b + freq <= NS_PER_SEC * freq
    ensures ((a % U64_SPAN) + (b % U64_SPAN) / NS_PER_SEC) % U64_SPAN == a + b / NS_PER_SEC
  {
  }

  /** Ticks are whole units of time, rounded down. */
  lemma TicksAreFloor(freq: u32, ts: TimeSpec)
    requires ts.Normalised() && TsFits(freq, ts)
    ensures TsToTicks(freq, ts) == (ts.Ns() * freq) / 1_000_000_000
    ensures ts.Ns() == ts.sec * 1_000_000_000 + ts.nsec && ts.nsec < 1_000_000_000
  {
    FloorExact(ts.Ns(), freq, ts.sec, ts.nsec);
    MulMonotone(ts.nsec, NS_PER_SEC, freq);
    NothingWraps(freq, ts.sec * freq, ts.nsec * freq);
  }

  /** A timespec made from ticks is their duration, rounded up. */
  lemma TimeIsCeiling(freq: u32, ticks: u64)
    requires freq > 0 && TicksFit(freq, ticks)
    ensures TicksToTs(freq, ticks).Normalised()
    ensures TicksToTs(freq, ticks).Ns() == (ticks * 1_000_000_000 + freq - 1) / freq
  {
    var x := ticks * NS_PER_SEC;
    assert x % U64_SPAN == x && (x + (freq - 1)) % U64_SPAN == x + (freq - 1);
    DivModForm((x + freq - 1) / freq, NS_PER_SEC);
  }

  lemma CeilingAtMost(x: nat, y: nat, n: nat)
    requires y > 0
    ensures (x + y - 1) / y <= n <==> x <= n * y
  {
    var c := (x + y - 1) / y;
    DivModForm(x + y - 1, y);
    MulMonotone(n, c, y);
    MulMonotone(c - 1, n, y);
  }

  lemma FloorAtLeast(x: nat, y: nat, t: nat)
    requires y > 0
    ensures t <= x / y <==> t * y <= x
  {
    DivModForm(x, y);
    MulMonotone(x / y, t, y);
    MulMonotone(t - 1, x / y, y);
  }

  /** The two conversions form a Galois pair: some ticks fit into a time exactly when their duration does. */
  lemma GaloisPair(freq: u32, ticks: u64, ts: TimeSpec)
    requires freq > 0 && ts.Normalised() && TicksFit(freq, ticks) && TsFits(freq, ts)
    ensures ticks <= TsToTicks(freq, ts) <==> TicksToTs(freq, ticks).Ns() <= ts.Ns()
  {
    TicksAreFloor(freq, ts);
    TimeIsCeiling(freq, ticks);
    CeilingAtMost(ticks * NS_PER_SEC, freq, ts.Ns());
    FloorAtLeast(ts.Ns() * freq, NS_PER_SEC, ticks);
  }

  /** Converting ticks to a time and back. */
  function RoundTrip(freq: u32, ticks: u64): u64
    requires freq > 0
  {
    TsToTicks(freq, TicksToTs(freq, ticks))
  }

  lemma CeilingBounds(x: nat, y: nat)
    requires y > 0
    ensures var c := (x + y - 1) / y; x <= c * y <= x + y - 1
  {
    DivModForm(x + y - 1, y);
  }

  /** The time made from ticks is itself within range. */
  lemma RoundTripFits(freq: u32, ticks: u64)
    requires freq > 0 && TicksFit(freq, ticks)
    ensures TsFits(freq, TicksToTs(freq, ticks))
  {
    TimeIsCeiling(freq, ticks);
    CeilingBounds(ticks * NS_PER_SEC, freq);
    var ts := TicksToTs(freq, ticks);
    Expand(ts, freq);
  }

  lemma Expand(ts: TimeSpec, freq: nat)
    ensures ts.Ns() * freq == (ts.sec * freq) * NS_PER_SEC + ts.nsec * freq
    ensures ts.nsec * freq >= 0
  {
    Distribute(ts.sec * NS_PER_SEC, ts.nsec, freq);
  }

  /** No tick is lost or gained at any clock up to one gigahertz. */
  lemma RoundTripExact(freq: u32, ticks: u64)
    requires 0 < freq <= NS_PER_SEC && TicksFit(freq, ticks)
    ensures RoundTrip(freq, ticks) == ticks
  {
    RoundTripFits(freq, ticks);
    TimeIsCeiling(freq, ticks);
    TicksAreFloor(freq, TicksToTs(freq, ticks));
    FloorOfCeiling(freq, ticks, TicksToTs(freq, ticks).Ns());
  }

  lemma FloorOfCeiling(freq: nat, ticks: nat, n: nat)
    requires 0 < freq <= NS_PER_SEC && n == (ticks * NS_PER_SEC + freq - 1) / freq
    ensures (n * freq) / NS_PER_SEC == ticks
  {
    CeilingBounds(ticks * NS_PER_SEC, freq);
    DivModUnique(n * freq, NS_PER_SEC, ticks, n * freq - ticks * NS_PER_SEC);
  }

  /** The bound of one gigahertz is exact. */
  lemma RoundTripExactIff(freq: u32)
    requires freq > 0
    ensures freq <= NS_PER_SEC <==> forall ticks: u64 :: TicksFit(freq, ticks) ==> RoundTrip(freq, ticks) == ticks
  {
    if freq <= NS_PER_SEC {
      forall ticks: u64 | TicksFit(freq, ticks)
        ensures RoundTrip(freq, ticks) == ticks
      {
        RoundTripExact(freq, ticks);
      }
    } else {
      var ticks: u64 := freq - 1;
      TimeIsCeiling(freq, ticks);
      CeilingAtMost(ticks * NS_PER_SEC, freq, NS_PER_SEC);
      CeilingAtMost(ticks * NS_PER_SEC, freq, NS_PER_SEC - 1);
      var ts := TicksToTs(freq, ticks);
      assert ts.Ns() == NS_PER_SEC;
      assert ts == TimeSpec(1, 0);
      assert TicksFit(freq, ticks) && RoundTrip(freq, ticks) == freq;
    }
  }
}
