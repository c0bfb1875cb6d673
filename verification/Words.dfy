/** Machine words of the device model and the bit tricks the C code plays with them. */
module Words {

  const U16_SPAN: nat := 0x1_0000
  const U32_SPAN: nat := 0x1_0000_0000
  const U64_SPAN: nat := 0x1_0000_0000_0000_0000

  type u16 = x: nat | x < U16_SPAN
  type u32 = x: nat | x < U32_SPAN
  type u64 = x: nat | x < U64_SPAN

  datatype Option<+T> = None | Some(value: T)

  /** `(uint16_t)(x + 1)` */
  function Inc16(x: u16): u16 {
    (x + 1) % U16_SPAN
  }

  /** `(uint16_t)(x - 1)` */
  function Dec16(x: u16): u16 {
    (x - 1) % U16_SPAN
  }

  /** `(uint16_t)(a - b)` */
  function Sub16(a: u16, b: u16): u16 {
    (a - b) % U16_SPAN
  }

  /** A wrapping difference of two counters less than 2^16 apart is their true difference. */
  lemma Sub16OfCounters(a: nat, b: nat)
    requires b <= a < b + U16_SPAN
    ensures Sub16(a % U16_SPAN, b % U16_SPAN) == a - b
  {
  }

  lemma Inc16OfCounter(x: nat)
    ensures Inc16(x % U16_SPAN) == (x + 1) % U16_SPAN
    ensures Dec16((x + 1) % U16_SPAN) == x % U16_SPAN
  {
  }

  /** Bitwise and of two non-negative numbers. */
  function And(a: nat, b: nat): (r: nat)
    ensures r <= a && r <= b
  {
    if a == 0 || b == 0 then 0
    else 2 * And(a / 2, b / 2) + (if a % 2 == 1 && b % 2 == 1 then 1 else 0)
  }

  /** The `k`-th bit of a number. */
  predicate Bit(a: nat, k: nat) {
    if k == 0 then a % 2 == 1 else Bit(a / 2, k - 1)
  }

  /** A bit of the conjunction is set exactly when it is set in both. */
  lemma {:induction false} AndBits(a: nat, b: nat, k: nat)
    ensures Bit(And(a, b), k) <==> Bit(a, k) && Bit(b, k)
  {
    if a == 0 || b == 0 {
      ZeroBits(k);
    } else if k > 0 {
      AndBits(a / 2, b / 2, k - 1);
    }
  }

  lemma {:induction false} ZeroBits(k: nat)
    ensures !Bit(0, k)
  {
    if k > 0 {
      ZeroBits(k - 1);
    }
  }

  function Pow2(k: nat): (r: nat)
    ensures r > 0
  {
    if k == 0 then 1 else 2 * Pow2(k - 1)
  }

  predicate PowerOfTwo(q: nat) {
    exists k: nat :: k <= 15 && q == Pow2(k)
  }

  lemma Distribute(x: int, y: int, n: int)
    ensures (x + y) * n == x * n + y * n
  {
  }

  lemma DivModForm(a: int, n: nat)
    requires n > 0
    ensures a == (a / n) * n + a % n && 0 <= a % n < n
  {
  }

  lemma MulMonotone(a: int, b: int, n: nat)
    ensures a < b ==> a * n + n <= b * n
  {
    if a < b {
      Distribute(a + 1, b - a - 1, n);
      Distribute(a, 1, n);
      assert (b - a - 1) * n >= 0;
    }
  }

  /** The quotient and the remainder of a division are unique. */
  lemma DivModUnique(a: nat, n: nat, q: nat, r: nat)
    requires r < n && a == q * n + r
    ensures a / n == q && a % n == r
  {
    DivModForm(a, n);
    MulMonotone(a / n, q, n);
    MulMonotone(q, a / n, n);
  }

  /** Masking with 2^k - 1 is the remainder modulo 2^k. */
  lemma {:induction false} MaskIsMod(a: nat, k: nat)
    ensures And(a, Pow2(k) - 1) == a % Pow2(k)
  {
    if k == 0 || a == 0 {
      assert a == 0 ==> a % Pow2(k) == 0 by { DivModUnique(0, Pow2(k), 0, 0); }
    } else {
      var p := Pow2(k - 1);
      MaskIsMod(a / 2, k - 1);
      AndOdd(a, p);
      HalfMod(a, p);
    }
  }

  lemma AndOdd(a: nat, p: nat)
    requires p > 0
    ensures And(a, 2 * p - 1) == 2 * And(a / 2, p - 1) + a % 2
  {
    assert (2 * p - 1) / 2 == p - 1;
  }

  lemma HalfMod(a: nat, m: nat)
    requires m > 0
    ensures a % (2 * m) == 2 * ((a / 2) % m) + a % 2
  {
    var h := a / 2;
    var q, r := h / m, h % m;
    assert h == q * m + r;
    assert q * (2 * m) == 2 * (q * m);
    DivModUnique(a, 2 * m, q, 2 * r + a % 2);
  }

  lemma {:induction false} Pow2Split(k: nat, j: nat)
    ensures Pow2(k + j) == Pow2(j) * Pow2(k)
  {
    if j > 0 {
      Pow2Split(k, j - 1);
      Associate(2, Pow2(j - 1), Pow2(k));
    }
  }

  /** Taking a remainder twice, the inner modulus a multiple of the outer one. */
  lemma ModOfMod(x: nat, q: nat, n: nat, c: nat)
    requires q > 0 && n > 0 && n == c * q
    ensures (x % n) % q == x % q
  {
    var y := x % n;
    DivModForm(x, n);
    DivModForm(y, q);
    Unwrap(x, x / n, y, c, q, n, y / q, y % q);
  }

  lemma Unwrap(x: nat, h: nat, y: nat, c: nat, q: nat, n: nat, g: nat, r: nat)
    requires x == h * n + y && n == c * q && y == g * q + r && r < q
    ensures x % q == r
  {
    MulNonNegative(h, c);
    TimesMultiple(h, c, q, n);
    RemainderOfSum(x, h * c, g, r, q);
  }

  lemma TimesMultiple(h: nat, c: nat, q: nat, n: nat)
    requires n == c * q
    ensures h * n == (h * c) * q
  {
    Associate(h, c, q);
  }

  lemma RemainderOfSum(x: nat, a: nat, g: nat, r: nat, q: nat)
    requires r < q && x == a * q + g * q + r
    ensures x % q == r
  {
    Distribute(a, g, q);
    DivModUnique(x, q, a + g, r);
  }

  lemma Associate(h: nat, c: nat, q: nat)
    ensures h * (c * q) == (h * c) * q
  {
  }

  lemma MulNonNegative(h: nat, c: nat)
    ensures h * c >= 0
  {
  }

  /** The slot of a ring of `q` slots that the `k`-th entry goes to: the remainder of `k` modulo `q`. */
  function Slot(k: nat, q: nat): (r: nat)
    requires q > 0
    ensures r < q
  {
    if k < q then k else Slot(k - q, q)
  }

  lemma {:induction false} SlotIsMod(k: nat, q: nat)
    requires q > 0
    ensures Slot(k, q) == k % q
  {
    if k < q {
      DivModUnique(k, q, 0, k);
    } else {
      SlotIsMod(k - q, q);
      assert k == ((k - q) / q) * q + (k - q) % q + q;
      assert ((k - q) / q) * q + q == ((k - q) / q + 1) * q;
      DivModUnique(k, q, (k - q) / q + 1, (k - q) % q);
    }
  }

  /** A 16-bit counter masked by `qsize - 1` is the slot of the unbounded counter it stands for. */
  lemma SlotOfCounter(x: nat, q: nat)
    requires PowerOfTwo(q)
    ensures And(x % U16_SPAN, q - 1) == Slot(x, q)
  {
    var k: nat :| k <= 15 && q == Pow2(k);
    MaskIsMod(x % U16_SPAN, k);
    Pow2Split(k, 16 - k);
    Pow2Of16();
    ModOfMod(x, q, U16_SPAN, Pow2(16 - k));
    SlotIsMod(x, q);
  }

  lemma Pow2Of16()
    ensures Pow2(16) == U16_SPAN
  {
    assert Pow2(4) == 16;
    assert Pow2(8) == 256 by { Pow2Split(4, 4); }
    Pow2Split(8, 8);
  }

  /** Two counters less than `q` apart do not share a slot. */
  lemma {:induction false} SlotsApart(a: nat, b: nat, q: nat)
    requires q > 0 && a < b < a + q
    ensures Slot(a, q) != Slot(b, q)
    decreases b
  {
    if a >= q {
      SlotsApart(a - q, b - q, q);
    }
  }
}
