/** Virtual cylinder/head/sector values for a disk. */
module Geometry {
  import opened Words

  type u8 = x: nat | x < 256

  const CHS_LIMIT: nat := 65535 * 16 * 255

  lemma CylindersCover(n: nat, s: nat, h: nat, c: nat)
    requires s > 0 && h > 0 && c == n / s / h
    ensures c * h * s <= n < c * h * s + h * s
  {
    var t := n / s;
    DivModForm(n, s);
    DivModForm(t, h);
    MulMonotone(t, c * h + h, s);
    MulMonotone(c * h - 1, t, s);
    Distribute(c * h, h, s);
    Distribute(c * h - 1, 1, s);
  }

  lemma DivBound(t: nat, h: nat)
    requires h > 0
    ensures t < U16_SPAN * h ==> t / h < U16_SPAN
  {
    DivModForm(t, h);
    MulMonotone(U16_SPAN - 1, t / h, h);
  }

  /** Seventeen sectors a track serve up to sixteen heads of 1024 cylinders, except that a count of exactly 1024
      cylinders for each of four or more heads is taken as not fitting. */
  predicate Fits17(hcyl: nat) {
    hcyl < 4 * 1024 || (hcyl < 16 * 1024 && hcyl % 1024 != 0)
  }

  /** The sectors a track, without any truncation: the first that serves of 17, 31 and 63, and 255 for what is beyond
      65536 cylinders of sixteen heads and 63 sectors. */
  function Sectors(sectors: nat): nat {
    if sectors >= 65536 * 16 * 63 then 255
    else if Fits17(sectors / 17) then 17
    else if sectors / 31 < 16 * 1024 then 31
    else 63
  }

  /** As many heads as it takes with seventeen sectors, at least four; otherwise sixteen. */
  function Heads(sectors: nat): nat {
    if Sectors(sectors) != 17 then 16
    else if sectors / 17 <= 4 * 1024 then 4
    else (sectors / 17 + 1023) / 1024
  }

  /** The choice `blockif_chs` makes of sectors per track and heads, the head count truncated to eight
      bits on the way. */
  method Layout(sectors: nat) returns (secpt: u16, heads: u8, hcyl: nat)
    requires sectors <= CHS_LIMIT
    ensures secpt in {17, 31, 63, 255} && 4 <= heads <= 16
    ensures hcyl == (if secpt == 17 then sectors / 17 else if secpt == 31 then sectors / 31
                     else if secpt == 63 then sectors / 63 else sectors / 255)
    ensures hcyl < U16_SPAN * heads
    ensures secpt == Sectors(sectors) && heads == Heads(sectors)
  {
    if sectors >= 65536 * 16 * 63 {
      secpt := 255;
      heads := 16;
      hcyl := sectors / 255;
    } else {
      secpt := 17;
      hcyl := sectors / 17;
      heads := ((hcyl + 1023) / 1024) % 256;
      if heads < 4 {
        heads := 4;
      }
      if hcyl >= heads * 1024 || heads > 16 {
        secpt := 31;
        heads := 16;
        hcyl := sectors / 31;
      }
      if hcyl >= heads * 1024 {
        secpt := 63;
        heads := 16;
        hcyl := sectors / 63;
      }
    }
  }

  /** `blockif_chs`, the cylinder count truncated to sixteen bits at the end: no truncation shows in
      the result, which wastes less than one cylinder. */
  method Chs(size: nat, sectsz: nat) returns (c: u16, h: u8, s: u8)
    requires sectsz > 0
    ensures 4 <= h <= 16 && s in {17, 31, 63, 255}
    ensures c * h * s <= size / sectsz
    ensures var n := size / sectsz; (if n > 65535 * 16 * 255 then 65535 * 16 * 255 else n) < c * h * s + h * s
    ensures c * h * s <= 65535 * 16 * 255
  {
    var sectors := size / sectsz;
    if sectors > CHS_LIMIT {
      sectors := CHS_LIMIT;
    }
    var secpt, heads, hcyl := Layout(sectors);
    c := (hcyl / heads) % U16_SPAN;
    h := heads;
    s := secpt;
    Cylinders(sectors, s, h, hcyl, c);
  }

  /** Truncating the cylinders to sixteen bits loses nothing. */
  lemma Cylinders(sectors: nat, secpt: nat, heads: nat, hcyl: nat, c: nat)
    requires secpt in {17, 31, 63, 255} && 0 < heads && hcyl < U16_SPAN * heads
    requires hcyl == (if secpt == 17 then sectors / 17 else if secpt == 31 then sectors / 31
                      else if secpt == 63 then sectors / 63 else sectors / 255)
    requires c == (hcyl / heads) % U16_SPAN
    ensures c * heads * secpt <= sectors < c * heads * secpt + heads * secpt
  {
    CylindersOf(sectors, secpt, hcyl);
    DivBound(hcyl, heads);
    SmallMod(hcyl / heads);
    CylindersCover(sectors, secpt, heads, c);
  }

  lemma SmallMod(x: nat)
    ensures x < U16_SPAN ==> x % U16_SPAN == x
  {
  }

  lemma CylindersOf(sectors: nat, secpt: nat, hcyl: nat)
    requires secpt in {17, 31, 63, 255}
    requires hcyl == (if secpt == 17 then sectors / 17 else if secpt == 31 then sectors / 31
                      else if secpt == 63 then sectors / 63 else sectors / 255)
    ensures hcyl == sectors / secpt
  {
  }
}
