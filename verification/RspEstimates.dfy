/** How good the RSP estimates are: error bounds over every operand, and what the sign and
    the special operands do. */
module RspEstimates {
  import opened Words
  import opened RspDivision

  /** What an estimate is made of: the normalised operand `n = x * 2^shift`, the ROM entry,
      and the truncating output shift `d`. */
  lemma EstimateParts(x: u32, squareRoot: bool, double: bool)
      returns (shift: nat, n: nat, d: nat, address: nat, full: nat, out: nat)
    requires 0 < x
    ensures shift == LeadingZeros(x) < 32 && n == x * Pow2(shift) && 0x8000_0000 <= n < 0x1_0000_0000
    ensures d == Pow2(OutputShift(shift, squareRoot)) && d > 0
    ensures address == RomAddress(n, shift, squareRoot) && full == ClampedEntry(address)
    ensures out == Estimate(x, squareRoot, double)
    ensures 0 < full <= 0x1_FFFF
    ensures out * d <= full * 0x4000 < (out + 1) * d
  {
    hide LeadingZeros, FullEntry, ClampedEntry, Isqrt, RomAddress, OutputShift, IsRoot;
    shift := LeadingZeros(x);
    n := x * Pow2(shift);
    d := Pow2(OutputShift(shift, squareRoot));
    address := RomAddress(n, shift, squareRoot);
    RomRange(address);
    full := ClampedEntry(address);
    out := Estimate(x, squareRoot, double);
    Quotient(full * 0x4000, d);
  }

  // ---------------------------------------------------------------- reciprocal

  /** The reciprocal entry for the nine leading fraction bits. */
  lemma ReciprocalEntry(a: nat)
    requires a < 512
    ensures 0x400_0000 - 1023 <= ClampedEntry(a) * (a + 512) <= 0x400_0000
    ensures if a == 0 then ClampedEntry(a) == 0x1_FFFF
            else 0x400_0000 < (ClampedEntry(a) + 1) * (a + 512) && ClampedEntry(a) < 0x1_FFFF
  {
    Quotient(0x400_0000, a + 512);
    if a > 0 {
      Scaled(513, a + 512, 0x400_0000 / (a + 512));
    }
    var q := 0x400_0000 / (a + 512);
    assert (q + 1) * (a + 512) == q * (a + 512) + (a + 512);
    Scaled(0x1_FFFF, q, a + 512);
  }

  /** `full * n`, for an operand `n` whose leading bits are `a + 512`, is 2^48 but for the
      bits of `n` the table cannot see. */
  lemma ReciprocalProduct(a: nat, n: nat, full: nat)
    requires a < 512 && full == ClampedEntry(a) && 0 < full <= 0x1_FFFF
    requires (a + 512) * 0x40_0000 <= n < (a + 513) * 0x40_0000
    ensures (0x400_0000 - 1023) * 0x40_0000 <= full * n
    ensures full * n < 0x400_0000 * 0x40_0000 + 0x80_0000_0000
  {
    hide ClampedEntry;
    ReciprocalEntry(a);
    var g := a + 512;
    Scaled(g * 0x40_0000, n, full);
    Scaled(n, (g + 1) * 0x40_0000, full);
    assert (g * 0x40_0000) * full == (full * g) * 0x40_0000;
    assert ((g + 1) * 0x40_0000) * full == (full * g + full) * 0x40_0000;
  }

  /** VRCP: the estimate of 2^31 / x is within one part in 2^9 above, and within one unit and
      one part in 2^16 below, for every positive operand. */
  lemma ReciprocalBound(x: s32, double: bool)
    requires 0 < x && (!double ==> x < 0x8000)
    ensures var out := DivisionEstimate(x, false, double);
      && 0 <= out && out * x < 0x8000_0000 + 0x40_0000
      && (out + 1) * x > 0x8000_0000 - 0x8000
  {
    hide Isqrt, FullEntry, ClampedEntry, LeadingZeros, Pow2, Estimate, IsRoot;
    var shift, n, d, address, full, out := EstimateParts(x, false, double);
    assert DivisionEstimate(x, false, double) == out;
    Pow2Add(31 - shift, shift);
    Pow2Of31();
    assert d * Pow2(shift) == 0x8000_0000;
    LeadingFraction(n);
    assert address + 512 == n / 0x40_0000;
    ReciprocalProduct(address, n, full);
    assert (full * 0x4000) * n == (full * n) * 0x4000;
    Between(out, full * 0x4000, x, d, Pow2(shift), 0x8000_0000);
  }

  lemma LeadingFraction(n: nat)
    requires 0x8000_0000 <= n < 0x1_0000_0000
    ensures n / 0x40_0000 == 512 + n / 0x40_0000 % 512
    ensures n / 0x40_0000 * 0x40_0000 <= n < (n / 0x40_0000 + 1) * 0x40_0000
  {
  }

  /** A quotient by `d`, times the operand, against the product of the unscaled values. */
  lemma Between(out: nat, m: nat, x: nat, d: nat, p: nat, one: nat)
    requires d * p == one && x * p > 0
    requires out * d <= m < (out + 1) * d
    ensures (out * x) * one <= m * (x * p) < ((out + 1) * x) * one
  {
    Cancel(out, x, d, p, one);
    Cancel(out + 1, x, d, p, one);
    var n := x * p;
    Scaled(out * d, m, n);
    Scaled(m, (out + 1) * d, n);
  }

  lemma Cancel(out: nat, x: nat, d: nat, p: nat, one: nat)
    requires d * p == one
    ensures (out * d) * (x * p) == (out * x) * one
  {
    assert (out * d) * (x * p) == (out * x) * (d * p) by {
      assert (out * d) * (x * p) == out * (d * (x * p));
      assert d * (x * p) == x * (d * p);
      assert out * (x * (d * p)) == (out * x) * (d * p);
    }
  }

  // ---------------------------------------------------------------- reciprocal square root

  /** The square-root entry for the eight leading fraction bits `g - 256` and the parity of
      the shift; clamping keeps the lower bound. */
  lemma RootEntry(index: nat)
    requires index < 512
    ensures var (full, g, power) := (ClampedEntry(512 + index), index / 2 + 256, RootPower(index));
      (full * full) * g <= power <= ((full + 1) * (full + 1)) * g
  {
    hide Isqrt, IsRoot, RootOperand, RootPower;
    OperandQuotient(index);
    var v := RootOperand(index);
    ClampedRoot(Isqrt(v), v, index / 2 + 256, RootPower(index), ClampedEntry(512 + index));
  }

  lemma ClampedRoot(r: nat, v: nat, g: nat, power: nat, full: nat)
    requires IsRoot(r, v) && g >= 256 && v * g <= power < v * g + g && power <= 0x400_0000_0000
    requires full == if r > 0x1_FFFF then 0x1_FFFF else r
    ensures (full * full) * g <= power <= ((full + 1) * (full + 1)) * g
  {
    RootScaled(r, v, g);
    hide IsRoot;
    if r > 0x1_FFFF {
      Squares(full, r);
      Scaled(full * full, r * r, g);
      Scaled(256, g, 0x4_0000_0000);
    }
  }

  lemma OperandQuotient(index: nat)
    ensures var (v, g, power) := (RootOperand(index), index / 2 + 256, RootPower(index));
      v * g <= power < v * g + g && power <= 0x400_0000_0000
  {
    var g := index / 2 + 256;
    Quotient(RootPower(index), g);
    var v := RootOperand(index);
    assert (v + 1) * g == v * g + g;
  }

  lemma RootScaled(r: nat, v: nat, g: nat)
    requires IsRoot(r, v)
    ensures (r * r) * g <= v * g && v * g + g <= ((r + 1) * (r + 1)) * g
  {
    Scaled(r * r, v, g);
    Scaled(v, (r + 1) * (r + 1), g);
  }

  /** `full^2 * n` against `2^e`, for an operand `n` whose leading bits are `g`. */
  lemma RootProduct(g: nat, n: nat, full: nat, power: nat)
    requires g >= 256 && full > 0
    requires (full * full) * g <= power <= ((full + 1) * (full + 1)) * g
    requires g * 0x80_0000 <= n < (g + 1) * 0x80_0000
    ensures (full * full) * n < power * 0x80_0000 + power * 0x8000
    ensures power * 0x80_0000 <= ((full + 1) * (full + 1)) * n
  {
    assert full * full > 0 by { Scaled(1, full, full); }
    ProductBelow(g, n, full * full);
    ProductAbove(g, n, (full + 1) * (full + 1));
  }

  lemma ProductBelow(g: nat, n: nat, sq: nat)
    requires g >= 256 && n < (g + 1) * 0x80_0000 && sq > 0
    ensures sq * n < (sq * g) * 0x80_0000 + (sq * g) * 0x8000
  {
    Scaled(n, (g + 1) * 0x80_0000, sq);
    assert ((g + 1) * 0x80_0000) * sq == (sq * g + sq) * 0x80_0000;
    Scaled(256, g, sq);
  }

  lemma ProductAbove(g: nat, n: nat, up: nat)
    requires g * 0x80_0000 <= n
    ensures (up * g) * 0x80_0000 <= up * n
  {
    Scaled(g * 0x80_0000, n, up);
    assert (g * 0x80_0000) * up == (up * g) * 0x80_0000;
  }

  /** The output shift squared undoes the operand's shift, up to the parity bit. */
  lemma ShiftSquared(shift: nat)
    requires shift < 32
    ensures var d := Pow2(OutputShift(shift, true));
      (d * d) * Pow2(shift) == if shift % 2 == 1 then 0x8000_0000 else 0x4000_0000
  {
    var k := (31 - shift) / 2;
    Pow2Of31();
    assert Pow2(31) == 2 * Pow2(30);
    assert 2 * k + shift == if shift % 2 == 1 then 31 else 30;
    hide Pow2;
    Pow2Add(k, k);
    Pow2Add(2 * k, shift);
  }

  /** The bits that address the square-root half of the table. */
  lemma RootAddress(n: nat, shift: nat)
    requires 0x8000_0000 <= n < 0x1_0000_0000
    ensures var index := RomAddress(n, shift, true) - 512;
      && 0 <= index < 512 && index % 2 == shift % 2
      && (index / 2 + 256) * 0x80_0000 <= n < (index / 2 + 257) * 0x80_0000
  {
    LeadingFraction(n);
  }

  /** VRSQ: with `d` the power of two for which d^2 <= x < 4d^2, the square of the estimate
      times the operand is within one part in 2^8 above 2^62, and one unit of the estimate and
      one ROM step (2^14 / d) bring it above 2^62, for every positive operand. */
  lemma SquareRootBound(x: s32, double: bool)
    requires 0 < x && (!double ==> x < 0x8000)
    ensures var (out, d) := (DivisionEstimate(x, true, double), Pow2((31 - LeadingZeros(x)) / 2));
      && d * d <= x < 4 * (d * d)
      && 0 <= out && (out * out) * x < 0x4000_0000_0000_0000 + 0x40_0000_0000_0000
      && var above := (out + 1) * d + 0x4000;
         (above * above) * x > 0x4000_0000_0000_0000 * (d * d)
  {
    hide Isqrt, FullEntry, ClampedEntry, LeadingZeros, Pow2, Estimate, IsRoot, RomAddress;
    var shift, n, d, address, full, out := EstimateParts(x, true, double);
    assert DivisionEstimate(x, true, double) == out;
    assert d == Pow2((31 - LeadingZeros(x)) / 2);
    RootAddress(n, shift);
    RootEntry(address - 512);
    var power := RootPower(address - 512);
    RootProduct((address - 512) / 2 + 256, n, full, power);
    ShiftSquared(shift);
    var one := (d * d) * Pow2(shift);
    assert power == one * 0x800;
    hide RootPower;
    OperandBetween(x, d, Pow2(shift));
    RootAbove(out, full, d, x, Pow2(shift));
    RootBelow(out, full, d, x, Pow2(shift));
  }

  lemma OperandBetween(x: nat, d: nat, p: nat)
    requires 0x8000_0000 <= x * p < 0x1_0000_0000
    requires (d * d) * p == 0x8000_0000 || (d * d) * p == 0x4000_0000
    ensures d * d <= x < 4 * (d * d)
  {
    var sq := d * d;
    Scaled(x + 1, sq, p);
    Scaled(4 * sq, x, p);
    assert (4 * sq) * p == 4 * (sq * p);
    assert (x + 1) * p == x * p + p;
  }

  lemma Regroup(a: nat, d: nat, x: nat, p: nat)
    ensures ((a * d) * (a * d)) * (x * p) == ((a * a) * x) * ((d * d) * p)
  {
    var aa, dd := a * a, d * d;
    assert (a * d) * (a * d) == aa * dd;
    assert (aa * dd) * (x * p) == aa * (dd * (x * p));
    assert dd * (x * p) == x * (dd * p);
    assert aa * (x * (dd * p)) == (aa * x) * (dd * p);
  }

  lemma RootAbove(out: nat, full: nat, d: nat, x: nat, p: nat)
    requires out * d <= full * 0x4000
    requires (d * d) * p > 0
    requires (full * full) * (x * p) < (((d * d) * p) * 0x800) * 0x80_8000
    ensures (out * out) * x < 0x4000_0000_0000_0000 + 0x40_0000_0000_0000
  {
    var n, one, y := x * p, (d * d) * p, (out * out) * x;
    Squares(out * d, full * 0x4000);
    Scaled((out * d) * (out * d), (full * 0x4000) * (full * 0x4000), n);
    assert ((full * 0x4000) * (full * 0x4000)) * n == ((full * full) * n) * 0x1000_0000;
    Regroup(out, d, x, p);
    Scaled(0x4000_0000_0000_0000 + 0x40_0000_0000_0000, y, one);
  }

  lemma RootBelow(out: nat, full: nat, d: nat, x: nat, p: nat)
    requires full * 0x4000 < (out + 1) * d
    requires x * p > 0
    requires (((d * d) * p) * 0x800) * 0x80_0000 <= ((full + 1) * (full + 1)) * (x * p)
    ensures var above := (out + 1) * d + 0x4000;
      (above * above) * x > 0x4000_0000_0000_0000 * (d * d)
  {
    var n, sq, above, m := x * p, d * d, (out + 1) * d + 0x4000, (full + 1) * 0x4000;
    StrictSquares(m, above);
    Scaled(m * m, above * above, n);
    assert (m * m) * n == (((full + 1) * (full + 1)) * n) * 0x1000_0000;
    assert (above * above) * n == ((above * above) * x) * p;
    assert 0x4000_0000_0000_0000 * (sq * p) == (0x4000_0000_0000_0000 * sq) * p;
    Scaled((above * above) * x, 0x4000_0000_0000_0000 * sq, p);
  }

  lemma StrictSquares(a: nat, b: nat)
    requires a < b
    ensures a * a < b * b
  {
    Squares(a + 1, b);
    assert (a + 1) * (a + 1) == a * a + 2 * a + 1;
  }

  // ---------------------------------------------------------------- sign and special cases

  /** Negative operands give the complement of the estimate of their magnitude, which double
      precision takes as the one's complement below -32768; zero and -32768 are special. */
  lemma NegativeComplement(input: s32, squareRoot: bool, double: bool)
    requires !double ==> -0x8000 <= input < 0x8000
    ensures -32768 < input < 0 ==>
      DivisionEstimate(input, squareRoot, double) == -1 - DivisionEstimate(-input, squareRoot, double)
    ensures input < -32768 ==>
      DivisionEstimate(input, squareRoot, double) == -1 - DivisionEstimate(-1 - input, squareRoot, double)
    ensures input == 0 ==> DivisionEstimate(input, squareRoot, double) == 0x7FFF_FFFF
    ensures input == -32768 ==> DivisionEstimate(input, squareRoot, double) == -0x1_0000
  {
    hide Estimate;
  }

  /** Both precisions agree on every 16-bit operand. */
  lemma PrecisionsAgree(input: s32, squareRoot: bool)
    requires -0x8000 <= input < 0x8000
    ensures DivisionEstimate(input, squareRoot, true) == DivisionEstimate(input, squareRoot, false)
  {
    hide DivisionRom, RomAddress, LeadingZeros;
  }
}
