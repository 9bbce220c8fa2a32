/** The portable 64 by 64 bit multiplication behind DMULT and DMULTU. */
module Multiply {
  import opened Words

  const TWO_TO_128 := 0x1_0000_0000_0000_0000_0000_0000_0000_0000

  type s64 = x: int | -0x8000_0000_0000_0000 <= x < 0x8000_0000_0000_0000

  lemma MulBounds(x: nat, y: nat, m: nat, n: nat)
    requires x <= m && y <= n
    ensures 0 <= x * y <= m * n
  {
    assert x * y <= m * y by { MulMono(x, m, y); }
    assert m * y <= m * n by { MulMono(y, n, m); }
  }

  lemma MulMono(x: nat, m: nat, y: nat)
    requires x <= m
    ensures x * y <= m * y && y * x <= y * m
  {
    assert m * y == x * y + (m - x) * y;
  }

  /** Schoolbook expansion in base `2^32`. */
  lemma Expand(ah: nat, al: nat, bh: nat, bl: nat)
    ensures (ah * 0x1_0000_0000 + al) * (bh * 0x1_0000_0000 + bl) ==
            ah * bh * 0x1_0000_0000_0000_0000 + (al * bh + ah * bl) * 0x1_0000_0000 + al * bl
  {
    var t := 0x1_0000_0000;
    calc {
      (ah * t + al) * (bh * t + bl);
      (ah * t) * (bh * t) + (ah * t) * bl + al * (bh * t) + al * bl;
      { assert (ah * t) * (bh * t) == ah * bh * (t * t); }
      ah * bh * (t * t) + (ah * bl) * t + (al * bh) * t + al * bl;
    }
  }

  /** Four partial products and their carries give the exact 128-bit product. */
  method MultU64(a: u64, b: u64) returns (hi: u64, lo: u64)
    ensures hi * TWO_TO_64 + lo == a * b
  {
    var aLo, aHi := a % 0x1_0000_0000, a / 0x1_0000_0000;
    var bLo, bHi := b % 0x1_0000_0000, b / 0x1_0000_0000;
    MulBounds(aLo, bLo, 0xFFFF_FFFF, 0xFFFF_FFFF);
    MulBounds(aLo, bHi, 0xFFFF_FFFF, 0xFFFF_FFFF);
    MulBounds(aHi, bLo, 0xFFFF_FFFF, 0xFFFF_FFFF);
    MulBounds(aHi, bHi, 0xFFFF_FFFF, 0xFFFF_FFFF);
    var p0: u64, p1: u64, p2: u64, p3: u64 := aLo * bLo, aLo * bHi, aHi * bLo, aHi * bHi;
    Expand(aHi, aLo, bHi, bLo);
    ghost var product := a * b;
    assert product == p3 * 0x1_0000_0000_0000_0000 + (p1 + p2) * 0x1_0000_0000 + p0;
    hi, lo := Carry(p0, p1, p2, p3, product);
  }

  /** The additions of `mult_u64`, which never exceed 64 bits. */
  method Carry(p0: u64, p1: u64, p2: u64, p3: u64, ghost product: nat) returns (hi: u64, lo: u64)
    requires p0 <= 0xFFFF_FFFE_0000_0001 && p1 <= 0xFFFF_FFFE_0000_0001
    requires p2 <= 0xFFFF_FFFE_0000_0001 && p3 <= 0xFFFF_FFFE_0000_0001
    requires product == p3 * 0x1_0000_0000_0000_0000 + (p1 + p2) * 0x1_0000_0000 + p0
    requires product < 0x1_0000_0000_0000_0000_0000_0000_0000_0000
    ensures hi * TWO_TO_64 + lo == product
  {
    var mid: u64 := p0 / 0x1_0000_0000 + p1 % 0x1_0000_0000 + p2 % 0x1_0000_0000;
    lo := p0 % 0x1_0000_0000 + mid % 0x1_0000_0000 * 0x1_0000_0000;
    hi := p3 + p1 / 0x1_0000_0000 + p2 / 0x1_0000_0000 + mid / 0x1_0000_0000;
  }

  /** The two's-complement value of a 128-bit pair. */
  function Signed128(hi: u64, lo: u64): int
  {
    var v := hi * TWO_TO_64 + lo;
    if hi < 0x8000_0000_0000_0000 then v else v - TWO_TO_128
  }

  function Bits(x: s64): u64
  {
    if x < 0 then x + TWO_TO_64 else x
  }

  /** The magnitude of a signed operand by complement and increment; `2^63` for the minimum. */
  function Magnitude(x: s64): u64
  {
    if x < 0 then (TWO_TO_64 - 1 - Bits(x) + 1) % TWO_TO_64 else Bits(x)
  }

  lemma MagnitudeProduct(a: s64, b: s64)
    ensures Magnitude(a) * Magnitude(b) == if (a < 0) != (b < 0) then -(a * b) else a * b
    ensures Magnitude(a) * Magnitude(b) <= 0x4000_0000_0000_0000_0000_0000_0000_0000
  {
    MulBounds(Magnitude(a), Magnitude(b), 0x8000_0000_0000_0000, 0x8000_0000_0000_0000);
  }

  method MultS64(a: s64, b: s64) returns (hi: u64, lo: u64)
    ensures Signed128(hi, lo) == a * b
  {
    var neg := (a < 0) != (b < 0);
    hi, lo := MultU64(Magnitude(a), Magnitude(b));
    MagnitudeProduct(a, b);
    ghost var product := a * b;
    assert hi * TWO_TO_64 + lo == if neg then -product else product;
    if neg {
      ghost var h, l := hi, lo;
      lo := (TWO_TO_64 - lo) % TWO_TO_64;
      hi := (TWO_TO_64 - 1 - hi + if lo == 0 then 1 else 0) % TWO_TO_64;
      Negated(h, l, hi, lo);
    }
  }

  /** Complement and carry negate a 128-bit value in place. */
  lemma Negated(h: u64, l: u64, hi: u64, lo: u64)
    requires h < 0x8000_0000_0000_0000
    requires lo == (TWO_TO_64 - l) % TWO_TO_64
    requires hi == (TWO_TO_64 - 1 - h + if lo == 0 then 1 else 0) % TWO_TO_64
    ensures Signed128(hi, lo) == -(h * TWO_TO_64 + l)
  {
    assert lo == 0 <==> l == 0;
  }
}
