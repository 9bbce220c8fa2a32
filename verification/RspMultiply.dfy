/** The RSP vector multiply and multiply-accumulate family over the 48-bit lane accumulators,
    and the 16.16 fixed-point product that four of them build. */
module RspMultiply {
  import opened Words

  const LANES := 8
  const REGISTERS := 32

  /** A lane accumulator: a signed 48-bit value. */
  type s48 = x: int | -0x8000_0000_0000 <= x < 0x8000_0000_0000
  type s32 = x: int | -0x8000_0000 <= x < 0x8000_0000
  type s16 = x: int | -0x8000 <= x < 0x8000

  /** The `function` field of the instructions modelled here. */
  datatype Op = VMULF | VMULU | VMUDL | VMUDM | VMUDN | VMUDH | VMACF | VMACU | VMADL | VMADM | VMADN | VMADH

  // ---------------------------------------------------------------- lane arithmetic

  function SignedLane(value: u16): s16 {
    if value < 0x8000 then value else value - 0x1_0000
  }

  function LaneBits(value: int): u16 {
    value % 0x1_0000
  }

  function FromAccumulatorBits(raw: nat): s48 {
    var low := raw % 0x1_0000_0000_0000;
    if low < 0x8000_0000_0000 then low else low - 0x1_0000_0000_0000
  }

  /** The cast to an unsigned 64-bit word comes first, as in the source. */
  function WrapAccumulator(value: int): s48 {
    FromAccumulatorBits(value % 0x1_0000_0000_0000_0000)
  }

  /** Wrapping is the only value in range that differs by a multiple of 2^48. */
  lemma WrapMeans(value: int, acc: s48, turns: int)
    ensures acc == value + 0x1_0000_0000_0000 * turns ==> WrapAccumulator(value) == acc
    ensures (WrapAccumulator(value) - value) % 0x1_0000_0000_0000 == 0
  {
    ModMod(value);
    if acc == value + 0x1_0000_0000_0000 * turns {
      if acc < 0 {
        DivMod(value, 0x1_0000_0000_0000, -turns - 1, acc + 0x1_0000_0000_0000);
      } else {
        DivMod(value, 0x1_0000_0000_0000, -turns, acc);
      }
    }
    Congruent(value);
  }

  lemma ModMod(value: int)
    ensures value % 0x1_0000_0000_0000_0000 % 0x1_0000_0000_0000 == value % 0x1_0000_0000_0000
  {
    var q, r := value / 0x1_0000_0000_0000_0000, value % 0x1_0000_0000_0000_0000;
    assert value == 0x1_0000_0000_0000 * (0x1_0000 * q + r / 0x1_0000_0000_0000) + r % 0x1_0000_0000_0000;
    DivMod(value, 0x1_0000_0000_0000, 0x1_0000 * q + r / 0x1_0000_0000_0000, r % 0x1_0000_0000_0000);
  }

  lemma Congruent(value: int)
    ensures (WrapAccumulator(value) - value) % 0x1_0000_0000_0000 == 0
  {
    ModMod(value);
    var q, r := value / 0x1_0000_0000_0000, value % 0x1_0000_0000_0000;
    DivMod(r - value, 0x1_0000_0000_0000, -q, 0);
    DivMod(r - 0x1_0000_0000_0000 - value, 0x1_0000_0000_0000, -q - 1, 0);
  }

  /** Division truncating toward zero, both operands taken as the source has them. */
  function AccumulatorShift16(acc: int): int {
    if acc >= 0 then acc / 0x1_0000 else -((-acc + 0xFFFF) / 0x1_0000)
  }

  /** The branch on the sign makes the truncating division a floor. */
  lemma ShiftIsFloor(acc: int)
    ensures AccumulatorShift16(acc) == acc / 0x1_0000
    ensures AccumulatorShift16(acc) * 0x1_0000 + LaneBits(acc) == acc
  {
  }

  function Clamp(value: int, low: int, high: int): (r: int)
    requires low <= high
    ensures low <= r <= high
  {
    if value < low then low else if value > high then high else value
  }

  function SignedClamp(value: int): u16 {
    LaneBits(Clamp(value, -0x8000, 0x7FFF))
  }

  function SignedAccumulatorClamp(acc: int): u16 {
    SignedClamp(AccumulatorShift16(acc))
  }

  function UnsignedAccumulatorClamp(acc: int): u16 {
    Clamp(AccumulatorShift16(acc), 0, 0xFFFF)
  }

  function AccumulatorLowClamp(acc: int): u16 {
    var middle := AccumulatorShift16(acc);
    if middle > 0x7FFF then 0xFFFF else if middle < -0x8000 then 0 else LaneBits(acc)
  }

  // ---------------------------------------------------------------- one lane of one instruction

  /** The accumulator before it is wrapped. */
  function Accumulate(op: Op, acc: int, s: u16, t: u16): int {
    var ss, st: int := SignedLane(s), SignedLane(t);
    match op
    case VMULF => ss * st * 2 + 0x8000
    case VMULU => ss * st * 2 + 0x8000
    case VMUDL => s * t / 0x1_0000
    case VMUDM => ss * t
    case VMUDN => s * st
    case VMUDH => ss * st * 0x1_0000
    case VMACF => acc + ss * st * 2
    case VMACU => acc + ss * st * 2
    case VMADL => acc + s * t / 0x1_0000
    case VMADM => acc + ss * t
    case VMADN => acc + s * st
    case VMADH => acc + ss * st * 0x1_0000
  }

  /** Which part of the accumulator the destination lane receives. */
  function Extract(op: Op, acc: int): u16 {
    match op
    case VMULF => SignedAccumulatorClamp(acc)
    case VMUDM => SignedAccumulatorClamp(acc)
    case VMUDH => SignedAccumulatorClamp(acc)
    case VMACF => SignedAccumulatorClamp(acc)
    case VMADM => SignedAccumulatorClamp(acc)
    case VMADH => SignedAccumulatorClamp(acc)
    case VMULU => UnsignedAccumulatorClamp(acc)
    case VMACU => UnsignedAccumulatorClamp(acc)
    case _ => AccumulatorLowClamp(acc)
  }

  function LaneStep(op: Op, acc: s48, s: u16, t: u16): s48 {
    WrapAccumulator(Accumulate(op, acc, s, t))
  }

  /** The source lane in `vt` of each lane, row by row of the element field: the whole vector
      twice, quarters, halves, and one element for all lanes. */
  function SelectRow(element: nat): (row: seq<nat>)
    requires element < 16
    ensures |row| == LANES
  {
    match element
    case 0 => [0, 1, 2, 3, 4, 5, 6, 7]
    case 1 => [0, 1, 2, 3, 4, 5, 6, 7]
    case 2 => [0, 0, 2, 2, 4, 4, 6, 6]
    case 3 => [1, 1, 3, 3, 5, 5, 7, 7]
    case 4 => [0, 0, 0, 0, 4, 4, 4, 4]
    case 5 => [1, 1, 1, 1, 5, 5, 5, 5]
    case 6 => [2, 2, 2, 2, 6, 6, 6, 6]
    case 7 => [3, 3, 3, 3, 7, 7, 7, 7]
    case 8 => [0, 0, 0, 0, 0, 0, 0, 0]
    case 9 => [1, 1, 1, 1, 1, 1, 1, 1]
    case 10 => [2, 2, 2, 2, 2, 2, 2, 2]
    case 11 => [3, 3, 3, 3, 3, 3, 3, 3]
    case 12 => [4, 4, 4, 4, 4, 4, 4, 4]
    case 13 => [5, 5, 5, 5, 5, 5, 5, 5]
    case 14 => [6, 6, 6, 6, 6, 6, 6, 6]
    case _ => [7, 7, 7, 7, 7, 7, 7, 7]
  }

  /** What the table means: a lane takes the chosen element of its own group. */
  function ElementSelect(element: nat, lane: nat): (source: nat)
    requires element < 16 && lane < LANES
    ensures source < LANES
  {
    if element < 2 then lane
    else if element < 4 then lane / 2 * 2 + element % 2
    else if element < 8 then lane / 4 * 4 + element % 4
    else element % 8
  }

  lemma SelectMeans(element: nat, lane: nat)
    requires element < 16 && lane < LANES
    ensures SelectRow(element)[lane] == ElementSelect(element, lane)
  {
    if element < 4 {
      SelectLow(element, lane);
    } else if element < 8 {
      SelectHalves(element, lane);
    } else {
      assert forall k | 0 <= k < LANES :: SelectRow(element)[k] == element - 8;
    }
  }

  lemma SelectLow(element: nat, lane: nat)
    requires element < 4 && lane < LANES
    ensures SelectRow(element)[lane] == ElementSelect(element, lane)
  {
  }

  lemma SelectHalves(element: nat, lane: nat)
    requires 4 <= element < 8 && lane < LANES
    ensures SelectRow(element)[lane] == ElementSelect(element, lane)
  {
  }

  // ---------------------------------------------------------------- the vector unit

  class Rsp {
    const vpr: array2<u16>
    const accumulator: array<s48>

    ghost predicate Valid() {
      && vpr.Length0 == REGISTERS && vpr.Length1 == LANES
      && accumulator.Length == LANES
    }

    constructor ()
      ensures Valid() && fresh(vpr) && fresh(accumulator)
    {
      vpr := new u16[REGISTERS, LANES]((r, lane) => 0);
      accumulator := new s48[LANES](lane => 0);
    }

    /** One multiply or multiply-accumulate. Operands are read before the destination is
        written, so `vd` may be either source. */
    method ExecMultiply(op: Op, element: nat, vs: nat, vt: nat, vd: nat)
      requires Valid() && element < 16 && vs < REGISTERS && vt < REGISTERS && vd < REGISTERS
      modifies vpr, accumulator
      ensures forall lane | 0 <= lane < LANES :: (accumulator[lane]
        == LaneStep(op, old(accumulator[lane]), old(vpr[vs, lane]), old(vpr[vt, ElementSelect(element, lane)])))
      ensures forall lane | 0 <= lane < LANES :: vpr[vd, lane] == Extract(op, accumulator[lane])
      ensures forall r, lane | 0 <= r < REGISTERS && 0 <= lane < LANES && r != vd ::
        vpr[r, lane] == old(vpr[r, lane])
    {
      hide WrapAccumulator, Accumulate, Extract, ElementSelect, SelectRow;
      var sourceS, sourceT, result := new u16[LANES], new u16[LANES], new u16[LANES];
      for lane := 0 to LANES
        invariant forall k | 0 <= k < lane :: sourceS[k] == vpr[vs, k]
        invariant forall k | 0 <= k < lane :: sourceT[k] == vpr[vt, ElementSelect(element, k)]
        invariant forall r, k | 0 <= r < REGISTERS && 0 <= k < LANES :: vpr[r, k] == old(vpr[r, k])
        invariant forall k | 0 <= k < LANES :: accumulator[k] == old(accumulator[k])
      {
        sourceS[lane] := vpr[vs, lane];
        SelectMeans(element, lane);
        sourceT[lane] := vpr[vt, SelectRow(element)[lane]];
      }
      for lane := 0 to LANES
        invariant forall k | lane <= k < LANES :: accumulator[k] == old(accumulator[k])
        invariant forall k | 0 <= k < lane ::
          accumulator[k] == LaneStep(op, old(accumulator[k]), sourceS[k], sourceT[k])
        invariant forall k | 0 <= k < lane :: result[k] == Extract(op, accumulator[k])
        invariant forall k | 0 <= k < LANES :: sourceS[k] == old(vpr[vs, k])
        invariant forall k | 0 <= k < LANES :: sourceT[k] == old(vpr[vt, ElementSelect(element, k)])
        invariant forall r, k | 0 <= r < REGISTERS && 0 <= k < LANES :: vpr[r, k] == old(vpr[r, k])
      {
        accumulator[lane] := WrapAccumulator(Accumulate(op, accumulator[lane], sourceS[lane], sourceT[lane]));
        result[lane] := Extract(op, accumulator[lane]);
      }
      forall lane | 0 <= lane < LANES {
        vpr[vd, lane] := result[lane];
      }
    }
  }

  // ---------------------------------------------------------------- the 16.16 product

  function IntegerPart(value: s32): u16 {
    value / 0x1_0000 % 0x1_0000
  }

  function FractionPart(value: s32): u16 {
    value % 0x1_0000
  }

  lemma Halves(value: s32)
    ensures value == SignedLane(IntegerPart(value)) * 0x1_0000 + FractionPart(value)
  {
  }

  /** The product taken apart into the four partial products. */
  lemma PartialProducts(ah: int, al: nat, bh: int, bl: nat)
    ensures (ah * 0x1_0000 + al) * (bh * 0x1_0000 + bl) / 0x1_0000
         == al * bl / 0x1_0000 + ah * bl + al * bh + (ah * bh) * 0x1_0000
  {
    var hh, hl, lh, ll := ah * bh, ah * bl, al * bh, al * bl;
    assert (ah * 0x1_0000 + al) * (bh * 0x1_0000 + bl) == hh * 0x1_0000_0000 + (hl + lh) * 0x1_0000 + ll;
  }

  lemma PartialBounds(ah: int, al: int, bh: int, bl: int)
    requires -0x8000 <= ah < 0x8000 && -0x8000 <= bh < 0x8000 && 0 <= al < 0x1_0000 && 0 <= bl < 0x1_0000
    ensures 0 <= al * bl / 0x1_0000 < 0x1_0000
    ensures -0x8000_0000 <= ah * bl < 0x8000_0000 && -0x8000_0000 <= al * bh < 0x8000_0000
    ensures -0x4000_0000 <= ah * bh <= 0x4000_0000
  {
    Magnitudes(al, bl, 0xFFFF, 0xFFFF);
    Magnitudes(ah, bl, 0x8000, 0xFFFF);
    Magnitudes(al, bh, 0xFFFF, 0x8000);
    Magnitudes(ah, bh, 0x8000, 0x8000);
    Signs(al, bl);
  }

  lemma Signs(a: int, b: int)
    ensures 0 <= a && 0 <= b ==> 0 <= a * b
  {
  }

  lemma Magnitudes(a: int, b: int, c: int, d: int)
    requires -c <= a <= c && -d <= b <= d
    ensures -(c * d) <= a * b <= c * d
  {
    Signs(c - a, d + b);
    Signs(c + a, d - b);
    Signs(c - a, d - b);
    Signs(c + a, d + b);
    Expand(a, b, c, d);
  }

  lemma Expand(a: int, b: int, c: int, d: int)
    ensures (c - a) * (d + b) + (c + a) * (d - b) == 2 * (c * d) - 2 * (a * b)
    ensures (c - a) * (d - b) + (c + a) * (d + b) == 2 * (c * d) + 2 * (a * b)
  {
    assert (c - a) * (d + b) == c * d + c * b - a * d - a * b;
    assert (c + a) * (d - b) == c * d - c * b + a * d - a * b;
    assert (c - a) * (d - b) == c * d - c * b - a * d + a * b;
    assert (c + a) * (d + b) == c * d + c * b + a * d + a * b;
  }

  /** The accumulator after VMUDL, VMADM, VMADN, VMADH on the halves of two operands, from
      any earlier contents. */
  function FixedProduct(a: s32, b: s32, before: s48): s48 {
    var ah, al, bh, bl := IntegerPart(a), FractionPart(a), IntegerPart(b), FractionPart(b);
    var afterL := LaneStep(VMUDL, before, al, bl);
    var afterM := LaneStep(VMADM, afterL, ah, bl);
    var afterN := LaneStep(VMADN, afterM, al, bh);
    LaneStep(VMADH, afterN, ah, bh)
  }

  /** No step wraps, so the accumulator holds the exact 16.16 product. */
  lemma FixedProductExact(a: s32, b: s32, before: s48)
    ensures FixedProduct(a, b, before) == a * b / 0x1_0000
  {
    var ah, al, bh, bl := IntegerPart(a), FractionPart(a), IntegerPart(b), FractionPart(b);
    var sah: int, sbh: int := SignedLane(ah), SignedLane(bh);
    Halves(a);
    Halves(b);
    PartialBounds(sah, al, sbh, bl);
    var p: int, hl: int, lh: int, hh: int := al * bl / 0x1_0000, sah * bl, al * sbh, sah * sbh * 0x1_0000;
    assert a * b / 0x1_0000 == p + hl + lh + hh by { PartialProducts(sah, al, sbh, bl); }
    hide SignedLane, IntegerPart, FractionPart;
    NoWrap(p);
    assert LaneStep(VMUDL, before, al, bl) == p;
    NoWrap(p + hl);
    assert LaneStep(VMADM, p, ah, bl) == p + hl;
    NoWrap(p + hl + lh);
    assert LaneStep(VMADN, p + hl, al, bh) == p + hl + lh;
    NoWrap(p + hl + lh + hh);
    assert LaneStep(VMADH, p + hl + lh, ah, bh) == p + hl + lh + hh;
    hide LaneStep;
  }

  lemma NoWrap(value: int)
    ensures -0x8000_0000_0000 <= value < 0x8000_0000_0000 ==> WrapAccumulator(value) == value
  {
    if -0x8000_0000_0000 <= value < 0x8000_0000_0000 {
      WrapMeans(value, value, 0);
    }
  }

  function Saturate32(value: int): s32 {
    Clamp(value, -0x8000_0000, 0x7FFF_FFFF)
  }

  /** What the signed-clamped high half and the low-clamped low half make together. */
  lemma ClampedHalves(acc: s48)
    ensures SignedLane(SignedAccumulatorClamp(acc)) * 0x1_0000 + AccumulatorLowClamp(acc) == Saturate32(acc)
  {
    ShiftIsFloor(acc);
  }

  /** The 16.16 product as programs read it: the integer half from VMADH, the fraction from a
      further VMADN by zero, saturated as one 32-bit value. */
  lemma FixedMultiply(a: s32, b: s32, before: s48, s: u16)
    ensures var acc := FixedProduct(a, b, before);
      && LaneStep(VMADN, acc, s, 0) == acc
      && SignedLane(Extract(VMADH, acc)) * 0x1_0000 + Extract(VMADN, acc) == Saturate32(a * b / 0x1_0000)
  {
    FixedProductExact(a, b, before);
    ClampedHalves(FixedProduct(a, b, before));
    hide FixedProduct;
    assert s * SignedLane(0) == 0;
    NoWrap(FixedProduct(a, b, before));
  }

  /** The 32-bit value of two lanes. */
  function Fixed(integer: u16, fraction: u16): s32 {
    SignedLane(integer) * 0x1_0000 + fraction
  }

  lemma FixedHalves(integer: u16, fraction: u16)
    ensures IntegerPart(Fixed(integer, fraction)) == integer && FractionPart(Fixed(integer, fraction)) == fraction
  {
    DivMod(Fixed(integer, fraction), 0x1_0000, SignedLane(integer), fraction);
  }

  /** One lane of the program below. */
  lemma FixedLane(ai: u16, af: u16, bi: u16, bf: u16, before: s48)
    ensures var upToM := LaneStep(VMADM, LaneStep(VMUDL, before, af, bf), ai, bf);
      var acc := LaneStep(VMADH, LaneStep(VMADN, upToM, af, bi), ai, bi);
      && LaneStep(VMADN, acc, 0, 0) == acc
      && Fixed(Extract(VMADH, acc), Extract(VMADN, acc)) == Saturate32(Fixed(ai, af) * Fixed(bi, bf) / 0x1_0000)
  {
    FixedHalves(ai, af);
    FixedHalves(bi, bf);
    hide LaneStep, Extract, IntegerPart, FractionPart, Saturate32;
    FixedMultiply(Fixed(ai, af), Fixed(bi, bf), before, 0);
  }

  /** The whole program on vector registers: five instructions leave in `oi` and `of` the 16.16
      products of the lanes, saturated, whatever the accumulators held. */
  method FixedProgram(rsp: Rsp, ai: nat, af: nat, bi: nat, bf: nat, zero: nat, oi: nat, of: nat)
    requires rsp.Valid() && ai < REGISTERS && af < REGISTERS && bi < REGISTERS && bf < REGISTERS && zero < REGISTERS
    requires oi < REGISTERS && of < REGISTERS && oi != of
    requires oi !in {ai, af, bi, bf, zero} && of !in {ai, af, bi, bf, zero}
    requires forall lane | 0 <= lane < LANES :: rsp.vpr[zero, lane] == 0
    modifies rsp.vpr, rsp.accumulator
    ensures forall lane | 0 <= lane < LANES :: (Fixed(rsp.vpr[oi, lane], rsp.vpr[of, lane])
      == Saturate32(old(Fixed(rsp.vpr[ai, lane], rsp.vpr[af, lane]) * Fixed(rsp.vpr[bi, lane], rsp.vpr[bf, lane]))
                    / 0x1_0000))
    ensures forall r, lane | 0 <= r < REGISTERS && 0 <= lane < LANES && r != oi && r != of ::
      rsp.vpr[r, lane] == old(rsp.vpr[r, lane])
  {
    hide LaneStep, Extract, Saturate32, Fixed;
    WholeVector();
    rsp.ExecMultiply(VMUDL, 0, af, bf, of);
    rsp.ExecMultiply(VMADM, 0, ai, bf, of);
    rsp.ExecMultiply(VMADN, 0, af, bi, of);
    rsp.ExecMultiply(VMADH, 0, ai, bi, oi);
    ghost var product := rsp.accumulator[..];
    rsp.ExecMultiply(VMADN, 0, zero, zero, of);
    forall lane | 0 <= lane < LANES
      ensures Fixed(rsp.vpr[oi, lane], rsp.vpr[of, lane])
        == Saturate32(old(Fixed(rsp.vpr[ai, lane], rsp.vpr[af, lane]) * Fixed(rsp.vpr[bi, lane], rsp.vpr[bf, lane]))
                      / 0x1_0000)
    {
      FixedLane(old(rsp.vpr[ai, lane]), old(rsp.vpr[af, lane]), old(rsp.vpr[bi, lane]), old(rsp.vpr[bf, lane]),
                old(rsp.accumulator[lane]));
    }
  }

  lemma WholeVector()
    ensures forall lane | 0 <= lane < LANES :: ElementSelect(0, lane) == lane
  {
  }

  /** VMULF is the fraction product rounded half up; only -1 times -1 saturates. */
  lemma FractionRounds(s: u16, t: u16, acc: s48)
    ensures SignedLane(Extract(VMULF, LaneStep(VMULF, acc, s, t)))
         == if s == 0x8000 && t == 0x8000 then 0x7FFF
            else (SignedLane(s) * SignedLane(t) + 0x4000) / 0x8000
  {
    var ss: int, st: int := SignedLane(s), SignedLane(t);
    var p: int := ss * st;
    if ss > -0x8000 {
      Magnitudes(ss, st, 0x7FFF, 0x8000);
    } else if st > -0x8000 {
      Magnitudes(ss, st, 0x8000, 0x7FFF);
    }
    assert (s == 0x8000 && t == 0x8000) || -0x3FFF_8000 <= p <= 0x3FFF_8000;
    assert s == 0x8000 && t == 0x8000 ==> p == 0x4000_0000;
    NoWrap(p * 2 + 0x8000);
    assert Accumulate(VMULF, acc, s, t) == p * 2 + 0x8000;
    RoundedHigh(p);
  }

  lemma RoundedHigh(p: int)
    requires p == 0x4000_0000 || -0x3FFF_8000 <= p <= 0x3FFF_8000
    ensures SignedLane(SignedAccumulatorClamp(p * 2 + 0x8000))
         == if p == 0x4000_0000 then 0x7FFF else (p + 0x4000) / 0x8000
  {
    ShiftIsFloor(p * 2 + 0x8000);
    hide AccumulatorShift16;
  }
}
