/** What each multiply of the RSP leaves in the accumulator and in the destination, as numbers: the
    two signed or unsigned lanes, their product, and saturation to the lane. */
module MultiplyLaws {
  import opened Words
  import opened RspMultiply

  /** The nearest number that fits. */
  function Saturated(value: int, low: int, high: int): int {
    if value < low then low else if value > high then high else value
  }

  // ---------------------------------------------------------------- destinations

  /** The signed forms give the accumulator's upper part saturated to the lane, the unsigned
      fractional ones saturate it to the unsigned lane, and the low forms give the lower part, or
      all ones or zeros when the upper part does not fit a signed lane. */
  lemma DestinationMeans(op: Op, acc: s48)
    ensures op in {VMULF, VMUDM, VMUDH, VMACF, VMADM, VMADH} ==>
      SignedLane(Extract(op, acc)) == Saturated(acc / 0x1_0000, -0x8000, 0x7FFF)
    ensures op in {VMULU, VMACU} ==> Extract(op, acc) == Saturated(acc / 0x1_0000, 0, 0xFFFF)
    ensures op in {VMUDL, VMUDN, VMADL, VMADN} ==>
      Extract(op, acc) == (if acc / 0x1_0000 > 0x7FFF then 0xFFFF else if acc / 0x1_0000 < -0x8000 then 0
                           else acc % 0x1_0000)
  {
    ShiftIsFloor(acc);
    hide AccumulatorShift16;
    LaneSigned(Saturated(acc / 0x1_0000, -0x8000, 0x7FFF));
  }

  lemma LaneSigned(x: int)
    requires -0x8000 <= x <= 0x7FFF
    ensures SignedLane(LaneBits(x)) == x
  {
    if x < 0 {
      DivMod(x, 0x1_0000, -1, x + 0x1_0000);
    }
  }

  // ---------------------------------------------------------------- accumulators

  /** Lane products fit the accumulator wherever they are placed. */
  lemma Products(s: u16, t: u16)
    ensures var ss: int := SignedLane(s); var st: int := SignedLane(t);
      && -0x4000_0000 <= ss * st <= 0x4000_0000 && -0x7FFF_8000 <= ss * t <= 0x7FFF_8000
      && -0x7FFF_8000 <= s * st <= 0x7FFF_8000 && 0 <= s as int * t <= 0xFFFE_0001
  {
    var ss: int, st: int := SignedLane(s), SignedLane(t);
    Magnitudes(ss, st, 0x8000, 0x8000);
    Magnitudes(ss, t, 0x8000, 0xFFFF);
    Magnitudes(s, st, 0xFFFF, 0x8000);
    Magnitudes(s, t, 0xFFFF, 0xFFFF);
    Signs(s, t);
  }

  /** The overwriting forms leave the product itself, whatever was there: of integers 16 bits up, of
      an integer and a fraction as it is, of fractions doubled and rounded. */
  lemma ProductsExact(acc: s48, s: u16, t: u16)
    ensures var ss: int := SignedLane(s); var st: int := SignedLane(t);
      && LaneStep(VMUDH, acc, s, t) == ss * st * 0x1_0000
      && LaneStep(VMUDM, acc, s, t) == ss * t && LaneStep(VMUDN, acc, s, t) == s * st
      && LaneStep(VMUDL, acc, s, t) == s as int * t / 0x1_0000
      && LaneStep(VMULF, acc, s, t) == 2 * (ss * st) + 0x8000 && LaneStep(VMULU, acc, s, t) == 2 * (ss * st) + 0x8000
  {
    Products(s, t);
    var ss: int, st: int := SignedLane(s), SignedLane(t);
    hide WrapAccumulator, SignedLane;
    NoWrap(ss * st * 0x1_0000);
    NoWrap(ss * t);
    NoWrap(s * st);
    NoWrap(s as int * t / 0x1_0000);
    NoWrap(ss * st * 2 + 0x8000);
  }

  /** Equal modulo 2^48. */
  predicate Same48(a: int, b: int) {
    (a - b) % 0x1_0000_0000_0000 == 0
  }

  lemma WrapSame(value: int)
    ensures Same48(WrapAccumulator(value), value)
  {
    WrapMeans(value, 0, 0);
  }

  /** Each accumulating form adds, modulo 2^48, what its overwriting form leaves. */
  lemma Accumulates(acc: s48, was: s48, s: u16, t: u16)
    ensures Same48(LaneStep(VMADL, acc, s, t), acc as int + LaneStep(VMUDL, was, s, t))
    ensures Same48(LaneStep(VMADM, acc, s, t), acc as int + LaneStep(VMUDM, was, s, t))
    ensures Same48(LaneStep(VMADN, acc, s, t), acc as int + LaneStep(VMUDN, was, s, t))
    ensures Same48(LaneStep(VMADH, acc, s, t), acc as int + LaneStep(VMUDH, was, s, t))
  {
    hide WrapAccumulator, SignedLane, Same48;
    ProductsExact(was, s, t);
    var ss: int, st: int := SignedLane(s), SignedLane(t);
    WrapSame(acc as int + s as int * t / 0x1_0000);
    WrapSame(acc as int + ss * t);
    WrapSame(acc as int + s * st);
    WrapSame(acc as int + ss * st * 0x1_0000);
  }

  /** The fractional ones add twice the product, without the rounding. */
  lemma AccumulatesFractions(acc: s48, s: u16, t: u16)
    ensures Same48(LaneStep(VMACF, acc, s, t), acc as int + 2 * (SignedLane(s) as int * SignedLane(t)))
    ensures LaneStep(VMACU, acc, s, t) == LaneStep(VMACF, acc, s, t)
  {
    hide WrapAccumulator, SignedLane, Same48;
    var ss: int, st: int := SignedLane(s), SignedLane(t);
    WrapSame(acc as int + ss * st * 2);
  }

  /** From a cleared accumulator the accumulating forms are the overwriting ones, the fractional ones
      but for the rounding. */
  lemma FromZero(was: s48, s: u16, t: u16)
    ensures LaneStep(VMADL, 0, s, t) == LaneStep(VMUDL, was, s, t)
    ensures LaneStep(VMADM, 0, s, t) == LaneStep(VMUDM, was, s, t)
    ensures LaneStep(VMADN, 0, s, t) == LaneStep(VMUDN, was, s, t)
    ensures LaneStep(VMADH, 0, s, t) == LaneStep(VMUDH, was, s, t)
    ensures LaneStep(VMACF, 0, s, t) + 0x8000 == LaneStep(VMULF, was, s, t) == LaneStep(VMULU, was, s, t)
  {
    ProductsExact(was, s, t);
    Products(s, t);
    var ss: int, st: int := SignedLane(s), SignedLane(t);
    hide WrapAccumulator, SignedLane;
    NoWrap(ss * st * 0x1_0000);
    NoWrap(ss * t);
    NoWrap(s * st);
    NoWrap(s as int * t / 0x1_0000);
    NoWrap(ss * st * 2);
  }

  // ---------------------------------------------------------------- results

  /** VMUDH: the product of integers, saturated. */
  lemma IntegerProduct(acc: s48, s: u16, t: u16)
    ensures SignedLane(Extract(VMUDH, LaneStep(VMUDH, acc, s, t)))
         == Saturated(SignedLane(s) as int * SignedLane(t), -0x8000, 0x7FFF)
  {
    ProductsExact(acc, s, t);
    DestinationMeans(VMUDH, LaneStep(VMUDH, acc, s, t));
    var p: int := SignedLane(s) as int * SignedLane(t);
    DivMod(p * 0x1_0000, 0x1_0000, p, 0);
    hide LaneStep, Extract, SignedLane, Saturated;
  }

  /** VMUDM and VMUDN: an integer times a fraction gives the integer part, and the part below it;
      VMUDL gives the upper half of a product of fractions. None of them saturates. */
  lemma MixedProducts(acc: s48, s: u16, t: u16)
    ensures var ss: int := SignedLane(s); var st: int := SignedLane(t);
      && SignedLane(Extract(VMUDM, LaneStep(VMUDM, acc, s, t))) == ss * t / 0x1_0000
      && Extract(VMUDN, LaneStep(VMUDN, acc, s, t)) == s * st % 0x1_0000
      && Extract(VMUDL, LaneStep(VMUDL, acc, s, t)) == s as int * t / 0x1_0000
  {
    Products(s, t);
    ProductsExact(acc, s, t);
    DestinationMeans(VMUDM, LaneStep(VMUDM, acc, s, t));
    DestinationMeans(VMUDN, LaneStep(VMUDN, acc, s, t));
    DestinationMeans(VMUDL, LaneStep(VMUDL, acc, s, t));
    hide LaneStep, Extract, SignedLane;
  }

  /** VMULU: the product of fractions rounded half up, zero below zero. Above the signed range, which
      only -1 times -1 reaches, it is the unsigned 0x8000. */
  lemma UnsignedFraction(acc: s48, s: u16, t: u16)
    ensures var p: int := SignedLane(s) as int * SignedLane(t);
      Extract(VMULU, LaneStep(VMULU, acc, s, t)) == if p < -0x4000 then 0 else (p + 0x4000) / 0x8000
  {
    Products(s, t);
    ProductsExact(acc, s, t);
    DestinationMeans(VMULU, LaneStep(VMULU, acc, s, t));
    var p: int := SignedLane(s) as int * SignedLane(t);
    Halved(p);
    hide LaneStep, Extract, SignedLane;
  }

  lemma Halved(p: int)
    ensures (2 * p + 0x8000) / 0x1_0000 == (p + 0x4000) / 0x8000
  {
  }
}
