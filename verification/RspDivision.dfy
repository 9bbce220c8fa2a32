/** The RSP reciprocal unit: integer square root, the reconstructed estimate ROM, and the
    VRCP and VRSQ estimates. */
module RspDivision {
  import opened Words

  type s32 = x: int | -0x8000_0000 <= x < 0x8000_0000

  // ---------------------------------------------------------------- square root

  /** `r` is the integer square root of `v`. */
  predicate IsRoot(r: nat, v: nat) {
    r * r <= v < (r + 1) * (r + 1)
  }

  function Isqrt(v: nat): (r: nat)
    ensures IsRoot(r, v)
  {
    if v == 0 then 0
    else
      var half := Isqrt(v / 4);
      HalfRoot(half, v);
      var r := 2 * half;
      if (r + 1) * (r + 1) <= v then r + 1 else r
  }

  lemma HalfRoot(half: nat, v: nat)
    requires IsRoot(half, v / 4)
    ensures (2 * half) * (2 * half) <= v < (2 * half + 2) * (2 * half + 2)
  {
    assert (2 * half) * (2 * half) == 4 * (half * half);
    assert (2 * half + 2) * (2 * half + 2) == 4 * ((half + 1) * (half + 1));
  }

  lemma RootUnique(r: nat, q: nat, v: nat)
    requires IsRoot(r, v) && IsRoot(q, v)
    ensures r == q
  {
    Squares(r + 1, q);
    Squares(q + 1, r);
  }

  lemma Squares(a: nat, b: nat)
    ensures a <= b ==> a * a <= b * b
  {
    if a <= b {
      assert b * b == a * a + (b - a) * (b + a);
    }
  }

  /** `s` is zero or a power of two; its square is the trial bit. */
  predicate TrialBit(s: nat, k: nat) {
    s == 0 || s == Pow2(k)
  }

  lemma HalveTrial(s: nat, k: nat)
    requires s > 0 && TrialBit(s, k)
    ensures s == 1 || (k > 0 && s == 2 * Pow2(k - 1) && s / 2 == Pow2(k - 1))
    ensures s * s / 4 == (s / 2) * (s / 2)
  {
    if k > 0 {
      assert s * s == 4 * (Pow2(k - 1) * Pow2(k - 1));
    }
  }

  /** The state between two trial bits: `root` collects the bits found, `s` is the next
      bit to try, and the locals hold `v - root^2` and `2 * root * s`. */
  predicate Trying(v: nat, value: nat, result: nat, root: nat, s: nat) {
    if s == 0 then result == root && IsRoot(root, v)
    else
      && result == 2 * (root * s) && value == v - root * root
      && v < (root + 2 * s) * (root + 2 * s) && root + 2 * s <= 0x1_0000_0000
  }

  lemma Accepts(v: nat, value: nat, result: nat, root: nat, s: nat)
    requires s > 0 && Trying(v, value, result, root, s)
    ensures result + s * s + root * root == (root + s) * (root + s)
    ensures result + s * s < TWO_TO_64
    ensures (root + s) * (root + s) <= 0xFFFF_FFFF * 0xFFFF_FFFF
  {
    assert (root + s) * (root + s) == root * root + 2 * (root * s) + s * s;
    Squares(root + s, 0xFFFF_FFFF);
  }

  /** One trial, accepted or not, moves on to the next bit. */
  lemma NextTrial(v: nat, value: nat, result: nat, root: nat, s: nat, k: nat, taken: bool)
    requires s > 0 && TrialBit(s, k) && Trying(v, value, result, root, s)
    requires taken <==> value >= result + s * s
    ensures var root' := if taken then root + s else root;
      Trying(v, v - root' * root', result / 2 + (if taken then s * s else 0), root', s / 2)
      && root' * root' <= v
  {
    HalveTrial(s, k);
    Accepts(v, value, result, root, s);
    if s == 1 {
      LastTrial(v, value, result, root, taken);
    } else {
      EarlyTrial(v, value, result, root, s / 2, taken);
    }
  }

  lemma LastTrial(v: nat, value: nat, result: nat, root: nat, taken: bool)
    requires Trying(v, value, result, root, 1)
    requires taken <==> value >= result + 1
    ensures var root' := if taken then root + 1 else root;
      Trying(v, v - root' * root', result / 2 + (if taken then 1 else 0), root', 0) && root' * root' <= v
  {
    assert root * 1 == root;
    assert (root + 1) * (root + 1) == root * root + 2 * root + 1;
  }

  lemma EarlyTrial(v: nat, value: nat, result: nat, root: nat, h: nat, taken: bool)
    requires h > 0 && Trying(v, value, result, root, 2 * h)
    requires taken <==> value >= result + (2 * h) * (2 * h)
    ensures var root' := if taken then root + 2 * h else root;
      Trying(v, v - root' * root', result / 2 + (if taken then (2 * h) * (2 * h) else 0), root', h)
      && root' * root' <= v
  {
    var rh, hh := root * h, h * h;
    assert root * (2 * h) == 2 * rh && (2 * h) * (2 * h) == 4 * hh;
    assert (root + 2 * h) * (root + 2 * h) == root * root + 4 * rh + 4 * hh;
    assert (root + 2 * h) * h == rh + 2 * hh;
    assert root + 2 * h + 2 * h == root + 2 * (2 * h);
  }

  /** The first loop: the trial bit is `s^2`, and the root is below `2 * s`. */
  predicate Skipping(v: nat, bit: nat, s: nat, k: nat) {
    && bit == s * s && TrialBit(s, k) && s <= 0x8000_0000
    && if s == 0 then v == 0 else v < (2 * s) * (2 * s)
  }

  lemma SkipStart(v: u64)
    ensures Skipping(v, 0x4000_0000_0000_0000, 0x8000_0000, 31)
  {
    Pow2Of31();
  }

  lemma SkipNext(v: nat, bit: nat, s: nat, k: nat)
    requires Skipping(v, bit, s, k) && bit > v
    ensures Skipping(v, bit / 4, s / 2, if k > 0 then k - 1 else 0) && bit / 4 < bit
  {
    if s > 0 {
      HalveTrial(s, k);
      BitAbove(v, s);
    }
  }

  lemma SkipDone(v: nat, bit: nat, s: nat, k: nat)
    requires Skipping(v, bit, s, k)
    ensures TrialAt(v, bit, v, 0, 0, s, k)
  {
  }

  /** The second loop: `root` collects the bits found so far. */
  predicate TrialAt(v: nat, bit: nat, value: nat, result: nat, root: nat, s: nat, k: nat) {
    bit == s * s && TrialBit(s, k) && Trying(v, value, result, root, s) && (s > 0 ==> value == v - root * root)
  }

  lemma TrialNext(v: u64, bit: nat, value: nat, result: nat, root: nat, s: nat, k: nat)
    requires TrialAt(v, bit, value, result, root, s, k) && bit != 0
    ensures var taken := value >= result + bit;
      && result + bit < TWO_TO_64 && bit / 4 < bit
      && TrialAt(v, bit / 4, if taken then value - (result + bit) else value, result / 2 + (if taken then bit else 0),
                 if taken then root + s else root, s / 2, if k > 0 then k - 1 else 0)
  {
    assert s > 0;
    HalveTrial(s, k);
    Accepts(v, value, result, root, s);
    NextTrial(v, value, result, root, s, k, value >= result + bit);
    hide Trying;
  }

  lemma TrialDone(v: u64, value: nat, result: nat, root: nat, s: nat, k: nat)
    requires TrialAt(v, 0, value, result, root, s, k)
    ensures IsRoot(result, v) && result < TWO_TO_32
  {
    if s > 0 {
      Squares(1, s);
    }
    Finished(v, value, result, root);
    hide Trying;
  }

  /** The bitwise square root of any 64-bit value, zero included. */
  method IntegerSquareRoot(v: u64) returns (root: u32)
    ensures IsRoot(root, v) && root == Isqrt(v)
  {
    hide IsRoot, Isqrt, Skipping, TrialAt, Pow2;
    var value := v;
    var result := 0;
    var bit := 0x4000_0000_0000_0000;
    ghost var s: nat, k: nat, found: nat := 0x8000_0000, 31, 0;
    SkipStart(v);
    while bit > value
      invariant bit >= 0 && Skipping(v, bit, s, k)
      decreases bit
    {
      SkipNext(v, bit, s, k);
      bit := bit / 4;
      s, k := s / 2, if k > 0 then k - 1 else 0;
    }
    SkipDone(v, bit, s, k);
    while bit != 0
      invariant bit >= 0 && value >= 0 && result >= 0 && TrialAt(v, bit, value, result, found, s, k)
      decreases bit
    {
      TrialNext(v, bit, value, result, found, s, k);
      found := if value >= result + bit then found + s else found;
      if value >= result + bit {
        value := value - (result + bit);
        result := result / 2 + bit;
      } else {
        result := result / 2;
      }
      bit := bit / 4;
      s, k := s / 2, if k > 0 then k - 1 else 0;
    }
    TrialDone(v, value, result, found, s, k);
    RootUnique(result, Isqrt(v), v);
    return result;
  }

  lemma Pow2Of31()
    ensures Pow2(31) == 0x8000_0000
  {
    assert Pow2(8) == 256;
    assert Pow2(16) == 0x1_0000;
    assert Pow2(24) == 0x100_0000;
  }

  lemma BitAbove(v: nat, s: nat)
    requires s > 0 && s * s > v
    ensures s == 1 ==> v == 0
    ensures s % 2 == 0 ==> v < (2 * (s / 2)) * (2 * (s / 2))
  {
  }

  lemma Finished(v: u64, value: nat, result: nat, root: nat)
    requires Trying(v, value, result, root, 0)
    ensures IsRoot(result, v) && result < TWO_TO_32
  {
    Squares(TWO_TO_32, result);
  }

  // ---------------------------------------------------------------- small arithmetic

  lemma Scaled(a: int, b: int, p: nat)
    ensures a <= b ==> a * p <= b * p
    ensures a < b ==> a * p + p <= b * p
  {
    var gap := (b - a) * p;
    assert b * p == a * p + gap;
    MulGap(p + 1, b - a);
    if a < b {
      assert gap == p + (b - a - 1) * p;
    }
  }

  lemma Quotient(n: nat, d: nat)
    requires d > 0
    ensures 0 <= n / d <= n && (n / d) * d <= n < (n / d + 1) * d
  {
    var q, r := n / d, n % d;
    assert n == q * d + r;
    assert (q + 1) * d == q * d + d;
    Scaled(1, d, q);
  }

  lemma QuotientAtLeast(n: nat, d: nat, k: nat)
    requires d > 0 && k * d <= n
    ensures n / d >= k
  {
    Quotient(n, d);
    Scaled(n / d + 1, k, d);
  }

  lemma RootAtLeast(r: nat, v: nat, k: nat)
    requires IsRoot(r, v) && k * k <= v
    ensures r >= k
  {
    Squares(r + 1, k);
  }

  lemma {:induction false} Pow2Add(a: nat, b: nat)
    ensures Pow2(a) * Pow2(b) == Pow2(a + b)
    decreases a
  {
    if a > 0 {
      Pow2Add(a - 1, b);
      Double(Pow2(a - 1), Pow2(b));
    }
  }

  // ---------------------------------------------------------------- the estimate ROM

  /** 2^42 for an odd shift, 2^41 for an even one. */
  function RootPower(index: nat): nat {
    if index % 2 == 1 then 0x400_0000_0000 else 0x200_0000_0000
  }

  function RootOperand(index: nat): nat {
    RootPower(index) / (index / 2 + 256)
  }

  function FullReciprocal(address: nat): nat {
    Quotient(0x400_0000, address + 512);
    0x400_0000 / (address + 512)
  }

  /** The entry before clamping to 17 bits and before the final subtraction. */
  function FullEntry(address: nat): nat {
    hide Isqrt, IsRoot;
    if address < 512 then FullReciprocal(address) else Isqrt(RootOperand(address - 512))
  }

  function ClampedEntry(address: nat): nat {
    hide FullEntry;
    if FullEntry(address) > 0x1_FFFF then 0x1_FFFF else FullEntry(address)
  }

  /** Every entry fits 17 bits with the top bit set, so the subtraction never underflows. */
  lemma RomRange(address: nat)
    requires address < 1024
    ensures 0x1_0000 <= ClampedEntry(address) <= 0x1_FFFF
  {
    if address < 512 {
      QuotientAtLeast(0x400_0000, address + 512, 0x1_0000);
    } else {
      RootOperandRange(address - 512);
      RootAtLeast(Isqrt(RootOperand(address - 512)), RootOperand(address - 512), 0x1_0000);
    }
  }

  lemma RootOperandRange(index: nat)
    requires index < 512
    ensures RootOperand(index) >= 0x1_0000 * 0x1_0000
  {
    QuotientAtLeast(RootPower(index), index / 2 + 256, 0x1_0000_0000);
  }

  function DivisionRom(address: nat): u16
    requires address < 1024
  {
    RomRange(address);
    hide ClampedEntry;
    ClampedEntry(address) - 0x1_0000
  }

  // ---------------------------------------------------------------- the estimate

  /** `std::countl_zero` on a non-zero word. */
  function LeadingZeros(x: u32): (n: nat)
    requires x > 0
    ensures n < 32 && 0x8000_0000 <= x * Pow2(n) < 0x1_0000_0000
    decreases 0x1_0000_0000 - x
  {
    if x >= 0x8000_0000 then
      assert Pow2(0) == 1;
      0
    else
      var n := LeadingZeros(2 * x);
      ZerosBound(x, n);
      n + 1
  }

  lemma {:induction false} Pow2Grows(n: nat)
    ensures n >= 31 ==> Pow2(n) >= 0x8000_0000
    decreases n
  {
    if n == 31 {
      Pow2Of31();
    } else if n > 31 {
      Pow2Grows(n - 1);
    }
  }

  lemma ZerosBound(x: nat, n: nat)
    requires 0 < x && 0x8000_0000 <= (2 * x) * Pow2(n) < 0x1_0000_0000
    ensures n < 31 && 0x8000_0000 <= x * Pow2(n + 1) < 0x1_0000_0000
  {
    var p := Pow2(n);
    assert x * Pow2(n + 1) == (2 * x) * p;
    Pow2Grows(n);
    Scaled(2, 2 * x, p);
  }

  /** The operand with its sign taken off. Single-precision operands are 16-bit lanes. */
  function Magnitude(input: s32, double: bool): u32 {
    var value: int := input;
    if value >= 0 then value else if double && value < -32768 then -value - 1 else -value
  }

  /** The normalising shift; a zero operand has one fixed by the precision. */
  function Shift(magnitude: u32, double: bool): (s: nat)
    ensures s < 32 && magnitude * Pow2(s) < 0x1_0000_0000
  {
    if magnitude != 0 then LeadingZeros(magnitude) else if double then 0 else 16
  }

  function RomAddress(normalized: u32, shift: nat, squareRoot: bool): (a: nat)
    ensures a < 1024
  {
    var address := normalized / 0x40_0000 % 0x200;
    if squareRoot then address / 2 * 2 + 0x200 + shift % 2 else address
  }

  function OutputShift(shift: nat, squareRoot: bool): nat
    requires shift < 32
  {
    if squareRoot then (31 - shift) / 2 else 31 - shift
  }

  /** The unsigned estimate, before the sign is put back. */
  function Estimate(magnitude: u32, squareRoot: bool, double: bool): (out: nat)
    ensures out < 0x8000_0000
  {
    hide Isqrt, FullEntry, DivisionRom, RomAddress, Shift, LeadingZeros;
    var shift := Shift(magnitude, double);
    var address := RomAddress(magnitude * Pow2(shift), shift, squareRoot);
    var mantissa := 0x4000_0000 + DivisionRom(address) * 0x4000;
    Quotient(mantissa, Pow2(OutputShift(shift, squareRoot)));
    mantissa / Pow2(OutputShift(shift, squareRoot))
  }

  function SignedWord(value: u32): s32 {
    if value <= 0x7FFF_FFFF then value else -(0x1_0000_0000 - value)
  }

  function DivisionEstimate(input: s32, squareRoot: bool, double: bool): s32
    requires !double ==> -0x8000 <= input < 0x8000
  {
    hide Estimate;
    var output: u32 :=
      if input == 0 then 0x7FFF_FFFF
      else if input == -32768 then 0xFFFF_0000
      else
        var magnitude := Estimate(Magnitude(input, double), squareRoot, double);
        if input < 0 then 0xFFFF_FFFF - magnitude else magnitude;
    SignedWord(output)
  }
}
