/** Fixed-width machine words as bounded integers, and the bit operations on them
    that are not a division or a remainder by a constant. */
module Words {
  const TWO_TO_32 := 0x1_0000_0000
  const TWO_TO_64 := 0x1_0000_0000_0000_0000

  type u8 = x: int | 0 <= x < 0x100
  type u16 = x: int | 0 <= x < 0x1_0000
  type u32 = x: int | 0 <= x < 0x1_0000_0000
  type u64 = x: int | 0 <= x < 0x1_0000_0000_0000_0000

  /** Bitwise conjunction. */
  function And(a: nat, b: nat): (r: nat)
    ensures r <= a && r <= b
  {
    if a == 0 || b == 0 then 0
    else 2 * And(a / 2, b / 2) + (if a % 2 == 1 && b % 2 == 1 then 1 else 0)
  }

  /** Conjunction works on the low `k` bits and on the rest separately. */
  lemma {:induction false} AndConcat(k: nat, a: nat, b: nat, x: nat, y: nat)
    requires x < Pow2(k) && y < Pow2(k)
    ensures And(Pow2(k) * a + x, Pow2(k) * b + y) == Pow2(k) * And(a, b) + And(x, y)
    decreases k
  {
    hide And;
    if k == 0 {
      AndZero();
    } else {
      var p := Pow2(k - 1);
      hide Pow2;
      AndConcat(k - 1, a, b, x / 2, y / 2);
      Double(p, a);
      Double(p, b);
      Double(p, And(a, b));
      AndStep(2 * (p * a) + x, 2 * (p * b) + y);
      AndStep(x, y);
    }
  }

  lemma AndZero()
    ensures And(0, 0) == 0
  {
  }

  lemma Double(p: nat, a: nat)
    ensures (2 * p) * a == 2 * (p * a)
  {
  }

  lemma AndStep(a: nat, b: nat)
    ensures And(a, b) == 2 * And(a / 2, b / 2) + (if a % 2 == 1 && b % 2 == 1 then 1 else 0)
  {
    assert And(0, b / 2) == 0 && And(a / 2, 0) == 0;
  }

  /** A mask of ones keeps everything below it. */
  lemma {:induction false} AndOnes(a: nat, ones: nat, width: nat)
    requires ones + 1 == Pow2(width) && a <= ones
    ensures And(a, ones) == a
    decreases width
  {
    if a != 0 {
      AndOnes(a / 2, ones / 2, width - 1);
    }
  }

  function Pow2(n: nat): (r: nat)
    ensures r >= 1
  {
    if n == 0 then 1 else 2 * Pow2(n - 1)
  }

  /** Quotient and remainder are the only decomposition. */
  lemma DivMod(x: int, d: int, q: int, r: int)
    requires 0 < d && 0 <= r < d && x == d * q + r
    ensures x / d == q && x % d == r
  {
    var k := x / d - q;
    assert d * (x / d) + x % d == x;
    assert d * k == d * (x / d) - d * q;
    MulGap(d, k);
  }

  lemma MulGap(d: int, k: int)
    requires 0 < d
    ensures k >= 1 ==> d * k >= d
    ensures k <= -1 ==> d * k <= -d
  {
  }
}
