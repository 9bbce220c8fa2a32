/** Single bits of a number, and masks that are powers of two or one less. */
module Bits {
  import opened Words

  predicate Bit(x: nat, k: nat)
    decreases k
  {
    if k == 0 then x % 2 == 1 else Bit(x / 2, k - 1)
  }

  /** Conjunction, bit by bit. */
  lemma {:induction false} AndBit(a: nat, b: nat, k: nat)
    ensures Bit(And(a, b), k) <==> Bit(a, k) && Bit(b, k)
    decreases k
  {
    AndStep(a, b);
    hide And;
    if k > 0 {
      AndBit(a / 2, b / 2, k - 1);
    }
  }

  /** A number is not zero when it has a bit. */
  lemma {:induction false} SomeBit(x: nat, width: nat) returns (k: nat)
    requires 0 < x < Pow2(width)
    ensures k < width && Bit(x, k)
    decreases width
  {
    if x % 2 == 1 {
      k := 0;
    } else {
      k := SomeBit(x / 2, width - 1);
      k := k + 1;
    }
  }

  /** The bits of a number made of two fields. */
  lemma {:induction false} FieldsBit(n: nat, p: nat, q: nat, r: nat, x: nat, k: nat)
    requires p == Pow2(n) && r < p && x == p * q + r
    ensures Bit(x, k) <==> if k < n then Bit(r, k) else Bit(q, k - n)
    decreases n
  {
    if n == 0 {
      assert x == q;
    } else {
      var h := Pow2(n - 1);
      assert x == 2 * (h * q) + r && x / 2 == h * q + r / 2 && x % 2 == r % 2 by { Doubled(h, q, r, x); }
      if k > 0 {
        FieldsBit(n - 1, h, q, r / 2, x / 2, k - 1);
      }
    }
  }

  lemma Doubled(h: nat, q: nat, r: nat, x: nat)
    requires x == (2 * h) * q + r
    ensures x == 2 * (h * q) + r && x / 2 == h * q + r / 2 && x % 2 == r % 2
  {
  }

  lemma {:induction false} NoBit(k: nat)
    ensures !Bit(0, k)
    decreases k
  {
    if k > 0 {
      NoBit(k - 1);
    }
  }

  /** The fields of a number, bit by bit. */
  lemma SplitBits(n: nat, p: nat, q: nat, r: nat, x: nat, k: nat)
    requires p == Pow2(n) && r < p && x == p * q + r
    ensures Bit(r, k) <==> k < n && Bit(x, k)
    ensures Bit(q, k) <==> Bit(x, k + n)
  {
    hide Bit, Pow2;
    FieldsBit(n, p, q, r, x, k);
    FieldsBit(n, p, q, r, x, k + n);
    assert r == p * 0 + r;
    FieldsBit(n, p, 0, r, r, k);
    if k >= n {
      NoBit(k - n);
    }
  }

  lemma BitNext(x: nat, k: nat)
    ensures Bit(x, k + 1) <==> Bit(x / 2, k)
    ensures Bit(x, 0) <==> x % 2 == 1
  {
  }

  // ---------------------------------------------------------------- masks that are powers of two

  lemma AndZeroMask(x: nat)
    ensures And(x, 0) == 0 && And(0, x) == 0
  {
  }

  /** A mask of low ones is a remainder. */
  lemma LowBits(n: nat, v: nat)
    ensures And(v, Pow2(n) - 1) == v % Pow2(n)
  {
    hide And, Pow2;
    LowBitsOf(n, Pow2(n), v / Pow2(n), v % Pow2(n), v);
  }

  lemma LowBitsOf(n: nat, p: nat, q: nat, r: nat, v: nat)
    requires p == Pow2(n) && v == p * q + r && r < p
    ensures And(v, p - 1) == r
  {
    hide And, Pow2;
    AndConcat(n, q, 0, r, p - 1);
    AndZeroMask(q);
    AndOnes(r, p - 1, n);
    assert p * 0 == 0;
  }

  /** A mask of one bit tests the parity of a quotient. */
  lemma OneBit(n: nat, v: nat)
    ensures And(v, Pow2(n)) != 0 <==> v / Pow2(n) % 2 == 1
  {
    hide And, Pow2;
    OneBitOf(n, Pow2(n), v / Pow2(n), v % Pow2(n), v);
  }

  lemma OneBitOf(n: nat, p: nat, q: nat, r: nat, v: nat)
    requires p == Pow2(n) && v == p * q + r && r < p
    ensures And(v, p) == p * (q % 2)
  {
    hide And, Pow2;
    AndConcat(n, q, 1, r, 0);
    AndZeroMask(r);
    AndStep(q, 1);
    AndZeroMask(q / 2);
    assert p * 1 == p && And(q, 1) == q % 2;
  }

  lemma PowersOfTwo()
    ensures Pow2(3) == 8 && Pow2(28) == 0x1000_0000
    ensures Pow2(4) == 0x10 && Pow2(5) == 0x20 && Pow2(8) == 0x100 && Pow2(10) == 0x400
    ensures Pow2(30) == 0x4000_0000 && Pow2(31) == 0x8000_0000
    ensures Pow2(12) == 0x1000 && Pow2(13) == 0x2000 && Pow2(14) == 0x4000 && Pow2(15) == 0x8000
    ensures Pow2(16) == 0x1_0000 && Pow2(17) == 0x2_0000 && Pow2(18) == 0x4_0000 && Pow2(19) == 0x8_0000
    ensures Pow2(20) == 0x10_0000 && Pow2(21) == 0x20_0000 && Pow2(22) == 0x40_0000 && Pow2(23) == 0x80_0000
    ensures Pow2(24) == 0x100_0000 && Pow2(25) == 0x200_0000
  {
    assert Pow2(4) == 16;
    assert Pow2(8) == 256;
    assert Pow2(12) == 0x1000;
    assert Pow2(16) == 0x1_0000;
    assert Pow2(20) == 0x10_0000;
    assert Pow2(24) == 0x100_0000;
    assert Pow2(28) == 0x1000_0000;
  }
}
