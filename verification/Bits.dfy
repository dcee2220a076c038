/** Bitwise operators on naturals, as the C++ code applies them to unsigned words. */
module Bits {
  import opened Powers

  const WORD: nat := 0x1_0000_0000

  function BitAnd(a: nat, b: nat): nat {
    if a == 0 || b == 0 then 0
    else 2 * BitAnd(a / 2, b / 2) + (if a % 2 == 1 && b % 2 == 1 then 1 else 0)
  }

  function BitOr(a: nat, b: nat): nat
    decreases a + b
  {
    if a == 0 then b else if b == 0 then a
    else 2 * BitOr(a / 2, b / 2) + (if a % 2 == 1 || b % 2 == 1 then 1 else 0)
  }

  function ShiftRight(a: nat, k: nat): nat {
    if k == 0 then a else ShiftRight(a / 2, k - 1)
  }

  /** Shifting left in 32 bits. */
  function ShiftLeft(a: nat, k: nat): nat {
    a * Pow2(k) % WORD
  }

  lemma HalfDivides(x: int, d: nat)
    requires d > 0
    ensures x / (2 * d) == (x / 2) / d
    ensures x % (2 * d) == 2 * ((x / 2) % d) + x % 2
  {
    DivMod(x / 2, d);
    assert 2 * (d * ((x / 2) / d)) == 2 * d * ((x / 2) / d);
    DivModUnique(x, 2 * d, (x / 2) / d, 2 * ((x / 2) % d) + x % 2);
  }

  lemma {:induction false} ShiftRightDivides(a: nat, k: nat)
    ensures ShiftRight(a, k) == a / Pow2(k)
  {
    if k > 0 {
      ShiftRightDivides(a / 2, k - 1);
      HalfDivides(a, Pow2(k - 1));
    }
  }

  /** Masking with k ones takes the remainder. */
  lemma {:induction false} AndMask(x: nat, k: nat)
    ensures BitAnd(x, Pow2(k) - 1) == x % Pow2(k)
  {
    if k > 0 {
      AndMask(x / 2, k - 1);
      HalfDivides(x, Pow2(k - 1));
      assert Pow2(k) == 2 * Pow2(k - 1);
      hide Pow2, BitAnd;
      AndOnes(x, Pow2(k - 1) - 1);
    }
  }

  lemma {:induction false} AndOnes(x: nat, q: nat)
    ensures BitAnd(x, 2 * q + 1) == 2 * BitAnd(x / 2, q) + x % 2
  {
    assert (2 * q + 1) / 2 == q && (2 * q + 1) % 2 == 1;
  }

  /** Masking with a single one picks bit k. */
  lemma {:induction false} AndBit(x: nat, k: nat)
    ensures BitAnd(x, Pow2(k)) == x / Pow2(k) % 2 * Pow2(k)
  {
    if k > 0 {
      var p := Pow2(k - 1);
      AndBit(x / 2, k - 1);
      HalfDivides(x, p);
      assert BitAnd(x, 2 * p) == 2 * BitAnd(x / 2, p);
      var bit := (x / 2) / p % 2;
      assert 2 * (bit * p) == bit * (2 * p);
    } else if x > 0 {
      assert BitAnd(x / 2, 0) == 0;
    }
  }

  /** hi with k zeros behind it. */
  function Zeros(hi: nat, k: nat): nat {
    if k == 0 then hi else 2 * Zeros(hi, k - 1)
  }

  lemma {:induction false} ZerosMultiply(hi: nat, k: nat)
    ensures Zeros(hi, k) == hi * Pow2(k)
  {
    if k > 0 {
      ZerosMultiply(hi, k - 1);
      assert 2 * (hi * Pow2(k - 1)) == hi * (2 * Pow2(k - 1));
    }
  }

  lemma {:induction false} OrZeros(lo: nat, hi: nat, k: nat)
    requires lo < Pow2(k)
    ensures BitOr(lo, Zeros(hi, k)) == BitOr(Zeros(hi, k), lo) == lo + Zeros(hi, k)
  {
    if k > 0 {
      OrZeros(lo / 2, hi, k - 1);
      var h := Zeros(hi, k - 1);
      assert 2 * h / 2 == h && 2 * h % 2 == 0;
    }
  }

  /** Or-ing words that have no bit in common adds them. */
  lemma OrDisjoint(lo: nat, hi: nat, k: nat)
    requires lo < Pow2(k)
    ensures BitOr(lo, hi * Pow2(k)) == BitOr(hi * Pow2(k), lo) == lo + hi * Pow2(k)
  {
    OrZeros(lo, hi, k);
    ZerosMultiply(hi, k);
  }
}
