/** Powers and the few laws of division by them that the bit-level modules use. */
module Powers {

  function Pow(b: nat, k: nat): nat {
    if k == 0 then 1 else b * Pow(b, k - 1)
  }

  function Pow2(k: nat): (p: nat)
    ensures p > 0
  {
    if k == 0 then 1 else 2 * Pow2(k - 1)
  }

  lemma {:induction false} Pow2Add(a: nat, b: nat)
    ensures Pow2(a + b) == Pow2(a) * Pow2(b)
  {
    if a > 0 {
      Pow2Add(a - 1, b);
      assert Pow2(a + b) == 2 * (Pow2(a - 1) * Pow2(b)) == Pow2(a) * Pow2(b);
    }
  }

  lemma {:induction false} Pow2Monotone(a: nat, b: nat)
    requires a <= b
    ensures Pow2(a) <= Pow2(b)
    decreases b
  {
    if a < b {
      Pow2Monotone(a, b - 1);
    }
  }

  lemma Pow2Values()
    ensures Pow2(8) == 0x100 && Pow2(16) == 0x1_0000 && Pow2(23) == 0x80_0000
    ensures Pow2(24) == 0x100_0000 && Pow2(31) == 0x8000_0000 && Pow2(32) == 0x1_0000_0000
  {
    assert Pow2(4) == 0x10;
    Pow2Add(4, 4);
    Pow2Add(8, 8);
    Pow2Add(16, 8);
    Pow2Add(16, 16);
  }

  lemma {:induction false} PowPositive(b: nat, k: nat)
    requires b > 0
    ensures Pow(b, k) > 0
  {
    if k > 0 {
      PowPositive(b, k - 1);
      assert b * Pow(b, k - 1) > 0;
    }
  }

  lemma {:induction false} MulMonotone(x: int, y: int, m: nat)
    requires x <= y
    ensures x * m <= y * m
  {
    if m > 0 {
      MulMonotone(x, y, m - 1);
      assert x * m == x * (m - 1) + x && y * m == y * (m - 1) + y;
    }
  }

  /** A product that proofs can keep folded up. */
  function Times(a: nat, b: nat): nat {
    a * b
  }

  lemma Commute(x: int, y: int)
    ensures x * y == y * x
  {
  }

  lemma DivMod(x: int, d: int)
    requires d > 0
    ensures x == d * (x / d) + x % d && 0 <= x % d < d
  {
  }

  /** The only quotient and remainder there are. */
  lemma DivModUnique(x: int, d: int, q: int, r: int)
    requires d > 0 && x == d * q + r && 0 <= r < d
    ensures x / d == q && x % d == r
  {
    var k := x / d - q;
    assert d * k + (x % d - r) == 0;
    assert k >= 1 ==> d * k >= d;
    assert k <= -1 ==> d * k <= -d;
  }

  lemma ModShift(x: int, d: int, k: int)
    requires d > 0
    ensures (x + d * k) % d == x % d && (x + d * k) / d == x / d + k
  {
    assert d * (x / d) + d * k == d * (x / d + k);
    DivModUnique(x + d * k, d, x / d + k, x % d);
  }

  /** x and y leave the same remainder. */
  ghost predicate Congruent(x: int, y: int, d: int)
    requires d > 0
  {
    x % d == y % d
  }

  lemma CongruentWitness(x: int, y: int, d: int, k: int)
    requires d > 0 && x == y + d * k
    ensures Congruent(x, y, d)
  {
    ModShift(y, d, k);
  }

  lemma CongruentQuotient(x: int, y: int, d: int) returns (k: int)
    requires d > 0 && Congruent(x, y, d)
    ensures x == y + d * k
  {
    k := x / d - y / d;
    assert d * k == d * (x / d) - d * (y / d);
  }
}
