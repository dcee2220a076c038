/** sFastRand: a 32-bit linear congruential generator that seeds a four-lane
    multiply-with-carry generator. */
module FastRand {
  import opened Powers
  import opened Bits

  // ----- The scalar generator -----

  const FACTOR := 214013
  const STEP := 2531011

  function Next(s: nat): (r: nat)
    ensures r < WORD
  {
    (FACTOR * s + STEP) % WORD
  }

  /** The state after n draws. */
  function Drawn(n: nat, s: nat): nat {
    if n == 0 then s else Next(Drawn(n - 1, s))
  }

  /** The same recurrence without the wrap to 32 bits. */
  ghost function Unwrapped(n: nat, s: int): int {
    if n == 0 then s else FACTOR * Unwrapped(n - 1, s) + STEP
  }

  lemma {:induction false} DrawnIsUnwrapped(n: nat, s: nat) returns (k: int)
    ensures Unwrapped(n, s) == Drawn(n, s) + WORD * k
  {
    if n == 0 {
      k := 0;
    } else {
      var j := DrawnIsUnwrapped(n - 1, s);
      var x := FACTOR * Drawn(n - 1, s) + STEP;
      k := x / WORD + FACTOR * j;
    }
  }

  lemma {:induction false} UnwrappedAdds(a: nat, b: nat, s: int)
    ensures Unwrapped(a + b, s) == Unwrapped(a, Unwrapped(b, s))
  {
    if a > 0 {
      UnwrappedAdds(a - 1, b, s);
    }
  }

  lemma {:induction false} UnwrappedAffine(n: nat, s: int)
    ensures Unwrapped(n, s) == Pow(FACTOR, n) * s + Unwrapped(n, 0)
  {
    if n > 0 {
      UnwrappedAffine(n - 1, s);
      var p := Pow(FACTOR, n - 1);
      assert FACTOR * (p * s) == (FACTOR * p) * s;
    }
  }

  lemma {:induction false} PowAdds(a: nat, b: nat)
    ensures Pow(FACTOR, a + b) == Pow(FACTOR, a) * Pow(FACTOR, b)
  {
    if a > 0 {
      PowAdds(a - 1, b);
      var p, q := Pow(FACTOR, a - 1), Pow(FACTOR, b);
      assert FACTOR * (p * q) == (FACTOR * p) * q;
    }
  }

  /** After 2^k draws the multiplier is 1 modulo 2^(k+2), the increment an odd multiple of 2^k. */
  lemma {:induction false} AfterPowerOfTwo(k: nat) returns (q: int, r: int)
    ensures Pow(FACTOR, Pow2(k)) == 1 + 4 * (Pow2(k) * q)
    ensures Unwrapped(Pow2(k), 0) == Pow2(k) * (2 * r + 1)
  {
    if k == 0 {
      q, r := FACTOR / 4, STEP / 2;
      assert Pow2(0) == 1 && Pow(FACTOR, 1) == FACTOR * Pow(FACTOR, 0);
      assert Unwrapped(1, 0) == FACTOR * Unwrapped(0, 0) + STEP;
    } else {
      var q0, r0 := AfterPowerOfTwo(k - 1);
      var h := Pow2(k - 1);
      PowAdds(h, h);
      UnwrappedAdds(h, h, 0);
      UnwrappedAffine(h, Unwrapped(h, 0));
      q, r := DoubledSteps(h, q0, r0, Pow(FACTOR, h), Unwrapped(h, 0));
    }
  }

  /** The arithmetic of doubling: (1 + 4hq)^2 and (2 + 4hq) * h(2r + 1). */
  lemma DoubledSteps(h: nat, q0: int, r0: int, p: int, c: int) returns (q: int, r: int)
    requires p == 1 + 4 * (h * q0) && c == h * (2 * r0 + 1)
    ensures p * p == 1 + 4 * ((2 * h) * q)
    ensures p * c + c == (2 * h) * (2 * r + 1)
  {
    var t := h * q0;
    q := q0 + 2 * (t * q0);
    r := r0 + t * (2 * r0 + 1);
    calc {
      p * p;
      1 + 8 * t + 16 * (t * t);
      { assert t * t == h * (t * q0); }
      1 + 8 * (h * q0) + 16 * (h * (t * q0));
      { assert h * q == h * q0 + 2 * (h * (t * q0)); }
      1 + 4 * ((2 * h) * q);
    }
    var o := 2 * r0 + 1;
    calc {
      p * c + c;
      { assert p * c == c + 4 * (t * c); }
      2 * c + 4 * (t * c);
      { assert t * c == h * (t * o); }
      2 * (h * o) + 4 * (h * (t * o));
      { assert h * (2 * r + 1) == h * o + 2 * (h * (t * o)); }
      (2 * h) * (2 * r + 1);
    }
  }

  /** m * 2^k draws move the state by 2^k times a number of m's parity. */
  lemma {:induction false} Jump(k: nat, m: nat, s: int) returns (v: int)
    ensures Unwrapped(m * Pow2(k), s) == s + Pow2(k) * (m + 2 * v)
  {
    if m == 0 {
      v := 0;
    } else {
      var v0 := Jump(k, m - 1, s);
      var q, r := AfterPowerOfTwo(k);
      var p := Pow2(k);
      var y := s + p * (m - 1 + 2 * v0);
      assert m * p == p + (m - 1) * p;
      UnwrappedAdds(p, (m - 1) * p, s);
      UnwrappedAffine(p, y);
      v := v0 + 2 * (q * y) + r;
      JumpArithmetic(p, q, r, y, s, m, v0);
    }
  }

  lemma JumpArithmetic(p: int, q: int, r: int, y: int, s: int, m: int, v0: int)
    requires y == s + p * (m - 1 + 2 * v0)
    ensures (1 + 4 * (p * q)) * y + p * (2 * r + 1) == s + p * (m + 2 * (v0 + 2 * (q * y) + r))
  {
    var z := q * y;
    assert (p * q) * y == p * z;
    assert p * (m + 2 * (v0 + 2 * z + r)) == p * (m - 1 + 2 * v0) + p * (4 * z) + p * (2 * r + 1);
  }

  /** n > 0 as an odd multiple of a power of two. */
  lemma {:induction false} OddPart(n: nat) returns (t: nat, m: nat)
    requires n > 0
    ensures n == m * Pow2(t) && m % 2 == 1
  {
    if n % 2 == 1 {
      t, m := 0, n;
    } else {
      var t0, m0 := OddPart(n / 2);
      t, m := t0 + 1, m0;
      assert 2 * (m * Pow2(t0)) == m * Pow2(t);
    }
  }

  /** Modulo 2^k the unwrapped recurrence returns after n steps exactly if 2^k divides n. */
  lemma {:induction false} UnwrappedReturns(k: nat, n: nat, s: int)
    ensures (Unwrapped(n, s) - s) % Pow2(k) == 0 <==> n % Pow2(k) == 0
  {
    hide Unwrapped, Pow2;
    if n > 0 {
      var t, m := OddPart(n);
      var v := Jump(t, m, s);
      var o := m + 2 * v;
      MultipleOfPower(k, t, m);
      MultipleOfPower(k, t, o);
      Commute(Pow2(t), o);
    } else {
      DivModUnique(0, Pow2(k), 0, 0);
      NothingDrawn(s);
    }
  }

  lemma NothingDrawn(s: int)
    ensures Unwrapped(0, s) == s
  {
  }

  /** An odd multiple of 2^t is divisible by 2^k exactly if k <= t. */
  lemma {:induction false} MultipleOfPower(k: nat, t: nat, m: int)
    requires m % 2 == 1
    ensures (m * Pow2(t)) % Pow2(k) == 0 <==> k <= t
  {
    if k > 0 {
      HalfDivides(m * Pow2(t), Pow2(k - 1));
      if t > 0 {
        assert m * Pow2(t) == 2 * (m * Pow2(t - 1));
        MultipleOfPower(k - 1, t - 1, m);
      }
    }
  }

  /** Full period: for every starting seed and every k <= 32, the low k bits of the state are
      back after n draws exactly if n is a multiple of 2^k. */
  lemma {:induction false} FullPeriod(k: nat, n: nat, s: nat)
    requires k <= 32
    ensures Drawn(n, s) % Pow2(k) == s % Pow2(k) <==> n % Pow2(k) == 0
  {
    UnwrappedReturns(k, n, s);
    var j := DrawnIsUnwrapped(n, s);
    var w := WordIsMultiple(k);
    SameRemainder(Drawn(n, s), s, Pow2(k));
    DropMultiple(Drawn(n, s) - s, Pow2(k), w, j);
  }

  lemma WordIsMultiple(k: nat) returns (w: nat)
    requires k <= 32
    ensures WORD == Pow2(k) * w
  {
    w := Pow2(32 - k);
    Pow2Add(k, 32 - k);
    Pow2Values();
  }

  lemma DropMultiple(x: int, d: nat, w: int, j: int)
    requires d > 0
    ensures (x + (d * w) * j) % d == x % d
  {
    assert (d * w) * j == d * (w * j);
    ModShift(x, d, w * j);
  }

  lemma SameRemainder(x: int, y: int, d: nat)
    requires d > 0
    ensures x % d == y % d <==> (x - y) % d == 0
  {
    if (x - y) % d == 0 {
      assert x == y + d * ((x - y) / d);
      ModShift(y, d, (x - y) / d);
    }
    if x % d == y % d {
      assert x - y == d * (x / d - y / d) by {
        assert d * (x / d - y / d) == d * (x / d) - d * (y / d);
      }
      DivModUnique(x - y, d, x / d - y / d, 0);
    }
  }

  lemma {:induction false} DrawnAdds(a: nat, b: nat, s: nat)
    ensures Drawn(a + b, s) == Drawn(a, Drawn(b, s))
  {
    if a > 0 {
      DrawnAdds(a - 1, b, s);
    }
  }

  lemma {:induction false} DrawnInRange(n: nat, s: nat)
    requires s < WORD
    ensures Drawn(n, s) < WORD
  {
    if n > 0 {
      var last := Next(Drawn(n - 1, s));
    }
  }

  /** The period on whole words. */
  lemma {:induction false} WordReturns(n: nat, s: nat)
    requires s < WORD
    ensures Drawn(n, s) == s <==> n % WORD == 0
  {
    var bits := 32;
    FullPeriod(bits, n, s);
    Pow2Values();
    DrawnInRange(n, s);
    hide Drawn, Pow2;
    assert Drawn(n, s) % WORD == Drawn(n, s) && s % WORD == s;
  }

  /** No word repeats within 2^32 draws. */
  lemma {:induction false} WordsAreDistinct(i: nat, j: nat, s: nat)
    requires s < WORD && i < j < i + WORD
    ensures Drawn(i, s) != Drawn(j, s)
  {
    DrawnAdds(j - i, i, s);
    DrawnInRange(i, s);
    WordReturns(j - i, Drawn(i, s));
  }

  /** Every word is drawn: the i-th draw is w for exactly one seed. */
  lemma {:induction false} EveryWordHasOneSeed(i: nat, w: nat) returns (seed: nat)
    requires w < WORD && i <= WORD
    ensures seed < WORD && Drawn(i, seed) == w
    ensures forall s: nat :: s < WORD && Drawn(i, s) == w ==> s == seed
  {
    hide Drawn, Next;
    var back := WORD - i;
    seed := Drawn(back, w);
    DrawnInRange(back, w);
    DrawnAdds(i, back, w);
    WordReturns(i + back, w);
    forall s: nat | s < WORD && Drawn(i, s) == w ensures s == seed {
      DrawnAdds(back, i, s);
      WordReturns(i + back, s);
    }
  }

  // ----- The four-lane generator -----

  const HALF: nat := 0x1_0000
  const MULTIPLIER_A: nat := 0x4650
  const MULTIPLIER_B: nat := 0x78B7

  /** _mm_mullo_epi16 and _mm_mulhi_epu16 on one 32-bit lane, which holds two 16-bit ones. */
  function MulLow16(x: nat, y: nat): nat {
    x % HALF * (y % HALF) % HALF + HALF * (x / HALF * (y / HALF) % HALF)
  }

  function MulHigh16(x: nat, y: nat): nat {
    x % HALF * (y % HALF) / HALF + HALF * (x / HALF * (y / HALF) / HALF % HALF)
  }

  /** One lane of the path for instruction sets below SSE4. */
  function LaneStep16(m: nat, a: nat): nat {
    var shift := ShiftRight(a, 16);
    var mask := BitAnd(a, 0xFFFF);
    var mulLow := MulLow16(mask, m);
    var mulHigh := MulHigh16(mask, m);
    var mul := BitOr(mulLow, ShiftLeft(mulHigh, 16));
    (mul + shift) % WORD
  }

  /** One lane of the SSE4 path. */
  function LaneStep32(m: nat, a: nat): nat {
    var mask := BitAnd(a, 0xFFFF);
    var shift := ShiftRight(a, 16);
    (mask * m % WORD + shift) % WORD
  }

  /** Multiply-with-carry: the low half is the digit, the high half the carry. */
  function MwcStep(m: nat, a: nat): int {
    a % HALF * m + a / HALF
  }

  lemma {:induction false} MaskAndShift(a: nat)
    ensures BitAnd(a, 0xFFFF) == a % HALF && ShiftRight(a, 16) == a / HALF
  {
    var bits := 16;
    Pow2Values();
    AndMask(a, bits);
    ShiftRightDivides(a, bits);
  }

  lemma ProductFits(x: nat, m: nat)
    requires x < HALF && m < HALF
    ensures 0 <= x * m <= 0xFFFF * m <= 0xFFFF * 0xFFFF
  {
    MulMonotone(0, x, m);
    MulMonotone(x, 0xFFFF, m);
  }

  lemma StepFits(m: nat, a: nat)
    requires m < HALF && a < WORD
    ensures 0 <= a % HALF * m < WORD && 0 <= MwcStep(m, a) < WORD
  {
    ProductFits(a % HALF, m);
  }

  lemma Path32IsStep(m: nat, a: nat)
    requires m < HALF && a < WORD
    ensures LaneStep32(m, a) == MwcStep(m, a)
  {
    hide BitAnd, ShiftRight;
    StepFits(m, a);
    MaskAndShift(a);
  }

  lemma Path16IsStep(m: nat, a: nat)
    requires m < HALF && a < WORD
    ensures LaneStep16(m, a) == MwcStep(m, a)
  {
    hide MulLow16, MulHigh16, BitOr, ShiftLeft, BitAnd, ShiftRight;
    StepFits(m, a);
    MaskAndShift(a);
    var x := a % HALF;
    var product := x * m;
    SingleHalf(x, m);
    JoinHalves(product);
    assert BitOr(MulLow16(x, m), ShiftLeft(MulHigh16(x, m), 16)) == product;
  }

  /** No 32-bit sum or product wraps, and the two instruction paths agree, in every state. */
  lemma {:induction false} PathsAgree(m: nat, a: nat)
    requires m < HALF && a < WORD
    ensures 0 <= MwcStep(m, a) < WORD
    ensures LaneStep32(m, a) == LaneStep16(m, a) == MwcStep(m, a)
  {
    hide LaneStep32, LaneStep16, MwcStep;
    StepFits(m, a);
    Path32IsStep(m, a);
    Path16IsStep(m, a);
  }

  lemma JoinHalves(product: nat)
    requires product < WORD
    ensures BitOr(product % HALF, ShiftLeft(product / HALF, 16)) == product
  {
    hide BitOr;
    var bits := 16;
    var low, high := product % HALF, product / HALF;
    Pow2Values();
    OrDisjoint(low, high, bits);
    assert ShiftLeft(high, bits) == high * HALF;
  }

  lemma SingleHalf(x: nat, m: nat)
    requires x < HALF && m < HALF
    ensures MulLow16(x, m) == x * m % HALF
    ensures MulHigh16(x, m) == x * m / HALF < HALF
  {
    ProductFits(x, m);
  }

  /** The state of a lane after n steps. */
  function LaneAfter(m: nat, n: nat, a: nat): (r: nat)
    requires m < HALF && a < WORD
    ensures r < WORD
  {
    if n == 0 then a
    else
      PathsAgree(m, LaneAfter(m, n - 1, a));
      MwcStep(m, LaneAfter(m, n - 1, a))
  }

  /** The modulus of which a lane is a power sequence. */
  function Modulus(m: nat): int {
    m * HALF - 1
  }

  /** Over whole runs: 2^(16n) * x_n is congruent to x_0. */
  lemma {:induction false} LaneIsPowerSequence(m: nat, n: nat, a: nat)
    requires 0 < m < HALF && a < WORD
    ensures Congruent(Pow(HALF, n) * LaneAfter(m, n, a), a, Modulus(m))
  {
    if n > 0 {
      var y, p := LaneAfter(m, n - 1, a), Pow(HALF, n - 1);
      LaneIsPowerSequence(m, n - 1, a);
      PowerUnfolds(n);
      LaneUnfolds(m, n, a);
      hide Pow, LaneAfter;
      PowerStep(p, m, y, y % HALF, y / HALF);
      CongruentWitness(Pow(HALF, n) * LaneAfter(m, n, a), p * y, Modulus(m), p * (y % HALF));
    }
  }

  lemma PowerUnfolds(n: nat)
    requires n > 0
    ensures Pow(HALF, n) == HALF * Pow(HALF, n - 1)
  {
  }

  lemma LaneUnfolds(m: nat, n: nat, a: nat)
    requires m < HALF && a < WORD && n > 0
    ensures LaneAfter(m, n, a) == LaneAfter(m, n - 1, a) % HALF * m + LaneAfter(m, n - 1, a) / HALF
  {
  }

  lemma PowerStep(p: int, m: int, y: int, x: int, c: int)
    requires y == x + HALF * c
    ensures HALF * p * (x * m + c) == p * y + (m * HALF - 1) * (p * x)
  {
    assert p * y == p * x + HALF * (p * c);
    assert p * (x * m + c) == m * (p * x) + p * c;
  }

  /** The carry stays below the multiplier. */
  lemma CarryStaysBelow(m: nat, a: nat)
    requires 0 < m < HALF && a < WORD && a / HALF < m
    ensures 0 <= MwcStep(m, a) && MwcStep(m, a) / HALF < m
  {
    ProductFits(a % HALF, m);
  }

  /** Whatever word a lane was seeded with, its carry is below the multiplier from the third step on. */
  lemma {:induction false} CarrySettles(m: nat, n: nat, a: nat)
    requires 1 < m < HALF && a < WORD
    ensures n >= 3 ==> LaneAfter(m, n, a) / HALF < m
  {
    if n == 3 {
      var x1, x2 := LaneAfter(m, n - 2, a), LaneAfter(m, n - 1, a);
      assert x1 == MwcStep(m, LaneAfter(m, n - 3, a)) && x2 == MwcStep(m, x1);
      FirstCarry(m, LaneAfter(m, n - 3, a));
      SecondCarry(m, x1);
      if x2 / HALF < m {
        CarryStaysBelow(m, x2);
      }
    } else if n > 3 {
      CarrySettles(m, n - 1, a);
      CarryStaysBelow(m, LaneAfter(m, n - 1, a));
    }
  }

  lemma FirstCarry(m: nat, a: nat)
    requires 0 < m < HALF && a < WORD
    ensures 0 <= MwcStep(m, a) && MwcStep(m, a) / HALF <= m
  {
    ProductFits(a % HALF, m);
  }

  lemma SecondCarry(m: nat, a: nat)
    requires 1 < m < HALF && a < WORD && a / HALF <= m
    ensures 0 <= MwcStep(m, a) && (MwcStep(m, a) / HALF < m || MwcStep(m, a) == m * HALF)
  {
    ProductFits(a % HALF, m);
  }

  /** A non-zero lane never reaches zero; a zero lane never leaves it. */
  lemma {:induction false} ZeroIsApart(m: nat, n: nat, a: nat)
    requires 0 < m < HALF && a < WORD
    ensures LaneAfter(m, n, a) == 0 <==> a == 0
  {
    if n > 0 {
      var y := LaneAfter(m, n - 1, a);
      ZeroIsApart(m, n - 1, a);
      assert y % HALF > 0 ==> y % HALF * m > 0;
    }
  }

  /** For the two multipliers used, a lane repeats its state at once only at 0 and at the modulus. */
  lemma FixedPoints(m: nat, a: nat)
    requires (m == MULTIPLIER_A || m == MULTIPLIER_B) && a < WORD
    ensures MwcStep(m, a) == a <==> a == 0 || a == Modulus(m)
  {
    if m == MULTIPLIER_A {
      FixedDigitsA(a % HALF, a / HALF);
    } else {
      FixedDigitsB(a % HALF, a / HALF);
    }
  }

  /** Written in digits a fixed point has (m - 1) * x == 65535 * c, and m - 1 and 65535 have no common factor. */
  lemma FixedDigitsA(x: nat, c: nat)
    requires x < HALF
    ensures 18000 * x + c == x + HALF * c <==> (x == 0 && c == 0) || (x == 0xFFFF && c == 17999)
  {
    if 17999 * x == 0xFFFF * c {
      var k := 18704 * c - 5137 * x;
      assert x == 0xFFFF * k;
      assert k == 0 || k == 1;
    }
  }

  lemma FixedDigitsB(x: nat, c: nat)
    requires x < HALF
    ensures 30903 * x + c == x + HALF * c <==> (x == 0 && c == 0) || (x == 0xFFFF && c == 30902)
  {
    if 30902 * x == 0xFFFF * c {
      var k := 11405 * x - 24187 * c;
      assert x == 0xFFFF * k;
      assert k == 0 || k == 1;
    }
  }

  /** A step keeps divisibility by the modulus both ways: HALF is a unit modulo it. */
  lemma StepKeepsMultiples(m: nat, a: nat)
    requires 0 < m < HALF && a < WORD
    ensures MwcStep(m, a) % Modulus(m) == 0 <==> a % Modulus(m) == 0
  {
    var d, y, x := Modulus(m), MwcStep(m, a), a % HALF;
    UnitStep(m, a, y, x);
    hide MwcStep, Modulus;
    if y % d == 0 {
      MultipleOf(y, d);
      MultipleBefore(d, y, a, x, y / d);
      IsMultiple(a, d, HALF * (y / d) - x);
    }
    if a % d == 0 {
      MultipleOf(a, d);
      MultipleAfter(m, d, y, a, x, a / d);
      IsMultiple(y, d, m * (a / d + x) - y);
    }
  }

  lemma UnitStep(m: nat, a: nat, y: int, x: int)
    requires 0 < m && y == MwcStep(m, a) && x == a % HALF
    ensures a == HALF * y - Modulus(m) * x && m * HALF == Modulus(m) + 1 > 1
  {
    assert HALF * (x * m) == m * HALF * x;
  }

  lemma MultipleBefore(d: int, y: int, a: int, x: int, q: int)
    requires a == HALF * y - d * x && y == d * q
    ensures a == d * (HALF * q - x)
  {
    assert HALF * (d * q) == d * (HALF * q);
  }

  lemma MultipleAfter(m: int, d: int, y: int, a: int, x: int, q: int)
    requires m * HALF == d + 1 && a == HALF * y - d * x && a == d * q
    ensures y == d * (m * (q + x) - y)
  {
    assert HALF * y == d * (q + x);
    assert m * (HALF * y) == m * HALF * y == d * y + y;
    assert m * (d * (q + x)) == d * (m * (q + x));
  }

  lemma MultipleOf(x: int, d: int)
    requires d > 0 && x % d == 0
    ensures x == d * (x / d)
  {
  }

  lemma IsMultiple(x: int, d: int, k: int)
    requires d > 0 && x == d * k
    ensures x % d == 0
  {
    DivModUnique(x, d, k, 0);
  }

  lemma {:induction false} MultiplesStay(m: nat, n: nat, a: nat)
    requires 0 < m < HALF && a < WORD
    ensures LaneAfter(m, n, a) % Modulus(m) == 0 <==> a % Modulus(m) == 0
  {
    if n > 0 {
      MultiplesStay(m, n - 1, a);
      StepKeepsMultiples(m, LaneAfter(m, n - 1, a));
      hide Modulus, MwcStep;
    }
  }

  /** A lane stands still exactly if it was seeded with a multiple of its modulus, and then from the
      third step on. */
  lemma {:induction false} LaneDiesExactly(m: nat, n: nat, a: nat)
    requires (m == MULTIPLIER_A || m == MULTIPLIER_B) && a < WORD && n >= 3
    ensures LaneAfter(m, n + 1, a) == LaneAfter(m, n, a) <==> a % Modulus(m) == 0
  {
    var y := LaneAfter(m, n, a);
    assert LaneAfter(m, n + 1, a) == MwcStep(m, y);
    hide MwcStep, LaneAfter;
    CarrySettles(m, n, a);
    MultiplesStay(m, n, a);
    FixedPoints(m, y);
    SmallMultiple(m, y);
    hide Modulus;
  }

  lemma SmallMultiple(m: nat, y: nat)
    requires 1 < m < HALF && y / HALF < m
    ensures y % Modulus(m) == 0 <==> y == 0 || y == Modulus(m)
  {
    var d := Modulus(m);
    assert y <= d;
    hide Modulus;
    MultipleWithin(y, d);
  }

  lemma MultipleWithin(y: nat, d: int)
    requires d > 0 && y <= d
    ensures y % d == 0 <==> y == 0 || y == d
  {
    if y == d {
      DivModUnique(y, d, 1, 0);
    } else {
      DivModUnique(y, d, 0, y);
    }
  }

  /** The multiplier of the lane that gets a draw: four lanes each. */
  function MultiplierOf(draw: nat): nat {
    if draw <= 4 then MULTIPLIER_A else MULTIPLIER_B
  }

  // Each row is a multiple of a modulus and the states that lead to it, latest first.
  const DEAD_0: seq<nat> := [0, 2708534849, 59255510, 2004624719, 1040873596, 380547949, 3556861554, 1312410651, 3834897976]
  const DEAD_A1: seq<nat> := [1179647999, 2421015788, 2868413597, 639503202, 3508436939]
  const DEAD_A2: seq<nat> := [2359295998, 2133496727, 1382604388, 3569348981, 1681032986]
  const DEAD_A3: seq<nat> := [3538943997, 1845977666, 4191762475, 2204227464, 4148596329]
  const DEAD_B1: seq<nat> := [2025259007, 58770668, 2917631133, 3732474722, 1918205899, 54214568, 4123279625, 3327674174, 12418007]
  const DEAD_B2: seq<nat> := [4050518014, 1703973783, 1481039460, 1165357429, 2795538202, 4022848483, 394730400, 1047970401, 484905334]

  /** The seeds whose draw is a dead word, for each draw. */
  predicate IsDeadSeed(draw: nat, seed: nat)
    requires 1 <= draw <= 8
  {
    if draw <= 4 then seed in [DEAD_0[draw], DEAD_A1[draw], DEAD_A2[draw], DEAD_A3[draw]]
    else seed in [DEAD_0[draw], DEAD_B1[draw], DEAD_B2[draw]]
  }

  /** Every state but the first draws the one before it in the row. */
  ghost predicate IsRun(states: seq<nat>, length: nat) {
    |states| == length && forall k :: 0 < k < length ==> states[k] < WORD && Next(states[k]) == states[k - 1]
  }

  lemma Run0()
    ensures IsRun(DEAD_0, 9)
  {
    Run0First();
    Run0Last();
    hide Next;
  }

  lemma Run0First()
    ensures Next(2708534849) == 0
    ensures Next(59255510) == 2708534849
    ensures Next(2004624719) == 59255510
    ensures Next(1040873596) == 2004624719
  {
  }

  lemma Run0Last()
    ensures Next(380547949) == 1040873596
    ensures Next(3556861554) == 380547949
    ensures Next(1312410651) == 3556861554
    ensures Next(3834897976) == 1312410651
  {
  }

  lemma RunA1()
    ensures IsRun(DEAD_A1, 5)
  {
    assert Next(2421015788) == 1179647999;
    assert Next(2868413597) == 2421015788;
    assert Next(639503202) == 2868413597;
    assert Next(3508436939) == 639503202;
    hide Next;
  }

  lemma RunA2()
    ensures IsRun(DEAD_A2, 5)
  {
    assert Next(2133496727) == 2359295998;
    assert Next(1382604388) == 2133496727;
    assert Next(3569348981) == 1382604388;
    assert Next(1681032986) == 3569348981;
    hide Next;
  }

  lemma RunA3()
    ensures IsRun(DEAD_A3, 5)
  {
    assert Next(1845977666) == 3538943997;
    assert Next(4191762475) == 1845977666;
    assert Next(2204227464) == 4191762475;
    assert Next(4148596329) == 2204227464;
    hide Next;
  }

  lemma RunB1()
    ensures IsRun(DEAD_B1, 9)
  {
    RunB1First();
    RunB1Last();
    hide Next;
  }

  lemma RunB1First()
    ensures Next(58770668) == 2025259007
    ensures Next(2917631133) == 58770668
    ensures Next(3732474722) == 2917631133
    ensures Next(1918205899) == 3732474722
  {
  }

  lemma RunB1Last()
    ensures Next(54214568) == 1918205899
    ensures Next(4123279625) == 54214568
    ensures Next(3327674174) == 4123279625
    ensures Next(12418007) == 3327674174
  {
  }

  lemma RunB2()
    ensures IsRun(DEAD_B2, 9)
  {
    RunB2First();
    RunB2Last();
    hide Next;
  }

  lemma RunB2First()
    ensures Next(1703973783) == 4050518014
    ensures Next(1481039460) == 1703973783
    ensures Next(1165357429) == 1481039460
    ensures Next(2795538202) == 1165357429
  {
  }

  lemma RunB2Last()
    ensures Next(4022848483) == 2795538202
    ensures Next(394730400) == 4022848483
    ensures Next(1047970401) == 394730400
    ensures Next(484905334) == 1047970401
  {
  }

  lemma {:induction false} DrawsAlongRun(states: seq<nat>, length: nat, k: nat, i: nat)
    requires IsRun(states, length) && i <= k < length
    ensures Drawn(i, states[k]) == states[k - i]
  {
    hide Next;
    if i > 0 {
      DrawsAlongRun(states, length, k, i - 1);
    }
  }

  lemma DrawsDiffer(draw: nat, s: nat, t: nat)
    requires draw <= WORD && s < WORD && t < WORD && Drawn(draw, s) == Drawn(draw, t)
    ensures s == t
  {
    hide Drawn;
    DrawnInRange(draw, s);
    var seed := EveryWordHasOneSeed(draw, Drawn(draw, s));
  }

  /** A seed draws the first word of a row after `draw` draws exactly if it stands there in the row. */
  lemma SeedOfRun(states: seq<nat>, length: nat, draw: nat, seed: nat)
    requires IsRun(states, length) && 0 < draw < length <= WORD && seed < WORD
    ensures Drawn(draw, seed) == states[0] <==> seed == states[draw]
  {
    hide Drawn, Next;
    DrawsAlongRun(states, length, draw, draw);
    if Drawn(draw, seed) == states[0] {
      DrawsDiffer(draw, seed, states[draw]);
    }
  }

  lemma MultiplesOfA(w: nat)
    requires w < WORD
    ensures w % Modulus(MULTIPLIER_A) == 0 <==> w == DEAD_0[0] || w == DEAD_A1[0] || w == DEAD_A2[0] || w == DEAD_A3[0]
  {
  }

  lemma MultiplesOfB(w: nat)
    requires w < WORD
    ensures w % Modulus(MULTIPLIER_B) == 0 <==> w == DEAD_0[0] || w == DEAD_B1[0] || w == DEAD_B2[0]
  {
  }

  lemma SeedsOfA(draw: nat, seed: nat)
    requires 1 <= draw <= 4 && seed < WORD
    ensures Drawn(draw, seed) < WORD
    ensures Drawn(draw, seed) % Modulus(MULTIPLIER_A) == 0 <==> IsDeadSeed(draw, seed)
  {
    hide Drawn, Next, Modulus, IsRun;
    DrawnInRange(draw, seed);
    MultiplesOfA(Drawn(draw, seed));
    Run0();
    RunA1();
    RunA2();
    RunA3();
    SeedOfRun(DEAD_0, 9, draw, seed);
    SeedOfRun(DEAD_A1, 5, draw, seed);
    SeedOfRun(DEAD_A2, 5, draw, seed);
    SeedOfRun(DEAD_A3, 5, draw, seed);
  }

  lemma SeedsOfB(draw: nat, seed: nat)
    requires 5 <= draw <= 8 && seed < WORD
    ensures Drawn(draw, seed) < WORD
    ensures Drawn(draw, seed) % Modulus(MULTIPLIER_B) == 0 <==> IsDeadSeed(draw, seed)
  {
    hide Drawn, Next, Modulus, IsRun;
    DrawnInRange(draw, seed);
    MultiplesOfB(Drawn(draw, seed));
    Run0();
    RunB1();
    RunB2();
    SeedOfRun(DEAD_0, 9, draw, seed);
    SeedOfRun(DEAD_B1, 9, draw, seed);
    SeedOfRun(DEAD_B2, 9, draw, seed);
  }

  /** Which seeds leave a lane dead: the lane that gets a draw stands still from the third step on if and
      only if the seed is one of the three or four listed for that draw. */
  lemma DeadLaneExactly(seed: nat, draw: nat, n: nat)
    requires seed < WORD && 1 <= draw <= 8 && n >= 3
    ensures Drawn(draw, seed) < WORD
    ensures var (m, word) := (MultiplierOf(draw), Drawn(draw, seed));
            LaneAfter(m, n + 1, word) == LaneAfter(m, n, word) <==> IsDeadSeed(draw, seed)
  {
    hide Drawn, LaneAfter, Modulus, IsDeadSeed;
    if draw <= 4 {
      SeedsOfA(draw, seed);
    } else {
      SeedsOfB(draw, seed);
    }
    LaneDiesExactly(MultiplierOf(draw), n, Drawn(draw, seed));
  }

  // ----- The generator object -----

  class Generator {
    var m_a: seq<nat>
    var m_b: seq<nat>
    var m_uiSeed: nat

    ghost predicate Valid()
      reads this
    {
      && |m_a| == |m_b| == 4 && m_uiSeed < WORD
      && forall i :: 0 <= i < 4 ==> m_a[i] < WORD && m_b[i] < WORD
    }

    constructor (random: nat)
      requires random < WORD
      ensures Valid() && m_uiSeed == Drawn(8, random)
      ensures forall i :: 0 <= i < 4 ==> m_a[i] == Drawn(i + 1, random) && m_b[i] == Drawn(i + 5, random)
    {
      m_a, m_b, m_uiSeed := [], [], 0;
      new;
      Seed(random);
    }

    /** Fills the eight lanes with the first eight words; no two of them are equal. */
    method Seed(uiSeed: nat)
      requires uiSeed < WORD
      modifies this
      ensures Valid() && m_uiSeed == Drawn(8, uiSeed)
      ensures forall i :: 0 <= i < 4 ==> m_a[i] == Drawn(i + 1, uiSeed) && m_b[i] == Drawn(i + 5, uiSeed)
      ensures forall i, j :: 0 <= i < j < 8 ==> (m_a + m_b)[i] != (m_a + m_b)[j]
    {
      hide Next, Drawn;
      m_uiSeed := uiSeed;
      var a1 := UI1();
      var a2 := UI1();
      var a3 := UI1();
      var a4 := UI1();
      var b1 := UI1();
      var b2 := UI1();
      var b3 := UI1();
      var b4 := UI1();
      m_a := [a1, a2, a3, a4];
      m_b := [b1, b2, b3, b4];
      EightLanes(uiSeed, m_a, m_b);
    }

    method UI1() returns (r: nat)
      modifies this`m_uiSeed
      ensures r == m_uiSeed == Next(old(m_uiSeed))
    {
      m_uiSeed := (214013 * m_uiSeed + 2531011) % WORD;
      return m_uiSeed;
    }

    /** Either instruction path takes all eight lanes one multiply-with-carry step further. */
    method UI4(sse4: bool) returns (res: seq<nat>)
      requires Valid()
      modifies this`m_a, this`m_b
      ensures Valid() && |res| == 4
      ensures forall i :: 0 <= i < 4 ==> m_a[i] == MwcStep(MULTIPLIER_A, old(m_a[i])) && m_b[i] == MwcStep(MULTIPLIER_B, old(m_b[i]))
      ensures forall i :: 0 <= i < 4 ==> res[i] == m_a[i] % HALF * HALF + m_b[i] % HALF
    {
      hide LaneStep16, LaneStep32, MwcStep, Output;
      var a, b := m_a, m_b;
      var aNew, bNew: seq<nat>;
      if !sse4 {
        aNew := [LaneStep16(0x4650, a[0]), LaneStep16(0x4650, a[1]), LaneStep16(0x4650, a[2]), LaneStep16(0x4650, a[3])];
        bNew := [LaneStep16(0x78B7, b[0]), LaneStep16(0x78B7, b[1]), LaneStep16(0x78B7, b[2]), LaneStep16(0x78B7, b[3])];
      } else {
        aNew := [LaneStep32(0x4650, a[0]), LaneStep32(0x4650, a[1]), LaneStep32(0x4650, a[2]), LaneStep32(0x4650, a[3])];
        bNew := [LaneStep32(0x78B7, b[0]), LaneStep32(0x78B7, b[1]), LaneStep32(0x78B7, b[2]), LaneStep32(0x78B7, b[3])];
      }
      forall i | 0 <= i < 4
        ensures aNew[i] == MwcStep(MULTIPLIER_A, a[i]) && bNew[i] == MwcStep(MULTIPLIER_B, b[i])
        ensures aNew[i] < WORD && bNew[i] < WORD
        ensures Output(aNew[i], bNew[i]) == aNew[i] % HALF * HALF + bNew[i] % HALF
      {
        PathsAgree(MULTIPLIER_A, a[i]);
        PathsAgree(MULTIPLIER_B, b[i]);
        OutputDigits(aNew[i], bNew[i]);
      }
      m_a := aNew;
      m_b := bNew;
      res := [Output(aNew[0], bNew[0]), Output(aNew[1], bNew[1]), Output(aNew[2], bNew[2]), Output(aNew[3], bNew[3])];
    }
  }

  /** One lane of the result. */
  function Output(a: nat, b: nat): nat {
    (ShiftLeft(a, 16) + BitAnd(b, 0xFFFF)) % WORD
  }

  /** The digit of a stands above the digit of b. */
  lemma OutputDigits(a: nat, b: nat)
    ensures Output(a, b) == a % HALF * HALF + b % HALF
  {
    MaskAndShift(b);
    Pow2Values();
    DivModUnique(a * HALF, WORD, a / HALF, a % HALF * HALF);
  }

  lemma {:induction false} WordsAreDrawn(s: nat, words: seq<nat>, i: nat)
    requires s < WORD && i < |words|
    requires words[0] == Next(s) && forall i :: 0 < i < |words| ==> words[i] == Next(words[i - 1])
    ensures words[i] == Drawn(i + 1, s) < WORD
  {
    if i == 0 {
      assert Drawn(0, s) == s;
    } else {
      WordsAreDrawn(s, words, i - 1);
    }
  }

  lemma {:induction false} EightLanes(s: nat, a: seq<nat>, b: seq<nat>)
    requires s < WORD && |a| == |b| == 4
    requires a[0] == Next(s) && a[1] == Next(a[0]) && a[2] == Next(a[1]) && a[3] == Next(a[2])
    requires b[0] == Next(a[3]) && b[1] == Next(b[0]) && b[2] == Next(b[1]) && b[3] == Next(b[2])
    ensures forall i :: 0 <= i < 4 ==> a[i] == Drawn(i + 1, s) < WORD && b[i] == Drawn(i + 5, s) < WORD
    ensures forall i, j :: 0 <= i < j < 8 ==> (a + b)[i] != (a + b)[j]
  {
    hide Next, Drawn;
    var words := a + b;
    FirstEight(s, words);
    forall i | 0 <= i < 4 ensures a[i] == Drawn(i + 1, s) < WORD && b[i] == Drawn(i + 5, s) < WORD {
      assert a[i] == words[i] && b[i] == words[i + 4];
    }
  }

  lemma {:induction false} FirstEight(s: nat, words: seq<nat>)
    requires s < WORD && |words| == 8
    requires words[0] == Next(s) && forall i :: 0 < i < 8 ==> words[i] == Next(words[i - 1])
    ensures forall i :: 0 <= i < 8 ==> words[i] == Drawn(i + 1, s) < WORD
    ensures forall i, j :: 0 <= i < j < 8 ==> words[i] != words[j]
  {
    hide Next, Drawn;
    forall i | 0 <= i < 8 ensures words[i] == Drawn(i + 1, s) < WORD {
      WordsAreDrawn(s, words, i);
    }
    forall i, j | 0 <= i < j < 8 ensures words[i] != words[j] {
      WordsAreDistinct(i + 1, j + 1, s);
    }
  }
}
