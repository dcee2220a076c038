/** Packing floats into formats with a five-bit exponent, and unpacking them again.

    A float is its 32-bit pattern. Magnitudes are integers: the real magnitude times 2^68, which makes
    every float from 2^-45 upwards and every code of every format an integer. */
module SmallFloat {
  import opened Bits
  import opened Powers

  const E_MASK: nat := 31
  const BIAS: nat := 15

  /** The formats of the library: a sign bit fits only above at most ten mantissa bits. */
  predicate Format(mBits: nat, sMask: nat) {
    1 <= mBits <= 22 && (sMask == 0 || (sMask == 0x8000 && mBits <= 10))
  }

  function Exponent(f32: nat): nat {
    f32 / 0x80_0000 % 0x100
  }

  function Fraction(f32: nat): nat {
    f32 % 0x80_0000
  }

  /** Magnitude of a normal float, times 2^68. */
  function Magnitude(f32: nat): nat
    requires Exponent(f32) >= 82
  {
    (0x80_0000 + Fraction(f32)) * Pow2(Exponent(f32) - 82)
  }

  /** The sign bit a code keeps. */
  function SignBit(sMask: nat, f32: nat): nat {
    if sMask != 0 && f32 >= 0x8000_0000 then 0x8000 else 0
  }

  function Infinity(mBits: nat): nat {
    E_MASK * Pow2(mBits)
  }

  function Quotient(a: nat, d: nat): nat
    requires d > 0
  {
    a / d
  }

  /** What a code without its sign stands for, in units of the least code. */
  function Level(mBits: nat, code: nat): int {
    var e := Quotient(code, Pow2(mBits));
    var m := code % Pow2(mBits);
    if e == 0 then m else (Pow2(mBits) + m) * Pow2(e - 1)
  }

  /** The magnitude a code stands for, times 2^68; infinity stands for 2^16 here. */
  function Value(mBits: nat, code: nat): int
    requires mBits <= 54
  {
    Level(mBits, code) * Pow2(54 - mBits)
  }

  function Distance(x: int, y: int): nat {
    if x < y then y - x else x - y
  }

  predicate Closer(mBits: nat, code: nat, other: nat, x: int)
    requires mBits <= 54
  {
    var (mine, theirs) := (Distance(x, Value(mBits, code)), Distance(x, Value(mBits, other)));
    mine < theirs || (mine == theirs && other <= code)
  }

  /** No code from zero to infinity is nearer to x, and none equally near is farther from zero. */
  ghost predicate IsNearest(mBits: nat, code: nat, x: int)
    requires mBits <= 54
  {
    && code <= Infinity(mBits)
    && forall other: nat | other <= Infinity(mBits) :: Closer(mBits, code, other, x)
  }

  /** What a packed word must be for a float: sign kept, the rest the nearest code, infinity and
      not-a-number carried over with as much of the payload as fits. */
  ghost predicate PacksTo(mBits: nat, sMask: nat, f32: nat, packed: nat)
    requires Format(mBits, sMask) && Exponent(f32) >= 82
  {
    var sign, m := SignBit(sMask, f32), Fraction(f32);
    if Exponent(f32) < 255 then
      packed >= sign && IsNearest(mBits, packed - sign, Magnitude(f32))
    else
      packed == sign + Infinity(mBits) + KeptPayload(mBits, m)
  }

  // ---- The codes on the number line ----

  lemma LevelAt(mBits: nat, e: nat, m: nat)
    requires m < Pow2(mBits)
    ensures Level(mBits, e * Pow2(mBits) + m) == if e == 0 then m else (Pow2(mBits) + m) * Pow2(e - 1)
  {
    DivModUnique(e * Pow2(mBits) + m, Pow2(mBits), e, m);
  }

  function Spacing(e: nat): nat {
    if e == 0 then 1 else Pow2(e - 1)
  }

  lemma LevelStep(mBits: nat, e: nat, m: nat)
    requires m < Pow2(mBits)
    ensures Level(mBits, e * Pow2(mBits) + m + 1) == Level(mBits, e * Pow2(mBits) + m) + Spacing(e)
  {
    hide Level;
    var p := Pow2(mBits);
    LevelAt(mBits, e, m);
    if m + 1 < p {
      LevelAt(mBits, e, m + 1);
      assert e > 0 ==> (p + (m + 1)) * Pow2(e - 1) == (p + m) * Pow2(e - 1) + Pow2(e - 1);
    } else {
      LevelAt(mBits, e + 1, 0);
      assert (e + 1) * p + 0 == e * p + m + 1;
      if e > 0 {
        NextBinade(p, Pow2(e - 1));
      }
    }
  }

  lemma NextBinade(p: nat, q: nat)
    ensures (p + 0) * (2 * q) == (p + (p - 1)) * q + q
  {
  }

  lemma ValueStep(mBits: nat, code: nat)
    requires mBits <= 54
    ensures Value(mBits, code) < Value(mBits, code + 1)
  {
    LevelRises(mBits, code);
    hide Level;
    Scale(Level(mBits, code), Level(mBits, code + 1), Pow2(54 - mBits));
  }

  lemma LevelRises(mBits: nat, code: nat)
    ensures Level(mBits, code) < Level(mBits, code + 1)
  {
    hide Level, Quotient, Pow2;
    var p := Pow2(mBits);
    var e, m := Quotient(code, p), code % p;
    QuotientAndRest(code, p);
    Commute(e, p);
    LevelStep(mBits, e, m);
  }

  lemma Scale(a: int, b: int, s: nat)
    requires a < b && s > 0
    ensures a * s < b * s
  {
    var rise := b - a;
    MulMonotone(1, rise, s);
    assert b * s == a * s + rise * s;
  }

  lemma {:induction false} ValueRises(mBits: nat, code: nat, above: nat)
    requires mBits <= 54 && code < above
    ensures Value(mBits, code) < Value(mBits, above)
    decreases above
  {
    hide Value;
    if code < above - 1 {
      ValueRises(mBits, code, above - 1);
    }
    ValueStep(mBits, above - 1);
  }

  /** Between the midpoints to its two neighbours, a code is the nearest one. */
  lemma BetweenMidpoints(mBits: nat, code: nat, x: int)
    requires mBits <= 54 && code <= Infinity(mBits)
    requires code > 0 ==> 2 * x >= Value(mBits, code - 1) + Value(mBits, code)
    requires code < Infinity(mBits) ==> 2 * x < Value(mBits, code) + Value(mBits, code + 1)
    ensures IsNearest(mBits, code, x)
  {
    hide Value, Infinity;
    forall other: nat | other <= Infinity(mBits) ensures Closer(mBits, code, other, x) {
      if other < code {
        ValueRises(mBits, other, code);
        if other < code - 1 {
          ValueRises(mBits, other, code - 1);
        }
      } else if code < other {
        ValueRises(mBits, code, other);
        if code + 1 < other {
          ValueRises(mBits, code + 1, other);
        }
      }
    }
  }

  /** Rounding keeps order. */
  lemma NearestIsMonotone(mBits: nat, c: nat, x: int, d: nat, y: int)
    requires mBits <= 54 && x <= y && IsNearest(mBits, c, x) && IsNearest(mBits, d, y)
    ensures c <= d
  {
    hide Value, Infinity;
    assert Closer(mBits, c, d, x) && Closer(mBits, d, c, y);
    if d < c {
      ValueRises(mBits, d, c);
    }
  }

  /** A code's own value rounds to that code. */
  lemma ValueIsNearest(mBits: nat, code: nat)
    requires mBits <= 54 && code <= Infinity(mBits)
    ensures IsNearest(mBits, code, Value(mBits, code))
  {
    hide Value, Infinity;
    if code > 0 {
      ValueStep(mBits, code - 1);
    }
    ValueStep(mBits, code);
    BetweenMidpoints(mBits, code, Value(mBits, code));
  }

  /** Only one word meets the specification of packing. */
  lemma PackingIsUnique(mBits: nat, sMask: nat, f32: nat, a: nat, b: nat)
    requires Format(mBits, sMask) && Exponent(f32) >= 82
    requires PacksTo(mBits, sMask, f32, a) && PacksTo(mBits, sMask, f32, b)
    ensures a == b
  {
    hide IsNearest, Infinity, Magnitude;
    if Exponent(f32) < 255 {
      var sign, x := SignBit(sMask, f32), Magnitude(f32);
      NearestIsMonotone(mBits, a - sign, x, b - sign, x);
      NearestIsMonotone(mBits, b - sign, x, a - sign, x);
    }
  }

  /** Larger floats, up to infinity, never get smaller codes. */
  lemma PackingIsMonotone(mBits: nat, sMask: nat, f: nat, g: nat, a: nat, b: nat)
    requires Format(mBits, sMask) && 82 <= Exponent(f) && 82 <= Exponent(g)
    requires f <= g <= 0x7F80_0000
    requires PacksTo(mBits, sMask, f, a) && PacksTo(mBits, sMask, g, b)
    ensures a <= b
  {
    UpToInfinity(f);
    UpToInfinity(g);
    hide Infinity, Magnitude, Exponent, Fraction;
    if g < 0x7F80_0000 {
      hide IsNearest;
      MagnitudeIsMonotone(f, g);
      NearestIsMonotone(mBits, a, Magnitude(f), b, Magnitude(g));
    }
  }

  lemma UpToInfinity(f: nat)
    requires f <= 0x7F80_0000
    ensures if f == 0x7F80_0000 then Exponent(f) == 255 && Fraction(f) == 0 else Exponent(f) < 255
  {
  }

  lemma MagnitudeIsMonotone(f: nat, g: nat)
    requires 82 <= Exponent(f) && 82 <= Exponent(g) && f <= g < 0x8000_0000
    ensures Magnitude(f) <= Magnitude(g)
  {
    FieldsAreOrdered(f, g);
    var e, d := Exponent(f) - 82, Exponent(g) - 82;
    var x, y := 0x80_0000 + Fraction(f), 0x80_0000 + Fraction(g);
    assert x <= 2 * y;
    hide Exponent, Fraction, Pow2;
    if e == d {
      MulMonotone(x, y, Pow2(e));
    } else {
      Pow2Monotone(e + 1, d);
      GrowsWithBinade(x, y, Pow2(e), Pow2(d));
    }
  }

  lemma FieldsAreOrdered(f: nat, g: nat)
    requires f <= g < 0x8000_0000
    ensures Exponent(f) <= Exponent(g) && (Exponent(f) == Exponent(g) ==> Fraction(f) <= Fraction(g))
  {
  }

  lemma GrowsWithBinade(x: nat, y: nat, p: nat, q: nat)
    requires x <= 2 * y && 2 * p <= q
    ensures x * p <= y * q
  {
    MulMonotone(x, 2 * y, p);
    MulMonotone(2 * p, q, y);
    assert 2 * y * p == 2 * p * y;
  }

  // ---- Packing ----

  /** Reading the fields of a float off its bits. */
  lemma FieldsOfBits(f32: nat)
    requires f32 < WORD
    ensures BitAnd(ShiftRight(f32, 23), 0xFF) == Exponent(f32) && BitAnd(f32, 0x7F_FFFF) == Fraction(f32)
    ensures BitAnd(ShiftRight(f32, 16), 0x8000) == SignBit(0x8000, f32) && BitAnd(ShiftRight(f32, 16), 0) == 0
  {
    hide BitAnd, ShiftRight, Pow2;
    Pow2Values();
    ShiftRightDivides(f32, 23);
    ShiftRightDivides(f32, 16);
    AndMask(f32 / 0x80_0000, 8);
    AndMask(f32, 23);
    SignOfBits(f32 / 0x1_0000);
    NothingAnd(f32 / 0x1_0000);
  }

  lemma SignOfBits(high: nat)
    requires high < 0x1_0000
    ensures BitAnd(high, 0x8000) == if high >= 0x8000 then 0x8000 else 0
  {
    hide BitAnd;
    var bit := 15;
    AndBit(high, bit);
    Pow2Values();
    assert Pow2(bit + 1) == 2 * Pow2(bit);
    hide Pow2;
  }

  lemma NothingAnd(a: nat)
    ensures BitAnd(a, 0) == 0
  {
  }

  lemma NothingOr(a: nat)
    ensures BitOr(0, a) == a && BitOr(a, 0) == a
  {
  }

  /** A word can be or-ed onto the sign bit when it lies below it, or when there is no sign bit. */
  lemma OrSign(mBits: nat, sMask: nat, f32: nat, low: nat)
    requires Format(mBits, sMask) && low < 32 * Pow2(mBits)
    ensures BitOr(SignBit(sMask, f32), low) == SignBit(sMask, f32) + low
  {
    hide BitOr;
    if SignBit(sMask, f32) == 0 {
      NothingOr(low);
    } else {
      var bit := 15;
      Pow2Add(5, 10);
      Pow2Add(mBits, 10 - mBits);
      OrDisjoint(low, 1, bit);
    }
  }

  /** A number between two neighbouring codes is nearest to the one it is closer to, and in the middle
      to the upper one. */
  lemma Bracket(mBits: nat, code: nat, x: int, below: nat, above: nat, nearest: nat)
    requires mBits <= 54 && code < Infinity(mBits) && above > 0
    requires Value(mBits, code) == x - below && Value(mBits, code + 1) == x + above
    requires nearest == if below < above then code else code + 1
    ensures IsNearest(mBits, nearest, x)
  {
    hide Value, Infinity;
    if code > 0 {
      ValueStep(mBits, code - 1);
    }
    ValueStep(mBits, code + 1);
    BetweenMidpoints(mBits, nearest, x);
  }

  /** The same with the distances counted in steps of w. */
  lemma BracketInSteps(mBits: nat, code: nat, x: int, r: nat, d: nat, w: nat, nearest: nat)
    requires mBits <= 54 && code < Infinity(mBits) && w > 0 && r < d
    requires Value(mBits, code) == x - r * w && Value(mBits, code + 1) == Value(mBits, code) + d * w
    requires nearest == if 2 * r < d then code else code + 1
    ensures IsNearest(mBits, nearest, x)
  {
    hide Value, Infinity, IsNearest;
    assert (d - r) * w == d * w - r * w;
    Scale(0, d - r, w);
    if 2 * r < d {
      Scale(r, d - r, w);
    } else {
      MulMonotone(d - r, r, w);
    }
    assert r * w >= 0;
    Bracket(mBits, code, x, r * w, (d - r) * w, nearest);
  }

  function Dropped(mBits: nat): nat
    requires mBits <= 22
  {
    Pow2(23 - mBits)
  }

  /** The value of a normal code. */
  lemma NormalValue(mBits: nat, e: nat, k: nat)
    requires 1 <= mBits <= 22 && e >= 1 && k < Pow2(mBits)
    ensures Value(mBits, e * Pow2(mBits) + k) == (Pow2(mBits) + k) * (Dropped(mBits) * Pow2(e + 30))
    ensures Value(mBits, e * Pow2(mBits) + k + 1)
         == Value(mBits, e * Pow2(mBits) + k) + Dropped(mBits) * Pow2(e + 30)
  {
    hide Level;
    LevelAt(mBits, e, k);
    LevelStep(mBits, e, k);
    Pow2Add(e - 1, 54 - mBits);
    Pow2Add(23 - mBits, e + 30);
    var p, q, s := Pow2(mBits), Pow2(e - 1), Pow2(54 - mBits);
    hide Pow2;
    Regroup(p + k, q, s);
  }

  lemma Regroup(a: nat, q: nat, s: nat)
    ensures a * q * s == a * (q * s) && (a * q + q) * s == a * q * s + q * s
  {
  }

  lemma DenormalValue(mBits: nat, k: nat)
    requires 1 <= mBits <= 22 && k < Pow2(mBits)
    ensures Value(mBits, k) == k * Pow2(54 - mBits)
    ensures Value(mBits, k + 1) == Value(mBits, k) + Pow2(54 - mBits)
  {
    LowLevels(mBits, k);
    var s := Pow2(54 - mBits);
    hide Pow2, Level;
    Regroup(k, 1, s);
  }

  lemma LowLevels(mBits: nat, k: nat)
    requires k < Pow2(mBits)
    ensures Level(mBits, k) == k && Level(mBits, k + 1) == k + 1
  {
    LevelAt(mBits, 0, k);
    LevelStep(mBits, 0, k);
    assert 0 * Pow2(mBits) == 0;
    hide Level, Pow2;
  }

  /** Rounding the mantissa of a normal float to the kept bits, a carry running into the exponent. */
  function Rounded(mBits: nat, m: nat): nat
    requires mBits <= 22
  {
    Quotient(m, Dropped(mBits)) + if 2 * (m % Dropped(mBits)) < Dropped(mBits) then 0 else 1
  }

  function NormalCode(mBits: nat, e: nat, m: nat): nat
    requires mBits <= 22
  {
    e * Pow2(mBits) + Rounded(mBits, m)
  }

  lemma NormalIsNearest(mBits: nat, e: nat, m: nat, code: nat)
    requires 1 <= mBits <= 22 && 1 <= e && m < 0x80_0000
    requires code == if e < E_MASK && NormalCode(mBits, e, m) < Infinity(mBits)
                     then NormalCode(mBits, e, m) else Infinity(mBits)
    ensures IsNearest(mBits, code, (0x80_0000 + m) * Pow2(e + 30))
  {
    if e < E_MASK {
      NormalRounds(mBits, e, m);
      hide *;
    } else {
      hide *;
      TooLarge(mBits, e, m);
    }
  }

  lemma NormalRounds(mBits: nat, e: nat, m: nat)
    requires 1 <= mBits <= 22 && 1 <= e < E_MASK && m < 0x80_0000
    ensures NormalCode(mBits, e, m) <= Infinity(mBits)
    ensures IsNearest(mBits, NormalCode(mBits, e, m), (0x80_0000 + m) * Pow2(e + 30))
  {
    hide Value, IsNearest;
    var p, d, w := Pow2(mBits), Dropped(mBits), Pow2(e + 30);
    var k, r := Quotient(m, d), m % d;
    KeptAndDropped(mBits);
    DivMod(m, d);
    QuotientBelow(m, d, p);
    NormalValue(mBits, e, k);
    hide Pow2, Quotient, Dropped;
    var code := NormalCode(mBits, e, m);
    SplitMantissa(p, k, d, r, w);
    NormalBelowInfinity(e, p, k);
    BracketInSteps(mBits, e * p + k, (0x80_0000 + m) * w, r, d, w, code);
  }

  lemma NormalBelowInfinity(e: nat, p: nat, k: nat)
    requires e < E_MASK && k < p
    ensures 0 <= e * p + k < E_MASK * p
  {
    MulMonotone(e, 30, p);
  }

  lemma KeptAndDropped(mBits: nat)
    requires mBits <= 22
    ensures Pow2(mBits) * Dropped(mBits) == 0x80_0000
  {
    Pow2Values();
    Pow2Add(mBits, 23 - mBits);
    hide Pow2;
  }

  lemma QuotientBelow(m: nat, d: nat, p: nat)
    requires d > 0 && m < p * d
    ensures Quotient(m, d) < p
  {
    DivMod(m, d);
    if Quotient(m, d) >= p {
      MulMonotone(p, Quotient(m, d), d);
    }
  }

  lemma SplitMantissa(p: nat, k: nat, d: nat, r: nat, w: nat)
    ensures (p + k) * (d * w) == (p * d + (d * k + r)) * w - r * w
  {
    assert (p + k) * (d * w) == (p + k) * d * w;
    assert (p + k) * d == p * d + d * k;
    assert (p * d + d * k + r) * w == (p * d + d * k) * w + r * w;
  }

  lemma TooLarge(mBits: nat, e: nat, m: nat)
    requires 1 <= mBits <= 22 && e >= E_MASK && m < 0x80_0000
    ensures IsNearest(mBits, Infinity(mBits), (0x80_0000 + m) * Pow2(e + 30))
  {
    hide Value, IsNearest;
    var x := (0x80_0000 + m) * Pow2(e + 30);
    KeptAndDropped(mBits);
    NormalValue(mBits, 31, 0);
    InfinityIsBelow(mBits, e, m);
    hide Pow2;
    if Infinity(mBits) > 0 {
      ValueStep(mBits, Infinity(mBits) - 1);
    }
    BetweenMidpoints(mBits, Infinity(mBits), x);
  }

  lemma InfinityIsBelow(mBits: nat, e: nat, m: nat)
    requires mBits <= 22 && e >= 31
    ensures (Pow2(mBits) + 0) * (Dropped(mBits) * Pow2(31 + 30)) <= (0x80_0000 + m) * Pow2(e + 30)
  {
    KeptAndDropped(mBits);
    var low := 31 + 30;
    Pow2Monotone(low, e + 30);
    var p, d := Pow2(mBits), Dropped(mBits);
    hide Pow2, Dropped;
    ProductsGrow(p, d, Pow2(low), 0x80_0000 + m, Pow2(e + 30));
  }

  lemma ProductsGrow(p: nat, d: nat, w: nat, x: nat, v: nat)
    requires p * d <= x && w <= v
    ensures (p + 0) * (d * w) <= x * v
  {
    assert p * (d * w) == p * d * w;
    MulMonotone(w, v, p * d);
    MulMonotone(p * d, x, v);
  }

  /** Denormal codes: shifting, adding a half and shifting again rounds to nearest. */
  lemma DenormalIsNearest(mBits: nat, shift: nat, n: nat, code: nat)
    requires 1 <= mBits <= 22 && 1 <= shift <= 31 && n < 0x100_0000
    requires code == Quotient(Quotient(n, Pow2(shift)) + Pow2(22 - mBits), Dropped(mBits))
    ensures IsNearest(mBits, code, n * Pow2(31 - shift))
  {
    hide Value, IsNearest, Infinity, Pow2, Quotient, Dropped;
    var p, d, s, half, w := Pow2(mBits), Dropped(mBits), Pow2(shift), Pow2(22 - mBits), Pow2(31 - shift);
    HalfOfDropped(mBits);
    var step := s * d;
    Scale(0, s, d);
    var k, r := Quotient(n, step), n % step;
    QuotientAndRest(n, step);
    ShiftsRound(n, s, half);
    KeptAndDropped(mBits);
    FewDenormals(n, p, d, s, shift);
    QuotientBelow(n, step, p);
    DenormalValue(mBits, k);
    DenormalStep(mBits, shift);
    DenormalDigits(n, k, r, step, w);
    InfinityIsLargest(mBits, k);
    BracketInSteps(mBits, k, n * w, r, step, w, code);
  }

  lemma HalfOfDropped(mBits: nat)
    requires mBits <= 22
    ensures Dropped(mBits) == 2 * Pow2(22 - mBits)
  {
  }

  lemma QuotientAndRest(n: nat, d: nat)
    requires d > 0
    ensures n == d * Quotient(n, d) + n % d && 0 <= n % d < d
  {
    DivMod(n, d);
  }

  lemma DenormalDigits(n: nat, k: nat, r: nat, step: nat, w: nat)
    requires n == step * k + r
    ensures k * (step * w) == n * w - r * w
  {
    SplitMantissa(0, k, step, r, w);
  }

  lemma InfinityIsLargest(mBits: nat, k: nat)
    requires k < Pow2(mBits)
    ensures k < Infinity(mBits)
  {
  }

  lemma FewDenormals(n: nat, p: nat, d: nat, s: nat, shift: nat)
    requires shift >= 1 && s == Pow2(shift) && p * d == 0x80_0000 && n < 0x100_0000
    ensures n < p * (s * d)
  {
    assert s >= 2;
    hide Pow2;
    assert p * (s * d) == s * (p * d);
    MulMonotone(2, s, 0x80_0000);
  }

  lemma DenormalStep(mBits: nat, shift: nat)
    requires mBits <= 22 && shift <= 31
    ensures Pow2(54 - mBits) == Pow2(shift) * Dropped(mBits) * Pow2(31 - shift)
  {
    Pow2Add(shift, 23 - mBits);
    Pow2Add(shift + (23 - mBits), 31 - shift);
  }

  lemma ShiftsRound(n: nat, s: nat, half: nat)
    requires s > 0 && half > 0 && s * (2 * half) > 0
    ensures Quotient(Quotient(n, s) + half, 2 * half)
         == Quotient(n, s * (2 * half)) + if 2 * (n % (s * (2 * half))) < s * (2 * half) then 0 else 1
  {
    var d := 2 * half;
    var k, r := Quotient(n, s * d), n % (s * d);
    NestedQuotient(n, s, d);
    var q := Quotient(r, s);
    QuotientAndRest(r, s);
    HalfIsReached(r, s, half, q);
    RoundHalf(k, q, half);
    hide Quotient;
  }

  lemma NestedQuotient(n: nat, s: nat, d: nat)
    requires s > 0 && d > 0 && s * d > 0
    ensures Quotient(n, s) == d * Quotient(n, s * d) + Quotient(n % (s * d), s)
    ensures Quotient(n % (s * d), s) < d
  {
    var k, r := Quotient(n, s * d), n % (s * d);
    QuotientAndRest(n, s * d);
    QuotientAndRest(r, s);
    var q := Quotient(r, s);
    Commute(s, d);
    QuotientBelow(r, s, d);
    SplitProduct(s, d, k, q);
    var rest := r % s;
    DivModUnique(n, s, d * k + q, rest);
  }

  lemma SplitProduct(s: nat, d: nat, k: nat, q: nat)
    ensures s * (d * k + q) == s * d * k + s * q
  {
  }

  lemma RoundHalf(k: nat, q: nat, half: nat)
    requires half > 0 && q < 2 * half
    ensures Quotient(2 * half * k + q + half, 2 * half) == k + if q < half then 0 else 1
  {
    var d := 2 * half;
    if q < half {
      DivModUnique(d * k + q + half, d, k, q + half);
    } else {
      assert d * (k + 1) == d * k + d;
      DivModUnique(d * k + q + half, d, k + 1, q - half);
    }
  }

  lemma HalfIsReached(r: nat, s: nat, half: nat, q: nat)
    requires s > 0 && s * q <= r < s * q + s
    ensures 2 * r < s * (2 * half) <==> q < half
  {
    assert s * (2 * half) == 2 * (s * half);
    if q < half {
      MulMonotone(q + 1, half, s);
    } else {
      MulMonotone(half, q, s);
    }
  }

  lemma ShiftOne(k: nat)
    requires k <= 31
    ensures ShiftLeft(1, k) == Pow2(k)
  {
    var bits := 32;
    Pow2Values();
    Pow2Monotone(k + 1, bits);
    hide Pow2;
  }

  /** The highest dropped bit says whether to round up. */
  lemma RoundBit(mBits: nat, m: nat)
    requires mBits <= 22
    ensures BitAnd(m, ShiftLeft(1, 22 - mBits)) != 0 <==> 2 * (m % Dropped(mBits)) >= Dropped(mBits)
  {
    var half := Pow2(22 - mBits);
    ShiftOne(22 - mBits);
    AndBit(m, 22 - mBits);
    assert Dropped(mBits) == 2 * half;
    hide Pow2, BitAnd, ShiftLeft, Dropped;
    TopOfRemainder(m, half);
    assert m / half % 2 == 1 ==> m / half % 2 * half == half;
  }

  lemma TopOfRemainder(m: nat, half: nat)
    requires half > 0
    ensures m / half % 2 == 1 <==> 2 * (m % (2 * half)) >= 2 * half
  {
    var k, r := m / (2 * half), m % (2 * half);
    DivMod(m, 2 * half);
    assert half * (2 * k) == 2 * half * k;
    if r < half {
      DivModUnique(m, half, 2 * k, r);
    } else {
      DivModUnique(m, half, 2 * k + 1, r - half);
    }
  }

  /** Bit 23 tells whether rounding ran over. */
  lemma CarryBit(m: nat)
    requires m < 0x100_0000
    ensures BitAnd(m, 0x80_0000) != 0 <==> m >= 0x80_0000
  {
    var bit := 23;
    Pow2Values();
    AndBit(m, bit);
    hide Pow2, BitAnd;
  }

  lemma DroppedBounds(mBits: nat)
    requires 1 <= mBits <= 22
    ensures 2 <= Dropped(mBits) <= 0x40_0000
  {
    KeptAndDropped(mBits);
    assert Pow2(mBits) == 2 * Pow2(mBits - 1) && Dropped(mBits) == 2 * Pow2(22 - mBits);
    MulMonotone(2, Pow2(mBits), Dropped(mBits));
  }

  /** Adding one unit of the kept bits. */
  lemma RoundUp(m: nat, d: nat, p: nat)
    requires d > 0 && m < p * d
    ensures Quotient(m + d, d) == Quotient(m, d) + 1
    ensures m + d >= p * d ==> Quotient(m, d) + 1 == p
    ensures m + d < p * d ==> Quotient(m, d) + 1 < p
  {
    var k := Quotient(m, d);
    DivMod(m, d);
    assert d * (k + 1) == d * k + d;
    DivModUnique(m + d, d, k + 1, m % d);
    QuotientBelow(m, d, p);
    if k + 1 < p {
      MulMonotone(k + 2, p, d);
    }
  }

  /** The two fields side by side. */
  lemma JoinFields(mBits: nat, e: nat, k: nat)
    requires 1 <= mBits <= 22 && e < E_MASK && k < Pow2(mBits)
    ensures BitOr(ShiftLeft(e, mBits), k) == e * Pow2(mBits) + k < Infinity(mBits)
  {
    ShiftField(e, mBits);
    OrDisjoint(k, e, mBits);
    NormalBelowInfinity(e, Pow2(mBits), k);
    hide Pow2, BitOr, ShiftLeft;
  }

  lemma ShiftField(e: nat, mBits: nat)
    requires mBits <= 22 && e <= E_MASK
    ensures ShiftLeft(e, mBits) == e * Pow2(mBits) < WORD
  {
    SmallPower(mBits);
    var p := Pow2(mBits);
    hide Pow2;
    MulMonotone(e, E_MASK, p);
    SmallRemainder(e * p);
  }

  lemma SmallRemainder(x: nat)
    requires x < WORD
    ensures x % WORD == x
  {
  }

  lemma SmallPower(mBits: nat)
    requires mBits <= 22
    ensures Pow2(mBits) <= 0x80_0000
  {
    var bits := 23;
    Pow2Values();
    Pow2Monotone(mBits, bits);
    hide Pow2;
  }

  /** A payload goes below the exponent field. */
  lemma JoinPayload(mBits: nat, sMask: nat, f32: nat, payload: nat)
    requires Format(mBits, sMask) && payload < Pow2(mBits)
    ensures BitOr(SignBit(sMask, f32), Infinity(mBits)) == SignBit(sMask, f32) + Infinity(mBits)
    ensures BitOr(SignBit(sMask, f32) + Infinity(mBits), payload) == SignBit(sMask, f32) + Infinity(mBits) + payload
  {
    hide BitOr, Pow2;
    OrSign(mBits, sMask, f32, Infinity(mBits));
    if SignBit(sMask, f32) == 0 {
      OrDisjoint(payload, E_MASK, mBits);
    } else {
      SignedInfinity(mBits);
      OrDisjoint(payload, Pow2(15 - mBits) + E_MASK, mBits);
    }
  }

  lemma SignedInfinity(mBits: nat)
    requires mBits <= 10
    ensures 0x8000 + Infinity(mBits) == (Pow2(15 - mBits) + E_MASK) * Pow2(mBits)
  {
    var bits := 15;
    Pow2Add(bits - mBits, mBits);
    assert Pow2(5) == 32;
    Pow2Add(5, 10);
    assert Pow2(10) == 1024 by { Pow2Add(5, 5); }
  }

  lemma LeadingOne(fraction: nat)
    requires fraction < 0x80_0000
    ensures BitOr(fraction, 0x80_0000) == 0x80_0000 + fraction
  {
    var bit := 23;
    Pow2Values();
    OrDisjoint(fraction, 1, bit);
    hide BitOr, Pow2;
  }

  /** Round to nearest, a half up: the fraction loses its low bits later, a carry goes to e. */
  method RoundFraction(mBits: nat, e0: int, m0: nat) returns (e: int, m: nat)
    requires 1 <= mBits <= 22 && e0 > 0 && m0 < 0x80_0000
    ensures m < 0x80_0000 && e0 <= e
    ensures Quotient(m, Dropped(mBits)) < Pow2(mBits)
    ensures NormalCode(mBits, e0, m0) == e * Pow2(mBits) + Quotient(m, Dropped(mBits))
  {
    hide BitAnd, ShiftLeft, Pow2, Quotient, Dropped;
    e, m := e0, m0;
    ghost var p, d := Pow2(mBits), Dropped(mBits);
    var round := ShiftLeft(1, 23 - mBits - 1);
    DroppedBounds(mBits);
    KeptAndDropped(mBits);
    QuotientBelow(m, d, p);
    RoundBit(mBits, m);
    if BitAnd(m, round) != 0 {
      RoundUp(m, d, p);
      TwiceRound(mBits);
      m := m + ShiftLeft(round, 1);
      CarryBit(m);
      if BitAnd(m, 0x80_0000) != 0 {
        m := 0;
        e := e + 1;
        NoQuotient(d);
      }
    }
  }

  lemma NoQuotient(d: nat)
    requires d > 0
    ensures Quotient(0, d) == 0
  {
  }

  lemma FieldBounds(f32: nat)
    ensures Exponent(f32) < 0x100 && Fraction(f32) < 0x80_0000
  {
  }

  lemma SignOnlyIfMasked(f32: nat)
    ensures SignBit(0, f32) == 0
  {
  }

  lemma TwiceRound(mBits: nat)
    requires 1 <= mBits <= 22
    ensures ShiftLeft(ShiftLeft(1, 22 - mBits), 1) == Dropped(mBits)
  {
    DroppedBounds(mBits);
    ShiftOne(22 - mBits);
    assert Pow2(1) == 2;
    assert Dropped(mBits) == Pow2(22 - mBits) * 2;
    hide Pow2;
  }

  lemma ShiftedIsKept(mBits: nat, m: nat)
    requires mBits <= 22
    ensures ShiftRight(m, 23 - mBits) == Quotient(m, Dropped(mBits))
  {
    ShiftRightDivides(m, 23 - mBits);
  }

  /** The second branch: a code with a leading one, or infinity on overflow. */
  method PackNormal(mBits: nat, e0: int, m0: nat) returns (low: nat)
    requires 1 <= mBits <= 22 && e0 > 0 && m0 < 0x80_0000
    ensures low < 32 * Pow2(mBits) && IsNearest(mBits, low, (0x80_0000 + m0) * Pow2(e0 + 30))
  {
    hide BitOr, ShiftRight, ShiftLeft, Pow2, IsNearest, Infinity, NormalCode, Dropped, Quotient;
    var e, m := RoundFraction(mBits, e0, m0);
    InfinityInBits(mBits);
    if e >= E_MASK {
      ShiftField(E_MASK, mBits);
      low := ShiftLeft(E_MASK, mBits);
      MulMonotone(E_MASK, e, Pow2(mBits));
    } else {
      ghost var before := m;
      m := ShiftRight(m, 23 - mBits);
      ShiftedIsKept(mBits, before);
      JoinFields(mBits, e, m);
      low := BitOr(ShiftLeft(e, mBits), m);
    }
    NormalIsNearest(mBits, e0, m0, low);
  }

  /** The third branch: a code without a leading one, or zero. */
  method PackDenormal(mBits: nat, e: int, m0: nat) returns (m: nat)
    requires 1 <= mBits <= 22 && -30 <= e <= 0 && m0 < 0x80_0000
    ensures m < 32 * Pow2(mBits) && IsNearest(mBits, m, (0x80_0000 + m0) * Pow2(30 + e))
  {
    hide BitOr, ShiftRight, ShiftLeft, Pow2, IsNearest;
    var round := ShiftLeft(1, 23 - mBits - 1);
    ShiftOne(22 - mBits);
    LeadingOne(m0);
    ShiftRightDivides(0x80_0000 + m0, 1 - e);
    m := ShiftRight(BitOr(m0, 0x80_0000), 1 - e) + round;
    ShiftRightDivides(m, 23 - mBits);
    m := ShiftRight(m, 23 - mBits);
    DenormalIsNearest(mBits, 1 - e, 0x80_0000 + m0, m);
    NearestIsBelow(mBits, m, (0x80_0000 + m0) * Pow2(30 + e));
    InfinityInBits(mBits);
  }

  /** ToPacked: e can fall below zero, everything else stays in 32 unsigned bits. */
  method ToPacked(mBits: nat, sMask: nat, f32: nat) returns (packed: nat)
    requires Format(mBits, sMask) && f32 < WORD && Exponent(f32) >= 82
    ensures PacksTo(mBits, sMask, f32, packed)
  {
    hide BitAnd, BitOr, ShiftLeft, ShiftRight, IsNearest, Exponent, Fraction, SignBit, Pow2, Quotient, Dropped, Infinity;
    FieldsOfBits(f32);
    FieldBounds(f32);
    SignOnlyIfMasked(f32);
    ShiftField(E_MASK, mBits);
    InfinityInBits(mBits);
    var infinity := ShiftLeft(E_MASK, mBits);
    packed := BitAnd(ShiftRight(f32, 16), sMask);
    var e: int := BitAnd(ShiftRight(f32, 23), 0xFF) - 127 + BIAS;
    var m := BitAnd(f32, 0x7F_FFFF);
    if e == 128 + BIAS {
      packed := BitOr(packed, infinity);
      Payload(mBits, m);
      JoinPayload(mBits, sMask, f32, KeptPayload(mBits, m));
      if m != 0 {
        m := ShiftRight(m, 23 - mBits);
        packed := BitOr(packed, BitOr(m, if m == 0 then 1 else 0));
      }
    } else if e > 0 {
      m := PackNormal(mBits, e, m);
      OrSign(mBits, sMask, f32, m);
      packed := BitOr(packed, m);
    } else {
      m := PackDenormal(mBits, e, m);
      OrSign(mBits, sMask, f32, m);
      packed := BitOr(packed, m);
    }
  }

  lemma InfinityInBits(mBits: nat)
    ensures Infinity(mBits) == E_MASK * Pow2(mBits) < 32 * Pow2(mBits)
  {
  }

  lemma NearestIsBelow(mBits: nat, code: nat, x: int)
    requires mBits <= 54 && IsNearest(mBits, code, x)
    ensures code <= Infinity(mBits)
  {
  }

  /** The payload that survives in the code of a not-a-number: never zero, or it would be infinity. */
  function KeptPayload(mBits: nat, m: nat): nat
    requires mBits <= 22
  {
    if m == 0 then 0 else if Quotient(m, Dropped(mBits)) == 0 then 1 else Quotient(m, Dropped(mBits))
  }

  lemma Payload(mBits: nat, m: nat)
    requires 1 <= mBits <= 22 && m < 0x80_0000
    ensures KeptPayload(mBits, m) < Pow2(mBits)
    ensures m != 0 ==> BitOr(ShiftRight(m, 23 - mBits), if ShiftRight(m, 23 - mBits) == 0 then 1 else 0) == KeptPayload(mBits, m)
  {
    hide BitOr, ShiftRight;
    ShiftRightDivides(m, 23 - mBits);
    KeptAndDropped(mBits);
    QuotientBelow(m, Dropped(mBits), Pow2(mBits));
    NothingOr(1);
    NothingOr(ShiftRight(m, 23 - mBits));
  }

  /** An infinity stays one and a not-a-number stays one: what is kept below the exponent field is zero only for the
      infinity, and is the top of the fraction where that is not zero. */
  lemma NotANumberStays(mBits: nat, sMask: nat, f32: nat, packed: nat)
    requires Format(mBits, sMask) && Exponent(f32) == 255 && PacksTo(mBits, sMask, f32, packed)
    ensures var kept := packed - SignBit(sMask, f32) - 31 * Pow2(mBits);
            && 0 <= kept < Pow2(mBits) && (kept == 0 <==> Fraction(f32) == 0)
            && (Fraction(f32) >= Pow2(23 - mBits) ==> kept == Fraction(f32) / Pow2(23 - mBits))
  {
    var (m, d) := (Fraction(f32), Dropped(mBits));
    hide Exponent, SignBit, IsNearest, Magnitude, Pow2;
    Payload(mBits, m);
    QuotientAndRest(m, d);
    if m >= d {
      TopOfFraction(m, d);
    }
  }

  lemma TopOfFraction(m: nat, d: nat)
    requires d > 0 && m >= d
    ensures Quotient(m, d) > 0
  {
    DivMod(m, d);
  }

  // ---- Unpacking ----

  /** The float that unpacking leaves: a number it calculated, or a bit pattern it put together. */
  datatype Float = Number(value: real) | Pattern(bits: nat)

  function Negate(f: Float): Float {
    match f
    case Number(v) => Number(-v)
    case Pattern(b) => Pattern(if b >= 0x8000_0000 then b - 0x8000_0000 else b + 0x8000_0000)
  }

  /** 2^68, the unit of magnitudes. */
  const UNIT: nat := 0x10_0000_0000_0000_0000

  function ExponentField(mBits: nat, x: nat): nat {
    Quotient(x, Pow2(mBits)) % 32
  }

  function MantissaField(mBits: nat, x: nat): nat {
    x % Pow2(mBits)
  }

  function Code(mBits: nat, e: nat, m: nat): nat {
    e * Pow2(mBits) + m
  }

  /** A word without its sign and anything above. */
  function CodeOf(mBits: nat, x: nat): nat {
    Code(mBits, ExponentField(mBits, x), MantissaField(mBits, x))
  }

  lemma DenormalCode(mBits: nat, m: nat)
    ensures Code(mBits, 0, m) == m
  {
  }

  predicate HasSign(sMask: nat, x: nat) {
    sMask != 0 && x / 0x8000 % 2 == 1
  }

  function Signed(negative: bool, v: real): real {
    if negative then -v else v
  }

  /** What unpacking must yield: exactly the value of the code, or the float's infinity or
      not-a-number with the payload at the top of the fraction. */
  predicate UnpacksTo(mBits: nat, sMask: nat, x: nat, f: Float)
    requires Format(mBits, sMask)
  {
    var (negative, m) := (HasSign(sMask, x), MantissaField(mBits, x));
    match f
    case Number(v) =>
      ExponentField(mBits, x) < E_MASK && InUnits(v) == Signed(negative, Value(mBits, CodeOf(mBits, x)) as real)
    case Pattern(bits) =>
      ExponentField(mBits, x) == E_MASK && bits == (if negative then 0xFF80_0000 else 0x7F80_0000) + m * Dropped(mBits)
  }

  lemma UnitIsPower()
    ensures Pow2(68) == UNIT
  {
    Pow2Values();
    Pow2Add(32, 32);
    Pow2Add(4, 64);
    assert Pow2(4) == 16;
  }

  lemma FieldsOfCode(mBits: nat, sMask: nat, x: nat)
    requires Format(mBits, sMask)
    ensures BitAnd(ShiftRight(x, mBits), E_MASK) == ExponentField(mBits, x) <= E_MASK
    ensures ShiftLeft(1, mBits) == Pow2(mBits)
    ensures BitAnd(x, ShiftLeft(1, mBits) - 1) == MantissaField(mBits, x) < Pow2(mBits)
    ensures ShiftLeft(BitAnd(x, sMask), 15) == if HasSign(sMask, x) then 0x4000_0000 else 0
  {
    hide BitAnd, ShiftRight, ShiftLeft;
    ShiftRightDivides(x, mBits);
    assert Pow2(5) == 32;
    var five, bit := 5, 15;
    AndMask(Quotient(x, Pow2(mBits)), five);
    ShiftOne(mBits);
    AndMask(x, mBits);
    NothingAnd(x);
    AndBit(x, bit);
    SignMoved();
  }

  lemma SignMoved()
    ensures ShiftLeft(0x8000, 15) == 0x4000_0000 && ShiftLeft(0, 15) == 0 && Pow2(15) == 0x8000
  {
    Pow2Add(8, 7);
    Pow2Values();
    assert Pow2(7) == 128;
  }

  /** The moved sign bit falls on a bit that infinity has anyway. */
  lemma SignIsSwallowed(mBits: nat, s: nat, m: nat)
    requires 1 <= mBits <= 22 && m < Pow2(mBits) && (s == 0 || s == 0x4000_0000)
    ensures BitOr(BitOr(s, 0x7F80_0000), ShiftLeft(m, 23 - mBits)) == 0x7F80_0000 + m * Dropped(mBits)
    ensures 0 <= m * Dropped(mBits) < 0x80_0000
  {
    var bit := 23;
    PayloadShift(mBits, m);
    Pow2Values();
    OrDisjoint(m * Dropped(mBits), 0xFF, bit);
    hide Pow2, BitOr, ShiftLeft, Dropped;
    SignOverInfinity();
    NothingOr(0x7F80_0000);
  }

  lemma PayloadShift(mBits: nat, m: nat)
    requires 1 <= mBits <= 22 && m < Pow2(mBits)
    ensures ShiftLeft(m, 23 - mBits) == m * Dropped(mBits)
    ensures 0 <= m * Dropped(mBits) < 0x80_0000
  {
    KeptAndDropped(mBits);
    BelowProduct(m, Pow2(mBits), Dropped(mBits));
    var payload := m * Pow2(23 - mBits);
    hide Pow2;
    assert payload % WORD == payload;
  }

  lemma BelowProduct(m: nat, p: nat, d: nat)
    requires m < p && d > 0
    ensures 0 <= m * d < p * d
  {
    Scale(m, p, d);
  }

  lemma SignOverInfinity()
    ensures BitOr(0x4000_0000, 0x7F80_0000) == 0x7F80_0000
  {
    assert BitOr(1, 1) == 1;
    assert BitOr(0x80, 0xFF) == 0xFF;
    hide BitOr;
    var bits := 23;
    OrTogether(0x80, 0xFF, bits);
    ZerosMultiply(0x80, bits);
    ZerosMultiply(0xFF, bits);
    Pow2Values();
  }

  lemma {:induction false} OrTogether(a: nat, b: nat, k: nat)
    ensures BitOr(Zeros(a, k), Zeros(b, k)) == Zeros(BitOr(a, b), k)
  {
    if k > 0 {
      OrTogether(a, b, k - 1);
      OrDoubles(Zeros(a, k - 1), Zeros(b, k - 1));
      hide BitOr;
    }
  }

  lemma OrDoubles(a: nat, b: nat)
    ensures BitOr(2 * a, 2 * b) == 2 * BitOr(a, b)
  {
    assert 2 * a / 2 == a && 2 * b / 2 == b && 2 * a % 2 == 0 && 2 * b % 2 == 0;
  }

  lemma DenormalExact(p: real, r: real, m: real)
    requires p > 0.0
    ensures 1.0 / p * m * (p * r) == m * r
  {
    var inv := 1.0 / p;
    assert inv * p == 1.0;
    assert inv * m * (p * r) == inv * p * (m * r);
  }

  lemma SmallExact(p: real, q: real, r: real, m: real)
    requires p > 0.0 && q > 0.0
    ensures (1.0 + m * (1.0 / p)) / q * (p * q * r) == (p + m) * r
  {
    var inv := 1.0 / p;
    assert inv * p == 1.0;
    var a := (1.0 + m * inv) / q;
    assert a * q == 1.0 + m * inv;
    assert a * (p * q * r) == a * q * (p * r);
    assert (1.0 + m * inv) * (p * r) == (p + m * (inv * p)) * r;
  }

  lemma LargeExact(p: real, q: real, u: real, r: real, m: real)
    requires p > 0.0 && u * q == p * r
    ensures (1.0 + m * (1.0 / p)) * q * u == (p + m) * r
  {
    var inv := 1.0 / p;
    assert inv * p == 1.0;
    assert (1.0 + m * inv) * q * u == (1.0 + m * inv) * (p * r);
    assert (1.0 + m * inv) * (p * r) == (p + m * (inv * p)) * r;
  }

  lemma ProductAsReal(a: int, b: int)
    ensures (a * b) as real == a as real * b as real
  {
  }

  /** A real in units of 2^-68. */
  function InUnits(v: real): real {
    v * UNIT as real
  }

  function DenormalForm(p: nat, m: nat): real
    requires p > 0
  {
    1.0 / p as real * m as real
  }

  function NormalForm(p: nat, m: nat): real
    requires p > 0
  {
    1.0 + m as real * (1.0 / p as real)
  }

  function Divided(v: real, q: nat): real
    requires q > 0
  {
    v / q as real
  }

  function Multiplied(v: real, q: nat): real {
    v * q as real
  }

  lemma DenormalReal(p: nat, r: nat, m: nat)
    requires p > 0 && UNIT == Times(p, r)
    ensures InUnits(DenormalForm(p, m)) == Times(m, r) as real
  {
    ProductAsReal(p, r);
    ProductAsReal(m, r);
    DenormalExact(p as real, r as real, m as real);
  }

  lemma SmallReal(p: nat, q: nat, r: nat, m: nat)
    requires p > 0 && q > 0 && UNIT == Times(Times(p, q), r)
    ensures InUnits(Divided(NormalForm(p, m), q)) == Times(p + m, r) as real
  {
    ProductAsReal(p, q);
    ProductAsReal(p * q, r);
    ProductAsReal(p + m, r);
    SmallExact(p as real, q as real, r as real, m as real);
  }

  lemma LargeReal(p: nat, q: nat, r: nat, m: nat)
    requires p > 0 && Times(UNIT, q) == Times(p, r)
    ensures InUnits(Multiplied(NormalForm(p, m), q)) == Times(p + m, r) as real
  {
    ProductAsReal(UNIT, q);
    ProductAsReal(p, r);
    ProductAsReal(p + m, r);
    LargeExact(p as real, q as real, UNIT as real, r as real, m as real);
  }

  lemma DenormalNumber(mBits: nat, m: nat)
    requires 1 <= mBits <= 16 && m < Pow2(mBits)
    ensures InUnits(DenormalForm(Pow2(14 + mBits), m)) == Value(mBits, m) as real
  {
    DenormalValue(mBits, m);
    UnitIsPower();
    Pow2Add(14 + mBits, 54 - mBits);
    var p, r := Pow2(14 + mBits), Pow2(54 - mBits);
    assert UNIT == Times(p, r) && Value(mBits, m) == Times(m, r);
    hide *;
    DenormalReal(p, r, m);
  }

  /** How the code scales a mantissa to its exponent. */
  function ScaleTo(e: nat, v: real): real
    requires e <= 31
  {
    if e < BIAS then Divided(v, Pow2(BIAS - e)) else Multiplied(v, Pow2(e - BIAS))
  }

  lemma SmallUnits(mBits: nat, e: nat)
    requires 1 <= mBits <= 16 && 1 <= e < BIAS
    ensures UNIT == Times(Times(Pow2(mBits), Pow2(BIAS - e)), Times(Dropped(mBits), Pow2(e + 30)))
  {
    UnitIsPower();
    FourPowers(mBits, BIAS - e, 23 - mBits, e + 30);
    hide Pow2;
  }

  lemma LargeUnits(mBits: nat, e: nat)
    requires 1 <= mBits <= 16 && BIAS <= e < E_MASK
    ensures Times(UNIT, Pow2(e - BIAS)) == Times(Pow2(mBits), Times(Dropped(mBits), Pow2(e + 30)))
  {
    UnitIsPower();
    var unit := 68;
    TwoAndThreePowers(unit, e - BIAS, mBits, 23 - mBits, e + 30);
    hide Pow2;
  }

  lemma {:induction false} TwoAndThreePowers(a: nat, b: nat, c: nat, d: nat, e: nat)
    requires a + b == c + d + e
    ensures Times(Pow2(a), Pow2(b)) == Times(Pow2(c), Times(Pow2(d), Pow2(e)))
  {
    hide Pow2, Times;
    PowersAdd(a, b);
    PowersAdd(d, e);
    PowersAdd(c, d + e);
    assert c + (d + e) == a + b;
  }

  lemma {:induction false} PowersAdd(a: nat, b: nat)
    ensures Pow2(a + b) == Times(Pow2(a), Pow2(b))
  {
    Pow2Add(a, b);
  }

  lemma {:induction false} FourPowers(a: nat, b: nat, c: nat, d: nat)
    ensures Pow2(a + b + c + d) == Times(Times(Pow2(a), Pow2(b)), Times(Pow2(c), Pow2(d)))
  {
    hide Pow2, Times;
    PowersAdd(a, b);
    PowersAdd(c, d);
    PowersAdd(a + b, c + d);
    assert a + b + c + d == a + b + (c + d);
  }

  lemma NormalNumber(mBits: nat, e: nat, m: nat)
    requires 1 <= mBits <= 16 && 1 <= e < E_MASK && m < Pow2(mBits)
    ensures InUnits(ScaleTo(e, NormalForm(Pow2(mBits), m))) == Value(mBits, Code(mBits, e, m)) as real
  {
    CodeValue(mBits, e, m);
    if e < BIAS {
      SmallUnits(mBits, e);
    } else {
      LargeUnits(mBits, e);
    }
    hide *;
    if e < BIAS {
      SmallNumber(mBits, e, m);
    } else {
      LargeNumber(mBits, e, m);
    }
  }

  lemma CodeValue(mBits: nat, e: nat, m: nat)
    requires 1 <= mBits <= 16 && 1 <= e < E_MASK && m < Pow2(mBits)
    ensures Value(mBits, Code(mBits, e, m)) == Times(Pow2(mBits) + m, Times(Dropped(mBits), Pow2(e + 30)))
    ensures Times(Dropped(mBits), Pow2(e + 30)) > 0
  {
    NormalValue(mBits, e, m);
    BelowProduct(0, Dropped(mBits), Pow2(e + 30));
    hide Value, Pow2, Dropped;
  }

  lemma SmallNumber(mBits: nat, e: nat, m: nat)
    requires 1 <= mBits <= 16 && 1 <= e < BIAS && Times(Dropped(mBits), Pow2(e + 30)) > 0
    requires UNIT == Times(Times(Pow2(mBits), Pow2(BIAS - e)), Times(Dropped(mBits), Pow2(e + 30)))
    ensures InUnits(ScaleTo(e, NormalForm(Pow2(mBits), m)))
         == Times(Pow2(mBits) + m, Times(Dropped(mBits), Pow2(e + 30))) as real
  {
    SmallReal(Pow2(mBits), Pow2(BIAS - e), Times(Dropped(mBits), Pow2(e + 30)), m);
    hide Pow2, Dropped, Times, InUnits, Divided, NormalForm;
  }

  lemma LargeNumber(mBits: nat, e: nat, m: nat)
    requires 1 <= mBits <= 16 && BIAS <= e < E_MASK && Times(Dropped(mBits), Pow2(e + 30)) > 0
    requires Times(UNIT, Pow2(e - BIAS)) == Times(Pow2(mBits), Times(Dropped(mBits), Pow2(e + 30)))
    ensures InUnits(ScaleTo(e, NormalForm(Pow2(mBits), m)))
         == Times(Pow2(mBits) + m, Times(Dropped(mBits), Pow2(e + 30))) as real
  {
    LargeReal(Pow2(mBits), Pow2(e - BIAS), Times(Dropped(mBits), Pow2(e + 30)), m);
    hide Pow2, Dropped, Times, InUnits, Multiplied, NormalForm;
  }

  /** The value of a code without a leading one. */
  method UnpackDenormal(mBits: nat, m: nat) returns (v: real)
    requires 1 <= mBits <= 16 && m < Pow2(mBits)
    ensures InUnits(v) == Value(mBits, m) as real
  {
    hide ShiftLeft, Pow2, Value, InUnits;
    ShiftOne(14 + mBits);
    var denormScale := 1.0 / ShiftLeft(1, 14 + mBits) as real;
    v := denormScale * m as real;
    assert v == DenormalForm(Pow2(14 + mBits), m);
    DenormalNumber(mBits, m);
  }

  method UnpackNormal(mBits: nat, e: nat, m: nat) returns (v: real)
    requires 1 <= mBits <= 16 && 1 <= e < E_MASK && m < Pow2(mBits)
    ensures InUnits(v) == Value(mBits, Code(mBits, e, m)) as real
  {
    hide ShiftLeft, Pow2, Value, InUnits, Code;
    ShiftOne(mBits);
    var normScale := 1.0 / ShiftLeft(1, mBits) as real;
    v := 1.0 + m as real * normScale;
    assert v == NormalForm(Pow2(mBits), m);
    hide NormalForm;
    if e < BIAS {
      ShiftOne(BIAS - e);
      assert v / ShiftLeft(1, BIAS - e) as real == Divided(v, Pow2(BIAS - e));
      v := v / ShiftLeft(1, BIAS - e) as real;
    } else {
      ShiftOne(e - BIAS);
      assert v * ShiftLeft(1, e - BIAS) as real == Multiplied(v, Pow2(e - BIAS));
      v := v * ShiftLeft(1, e - BIAS) as real;
    }
    NormalNumber(mBits, e, m);
  }

  /** FromPacked, in exact arithmetic: every value it meets has few enough bits to be a float. */
  method FromPacked(mBits: nat, sMask: nat, x: nat) returns (f: Float)
    requires Format(mBits, sMask) && mBits <= 16 && x < WORD
    ensures UnpacksTo(mBits, sMask, x, f)
  {
    hide BitAnd, BitOr, ShiftRight, ShiftLeft, HasSign, ExponentField, MantissaField, Value, Pow2, Code, Dropped, InUnits;
    FieldsOfCode(mBits, sMask, x);
    var s := ShiftLeft(BitAnd(x, sMask), 15);
    var e := BitAnd(ShiftRight(x, mBits), E_MASK);
    var m := BitAnd(x, ShiftLeft(1, mBits) - 1);
    if e == 0 {
      DenormalCode(mBits, m);
      var v := UnpackDenormal(mBits, m);
      f := Number(v);
    } else if e == E_MASK {
      SignIsSwallowed(mBits, s, m);
      f := Pattern(BitOr(BitOr(s, 0x7F80_0000), ShiftLeft(m, 23 - mBits)));
    } else {
      var v := UnpackNormal(mBits, e, m);
      f := Number(v);
    }
    if s != 0 {
      NegateUnits(f);
      f := Negate(f);
    }
  }

  lemma NegateUnits(f: Float)
    ensures f.Number? ==> InUnits(Negate(f).value) == -InUnits(f.value)
  {
  }

  // ---- There and back ----

  /** The words that are codes of a format. */
  predicate IsCode(mBits: nat, sMask: nat, x: nat) {
    x < 32 * Pow2(mBits) || (sMask != 0 && 0x8000 <= x < 0x8000 + 32 * Pow2(mBits))
  }

  /** f32 is the bit pattern of f. */
  predicate IsPatternOf(f32: nat, f: Float) {
    match f
    case Pattern(b) => f32 == b
    case Number(v) =>
      82 <= Exponent(f32) < 255 && f32 < WORD && InUnits(v) == Signed(f32 >= 0x8000_0000, Magnitude(f32) as real)
  }

  lemma PlainCode(mBits: nat, c: nat)
    requires c < 32 * Pow2(mBits)
    ensures CodeOf(mBits, c) == c
  {
    var p := Pow2(mBits);
    hide Pow2;
    DivMod(c, p);
    QuotientBelow(c, p, 32);
  }

  /** Whole multiples above the exponent field do not matter. */
  lemma HighBitsDropped(mBits: nat, c: nat, k: nat)
    ensures CodeOf(mBits, c + 32 * Pow2(mBits) * k) == CodeOf(mBits, c)
  {
    var p := Pow2(mBits);
    hide Pow2;
    assert 32 * p * k == p * (32 * k);
    ModShift(c, p, 32 * k);
    ModShift(Quotient(c, p), 32, k);
  }

  lemma SignIsAbove(mBits: nat) returns (k: nat)
    requires mBits <= 10
    ensures 32 * Pow2(mBits) * k == 0x8000 && 32 * Pow2(mBits) <= 0x8000
  {
    k := Pow2(10 - mBits);
    Pow2Add(mBits, 10 - mBits);
    Pow2Add(8, 2);
    Pow2Values();
    assert Pow2(2) == 4;
    var p := Pow2(mBits);
    hide Pow2;
    assert 32 * p * k == 32 * (p * k);
    MulMonotone(1, k, p);
  }

  lemma SignDropped(mBits: nat, c: nat)
    requires mBits <= 10
    ensures CodeOf(mBits, c + 0x8000) == CodeOf(mBits, c) && 32 * Pow2(mBits) <= 0x8000
  {
    hide CodeOf;
    var k := SignIsAbove(mBits);
    hide Pow2;
    HighBitsDropped(mBits, c, k);
  }

  lemma CodeParts(mBits: nat, sMask: nat, x: nat)
    requires Format(mBits, sMask) && IsCode(mBits, sMask, x)
    ensures x == CodeOf(mBits, x) + if HasSign(sMask, x) then 0x8000 else 0
    ensures CodeOf(mBits, x) < 32 * Pow2(mBits)
  {
    hide CodeOf, Pow2;
    if x < 32 * Pow2(mBits) {
      PlainCode(mBits, x);
      if sMask != 0 {
        SignDropped(mBits, x);
      }
    } else {
      PlainCode(mBits, x - 0x8000);
      SignDropped(mBits, x - 0x8000);
    }
  }

  /** Packing what unpacking yields gives back every code but the zeros, whatever float the value is
      held in: finite numbers, both infinities and every not-a-number. */
  lemma PackUndoesUnpack(mBits: nat, sMask: nat, x: nat, f: Float, f32: nat, packed: nat)
    requires Format(mBits, sMask) && mBits <= 16 && IsCode(mBits, sMask, x) && CodeOf(mBits, x) != 0
    requires UnpacksTo(mBits, sMask, x, f) && IsPatternOf(f32, f)
    requires Exponent(f32) >= 82 && PacksTo(mBits, sMask, f32, packed)
    ensures packed == x
  {
    CodeParts(mBits, sMask, x);
    match f
    case Number(v) => FiniteUndone(mBits, sMask, x, v, f32, packed);
    case Pattern(bits) => PatternUndone(mBits, sMask, x, bits, packed);
  }

  lemma FiniteUndone(mBits: nat, sMask: nat, x: nat, v: real, f32: nat, packed: nat)
    requires Format(mBits, sMask) && mBits <= 16 && CodeOf(mBits, x) != 0
    requires x == CodeOf(mBits, x) + if HasSign(sMask, x) then 0x8000 else 0
    requires UnpacksTo(mBits, sMask, x, Number(v)) && IsPatternOf(f32, Number(v))
    requires PacksTo(mBits, sMask, f32, packed)
    ensures packed == x
  {
    hide Value, Magnitude, IsNearest, Exponent, CodeOf, InUnits, Infinity, Fraction, KeptPayload, Pow2;
    var code := CodeOf(mBits, x);
    ValueRises(mBits, 0, code);
    FiniteIsBelow(mBits, x);
    ValueIsNearest(mBits, code);
    ZeroIsWorthless(mBits);
    assert Value(mBits, code) == Magnitude(f32) && HasSign(sMask, x) == (f32 >= 0x8000_0000);
    NearestIsMonotone(mBits, code, Magnitude(f32), packed - SignBit(sMask, f32), Magnitude(f32));
    NearestIsMonotone(mBits, packed - SignBit(sMask, f32), Magnitude(f32), code, Magnitude(f32));
  }

  lemma ZeroIsWorthless(mBits: nat)
    requires mBits <= 54
    ensures Value(mBits, 0) == 0
  {
    hide Level;
    LowLevels(mBits, 0);
    assert 0 * Pow2(54 - mBits) == 0;
    hide Pow2;
  }

  lemma FiniteIsBelow(mBits: nat, x: nat)
    requires mBits <= 22 && ExponentField(mBits, x) < E_MASK
    ensures CodeOf(mBits, x) <= Infinity(mBits)
  {
    hide Quotient, ExponentField;
    DivMod(x, Pow2(mBits));
    NormalBelowInfinity(ExponentField(mBits, x), Pow2(mBits), x % Pow2(mBits));
    hide Pow2;
  }

  lemma PatternUndone(mBits: nat, sMask: nat, x: nat, f32: nat, packed: nat)
    requires Format(mBits, sMask) && mBits <= 16
    requires x == CodeOf(mBits, x) + if HasSign(sMask, x) then 0x8000 else 0
    requires UnpacksTo(mBits, sMask, x, Pattern(f32))
    requires Exponent(f32) >= 82 && PacksTo(mBits, sMask, f32, packed)
    ensures packed == x
  {
    var m := MantissaField(mBits, x);
    var payload := m * Dropped(mBits);
    assert f32 == (if HasSign(sMask, x) then 0xFF80_0000 else 0x7F80_0000) + payload;
    SpecialCode(mBits, x);
    PayloadKept(mBits, m);
    assert HasSign(sMask, x) ==> sMask != 0;
    hide *;
    PackedPattern(mBits, sMask, HasSign(sMask, x), payload, f32, packed);
  }

  /** What packing makes of an infinity or a not-a-number. */
  lemma PackedPattern(mBits: nat, sMask: nat, negative: bool, payload: nat, f32: nat, packed: nat)
    requires Format(mBits, sMask) && payload < 0x80_0000 && (negative ==> sMask != 0)
    requires f32 == (if negative then 0xFF80_0000 else 0x7F80_0000) + payload
    requires Exponent(f32) >= 82 && PacksTo(mBits, sMask, f32, packed)
    ensures packed == (if negative then 0x8000 else 0) + Infinity(mBits) + KeptPayload(mBits, payload)
  {
    SpecialFields(payload);
    hide Exponent, Fraction, KeptPayload, Infinity, IsNearest, Magnitude;
  }

  lemma SpecialCode(mBits: nat, x: nat)
    requires ExponentField(mBits, x) == E_MASK
    ensures MantissaField(mBits, x) < Pow2(mBits) && CodeOf(mBits, x) == Infinity(mBits) + MantissaField(mBits, x)
  {
    hide Pow2, ExponentField;
    DivMod(x, Pow2(mBits));
  }

  lemma PayloadKept(mBits: nat, m: nat)
    requires 1 <= mBits <= 22 && m < Pow2(mBits)
    ensures 0 <= m * Dropped(mBits) < 0x80_0000 && KeptPayload(mBits, m * Dropped(mBits)) == m
  {
    PayloadShift(mBits, m);
    DroppedBounds(mBits);
    hide Dropped, Pow2, Quotient;
    PayloadReturns(m, Dropped(mBits));
  }

  lemma SpecialFields(payload: nat)
    requires payload < 0x80_0000
    ensures Exponent(0x7F80_0000 + payload) == 255 && Fraction(0x7F80_0000 + payload) == payload
    ensures Exponent(0xFF80_0000 + payload) == 255 && Fraction(0xFF80_0000 + payload) == payload
  {
  }

  lemma PayloadReturns(m: nat, d: nat)
    requires d > 0
    ensures m * d >= 0 && Quotient(m * d, d) == m && (m * d == 0 <==> m == 0)
  {
    DivModUnique(m * d, d, m, 0);
  }

  // ---- Every code's value is a float ----

  lemma BuildFloat(negative: bool, exponent: nat, fraction: nat) returns (f32: nat)
    requires 82 <= exponent < 255 && fraction < 0x80_0000
    ensures f32 < WORD && Exponent(f32) == exponent && Fraction(f32) == fraction
    ensures f32 >= 0x8000_0000 <==> negative
    ensures Magnitude(f32) == (0x80_0000 + fraction) * Pow2(exponent - 82)
  {
    f32 := (if negative then 0x8000_0000 else 0) + exponent * 0x80_0000 + fraction;
    hide Pow2;
  }

  lemma {:induction false} TopBit(m: nat) returns (j: nat)
    requires m > 0
    ensures Pow2(j) <= m < 2 * Pow2(j)
  {
    if m == 1 {
      j := 0;
    } else {
      j := TopBit(m / 2);
      j := j + 1;
    }
  }

  lemma NormalFloat(mBits: nat, e: nat, m: nat, negative: bool) returns (f32: nat)
    requires 1 <= mBits <= 16 && 1 <= e < E_MASK && m < Pow2(mBits)
    ensures f32 < WORD && 82 <= Exponent(f32) < 255 && (f32 >= 0x8000_0000 <==> negative)
    ensures Magnitude(f32) == Value(mBits, Code(mBits, e, m))
  {
    hide Value, Exponent, Fraction, Magnitude;
    var p, d, w := Pow2(mBits), Dropped(mBits), Pow2(e + 30);
    PayloadShift(mBits, m);
    KeptAndDropped(mBits);
    NormalValue(mBits, e, m);
    f32 := BuildFloat(negative, e + 112, m * d);
    hide Pow2;
    SplitMantissa(p, m, d, 0, w);
    assert 0 * w == 0;
  }

  lemma DenormalFloat(mBits: nat, m: nat, negative: bool) returns (f32: nat)
    requires 1 <= mBits <= 16 && 0 < m < Pow2(mBits)
    ensures f32 < WORD && 82 <= Exponent(f32) < 255 && (f32 >= 0x8000_0000 <==> negative)
    ensures Magnitude(f32) == Value(mBits, m)
  {
    hide Value, Exponent, Fraction, Magnitude;
    var j := TopBit(m);
    if j >= mBits {
      Pow2Monotone(mBits, j);
    }
    DenormalValue(mBits, m);
    Pow2Values();
    Pow2Add(j, 23 - j);
    Pow2Add(23 - j, j + 31 - mBits);
    var top, s, w := Pow2(j), Pow2(23 - j), Pow2(j + 31 - mBits);
    hide Pow2;
    Leading(m, top, s, w);
    f32 := BuildFloat(negative, j + 113 - mBits, (m - top) * s);
  }

  lemma Leading(m: nat, top: nat, s: nat, w: nat)
    requires top <= m < 2 * top && s > 0
    ensures 0 <= (m - top) * s < top * s
    ensures (top * s + (m - top) * s) * w == m * (s * w)
  {
    BelowProduct(m - top, top, s);
    assert top * s + (m - top) * s == m * s;
    Regroup(m, s, w);
  }

  /** Unpacking is exact: the value of every finite code but zero is a float. */
  lemma UnpackedIsFloat(mBits: nat, sMask: nat, x: nat, v: real) returns (f32: nat)
    requires Format(mBits, sMask) && mBits <= 16 && IsCode(mBits, sMask, x) && CodeOf(mBits, x) != 0
    requires UnpacksTo(mBits, sMask, x, Number(v))
    ensures IsPatternOf(f32, Number(v))
  {
    hide Value, Exponent, Magnitude, HasSign, ExponentField, InUnits, Pow2;
    var e, m := ExponentField(mBits, x), MantissaField(mBits, x);
    DivMod(x, Pow2(mBits));
    hide MantissaField;
    if e == 0 {
      DenormalCode(mBits, m);
      f32 := DenormalFloat(mBits, m, HasSign(sMask, x));
    } else {
      f32 := NormalFloat(mBits, e, m, HasSign(sMask, x));
    }
  }
}
