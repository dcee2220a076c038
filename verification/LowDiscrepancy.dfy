/** RadicalInverse (in exact arithmetic) and ReverseBits32: the van der Corput sequences. */
module LowDiscrepancy {
  import opened Powers

  function Quotient(x: nat, d: nat): (q: nat)
    requires d > 0
    ensures q <= x && (d > 1 && x > 0 ==> q < x)
  {
    QuotientBounds(x, d);
    x / d
  }

  lemma QuotientBounds(x: nat, d: nat)
    requires d > 0
    ensures 0 <= x / d <= x && (d > 1 && x > 0 ==> x / d < x)
  {
    var q := x / d;
    DivMod(x, d);
    Multiple(d, q);
    if q > 0 {
      MulMonotone(1, d, q);
      if d > 1 {
        MulMonotone(2, d, q);
      }
    }
  }

  function Digit(x: nat, d: nat): (r: nat)
    requires d > 0
    ensures r < d
  {
    x % d
  }

  // ----- The loop and what it computes -----

  /** The digits of idx mirrored at the radix point. */
  ghost function Inverse(base: nat, idx: nat): real
    requires base >= 2
  {
    if idx == 0 then 0.0 else (Digit(idx, base) as real + Inverse(base, Quotient(idx, base))) / base as real
  }

  lemma FloorDivides(idx: nat, base: nat, rcpBase: real)
    requires base > 0 && rcpBase == 1.0 / base as real
    ensures (idx as real * rcpBase).Floor == Quotient(idx, base)
  {
    var q, r := idx / base, idx % base;
    var b := base as real;
    assert idx as real == b * q as real + r as real;
    assert idx as real * (1.0 / b) == q as real + r as real / b;
    assert 0.0 <= r as real / b < 1.0;
  }

  /** One turn of the loop. The source calls it with base 3; base 1 would never leave the loop and
      base 0 has no reciprocal. */
  method NextDigit(idx: nat, base: nat, rcpBase: real, ghost val0: real, rcpBi: real) returns (digit: nat, next: nat)
    requires base >= 2 && idx > 0 && rcpBase == 1.0 / base as real
    ensures next < idx
    ensures Partial(base, val0 + digit as real * rcpBi, rcpBi * rcpBase, next) == Partial(base, val0, rcpBi, idx)
  {
    digit := Digit(idx, base);
    hide *;
    FloorDivides(idx, base, rcpBase);
    next := (idx as real * rcpBase).Floor;
    PartialStep(base, val0, rcpBi, idx, rcpBase);
  }

  method RadicalInverse(idx0: nat, base: nat) returns (val: real)
    requires base >= 2
    ensures val == Inverse(base, idx0)
  {
    hide *;
    var idx: nat := idx0;
    val := 0.0;
    var rcpBase := 1.0 / base as real;
    var rcpBi := rcpBase;
    PartialEnds(base, val, rcpBi, idx0);
    while idx > 0
      invariant Partial(base, val, rcpBi, idx) == Inverse(base, idx0)
      decreases idx
    {
      var digit, next := NextDigit(idx, base, rcpBase, val, rcpBi);
      val := val + digit as real * rcpBi;
      idx := next;
      rcpBi := rcpBi * rcpBase;
    }
    PartialEnds(base, val, rcpBi, 0);
  }

  /** The value when the digits so far add up to val and those of idx are still to come. */
  ghost function Partial(base: nat, val: real, rcpBi: real, idx: nat): real
    requires base >= 2
  {
    val + rcpBi * base as real * Inverse(base, idx)
  }

  lemma PartialEnds(base: nat, val: real, rcpBi: real, idx: nat)
    requires base >= 2
    ensures Partial(base, val, rcpBi, 0) == val
    ensures Partial(base, 0.0, 1.0 / base as real, idx) == Inverse(base, idx)
  {
    assert 1.0 / base as real * base as real == 1.0;
  }

  lemma PartialStep(base: nat, val: real, rcpBi: real, idx: nat, rcpBase: real)
    requires base >= 2 && idx > 0 && rcpBase == 1.0 / base as real
    ensures Partial(base, val + Digit(idx, base) as real * rcpBi, rcpBi * rcpBase, Quotient(idx, base)) == Partial(base, val, rcpBi, idx)
  {
    hide Digit, Quotient;
    PartialArithmetic(val, rcpBi, Digit(idx, base) as real, Inverse(base, Quotient(idx, base)), base as real, Inverse(base, idx));
  }

  lemma PartialArithmetic(val: real, scale: real, digit: real, rest: real, b: real, whole: real)
    requires b > 0.0 && whole == (digit + rest) / b
    ensures val + digit * scale + scale * (1.0 / b) * b * rest == val + scale * b * whole
  {
    assert b * whole == digit + rest;
    assert (scale * (1.0 / b)) * b == scale;
    assert scale * b * whole == scale * (digit + rest);
  }

  // ----- Distribution -----

  /** The last k digits of idx in reverse order. */
  function ReversedDigits(base: nat, k: nat, idx: nat): (r: int)
    requires base >= 2
  {
    if k == 0 then 0 else Digit(idx, base) * Pow(base, k - 1) + ReversedDigits(base, k - 1, Quotient(idx, base))
  }

  /** The other way round: the index below base^k whose reversed digits are i. */
  function IndexOf(base: nat, k: nat, i: nat): int
    requires base >= 2
  {
    if k == 0 then 0
    else
      PowPositive(base, k - 1);
      Quotient(i, Pow(base, k - 1)) + base * IndexOf(base, k - 1, Digit(i, Pow(base, k - 1)))
  }

  lemma {:induction false} InverseInUnit(base: nat, idx: nat)
    requires base >= 2
    ensures 0.0 <= Inverse(base, idx) < 1.0
  {
    if idx > 0 {
      hide Digit, Quotient;
      InverseInUnit(base, Quotient(idx, base));
      UnitStep(Digit(idx, base) as real + Inverse(base, Quotient(idx, base)), base as real);
    }
  }

  lemma UnitStep(x: real, b: real)
    requires 0.0 <= x < b
    ensures 0.0 <= x / b < 1.0
  {
    var y := x / b;
    assert y * b == x;
    assert y >= 1.0 ==> (y - 1.0) * b >= 0.0;
    assert y < 0.0 ==> (0.0 - y) * b > 0.0;
  }

  ghost function Scaled(base: nat, idx: nat, parts: nat): real
    requires base >= 2
  {
    Inverse(base, idx) * parts as real
  }

  /** Scaled by base^k, the value is the reversed digits plus a fraction. */
  lemma {:induction false} InverseScaled(base: nat, k: nat, idx: nat) returns (fraction: real)
    requires base >= 2
    ensures Scaled(base, idx, Pow(base, k)) == ReversedDigits(base, k, idx) as real + fraction
    ensures 0.0 <= fraction < 1.0
    ensures idx < Pow(base, k) ==> fraction == 0.0
  {
    hide *;
    if k == 0 {
      fraction := Inverse(base, idx);
      InverseInUnit(base, idx);
      ScaledByOne(base, idx);
    } else {
      fraction := InverseScaled(base, k - 1, Quotient(idx, base));
      ScaledByBase(base, k, idx, fraction);
    }
  }

  lemma ScaledByOne(base: nat, idx: nat)
    requires base >= 2
    ensures Pow(base, 0) == 1 && ReversedDigits(base, 0, idx) == 0
    ensures Inverse(base, 0) == 0.0 && Scaled(base, idx, 1) == Inverse(base, idx)
  {
  }

  lemma ScaledByBase(base: nat, k: nat, idx: nat, fraction: real)
    requires base >= 2 && k > 0
    requires Scaled(base, Quotient(idx, base), Pow(base, k - 1)) == ReversedDigits(base, k - 1, Quotient(idx, base)) as real + fraction
    ensures Scaled(base, idx, Pow(base, k)) == ReversedDigits(base, k, idx) as real + fraction
    ensures idx < Pow(base, k) ==> Quotient(idx, base) < Pow(base, k - 1)
  {
    hide Inverse, ReversedDigits, Pow, Digit, Quotient;
    InverseUnfolds(base, idx);
    ReversedInReals(base, k, idx);
    QuotientBelowPower(base, k, idx);
    ScaleDigit(base as real, Pow(base, k - 1) as real, Digit(idx, base) as real, Inverse(base, Quotient(idx, base)), Inverse(base, idx),
               ReversedDigits(base, k - 1, Quotient(idx, base)) as real, fraction, Pow(base, k) as real, ReversedDigits(base, k, idx) as real);
  }

  /** The recursion also holds at 0. */
  lemma InverseUnfolds(base: nat, idx: nat)
    requires base >= 2
    ensures Inverse(base, idx) == (Digit(idx, base) as real + Inverse(base, Quotient(idx, base))) / base as real
  {
    if idx == 0 {
      DivModUnique(0, base, 0, 0);
    }
  }

  lemma ReversedInReals(base: nat, k: nat, idx: nat)
    requires base >= 2 && k > 0
    ensures Pow(base, k) as real == base as real * Pow(base, k - 1) as real
    ensures ReversedDigits(base, k, idx) as real ==
            Digit(idx, base) as real * Pow(base, k - 1) as real + ReversedDigits(base, k - 1, Quotient(idx, base)) as real
  {
    hide Digit, Quotient;
    RealProduct(base, Pow(base, k - 1));
    RealProduct(Digit(idx, base), Pow(base, k - 1));
  }

  lemma QuotientBelowPower(base: nat, k: nat, idx: nat)
    requires base >= 2 && k > 0
    ensures idx < Pow(base, k) ==> Quotient(idx, base) < Pow(base, k - 1)
  {
    if idx < Pow(base, k) {
      QuotientBelow(idx, base, Pow(base, k - 1));
    }
  }

  lemma ScaleDigit(b: real, p: real, digit: real, rest: real, value: real, reversed: real, fraction: real, power: real, all: real)
    requires b > 0.0 && value == (digit + rest) / b
    requires rest * p == reversed + fraction
    requires power == b * p && all == digit * p + reversed
    ensures value * power == all + fraction
  {
    assert value * b == digit + rest;
    assert value * (b * p) == (value * b) * p;
  }

  lemma RealProduct(x: nat, y: nat)
    ensures (x * y) as real == x as real * y as real
  {
  }

  lemma QuotientBelow(x: nat, d: nat, p: nat)
    requires d > 0 && x < d * p
    ensures Quotient(x, d) < p
  {
    DivMod(x, d);
    if x / d >= p {
      MulMonotone(p, x / d, d);
    }
  }

  lemma {:induction false} ReversedInRange(base: nat, k: nat, idx: nat)
    requires base >= 2
    ensures 0 <= ReversedDigits(base, k, idx) < Pow(base, k)
  {
    if k > 0 {
      hide Digit, Quotient;
      ReversedInRange(base, k - 1, Quotient(idx, base));
      DigitInRange(Digit(idx, base), base, Pow(base, k - 1), ReversedDigits(base, k - 1, Quotient(idx, base)));
    }
  }

  lemma DigitInRange(d: nat, base: nat, p: nat, rest: nat)
    requires d < base && rest < p
    ensures 0 <= d * p + rest < base * p
  {
    MulMonotone(d + 1, base, p);
    MulMonotone(0, d, p);
    assert (d + 1) * p == d * p + p;
  }

  /** Reversing the digits is a bijection of the residues modulo base^k. */
  lemma {:induction false} IndexOfReversed(base: nat, k: nat, idx: nat)
    requires base >= 2
    ensures Pow(base, k) > 0 && 0 <= ReversedDigits(base, k, idx)
    ensures IndexOf(base, k, ReversedDigits(base, k, idx)) == Digit(idx, Pow(base, k))
  {
    PowPositive(base, k);
    ReversedInRange(base, k, idx);
    if k > 0 {
      PowPositive(base, k - 1);
      var p, d, rest := Pow(base, k - 1), Digit(idx, base), ReversedDigits(base, k - 1, Quotient(idx, base));
      ReversedInRange(base, k - 1, Quotient(idx, base));
      IndexOfReversed(base, k - 1, Quotient(idx, base));
      SplitsAt(d, p, rest);
      ModSplits(idx, base, p);
      hide Digit, Quotient;
    }
  }

  lemma SplitsAt(d: nat, p: nat, rest: nat)
    requires rest < p
    ensures 0 <= d * p + rest && Quotient(d * p + rest, p) == d && Digit(d * p + rest, p) == rest
  {
    Commute(d, p);
    MulMonotone(0, d, p);
    DivModUnique(d * p + rest, p, d, rest);
  }

  lemma ModSplits(x: nat, d: nat, p: nat)
    requires d > 0 && p > 0
    ensures d * p > 0 && Digit(x, d * p) == Digit(x, d) + d * Digit(Quotient(x, d), p)
  {
    MulMonotone(1, p, d);
    Commute(d, p);
    var q := x / d;
    DivMod(x, d);
    DivMod(q, p);
    var r := q % p;
    assert d * q == d * (p * (q / p) + r) == (d * p) * (q / p) + d * r;
    DigitInRange(r, p, d, x % d);
    Commute(r, d);
    DivModUnique(x, d * p, q / p, x % d + d * r);
  }

  lemma {:induction false} ReversedIndexOf(base: nat, k: nat, i: nat)
    requires base >= 2 && i < Pow(base, k)
    ensures 0 <= IndexOf(base, k, i) < Pow(base, k) && ReversedDigits(base, k, IndexOf(base, k, i)) == i
  {
    if k > 0 {
      PowPositive(base, k - 1);
      var p := Pow(base, k - 1);
      var d, r := Quotient(i, p), Digit(i, p);
      QuotientBelow2(i, p, base);
      ReversedIndexOf(base, k - 1, r);
      var rest: nat := IndexOf(base, k - 1, r);
      DigitInRange(rest, p, base, d);
      SplitsAt(rest, base, d);
      Commute(rest, base);
      Commute(p, base);
      DivMod(i, p);
      Commute(p, d);
      assert i == d * p + r;
      hide Digit, Quotient;
    }
  }

  lemma QuotientBelow2(x: nat, p: nat, d: nat)
    requires p > 0 && x < d * p
    ensures Quotient(x, p) < d
  {
    Commute(d, p);
    QuotientBelow(x, p, d);
  }

  /** The value of idx lies in the i-th of the `parts` equal intervals of [0, 1). */
  ghost predicate InInterval(base: nat, idx: nat, i: nat, parts: nat)
    requires base >= 2
  {
    i as real <= Scaled(base, idx, parts) < (i + 1) as real
  }

  lemma {:induction false} IntervalIsReversed(base: nat, k: nat, idx: nat, i: nat)
    requires base >= 2
    ensures InInterval(base, idx, i, Pow(base, k)) <==> i == ReversedDigits(base, k, idx)
  {
    hide *;
    var fraction := InverseScaled(base, k, idx);
    Between(i, ReversedDigits(base, k, idx), fraction, Scaled(base, idx, Pow(base, k)));
    InIntervalMeans(base, idx, i, Pow(base, k));
  }

  lemma InIntervalMeans(base: nat, idx: nat, i: nat, parts: nat)
    requires base >= 2
    ensures InInterval(base, idx, i, parts) <==> i as real <= Scaled(base, idx, parts) < (i + 1) as real
  {
    hide Scaled;
  }

  lemma Between(i: int, r: int, fraction: real, v: real)
    requires v == r as real + fraction && 0.0 <= fraction < 1.0
    ensures i as real <= v < (i + 1) as real <==> i == r
  {
    assert i < r ==> (i + 1) as real <= r as real;
    assert i > r ==> (r + 1) as real <= i as real;
  }

  /** Any base^k consecutive indices put exactly one value into each of the base^k intervals. */
  lemma {:induction false} OnePerInterval(base: nat, k: nat, start: nat, i: nat) returns (j: nat)
    requires base >= 2 && i < Pow(base, k)
    ensures start <= j < start + Pow(base, k)
    ensures forall n: nat :: start <= n < start + Pow(base, k) ==> (InInterval(base, n, i, Pow(base, k)) <==> n == j)
  {
    hide *;
    PowPositive(base, k);
    var parts := Pow(base, k);
    ReversedIndexOf(base, k, i);
    var t: nat := IndexOf(base, k, i);
    j := InWindow(start, parts, t);
    forall n: nat | start <= n < start + parts ensures InInterval(base, n, i, parts) <==> n == j {
      IntervalIsReversed(base, k, n, i);
      SameReversed(base, k, n, t);
      SameInWindow(start, parts, n, j);
    }
  }

  /** Indices have the same reversed digits exactly if they have the same last k digits. */
  lemma SameReversed(base: nat, k: nat, n: nat, t: nat)
    requires base >= 2 && Pow(base, k) > 0 && t < Pow(base, k)
    ensures ReversedDigits(base, k, n) == ReversedDigits(base, k, t) <==> Digit(n, Pow(base, k)) == t
  {
    hide *;
    IndexOfReversed(base, k, n);
    IndexOfReversed(base, k, t);
    ReversedInRange(base, k, n);
    ReversedIndexOf(base, k, ReversedDigits(base, k, n));
    SmallDigit(t, Pow(base, k));
  }

  lemma SmallDigit(t: nat, d: nat)
    requires t < d
    ensures Digit(t, d) == t
  {
    DivModUnique(t, d, 0, t);
  }

  lemma InWindow(start: nat, parts: nat, t: nat) returns (j: nat)
    requires t < parts
    ensures start <= j < start + parts && Digit(j, parts) == t
  {
    var r := start % parts;
    j := if r <= t then start + (t - r) else start + (t - r) + parts;
    var q := if r <= t then start / parts else start / parts + 1;
    assert parts * (start / parts + 1) == parts * (start / parts) + parts;
    DivModUnique(j, parts, q, t);
  }

  lemma SameInWindow(start: nat, parts: nat, n: nat, j: nat)
    requires parts > 0 && start <= n < start + parts && start <= j < start + parts
    ensures Digit(n, parts) == Digit(j, parts) <==> n == j
  {
    if n % parts == j % parts {
      var k := CongruentQuotient(n, j, parts);
      Multiple(parts, k);
    }
  }

  lemma Multiple(d: int, k: int)
    requires d > 0
    ensures k >= 1 ==> d * k >= d
    ensures k <= -1 ==> d * k <= -d
  {
  }

  // ----- The bit trick for base 2 -----

  function ReverseBits32(x0: bv32): bv32 {
    var x := (x0 << 16) | (x0 >> 16);
    var x := ((x & 0x55555555) << 1) | ((x & 0xAAAAAAAA) >> 1);
    var x := ((x & 0x33333333) << 2) | ((x & 0xCCCCCCCC) >> 2);
    var x := ((x & 0x0F0F0F0F) << 4) | ((x & 0xF0F0F0F0) >> 4);
    ((x & 0x00FF00FF) << 8) | ((x & 0xFF00FF00) >> 8)
  }

  predicate Hits(x: bv32, mask: bv32) {
    x & mask != 0
  }

  /** The bits of x under n successive masks from `mask` upwards. */
  function BitsUp(x: bv32, mask: bv32, n: nat): (bits: seq<bool>)
    ensures |bits| == n
    decreases n
  {
    if n == 0 then [] else [Hits(x, mask)] + BitsUp(x, mask << 1, n - 1)
  }

  function BitsDown(x: bv32, mask: bv32, n: nat): (bits: seq<bool>)
    ensures |bits| == n
    decreases n
  {
    if n == 0 then [] else [Hits(x, mask)] + BitsDown(x, mask >> 1, n - 1)
  }

  /** The bits of a word, least significant first. */
  function BitsOf(x: bv32): (bits: seq<bool>)
    ensures |bits| == 32
  {
    BitsUp(x, 1, 32)
  }

  /** The number that a row of bits stands for. */
  function Value(bits: seq<bool>): nat {
    if bits == [] then 0 else (if bits[0] then 1 else 0) + 2 * Value(bits[1..])
  }

  function Reverse(bits: seq<bool>): (r: seq<bool>)
    ensures |r| == |bits|
  {
    if bits == [] then [] else Reverse(bits[1..]) + [bits[0]]
  }

  lemma MaskReversed(x: bv32, mask: bv32)
    ensures ReverseBits32(x) & mask == ReverseBits32(x & ReverseBits32(mask))
  {
  }

  lemma OnlyZeroReversesToZero(x: bv32)
    ensures ReverseBits32(x) == 0 <==> x == 0
  {
  }

  lemma ReversalTurnsShifts(mask: bv32)
    ensures ReverseBits32(mask << 1) == ReverseBits32(mask) >> 1
  {
  }

  /** Reversal can be moved from the word to the mask. */
  lemma ReversalMoves(x: bv32, mask: bv32)
    ensures Hits(ReverseBits32(x), mask) == Hits(x, ReverseBits32(mask))
  {
    hide ReverseBits32;
    var reversed := ReverseBits32(mask);
    MaskReversed(x, mask);
    OnlyZeroReversesToZero(x & reversed);
  }

  lemma {:induction false} ReversedUpIsDown(x: bv32, mask: bv32, n: nat)
    ensures BitsUp(ReverseBits32(x), mask, n) == BitsDown(x, ReverseBits32(mask), n)
    decreases n
  {
    hide ReverseBits32;
    ReversalMoves(x, mask);
    ReversalTurnsShifts(mask);
    if n > 0 {
      ReversedUpIsDown(x, mask << 1, n - 1);
    }
  }

  /** The last of n masks from `mask` upwards. */
  function LastMask(mask: bv32, n: nat): bv32
    decreases n
  {
    if n <= 1 then mask else LastMask(mask << 1, n - 1)
  }

  /** None of the n masks has run out of the word. */
  predicate Fits(mask: bv32, n: nat)
    decreases n
  {
    n <= 1 || ((mask << 1) >> 1 == mask && Fits(mask << 1, n - 1))
  }

  lemma {:induction false} UpEndsWithLast(x: bv32, mask: bv32, n: nat)
    requires n > 0 && Fits(mask, n)
    ensures BitsUp(x, mask, n) == BitsUp(x, mask, n - 1) + [Hits(x, LastMask(mask, n))]
    ensures n > 1 ==> Fits(mask, n - 1) && LastMask(mask, n) >> 1 == LastMask(mask, n - 1)
    decreases n
  {
    if n > 1 {
      UpEndsWithLast(x, mask << 1, n - 1);
    }
  }

  lemma {:induction false} DownIsReversedUp(x: bv32, mask: bv32, n: nat)
    requires Fits(mask, n)
    ensures BitsDown(x, LastMask(mask, n), n) == Reverse(BitsUp(x, mask, n))
    decreases n
  {
    hide *;
    if n == 0 {
      EmptyBits(x, LastMask(mask, n), mask);
    } else if n == 1 {
      UpEndsWithLast(x, mask, n);
      EmptyBits(x, LastMask(mask, n) >> 1, mask);
      DownStep(x, LastMask(mask, n), n, BitsUp(x, mask, n - 1));
    } else {
      UpEndsWithLast(x, mask, n);
      DownIsReversedUp(x, mask, n - 1);
      DownStepFrom(x, LastMask(mask, n), LastMask(mask, n - 1), n, BitsUp(x, mask, n - 1));
    }
  }

  lemma DownStepFrom(x: bv32, last: bv32, before: bv32, n: nat, front: seq<bool>)
    requires n > 0 && last >> 1 == before && BitsDown(x, before, n - 1) == Reverse(front)
    ensures BitsDown(x, last, n) == Reverse(front + [Hits(x, last)])
  {
    hide *;
    DownStep(x, last, n, front);
  }

  lemma DownStep(x: bv32, last: bv32, n: nat, front: seq<bool>)
    requires n > 0 && BitsDown(x, last >> 1, n - 1) == Reverse(front)
    ensures BitsDown(x, last, n) == Reverse(front + [Hits(x, last)])
  {
    DownUnfolds(x, last, n);
    ReverseAppends(front, Hits(x, last));
    hide *;
  }

  lemma DownUnfolds(x: bv32, mask: bv32, n: nat)
    requires n > 0
    ensures BitsDown(x, mask, n) == [Hits(x, mask)] + BitsDown(x, mask >> 1, n - 1)
  {
  }

  lemma EmptyBits(x: bv32, down: bv32, up: bv32)
    ensures BitsDown(x, down, 0) == Reverse(BitsUp(x, up, 0))
  {
  }

  lemma {:induction false} ReverseAppends(bits: seq<bool>, b: bool)
    ensures Reverse(bits + [b]) == [b] + Reverse(bits)
  {
    if bits == [] {
      assert [b][1..] == [] && [] + [b] == [b];
    } else {
      assert (bits + [b])[1..] == bits[1..] + [b];
      ReverseAppends(bits[1..], b);
    }
  }

  /** The five exchanges together reverse the word: bit i becomes bit 31 - i. */
  lemma ReversesBits(x: bv32)
    ensures BitsOf(ReverseBits32(x)) == Reverse(BitsOf(x))
  {
    hide BitsUp, BitsDown, Reverse;
    ReversedUpIsDown(x, 1, 32);
    AllMasks();
    DownIsReversedUp(x, 1, 32);
  }

  ghost predicate AllAbove(mask: bv32, n: nat) {
    Fits(mask, n) && LastMask(mask, n) == 0x80000000
  }

  lemma AllMasks()
    ensures Fits(1, 32) && LastMask(1, 32) == ReverseBits32(1)
  {
    assert AllAbove(0x40000000, 2) && AllAbove(0x20000000, 3) && AllAbove(0x10000000, 4) && AllAbove(0x8000000, 5);
    assert AllAbove(0x4000000, 6) && AllAbove(0x2000000, 7) && AllAbove(0x1000000, 8) && AllAbove(0x800000, 9);
    assert AllAbove(0x400000, 10) && AllAbove(0x200000, 11) && AllAbove(0x100000, 12) && AllAbove(0x80000, 13);
    assert AllAbove(0x40000, 14) && AllAbove(0x20000, 15) && AllAbove(0x10000, 16) && AllAbove(0x8000, 17);
    assert AllAbove(0x4000, 18) && AllAbove(0x2000, 19) && AllAbove(0x1000, 20) && AllAbove(0x800, 21);
    assert AllAbove(0x400, 22) && AllAbove(0x200, 23) && AllAbove(0x100, 24) && AllAbove(0x80, 25);
    assert AllAbove(0x40, 26) && AllAbove(0x20, 27) && AllAbove(0x10, 28) && AllAbove(0x8, 29);
    assert AllAbove(0x4, 30) && AllAbove(0x2, 31) && AllAbove(0x1, 32);
  }

  lemma {:induction false} ValueBelow(bits: seq<bool>)
    ensures Value(bits) < Pow(2, |bits|)
  {
    if bits != [] {
      ValueBelow(bits[1..]);
    }
  }

  lemma {:induction false} ValueAppends(bits: seq<bool>, b: bool)
    ensures Value(bits + [b]) == Value(bits) + (if b then Pow(2, |bits|) else 0)
  {
    if bits == [] {
      assert [b][1..] == [] && [] + [b] == [b];
    } else {
      assert (bits + [b])[1..] == bits[1..] + [b];
      ValueAppends(bits[1..], b);
    }
  }

  /** Reversing the bits of a number reverses its binary digits. */
  lemma {:induction false} ReversedBitsAreDigits(bits: seq<bool>)
    ensures ReversedDigits(2, |bits|, Value(bits)) == Value(Reverse(bits))
  {
    if bits != [] {
      ReversedBitsAreDigits(bits[1..]);
      ValueAppends(Reverse(bits[1..]), bits[0]);
    }
  }

  /** For base 2 the loop and the bit trick agree: the radical inverse of a word is its reversed
      word over 2^32. */
  lemma {:induction false} BitTrickIsRadicalInverse(x: bv32)
    ensures Inverse(2, Value(BitsOf(x))) == Value(BitsOf(ReverseBits32(x))) as real / 4294967296.0
  {
    hide Inverse, Scaled, ReverseBits32, BitsOf, Value, ReversedDigits;
    var bits, n := BitsOf(x), 32;
    ReversesBits(x);
    ReversedBitsAreDigits(bits);
    ValueBelow(bits);
    var fraction := InverseScaled(2, n, Value(bits));
    PowOfTwo(n);
    Pow2Values();
    OverWord(Value(bits), Value(Reverse(bits)));
  }

  lemma {:induction false} PowOfTwo(k: nat)
    ensures Pow(2, k) == Pow2(k)
  {
    if k > 0 {
      PowOfTwo(k - 1);
    }
  }

  lemma OverWord(idx: nat, reversed: nat)
    requires Scaled(2, idx, 0x1_0000_0000) == reversed as real
    ensures Inverse(2, idx) == reversed as real / 4294967296.0
  {
    hide Inverse;
  }
}
