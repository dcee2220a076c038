/** Unit vectors as points of a square: the octahedron |x| + |y| + |z| = 1 seen from above, its lower
    half folded outwards over the corners. Arithmetic is exact; where the code reads the sign bit of a
    zero, both signs are covered. */
module Octahedral {
  import opened Vectors

  datatype Float2 = Float2(x: real, y: real)
  datatype Float3 = Float3(x: real, y: real, z: real)

  /** One for plus zero, minus one for minus zero. */
  function Sign(a: real, minusZero: bool): real {
    if a < 0.0 || (a == 0.0 && minusZero) then -1.0 else 1.0
  }

  function Saturate(a: real): real {
    if a < 0.0 then 0.0 else if a > 1.0 then 1.0 else a
  }

  /** The sum that brings a vector onto the octahedron. */
  function Norm(v: Float3): (n: real)
    ensures n >= 0.0 && (n == 0.0 <==> v == Float3(0.0, 0.0, 0.0))
  {
    Abs(v.x) + Abs(v.y) + Abs(v.z)
  }

  function Ratio(a: real, s: real): real
    requires s > 0.0
  {
    a / s
  }

  function Scaled(v: Float3, k: real): Float3 {
    Float3(Times(v.x, k), Times(v.y, k), Times(v.z, k))
  }

  function OnOctahedron(v: Float3): Float3
    requires v != Float3(0.0, 0.0, 0.0)
  {
    var s := Norm(v);
    Float3(Ratio(v.x, s), Ratio(v.y, s), Ratio(v.z, s))
  }

  /** The point of the square for a point of the octahedron. xMinus and yMinus say which sign a zero
      coordinate carries. */
  function Fold(t: Float3, signed: bool, xMinus: bool, yMinus: bool): Float2 {
    var a := if t.z >= 0.0 then Float2(t.x, t.y)
             else Float2((1.0 - Abs(t.y)) * Sign(t.x, xMinus), (1.0 - Abs(t.x)) * Sign(t.y, yMinus));
    if signed then a else Float2(Saturate(a.x * 0.5 + 0.5), Saturate(a.y * 0.5 + 0.5))
  }

  function Encode(v: Float3, signed: bool, xMinus: bool, yMinus: bool): Float2
    requires v != Float3(0.0, 0.0, 0.0)
  {
    Fold(OnOctahedron(v), signed, xMinus, yMinus)
  }

  /** Decoding up to the final normalisation. */
  function Decode(p: Float2, signed: bool): Float3 {
    var t := if signed then p else Float2(p.x * 2.0 - 1.0, p.y * 2.0 - 1.0);
    var z := 1.0 - Abs(t.x) - Abs(t.y);
    var a := Saturate(-z);
    Float3(t.x + (if t.x >= 0.0 then -a else a), t.y + (if t.y >= 0.0 then -a else a), z)
  }

  /** The square that codes live in. */
  predicate InSquare(p: Float2, signed: bool) {
    var low := if signed then -1.0 else 0.0;
    low <= p.x <= 1.0 && low <= p.y <= 1.0
  }

  lemma DividesAbs(a: real, s: real)
    requires s > 0.0
    ensures Abs(a / s) == Abs(a) / s
  {
    var q := a / s;
    assert q * s == a;
    assert (-a) / s == -q;
    if q >= 0.0 {
      assert q * s >= 0.0;
    } else {
      assert (-q) * s > 0.0;
    }
  }

  lemma DividesSum(a: real, b: real, c: real, s: real)
    requires s > 0.0 && a + b + c == s
    ensures a / s + b / s + c / s == 1.0
  {
    var (p, q, r) := (a / s, b / s, c / s);
    assert p * s == a && q * s == b && r * s == c;
    assert (p + q + r - 1.0) * s == 0.0;
  }

  lemma UnitNorm(v: Float3)
    requires v != Float3(0.0, 0.0, 0.0)
    ensures Norm(OnOctahedron(v)) == 1.0
  {
    var s := Norm(v);
    DividesAbs(v.x, s);
    DividesAbs(v.y, s);
    DividesAbs(v.z, s);
    hide Abs;
    DividesSum(Abs(v.x), Abs(v.y), Abs(v.z), s);
  }

  lemma Unfolds(t: Float3, signed: bool, xMinus: bool, yMinus: bool)
    requires Norm(t) == 1.0
    ensures Decode(Fold(t, signed, xMinus, yMinus), signed) == t
    ensures InSquare(Fold(t, signed, xMinus, yMinus), signed)
  {
    UnfoldsSigned(t, xMinus, yMinus);
    if !signed {
      var p := Fold(t, true, xMinus, yMinus);
      assert Fold(t, false, xMinus, yMinus) == Float2(Saturate(p.x * 0.5 + 0.5), Saturate(p.y * 0.5 + 0.5));
      hide Fold;
      HalvedDecode(p);
    }
  }

  lemma UnfoldsSigned(t: Float3, xMinus: bool, yMinus: bool)
    requires Norm(t) == 1.0
    ensures Decode(Fold(t, true, xMinus, yMinus), true) == t && InSquare(Fold(t, true, xMinus, yMinus), true)
  {
  }

  /** A point of the square from -1 to 1, moved to the one from 0 to 1, decodes alike. */
  lemma HalvedDecode(p: Float2)
    requires InSquare(p, true)
    ensures var half := Float2(Saturate(p.x * 0.5 + 0.5), Saturate(p.y * 0.5 + 0.5));
            InSquare(half, false) && Decode(half, false) == Decode(p, true)
  {
  }

  /** Decoding undoes encoding in both modes and both hemispheres, and codes stay in the square. */
  lemma DecodeUndoesEncode(v: Float3, signed: bool, xMinus: bool, yMinus: bool)
    requires v != Float3(0.0, 0.0, 0.0)
    ensures Decode(Encode(v, signed, xMinus, yMinus), signed) == OnOctahedron(v)
    ensures InSquare(Encode(v, signed, xMinus, yMinus), signed)
  {
    hide Fold, Decode, OnOctahedron, Norm;
    UnitNorm(v);
    Unfolds(OnOctahedron(v), signed, xMinus, yMinus);
  }

  /** Only the direction is encoded: the length a vector was normalised to does not matter. */
  lemma LengthDoesNotMatter(v: Float3, k: real, signed: bool, xMinus: bool, yMinus: bool)
    requires v != Float3(0.0, 0.0, 0.0) && k > 0.0
    ensures Scaled(v, k) != Float3(0.0, 0.0, 0.0)
    ensures Encode(Scaled(v, k), signed, xMinus, yMinus) == Encode(v, signed, xMinus, yMinus)
  {
    ScaledPoint(v, k);
    hide OnOctahedron, Fold, Scaled, Norm;
  }

  lemma ScaledPoint(v: Float3, k: real)
    requires v != Float3(0.0, 0.0, 0.0) && k > 0.0
    ensures Scaled(v, k) != Float3(0.0, 0.0, 0.0)
    ensures OnOctahedron(Scaled(v, k)) == OnOctahedron(v)
  {
    ScaledNorm(v, k);
    var s := Norm(v);
    hide Norm, Times, Ratio;
    Cancels(v.x, s, k);
    Cancels(v.y, s, k);
    Cancels(v.z, s, k);
  }

  lemma ScaledNorm(v: Float3, k: real)
    requires k > 0.0 && v != Float3(0.0, 0.0, 0.0)
    ensures Norm(Scaled(v, k)) == Times(Norm(v), k) > 0.0
  {
    ScaledAbs(v.x, k);
    ScaledAbs(v.y, k);
    ScaledAbs(v.z, k);
    hide Abs, Times;
    TimesSum(Abs(v.x), Abs(v.y), Abs(v.z), k);
  }

  lemma TimesSum(a: real, b: real, c: real, k: real)
    requires k > 0.0 && a + b + c > 0.0
    ensures Times(a, k) + Times(b, k) + Times(c, k) == Times(a + b + c, k) > 0.0
  {
  }

  lemma ScaledAbs(a: real, k: real)
    requires k > 0.0
    ensures Abs(Times(a, k)) == Times(Abs(a), k)
  {
  }

  lemma Cancels(a: real, s: real, k: real)
    requires s > 0.0 && k > 0.0 && Times(s, k) > 0.0
    ensures Ratio(Times(a, k), Times(s, k)) == Ratio(a, s)
  {
    var q := a / s;
    assert q * s == a;
    assert q * (s * k) == a * k;
    Quotient(a * k, s * k, q);
  }

  lemma Quotient(a: real, b: real, q: real)
    requires b > 0.0 && q * b == a
    ensures a / b == q
  {
    assert (a / b - q) * b == 0.0;
  }

  /** Every point of the square stands for a point of the octahedron, and so for some direction. */
  lemma DecodeLandsOnOctahedron(p: Float2, signed: bool)
    requires InSquare(p, signed)
    ensures Norm(Decode(p, signed)) == 1.0
  {
  }

  /** The point in the frame of the signed mode. */
  function Centred(p: Float2, signed: bool): Float2 {
    if signed then p else Float2(p.x * 2.0 - 1.0, p.y * 2.0 - 1.0)
  }

  /** The other way round: a point of the square comes back unless it lies folded over on the rim, on
      the side that the sign of a zero cannot tell from its mirror image. */
  lemma EncodeUndoesDecodeExactly(p: Float2, signed: bool)
    requires InSquare(p, signed)
    ensures Decode(p, signed) != Float3(0.0, 0.0, 0.0)
    ensures var t := Centred(p, signed);
            Encode(Decode(p, signed), signed, false, false) == p <==>
              (Abs(t.x) + Abs(t.y) <= 1.0 || (!(Abs(t.y) == 1.0 && t.x < 0.0) && !(Abs(t.x) == 1.0 && t.y < 0.0)))
  {
    DecodeLandsOnOctahedron(p, signed);
    var n := Decode(p, signed);
    AlreadyThere(n);
    hide OnOctahedron, Norm;
    FoldsBackExactly(p, signed);
  }

  lemma AlreadyThere(n: Float3)
    requires Norm(n) == 1.0
    ensures n != Float3(0.0, 0.0, 0.0) && OnOctahedron(n) == n
  {
  }

  lemma FoldsBackExactly(p: Float2, signed: bool)
    requires InSquare(p, signed)
    ensures var t := Centred(p, signed);
            Fold(Decode(p, signed), signed, false, false) == p <==>
              (Abs(t.x) + Abs(t.y) <= 1.0 || (!(Abs(t.y) == 1.0 && t.x < 0.0) && !(Abs(t.x) == 1.0 && t.y < 0.0)))
  {
  }
}
