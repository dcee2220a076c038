/** The six planes of a view volume, read off the rows of a projection matrix. */
module ClipPlanes {
  import opened Boxes
  import opened Matrix
  import Powers
  import opened Vectors

  datatype NdcDepth = D3D | OGL

  const PLANE_LEFT := 0
  const PLANE_RIGHT := 1
  const PLANE_BOTTOM := 2
  const PLANE_TOP := 3
  const PLANE_NEAR := 4
  const PLANE_FAR := 5
  const PLANES_NUM := 6

  /** 2^-126, the least normal float. */
  function FltMin(): (least: real)
    ensures 0.0 < least < 1.0
  {
    1.0 / 85070591730234615865843651857942052864.0
  }

  lemma LeastFloat()
    ensures FltMin() * (Powers.Pow2(126) as real) == 1.0
  {
    var (half, all) := (63, 126);
    Powers.Pow2Values();
    Powers.Pow2Add(31, 32);
    Powers.Pow2Add(half, half);
    assert Powers.Pow2(all) == 85070591730234615865843651857942052864;
  }

  /** sqrt is an exact square root. */
  ghost predicate IsRoot(sqrt: real -> real) {
    forall s: real | s >= 0.0 :: sqrt(s) >= 0.0 && sqrt(s) * sqrt(s) == s
  }

  /** rsqrt is an exact reciprocal square root of what is above zero, and anything elsewhere. */
  ghost predicate IsReciprocalRoot(rsqrt: real -> real) {
    forall s: real | s > 0.0 :: rsqrt(s) > 0.0 && s * (rsqrt(s) * rsqrt(s)) == 1.0
  }

  function Max(a: real, b: real): real {
    if a < b then b else a
  }

  /** Transposition by unpacking and moving halves. */
  function TransposeTo(m: M4): M4 {
    var xmm0 := AxBxAyBy(m.col0, m.col1);
    var xmm1 := AxBxAyBy(m.col2, m.col3);
    var xmm2 := AzBzAwBw(m.col0, m.col1);
    var xmm3 := AzBzAwBw(m.col2, m.col3);
    M4(AxyBxy(xmm0, xmm1), AzwBzw(xmm1, xmm0), AxyBxy(xmm2, xmm3), AzwBzw(xmm3, xmm2))
  }

  lemma TransposedColumns(m: M4)
    ensures TransposeTo(m) == M4(Row(m, 0), Row(m, 1), Row(m, 2), Row(m, 3))
  {
  }

  // ---- What the planes are for ----

  /** Clip-space position of a point. */
  function Clip(m: M4, p: V4): V4 {
    TimesColumn(m, SetW1(p))
  }

  /** On the inner side of side plane i. */
  predicate WithinSide(m: M4, i: nat, p: V4)
    requires i < 4
  {
    var c := Clip(m, p);
    if i == PLANE_LEFT then -c.w <= c.x
    else if i == PLANE_RIGHT then c.x <= c.w
    else if i == PLANE_BOTTOM then -c.w <= c.y
    else c.y <= c.w
  }

  /** Not below the least depth, which is 0 or -w by convention. */
  predicate WithinLeast(depth: NdcDepth, m: M4, p: V4) {
    var c := Clip(m, p);
    if depth == OGL then -c.w <= c.z else 0.0 <= c.z
  }

  predicate WithinGreatest(m: M4, p: V4) {
    Clip(m, p).z <= Clip(m, p).w
  }

  /** The clip inequalities. */
  predicate Visible(depth: NdcDepth, m: M4, p: V4) {
    && WithinSide(m, PLANE_LEFT, p) && WithinSide(m, PLANE_RIGHT, p)
    && WithinSide(m, PLANE_BOTTOM, p) && WithinSide(m, PLANE_TOP, p)
    && WithinLeast(depth, m, p) && WithinGreatest(m, p)
  }

  // ---- The planes before scaling ----

  function SideRow(m: M4, i: nat): V4
    requires i < 4
  {
    if i == PLANE_LEFT then Add(Row(m, 3), Row(m, 0))
    else if i == PLANE_RIGHT then Sub(Row(m, 3), Row(m, 0))
    else if i == PLANE_BOTTOM then Add(Row(m, 3), Row(m, 1))
    else Sub(Row(m, 3), Row(m, 1))
  }

  function LeastRow(depth: NdcDepth, m: M4): V4 {
    if depth == OGL then Add(Row(m, 2), Row(m, 3)) else Row(m, 2)
  }

  function GreatestRow(m: M4): V4 {
    Sub(Row(m, 3), Row(m, 2))
  }

  lemma DistanceIsLinear(a: V4, b: V4, p: V4)
    ensures Distance(Add(a, b), p) == Distance(a, p) + Distance(b, p)
    ensures Distance(Sub(a, b), p) == Distance(a, p) - Distance(b, p)
  {
  }

  lemma ClipIsDistances(m: M4, p: V4)
    ensures Clip(m, p) == V4(Distance(Row(m, 0), p), Distance(Row(m, 1), p), Distance(Row(m, 2), p), Distance(Row(m, 3), p))
  {
    ProductLane(m, SetW1(p));
  }

  /** The rows say exactly the clip inequalities. */
  lemma RowsClip(depth: NdcDepth, m: M4, p: V4)
    ensures forall i: nat | i < 4 :: Distance(SideRow(m, i), p) >= 0.0 <==> WithinSide(m, i, p)
    ensures Distance(LeastRow(depth, m), p) >= 0.0 <==> WithinLeast(depth, m, p)
    ensures Distance(GreatestRow(m), p) >= 0.0 <==> WithinGreatest(m, p)
  {
    ClipIsDistances(m, p);
    DistanceIsLinear(Row(m, 3), Row(m, 0), p);
    DistanceIsLinear(Row(m, 3), Row(m, 1), p);
    DistanceIsLinear(Row(m, 3), Row(m, 2), p);
    DistanceIsLinear(Row(m, 2), Row(m, 3), p);
    hide Row, Clip, Distance, Add, Sub;
  }

  lemma ScaledDistance(a: V4, k: real, p: V4)
    requires k > 0.0
    ensures Distance(Scale(a, k), p) >= 0.0 <==> Distance(a, p) >= 0.0
  {
    DotScaled(a, SetW1(p), k);
    var d := Distance(a, p);
    hide Dot44, Scale, Times;
    SignOfProduct(d, k);
  }

  lemma SignOfProduct(d: real, k: real)
    requires k > 0.0
    ensures Times(d, k) >= 0.0 <==> d >= 0.0
  {
  }

  lemma ScaledSquare(a: V4, k: real)
    ensures Dot33(Scale(a, k), Scale(a, k)) == Dot33(a, a) * (k * k)
  {
  }

  lemma SquareIsPositive(a: V4)
    ensures Dot33(a, a) >= 0.0
  {
    assert a.x * a.x >= 0.0 && a.y * a.y >= 0.0 && a.z * a.z >= 0.0;
  }

  // ---- Scaling ----

  /** A side plane with a normal of length one, if it has a normal. */
  function Unit(v: V4, rsqrt: real -> real): V4 {
    Scale(v, rsqrt(Dot33(v, v)))
  }

  /** A depth plane: divided by the length of its normal, or by the least float if that is longer. */
  function Capped(v: V4, sqrt: real -> real): V4 {
    Scale(v, 1.0 / Max(sqrt(Dot33(v, v)), FltMin()))
  }

  /** Every point keeps its side of the plane. */
  ghost predicate SameSides(a: V4, b: V4) {
    forall p: V4 :: Distance(a, p) >= 0.0 <==> Distance(b, p) >= 0.0
  }

  lemma ScalingKeepsSides(a: V4, k: real)
    requires k > 0.0
    ensures SameSides(Scale(a, k), a)
  {
    forall p: V4 ensures Distance(Scale(a, k), p) >= 0.0 <==> Distance(a, p) >= 0.0 {
      ScaledDistance(a, k, p);
    }
    hide Distance, Scale;
  }

  lemma ReciprocalSquare(q: real, s: real)
    requires s > 0.0 && s * s == q
    ensures 1.0 / s > 0.0 && q * (1.0 / s * (1.0 / s)) == 1.0
  {
    var k := 1.0 / s;
    assert s * k == 1.0;
    assert q * (k * k) == s * k * (s * k);
  }

  /** What scaling makes of a row: a plane with a normal of length one and every point on the side it had, or
      a plane without a normal if the row has none. */
  ghost predicate IsUnitOf(plane: V4, row: V4) {
    if Dot33(row, row) > 0.0
    then SameSides(plane, row) && Dot33(plane, plane) == 1.0
    else Dot33(plane, plane) == 0.0
  }

  lemma UnitPlane(v: V4, rsqrt: real -> real)
    requires IsReciprocalRoot(rsqrt)
    ensures IsUnitOf(Unit(v, rsqrt), v)
  {
    var q := Dot33(v, v);
    var k := rsqrt(q);
    SquareIsPositive(v);
    ScaledSquare(v, k);
    if q > 0.0 {
      ScalingKeepsSides(v, k);
    }
    hide Scale, Dot33, SameSides;
  }

  /** The far plane's stand-in is used exactly when its normal is shorter than the cube of the square
      root of the least float, as for an infinite projection. */
  predicate NoNormal(v: V4) {
    Dot33(v, v) <= Times(FltMin(), Times(FltMin(), FltMin()))
  }

  lemma CappedPlane(v: V4, sqrt: real -> real)
    requires IsRoot(sqrt)
    ensures SameSides(Capped(v, sqrt), v)
    ensures Dot33(Capped(v, sqrt), Capped(v, sqrt)) <= FltMin() <==> NoNormal(v)
    ensures NoNormal(v) ==> Capped(v, sqrt) == Scale(v, 1.0 / FltMin())
    ensures sqrt(Dot33(v, v)) >= FltMin() ==> Dot33(Capped(v, sqrt), Capped(v, sqrt)) == 1.0
  {
    SquareIsPositive(v);
    var q := Dot33(v, v);
    var s := sqrt(q);
    assert s >= 0.0 && s * s == q;
    var tiny := FltMin();
    assert 0.0 < tiny < 1.0;
    var k := 1.0 / Max(s, tiny);
    CapGuard(q, s, tiny);
    ScalingKeepsSides(v, k);
    ScaledSquare(v, k);
    hide Scale, Dot33, SameSides, Times;
  }

  lemma CapGuard(q: real, s: real, tiny: real)
    requires s >= 0.0 && s * s == q && 0.0 < tiny < 1.0
    ensures var k := 1.0 / Max(s, tiny); k > 0.0 && (q * (k * k) <= tiny <==> q <= Times(tiny, Times(tiny, tiny)))
    ensures q <= Times(tiny, Times(tiny, tiny)) ==> Max(s, tiny) == tiny
    ensures var k := 1.0 / Max(s, tiny); s >= tiny ==> q * (k * k) == 1.0
  {
    SquareIsAbove(tiny);
    if s < tiny {
      BelowCap(q, tiny);
    } else {
      ReciprocalSquare(q, s);
      SquareGrows(tiny, s);
      hide Times;
    }
  }

  lemma SquareIsAbove(t: real)
    requires 0.0 < t < 1.0
    ensures 0.0 < Times(t, Times(t, t)) < Times(t, t)
  {
    hide Times;
    PositiveProduct(t, t);
    PositiveProduct(t, Times(t, t));
    ProductGrows(t, 1.0, Times(t, t));
    TimesOne(Times(t, t));
  }

  lemma TimesOne(a: real)
    ensures Times(1.0, a) == a
  {
  }

  lemma SquareGrows(t: real, s: real)
    requires 0.0 < t <= s
    ensures Times(t, t) <= s * s
  {
    if t < s {
      ProductGrows(t, s, t);
      ProductGrows(t, s, s);
    }
  }

  lemma BelowCap(q: real, t: real)
    requires 0.0 < t < 1.0
    ensures 1.0 / t > 0.0
    ensures q * (1.0 / t * (1.0 / t)) <= t <==> q <= Times(t, Times(t, t))
  {
    var k, u := 1.0 / t, Times(t, t);
    ReciprocalSquare(t * t, t);
    PositiveProduct(t, t);
    var x := q * (k * k);
    assert x * u == q by { Regroup(q, k * k, u); }
    hide Times;
    if x < t {
      ProductGrows(x, t, u);
    } else if t < x {
      ProductGrows(t, x, u);
    }
  }

  lemma Regroup(q: real, a: real, b: real)
    requires b * a == 1.0
    ensures q * a * b == q
  {
    assert q * a * b == q * (b * a);
  }

  lemma ProductGrows(a: real, b: real, k: real)
    requires a < b && k > 0.0
    ensures Times(a, k) < Times(b, k) && a * k < b * k && k * a < k * b
  {
    assert (b - a) * k > 0.0;
  }

  // ---- Setting the planes up ----

  function NearRow(depth: NdcDepth, m: M4, reversed: bool): V4 {
    if reversed then GreatestRow(m) else LeastRow(depth, m)
  }

  function FarRow(depth: NdcDepth, m: M4, reversed: bool): V4 {
    if reversed then LeastRow(depth, m) else GreatestRow(m)
  }

  /** The plane put in for a far plane without a normal: the near plane turned round. */
  function StandIn(near: V4, far: V4): V4 {
    V4(-near.x, -near.y, -near.z, Scale(far, 1.0 / FltMin()).w)
  }

  /** Every side row has a normal. */
  predicate SidesHaveNormals(m: M4) {
    forall i: nat | i < 4 :: Dot33(SideRow(m, i), SideRow(m, i)) > 0.0
  }

  /** The six planes for a matrix: each on the same side of every point as its row, the side normals of
      length one where there is one, and a stand-in where the far row has no normal. The near row is the one whose
      scaled plane is not farther from the origin than the other's, and on a tie the row of the least depth. */
  ghost predicate PlanesOf(depth: NdcDepth, m: M4, planes: seq<V4>, reversed: bool, sqrt: real -> real) {
    && |planes| == PLANES_NUM
    && (forall i | 0 <= i < 4 :: IsUnitOf(planes[i], SideRow(m, i)))
    && planes[PLANE_NEAR] == Capped(NearRow(depth, m, reversed), sqrt)
    && SameSides(planes[PLANE_NEAR], NearRow(depth, m, reversed))
    && (if NoNormal(FarRow(depth, m, reversed))
        then planes[PLANE_FAR] == StandIn(planes[PLANE_NEAR], FarRow(depth, m, reversed))
        else planes[PLANE_FAR] == Capped(FarRow(depth, m, reversed), sqrt)
             && SameSides(planes[PLANE_FAR], FarRow(depth, m, reversed)))
    && Abs(planes[PLANE_NEAR].w) <= Abs(Capped(FarRow(depth, m, reversed), sqrt).w)
    && (reversed ==> Abs(planes[PLANE_NEAR].w) < Abs(Capped(FarRow(depth, m, reversed), sqrt).w))
  }

  method MvpToPlanes(depth: NdcDepth, m: M4, planes: array<V4>, sqrt: real -> real, rsqrt: real -> real)
    returns (reversed: bool)
    requires planes.Length == PLANES_NUM && IsRoot(sqrt) && IsReciprocalRoot(rsqrt)
    modifies planes
    ensures PlanesOf(depth, m, planes[..], reversed, sqrt)
  {
    hide Row, Add, Sub, Scale, Dot33, SameSides, IsRoot, IsReciprocalRoot, IsUnitOf, Unit, Capped, NoNormal, Times;
    var mt := TransposeTo(m);
    TransposedColumns(m);
    var l := Add(mt.col3, mt.col0);
    var r := Sub(mt.col3, mt.col0);
    var b := Add(mt.col3, mt.col1);
    var t := Sub(mt.col3, mt.col1);
    var f := Sub(mt.col3, mt.col2);
    var n := mt.col2;
    if depth == OGL {
      n := Add(n, mt.col3);
    }
    assert l == SideRow(m, PLANE_LEFT) && r == SideRow(m, PLANE_RIGHT);
    assert b == SideRow(m, PLANE_BOTTOM) && t == SideRow(m, PLANE_TOP);
    UnitPlane(l, rsqrt);
    UnitPlane(r, rsqrt);
    UnitPlane(b, rsqrt);
    UnitPlane(t, rsqrt);
    l := Unit(l, rsqrt);
    r := Unit(r, rsqrt);
    b := Unit(b, rsqrt);
    t := Unit(t, rsqrt);
    CappedPlane(n, sqrt);
    CappedPlane(f, sqrt);
    n := Capped(n, sqrt);
    f := Capped(f, sqrt);
    reversed := Abs(n.w) > Abs(f.w);
    if reversed {
      n, f := f, n;
    }
    if Dot33(f, f) <= FltMin() {
      f := V4(-n.x, -n.y, -n.z, f.w);
    }
    planes[PLANE_LEFT] := l;
    planes[PLANE_RIGHT] := r;
    planes[PLANE_BOTTOM] := b;
    planes[PLANE_TOP] := t;
    planes[PLANE_NEAR] := n;
    planes[PLANE_FAR] := f;
    assert planes[..] == [l, r, b, t, n, f];
  }

  /** A point in front of all planes. */
  ghost predicate InFront(planes: seq<V4>, p: V4) {
    forall i | 0 <= i < |planes| :: Distance(planes[i], p) >= 0.0
  }

  /** The side planes are exactly the side inequalities, whatever the depth planes are. */
  lemma SidesAreExact(depth: NdcDepth, m: M4, planes: seq<V4>, reversed: bool, sqrt: real -> real, p: V4)
    requires PlanesOf(depth, m, planes, reversed, sqrt) && SidesHaveNormals(m)
    ensures forall i: nat | i < 4 :: Distance(planes[i], p) >= 0.0 <==> WithinSide(m, i, p)
  {
    RowsClip(depth, m, p);
    hide Distance, WithinSide, SideRow, NoNormal, Dot33, Capped;
    forall i: nat | i < 4 ensures Distance(planes[i], p) >= 0.0 <==> WithinSide(m, i, p) {
      assert IsUnitOf(planes[i], SideRow(m, i));
    }
  }

  /** The volume between all six planes is exactly the visible volume when the far row has a normal. */
  lemma PlanesAreExact(depth: NdcDepth, m: M4, planes: seq<V4>, reversed: bool, sqrt: real -> real, p: V4)
    requires PlanesOf(depth, m, planes, reversed, sqrt) && SidesHaveNormals(m) && !NoNormal(FarRow(depth, m, reversed))
    ensures InFront(planes, p) <==> Visible(depth, m, p)
  {
    SidesAreExact(depth, m, planes, reversed, sqrt, p);
    RowsClip(depth, m, p);
    hide Distance, WithinSide, WithinLeast, WithinGreatest, SideRow, LeastRow, GreatestRow, NoNormal, Dot33, Capped;
    assert InFront(planes, p) <==>
      Distance(planes[0], p) >= 0.0 && Distance(planes[1], p) >= 0.0 && Distance(planes[2], p) >= 0.0
      && Distance(planes[3], p) >= 0.0 && Distance(planes[4], p) >= 0.0 && Distance(planes[5], p) >= 0.0;
  }

  /** Without a normal, a visible point is still in front of every plane but the stand-in. */
  lemma VisibleButForStandIn(depth: NdcDepth, m: M4, planes: seq<V4>, reversed: bool, sqrt: real -> real, p: V4)
    requires PlanesOf(depth, m, planes, reversed, sqrt) && SidesHaveNormals(m) && NoNormal(FarRow(depth, m, reversed))
    requires Visible(depth, m, p)
    ensures InFront(planes, p) <==> Distance(StandIn(planes[PLANE_NEAR], FarRow(depth, m, reversed)), p) >= 0.0
  {
    SidesAreExact(depth, m, planes, reversed, sqrt, p);
    RowsClip(depth, m, p);
    hide Distance, WithinSide, WithinLeast, WithinGreatest, SideRow, LeastRow, GreatestRow, NoNormal, Dot33, Capped,
            StandIn;
  }

  /** A view along z with its near plane at one and no far plane. */
  const INFINITE := M4(V4(1.0, 0.0, 0.0, 0.0), V4(0.0, 1.0, 0.0, 0.0), V4(0.0, 0.0, 1.0, 1.0), V4(0.0, 0.0, -1.0, 0.0))

  lemma RootsOfZeroAndOne(sqrt: real -> real)
    requires IsRoot(sqrt)
    ensures sqrt(0.0) == 0.0 && sqrt(1.0) == 1.0
  {
    var z, o := sqrt(0.0), sqrt(1.0);
    assert Times(z, z) == 0.0 && z >= 0.0 && Times(o, o) == 1.0 && o >= 0.0;
    hide IsRoot, Times;
    if z > 0.0 {
      PositiveProduct(z, z);
    }
    TimesOne(o);
    ZeroTimes(o);
    if o > 1.0 {
      ProductGrows(1.0, o, o);
    } else if 0.0 < o < 1.0 {
      ProductGrows(o, 1.0, o);
    }
  }

  lemma InfiniteRows(m: M4)
    requires m == INFINITE
    ensures Row(m, 2) == V4(0.0, 0.0, 1.0, -1.0) && Row(m, 3) == V4(0.0, 0.0, 1.0, 0.0)
    ensures Row(m, 0) == V4(1.0, 0.0, 0.0, 0.0) && Row(m, 1) == V4(0.0, 1.0, 0.0, 0.0)
    ensures LeastRow(D3D, m) == V4(0.0, 0.0, 1.0, -1.0) && GreatestRow(m) == V4(0.0, 0.0, 0.0, 1.0)
  {
    var (least, greatest) := (Row(m, 2), Row(m, 3));
    assert greatest.w - least.w == 1.0;
  }

  lemma PlainDistances(p: V4, w: real)
    ensures Distance(V4(1.0, 0.0, 0.0, 0.0), p) == p.x && Distance(V4(0.0, 1.0, 0.0, 0.0), p) == p.y
    ensures Distance(V4(0.0, 0.0, 1.0, -1.0), p) == p.z - 1.0 && Distance(V4(0.0, 0.0, 1.0, 0.0), p) == p.z
    ensures Distance(V4(0.0, 0.0, -1.0, w), p) == w - p.z
  {
  }

  lemma InfiniteClip(m: M4, p: V4)
    requires m == INFINITE
    ensures Clip(m, p) == V4(p.x, p.y, p.z - 1.0, p.z)
  {
    hide Row, Clip, Distance;
    ClipIsDistances(m, p);
    InfiniteRows(m);
    PlainDistances(p, 0.0);
  }

  lemma InfinitePoint(m: M4, p: V4)
    requires m == INFINITE && p.x == 0.0 && p.y == 0.0 && p.z >= 1.0
    ensures Visible(D3D, m, p)
  {
    hide Clip;
    InfiniteClip(m, p);
  }

  /** 2^126. */
  function Reach(): (r: real)
    ensures r > 1.0 && r == 1.0 / FltMin()
  {
    1.0 / FltMin()
  }

  lemma PlainScales(k: real)
    ensures Scale(V4(0.0, 0.0, 1.0, -1.0), 1.0) == V4(0.0, 0.0, 1.0, -1.0)
    ensures Scale(V4(0.0, 0.0, 0.0, 1.0), k) == V4(0.0, 0.0, 0.0, k)
    ensures Dot33(V4(0.0, 0.0, 1.0, -1.0), V4(0.0, 0.0, 1.0, -1.0)) == 1.0
    ensures Dot33(V4(0.0, 0.0, 0.0, 1.0), V4(0.0, 0.0, 0.0, 1.0)) == 0.0
  {
  }

  lemma CappedRows(near: V4, far: V4, sqrt: real -> real)
    requires IsRoot(sqrt) && near == V4(0.0, 0.0, 1.0, -1.0) && far == V4(0.0, 0.0, 0.0, 1.0)
    ensures Capped(near, sqrt) == near && NoNormal(far)
    ensures Capped(far, sqrt) == V4(0.0, 0.0, 0.0, Reach()) == Scale(far, 1.0 / FltMin())
  {
    hide IsRoot, FltMin, Dot33, Times, Scale, Reach;
    RootsOfZeroAndOne(sqrt);
    SquareIsAbove(FltMin());
    PlainScales(1.0 / FltMin());
    assert Max(1.0, FltMin()) == 1.0 && Max(0.0, FltMin()) == FltMin();
    assert 1.0 / 1.0 == 1.0;
  }

  lemma InfiniteIsNotReversed(m: M4, planes: seq<V4>, reversed: bool, sqrt: real -> real)
    requires IsRoot(sqrt) && m == INFINITE && PlanesOf(D3D, m, planes, reversed, sqrt)
    ensures !reversed
  {
    hide IsRoot, Capped, NoNormal, Reach, LeastRow, GreatestRow, SideRow, SameSides, Scale;
    InfiniteRows(m);
    CappedRows(LeastRow(D3D, m), GreatestRow(m), sqrt);
  }

  lemma InfiniteFarPlane(m: M4, planes: seq<V4>, sqrt: real -> real)
    requires IsRoot(sqrt) && m == INFINITE && PlanesOf(D3D, m, planes, false, sqrt)
    ensures |planes| == PLANES_NUM && planes[PLANE_FAR] == V4(0.0, 0.0, -1.0, Reach())
  {
    hide IsRoot, SameSides, SideRow, Dot33, Capped, NoNormal, Reach, FltMin, LeastRow, GreatestRow, Scale;
    InfiniteRows(m);
    CappedRows(LeastRow(D3D, m), GreatestRow(m), sqrt);
  }

  /** With an infinite projection the stand-in does cut off visible points: for this matrix, all beyond
      z = 2^126. */
  lemma StandInCullsVisiblePoints(m: M4, planes: seq<V4>, reversed: bool, sqrt: real -> real, p: V4)
    requires m == INFINITE && IsRoot(sqrt) && PlanesOf(D3D, m, planes, reversed, sqrt)
    requires p.x == 0.0 && p.y == 0.0 && p.z > Reach()
    ensures Visible(D3D, m, p) && !InFront(planes, p)
  {
    hide IsRoot, Visible, Reach, Distance, PlanesOf;
    InfiniteIsNotReversed(m, planes, reversed, sqrt);
    InfiniteFarPlane(m, planes, sqrt);
    InfinitePoint(m, p);
    PlainDistances(p, Reach());
  }
}
