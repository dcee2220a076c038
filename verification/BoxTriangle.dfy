/** The separating-axis test of a box against a triangle. Only the first three lanes of a vector count. */
module BoxTriangle {
  import opened Vectors

  function Min(a: real, b: real): real {
    if a < b then a else b
  }

  function Max(a: real, b: real): real {
    if a > b then a else b
  }

  function MinAll(a: V4, b: V4): V4 {
    V4(Min(a.x, b.x), Min(a.y, b.y), Min(a.z, b.z), Min(a.w, b.w))
  }

  function MaxAll(a: V4, b: V4): V4 {
    V4(Max(a.x, b.x), Max(a.y, b.y), Max(a.z, b.z), Max(a.w, b.w))
  }

  /** Some of the first three flags. */
  predicate Any(mask: Mask) {
    mask.x || mask.y || mask.z
  }

  predicate All(mask: Mask) {
    mask.x && mask.y && mask.z
  }

  /** The extents with the sign bits of another vector put on, or the opposite ones. */
  function WithSigns(extents: V4, signs: V4, flip: bool): V4 {
    V4(WithSign(extents.x, signs.x, flip), WithSign(extents.y, signs.y, flip),
       WithSign(extents.z, signs.z, flip), WithSign(extents.w, signs.w, flip))
  }

  function WithSign(extent: real, sign: real, flip: bool): real {
    if (sign < 0.0) != flip then -Abs(extent) else extent
  }

  /** The lanes moved on by one: y, z, x. */
  function XZY(v: V4): V4 {
    Swizzle(v, 1, 2, 0, 3)
  }

  /** TestClassIII: the three axes across one edge. */
  predicate TestClassIII(e0: V4, v0: V4, v1: V4, v2: V4, extents: V4) {
    var fe0 := AbsAll(e0);
    var rad := Add(Mul(extents, XZY(fe0)), Mul(XZY(extents), fe0));
    var p0 := Sub(Mul(v0, XZY(e0)), Mul(XZY(v0), e0));
    var p1 := Sub(Mul(v1, XZY(e0)), Mul(XZY(v1), e0));
    var p2 := Sub(Mul(v2, XZY(e0)), Mul(XZY(v2), e0));
    var minV := MinAll(MinAll(p0, p1), p2);
    var maxV := MaxAll(MaxAll(p0, p1), p2);
    Any(Greater(minV, rad)) || Any(Greater(Sub(ZERO, rad), maxV))
  }

  /** The first vertex lies strictly inside the box: the sign bits of |v0| - extents are all set. */
  predicate AcceptsEarly(v0: V4, extents: V4) {
    All(Greater(ZERO, Sub(AbsAll(v0), extents)))
  }

  /** The three axes of the box. */
  predicate RejectsByBox(v0: V4, v1: V4, v2: V4, extents: V4) {
    || Any(Greater(MinAll(MinAll(v0, v1), v2), extents))
    || Any(Greater(Sub(ZERO, extents), MaxAll(MaxAll(v0, v1), v2)))
  }

  /** The normal of the triangle. */
  predicate RejectsByPlane(v0: V4, v1: V4, v2: V4, extents: V4) {
    var normal := Cross(Sub(v1, v0), Sub(v2, v1));
    var d := Dot33(normal, v0);
    || d > Dot33(normal, WithSigns(extents, normal, false))
    || Dot33(normal, WithSigns(extents, normal, true)) > d
  }

  predicate IsOverlapBoxTriangle(boxcenter: V4, extents: V4, p0: V4, p1: V4, p2: V4) {
    var v0 := Sub(p0, boxcenter);
    AcceptsEarly(v0, extents) ||
    var v1 := Sub(p1, boxcenter);
    var v2 := Sub(p2, boxcenter);
    && !RejectsByBox(v0, v1, v2, extents)
    && !RejectsByPlane(v0, v1, v2, extents)
    && !TestClassIII(Sub(v1, v0), v0, v1, v2, extents)
    && !TestClassIII(Sub(v2, v1), v0, v1, v2, extents)
    && !TestClassIII(Sub(v0, v2), v0, v1, v2, extents)
  }

  // ---- What it is for ----

  /** Weights of a point of the triangle. */
  predicate IsConvex(a: real, b: real, c: real) {
    a >= 0.0 && b >= 0.0 && c >= 0.0 && a + b + c == 1.0
  }

  function Blend(a: real, b: real, c: real, x: real, y: real, z: real): real {
    Times(a, x) + Times(b, y) + Times(c, z)
  }

  function Point(a: real, b: real, c: real, p0: V4, p1: V4, p2: V4): V4 {
    V4(Blend(a, b, c, p0.x, p1.x, p2.x), Blend(a, b, c, p0.y, p1.y, p2.y), Blend(a, b, c, p0.z, p1.z, p2.z), 0.0)
  }

  predicate InClosedBox(p: V4, boxcenter: V4, extents: V4) {
    && Abs(p.x - boxcenter.x) <= extents.x
    && Abs(p.y - boxcenter.y) <= extents.y
    && Abs(p.z - boxcenter.z) <= extents.z
  }

  predicate InOpenBox(p: V4, boxcenter: V4, extents: V4) {
    && Abs(p.x - boxcenter.x) < extents.x
    && Abs(p.y - boxcenter.y) < extents.y
    && Abs(p.z - boxcenter.z) < extents.z
  }

  // ---- Scalars ----

  lemma BlendBetween(a: real, b: real, c: real, x: real, y: real, z: real)
    requires IsConvex(a, b, c)
    ensures Min(Min(x, y), z) <= Blend(a, b, c, x, y, z) <= Max(Max(x, y), z)
  {
    BlendInRange(a, b, c, x, y, z, Min(Min(x, y), z), Max(Max(x, y), z));
    hide Blend;
  }

  lemma BlendInRange(a: real, b: real, c: real, x: real, y: real, z: real, low: real, high: real)
    requires IsConvex(a, b, c) && low <= x <= high && low <= y <= high && low <= z <= high
    ensures low <= Blend(a, b, c, x, y, z) <= high
  {
    hide Times;
    Weighs(a, low, x, high);
    Weighs(b, low, y, high);
    Weighs(c, low, z, high);
    BlendOfOne(a, b, c, low);
    BlendOfOne(a, b, c, high);
  }

  lemma Weighs(a: real, low: real, x: real, high: real)
    requires a >= 0.0 && low <= x <= high
    ensures Times(a, low) <= Times(a, x) <= Times(a, high)
  {
  }

  lemma BlendOfOne(a: real, b: real, c: real, x: real)
    requires a + b + c == 1.0
    ensures Blend(a, b, c, x, x, x) == x
  {
    assert (a + b + c) * x == x;
  }

  lemma BlendShift(a: real, b: real, c: real, x: real, y: real, z: real, s: real)
    requires a + b + c == 1.0
    ensures Blend(a, b, c, x - s, y - s, z - s) == Blend(a, b, c, x, y, z) - s
  {
    BlendOfOne(a, b, c, s);
  }

  lemma Product(a: real, b: real, bound: real)
    requires Abs(a) <= bound
    ensures -(bound * Abs(b)) <= a * b <= bound * Abs(b)
  {
  }

  /** The projection on an axis across an edge. */
  function Across(vx: real, vy: real, ex: real, ey: real): real {
    vx * ey - vy * ex
  }

  lemma BlendAcross(a: real, b: real, c: real, x0: real, y0: real, x1: real, y1: real, x2: real, y2: real, ex: real, ey: real)
    ensures Across(Blend(a, b, c, x0, x1, x2), Blend(a, b, c, y0, y1, y2), ex, ey)
         == Blend(a, b, c, Across(x0, y0, ex, ey), Across(x1, y1, ex, ey), Across(x2, y2, ex, ey))
  {
  }

  lemma AcrossBound(qx: real, qy: real, ex: real, ey: real, bx: real, by_: real)
    requires Abs(qx) <= bx && Abs(qy) <= by_
    ensures Abs(Across(qx, qy, ex, ey)) <= Radius(ex, ey, bx, by_)
  {
    Product(qx, ey, bx);
    Product(qy, ex, by_);
  }

  // ---- Each rejection is right ----

  predicate Bounded(q: V4, extents: V4) {
    Abs(q.x) <= extents.x && Abs(q.y) <= extents.y && Abs(q.z) <= extents.z
  }

  lemma BoxAxesAreSound(a: real, b: real, c: real, v0: V4, v1: V4, v2: V4, extents: V4)
    requires IsConvex(a, b, c) && Bounded(Point(a, b, c, v0, v1, v2), extents)
    ensures !RejectsByBox(v0, v1, v2, extents)
  {
    BlendBetween(a, b, c, v0.x, v1.x, v2.x);
    BlendBetween(a, b, c, v0.y, v1.y, v2.y);
    BlendBetween(a, b, c, v0.z, v1.z, v2.z);
    hide Min, Max, Blend;
  }

  /** The test of one axis. */
  predicate AxisRejects(x0: real, y0: real, x1: real, y1: real, x2: real, y2: real, ex: real, ey: real, bx: real, by_: real) {
    var (p0, p1, p2) := (Across(x0, y0, ex, ey), Across(x1, y1, ex, ey), Across(x2, y2, ex, ey));
    var rad := Radius(ex, ey, bx, by_);
    Min(Min(p0, p1), p2) > rad || 0.0 - rad > Max(Max(p0, p1), p2)
  }

  /** Half the length of the box's projection on the axis. */
  function Radius(ex: real, ey: real, bx: real, by_: real): real {
    bx * Abs(ey) + by_ * Abs(ex)
  }

  lemma EdgeAxes(e: V4, v0: V4, v1: V4, v2: V4, extents: V4)
    ensures TestClassIII(e, v0, v1, v2, extents) <==>
              || AxisRejects(v0.x, v0.y, v1.x, v1.y, v2.x, v2.y, e.x, e.y, extents.x, extents.y)
              || AxisRejects(v0.y, v0.z, v1.y, v1.z, v2.y, v2.z, e.y, e.z, extents.y, extents.z)
              || AxisRejects(v0.z, v0.x, v1.z, v1.x, v2.z, v2.x, e.z, e.x, extents.z, extents.x)
  {
    AcrossLanes(v0, e);
    AcrossLanes(v1, e);
    AcrossLanes(v2, e);
    RadiusLanes(extents, e);
    hide Min, Max, Across, Radius, Mul, Add, XZY, AbsAll;
  }

  lemma AcrossLanes(v: V4, e: V4)
    ensures var p := Sub(Mul(v, XZY(e)), Mul(XZY(v), e));
            p.x == Across(v.x, v.y, e.x, e.y) && p.y == Across(v.y, v.z, e.y, e.z) && p.z == Across(v.z, v.x, e.z, e.x)
  {
  }

  lemma RadiusLanes(extents: V4, e: V4)
    ensures var rad := Add(Mul(extents, XZY(AbsAll(e))), Mul(XZY(extents), AbsAll(e)));
            && rad.x == Radius(e.x, e.y, extents.x, extents.y)
            && rad.y == Radius(e.y, e.z, extents.y, extents.z)
            && rad.z == Radius(e.z, e.x, extents.z, extents.x)
  {
    hide Abs;
  }

  /** The radius covers the projection of every point of the box. */
  lemma AcrossIsSound(a: real, b: real, c: real, x0: real, y0: real, x1: real, y1: real, x2: real, y2: real,
                      ex: real, ey: real, bx: real, by_: real)
    requires IsConvex(a, b, c) && Abs(Blend(a, b, c, x0, x1, x2)) <= bx && Abs(Blend(a, b, c, y0, y1, y2)) <= by_
    ensures !AxisRejects(x0, y0, x1, y1, x2, y2, ex, ey, bx, by_)
  {
    BlendAcross(a, b, c, x0, y0, x1, y1, x2, y2, ex, ey);
    AcrossBound(Blend(a, b, c, x0, x1, x2), Blend(a, b, c, y0, y1, y2), ex, ey, bx, by_);
    BlendBetween(a, b, c, Across(x0, y0, ex, ey), Across(x1, y1, ex, ey), Across(x2, y2, ex, ey));
    hide Across, Blend, Min, Max, Radius;
  }

  lemma EdgeAxesAreSound(a: real, b: real, c: real, e: V4, v0: V4, v1: V4, v2: V4, extents: V4)
    requires IsConvex(a, b, c) && Bounded(Point(a, b, c, v0, v1, v2), extents)
    ensures !TestClassIII(e, v0, v1, v2, extents)
  {
    hide TestClassIII, AxisRejects, IsConvex, Abs, Blend;
    EdgeAxes(e, v0, v1, v2, extents);
    AcrossIsSound(a, b, c, v0.x, v0.y, v1.x, v1.y, v2.x, v2.y, e.x, e.y, extents.x, extents.y);
    AcrossIsSound(a, b, c, v0.y, v0.z, v1.y, v1.z, v2.y, v2.z, e.y, e.z, extents.y, extents.z);
    AcrossIsSound(a, b, c, v0.z, v0.x, v1.z, v1.x, v2.z, v2.x, e.z, e.x, extents.z, extents.x);
  }

  /** The normal of the triangle is across both of its edges, so all vertices have the same height. */
  lemma SameHeight(v0: V4, v1: V4, v2: V4)
    ensures var n := Cross(Sub(v1, v0), Sub(v2, v1)); Dot33(n, v1) == Dot33(n, v0) == Dot33(n, v2)
  {
    CrossIsAcross(Sub(v1, v0), Sub(v2, v1));
    var n := Cross(Sub(v1, v0), Sub(v2, v1));
    hide Cross;
    DotOfDifference(n, v1, v0);
    DotOfDifference(n, v2, v1);
    hide Dot33, Sub;
  }

  lemma CrossIsAcross(e: V4, f: V4)
    ensures Dot33(Cross(e, f), e) == 0.0 && Dot33(Cross(e, f), f) == 0.0
  {
  }

  lemma DotOfDifference(n: V4, u: V4, v: V4)
    ensures Dot33(n, Sub(u, v)) == Dot33(n, u) - Dot33(n, v)
  {
  }

  lemma HeightOfPoint(n: V4, a: real, b: real, c: real, v0: V4, v1: V4, v2: V4)
    ensures Dot33(n, Point(a, b, c, v0, v1, v2)) == Blend(a, b, c, Dot33(n, v0), Dot33(n, v1), Dot33(n, v2))
  {
  }

  lemma SignedTerm(n: real, q: real, extent: real)
    requires Abs(q) <= extent
    ensures Times(n, WithSign(extent, n, true)) <= Times(n, q) <= Times(n, WithSign(extent, n, false))
  {
    Weighs(Abs(n), -extent, q, extent);
    Negates(n, q);
    Negates(n, extent);
    Negates(-n, extent);
    hide Times;
  }

  lemma Negates(n: real, q: real)
    ensures Times(-n, q) == -Times(n, q) == Times(n, -q)
  {
  }

  lemma DotByTimes(a: V4, b: V4)
    ensures Dot33(a, b) == Times(a.x, b.x) + Times(a.y, b.y) + Times(a.z, b.z)
  {
  }

  lemma HeightInBox(n: V4, q: V4, extents: V4)
    requires Bounded(q, extents)
    ensures Dot33(n, WithSigns(extents, n, true)) <= Dot33(n, q) <= Dot33(n, WithSigns(extents, n, false))
  {
    hide WithSign, Abs, Dot33, Times;
    SignedTerm(n.x, q.x, extents.x);
    SignedTerm(n.y, q.y, extents.y);
    SignedTerm(n.z, q.z, extents.z);
    DotByTimes(n, q);
    DotByTimes(n, WithSigns(extents, n, true));
    DotByTimes(n, WithSigns(extents, n, false));
  }

  lemma PlaneIsSound(a: real, b: real, c: real, v0: V4, v1: V4, v2: V4, extents: V4)
    requires IsConvex(a, b, c) && Bounded(Point(a, b, c, v0, v1, v2), extents)
    ensures !RejectsByPlane(v0, v1, v2, extents)
  {
    hide Cross, Dot33, Point, WithSigns, Bounded, Sub, Blend;
    var n := Cross(Sub(v1, v0), Sub(v2, v1));
    SameHeight(v0, v1, v2);
    HeightOfPoint(n, a, b, c, v0, v1, v2);
    BlendOfOne(a, b, c, Dot33(n, v0));
    HeightInBox(n, Point(a, b, c, v0, v1, v2), extents);
  }

  lemma Centred(a: real, b: real, c: real, boxcenter: V4, p0: V4, p1: V4, p2: V4, extents: V4)
    requires IsConvex(a, b, c) && InClosedBox(Point(a, b, c, p0, p1, p2), boxcenter, extents)
    ensures Bounded(Point(a, b, c, Sub(p0, boxcenter), Sub(p1, boxcenter), Sub(p2, boxcenter)), extents)
  {
    BlendShift(a, b, c, p0.x, p1.x, p2.x, boxcenter.x);
    BlendShift(a, b, c, p0.y, p1.y, p2.y, boxcenter.y);
    BlendShift(a, b, c, p0.z, p1.z, p2.z, boxcenter.z);
    hide Blend, Abs;
  }

  /** A rejected triangle has no point in the box: none of the thirteen axes rejects a real overlap. */
  lemma RejectionIsSound(boxcenter: V4, extents: V4, p0: V4, p1: V4, p2: V4)
    requires !IsOverlapBoxTriangle(boxcenter, extents, p0, p1, p2)
    ensures forall a: real, b: real, c: real | IsConvex(a, b, c) ::
              !InClosedBox(Point(a, b, c, p0, p1, p2), boxcenter, extents)
  {
    var (v0, v1, v2) := (Sub(p0, boxcenter), Sub(p1, boxcenter), Sub(p2, boxcenter));
    hide RejectsByBox, RejectsByPlane, TestClassIII, AcceptsEarly, Point, InClosedBox, Bounded, Sub;
    forall a: real, b: real, c: real | IsConvex(a, b, c)
      ensures !InClosedBox(Point(a, b, c, p0, p1, p2), boxcenter, extents)
    {
      if InClosedBox(Point(a, b, c, p0, p1, p2), boxcenter, extents) {
        Centred(a, b, c, boxcenter, p0, p1, p2, extents);
        BoxAxesAreSound(a, b, c, v0, v1, v2, extents);
        PlaneIsSound(a, b, c, v0, v1, v2, extents);
        EdgeAxesAreSound(a, b, c, Sub(v1, v0), v0, v1, v2, extents);
        EdgeAxesAreSound(a, b, c, Sub(v2, v1), v0, v1, v2, extents);
        EdgeAxesAreSound(a, b, c, Sub(v0, v2), v0, v1, v2, extents);
      }
    }
  }

  /** The early acceptance is a real overlap: it happens exactly when the first vertex is strictly inside. */
  lemma EarlyAcceptanceIsExact(boxcenter: V4, extents: V4, p0: V4, p1: V4, p2: V4)
    ensures AcceptsEarly(Sub(p0, boxcenter), extents) <==> InOpenBox(p0, boxcenter, extents)
    ensures InOpenBox(p0, boxcenter, extents) ==>
              IsOverlapBoxTriangle(boxcenter, extents, p0, p1, p2)
              && InClosedBox(Point(1.0, 0.0, 0.0, p0, p1, p2), boxcenter, extents)
  {
    hide RejectsByBox, RejectsByPlane, TestClassIII;
  }

  // ---- The thirteen axes ----

  const X := V4(1.0, 0.0, 0.0, 0.0)
  const Y := V4(0.0, 1.0, 0.0, 0.0)
  const Z := V4(0.0, 0.0, 1.0, 0.0)

  /** Half the length of the box's projection on an axis. */
  function Reach(axis: V4, extents: V4): real {
    Times(Abs(axis.x), extents.x) + Times(Abs(axis.y), extents.y) + Times(Abs(axis.z), extents.z)
  }

  /** The projections of the vertices all lie on one side of the box's. */
  predicate Separates(axis: V4, v0: V4, v1: V4, v2: V4, extents: V4) {
    var (d0, d1, d2, r) := (Dot33(axis, v0), Dot33(axis, v1), Dot33(axis, v2), Reach(axis, extents));
    (d0 > r && d1 > r && d2 > r) || (d0 < -r && d1 < -r && d2 < -r)
  }

  /** Some axis across an edge and a side of the box separates. */
  predicate EdgeSeparates(e: V4, v0: V4, v1: V4, v2: V4, extents: V4) {
    || Separates(Cross(e, X), v0, v1, v2, extents)
    || Separates(Cross(e, Y), v0, v1, v2, extents)
    || Separates(Cross(e, Z), v0, v1, v2, extents)
  }

  predicate SomeAxisSeparates(v0: V4, v1: V4, v2: V4, extents: V4) {
    || Separates(X, v0, v1, v2, extents) || Separates(Y, v0, v1, v2, extents) || Separates(Z, v0, v1, v2, extents)
    || Separates(Cross(Sub(v1, v0), Sub(v2, v1)), v0, v1, v2, extents)
    || EdgeSeparates(Sub(v1, v0), v0, v1, v2, extents)
    || EdgeSeparates(Sub(v2, v1), v0, v1, v2, extents)
    || EdgeSeparates(Sub(v0, v2), v0, v1, v2, extents)
  }

  lemma BoxAxes(v0: V4, v1: V4, v2: V4, extents: V4)
    ensures RejectsByBox(v0, v1, v2, extents) <==>
              Separates(X, v0, v1, v2, extents) || Separates(Y, v0, v1, v2, extents) || Separates(Z, v0, v1, v2, extents)
  {
    UnitAxes(v0, extents);
    UnitAxes(v1, extents);
    UnitAxes(v2, extents);
    hide Dot33, Reach, X, Y, Z;
  }

  lemma UnitAxes(v: V4, extents: V4)
    ensures Dot33(X, v) == v.x && Dot33(Y, v) == v.y && Dot33(Z, v) == v.z
    ensures Reach(X, extents) == extents.x && Reach(Y, extents) == extents.y && Reach(Z, extents) == extents.z
  {
  }

  predicate NonNegative(extents: V4) {
    extents.x >= 0.0 && extents.y >= 0.0 && extents.z >= 0.0
  }

  lemma SignedReach(n: real, extent: real)
    requires extent >= 0.0
    ensures Times(n, WithSign(extent, n, false)) == Times(Abs(n), extent)
    ensures Times(n, WithSign(extent, n, true)) == -Times(Abs(n), extent)
  {
    Negates(n, extent);
    Negates(-n, extent);
    hide Times;
  }

  lemma PlaneAxis(v0: V4, v1: V4, v2: V4, extents: V4)
    requires NonNegative(extents)
    ensures RejectsByPlane(v0, v1, v2, extents) <==> Separates(Cross(Sub(v1, v0), Sub(v2, v1)), v0, v1, v2, extents)
  {
    hide Cross, Sub, Times, Abs, WithSign, Dot33;
    var n := Cross(Sub(v1, v0), Sub(v2, v1));
    SameHeight(v0, v1, v2);
    SignedReach(n.x, extents.x);
    SignedReach(n.y, extents.y);
    SignedReach(n.z, extents.z);
    DotByTimes(n, WithSigns(extents, n, false));
    DotByTimes(n, WithSigns(extents, n, true));
  }

  lemma CrossWithAxes(e: V4)
    ensures Cross(e, Z).x == e.y && Cross(e, Z).y == -e.x && Cross(e, Z).z == 0.0
    ensures Cross(e, X).x == 0.0 && Cross(e, X).y == e.z && Cross(e, X).z == -e.y
    ensures Cross(e, Y).x == -e.z && Cross(e, Y).y == 0.0 && Cross(e, Y).z == e.x
  {
  }

  lemma EdgeProjection(e: V4, v: V4)
    ensures Across(v.x, v.y, e.x, e.y) == Dot33(Cross(e, Z), v)
    ensures Across(v.y, v.z, e.y, e.z) == Dot33(Cross(e, X), v)
    ensures Across(v.z, v.x, e.z, e.x) == Dot33(Cross(e, Y), v)
  {
    CrossWithAxes(e);
    hide Cross;
  }

  lemma EdgeReach(e: V4, extents: V4)
    ensures Radius(e.x, e.y, extents.x, extents.y) == Reach(Cross(e, Z), extents)
    ensures Radius(e.y, e.z, extents.y, extents.z) == Reach(Cross(e, X), extents)
    ensures Radius(e.z, e.x, extents.z, extents.x) == Reach(Cross(e, Y), extents)
  {
    CrossWithAxes(e);
    hide Cross;
  }

  lemma EdgeAxesSeparate(e: V4, v0: V4, v1: V4, v2: V4, extents: V4)
    ensures TestClassIII(e, v0, v1, v2, extents) <==> EdgeSeparates(e, v0, v1, v2, extents)
  {
    hide TestClassIII, Across, Radius, Reach, Cross, Dot33, X, Y, Z;
    EdgeAxes(e, v0, v1, v2, extents);
    EdgeProjection(e, v0);
    EdgeProjection(e, v1);
    EdgeProjection(e, v2);
    EdgeReach(e, extents);
  }

  /** The answer is exactly that the first vertex is strictly inside or none of the thirteen axes of the
      theorem separates: the box's three, the triangle's normal, and three across each edge. */
  lemma OverlapIsNoSeparation(boxcenter: V4, extents: V4, p0: V4, p1: V4, p2: V4)
    requires NonNegative(extents)
    ensures IsOverlapBoxTriangle(boxcenter, extents, p0, p1, p2) <==>
              || InOpenBox(p0, boxcenter, extents)
              || !SomeAxisSeparates(Sub(p0, boxcenter), Sub(p1, boxcenter), Sub(p2, boxcenter), extents)
  {
    hide RejectsByBox, RejectsByPlane, TestClassIII, AcceptsEarly, Separates, EdgeSeparates, Cross, Sub, InOpenBox, NonNegative;
    var (v0, v1, v2) := (Sub(p0, boxcenter), Sub(p1, boxcenter), Sub(p2, boxcenter));
    EarlyAcceptanceIsExact(boxcenter, extents, p0, p1, p2);
    BoxAxes(v0, v1, v2, extents);
    PlaneAxis(v0, v1, v2, extents);
    EdgeAxesSeparate(Sub(v1, v0), v0, v1, v2, extents);
    EdgeAxesSeparate(Sub(v2, v1), v0, v1, v2, extents);
    EdgeAxesSeparate(Sub(v0, v2), v0, v1, v2, extents);
  }
}

