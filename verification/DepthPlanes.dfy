/** Which of the two depth planes becomes the near one, and where near and far lie in space. */
module DepthPlanes {
  import opened Boxes
  import opened ClipPlanes
  import opened Matrix
  import opened Vectors

  /** The row is not negative exactly at the points whose coordinate along u is at least z. */
  ghost predicate StartsAt(row: V4, u: V4, z: real) {
    forall p: V4 :: Distance(row, p) >= 0.0 <==> Dot33(u, p) >= z
  }

  /** The row is not negative exactly at the points whose coordinate along u is at most z. */
  ghost predicate EndsAt(row: V4, u: V4, z: real) {
    forall p: V4 :: Distance(row, p) >= 0.0 <==> Dot33(u, p) <= z
  }

  /** A projection that sees along the unit vector u from zn to zf. Its least depth is at zn, or at zf if it is flipped. */
  ghost predicate SeesBetween(depth: NdcDepth, m: M4, u: V4, zn: real, zf: real, flipped: bool) {
    && Dot33(u, u) == 1.0 && 0.0 < zn < zf
    && (forall p: V4 :: WithinLeast(depth, m, p) <==> if flipped then Dot33(u, p) <= zf else Dot33(u, p) >= zn)
    && (forall p: V4 :: WithinGreatest(m, p) <==> if flipped then Dot33(u, p) >= zn else Dot33(u, p) <= zf)
  }

  /** A projection that sees along u from zn on without an end: one of its depths bounds nothing. */
  ghost predicate SeesFrom(depth: NdcDepth, m: M4, u: V4, zn: real, flipped: bool) {
    && Dot33(u, u) == 1.0 && 0.0 < zn
    && (forall p: V4 :: WithinLeast(depth, m, p) <==> (flipped || Dot33(u, p) >= zn))
    && (forall p: V4 :: WithinGreatest(m, p) <==> (!flipped || Dot33(u, p) >= zn))
  }

  // ---- The row of a half-space ----

  lemma AlongAxis(row: V4, u: V4, t: real)
    requires Dot33(u, u) == 1.0
    ensures Distance(row, Scale(u, t)) == Times(Dot33(row, u), t) + row.w && Dot33(u, Scale(u, t)) == t
  {
    assert Dot33(u, Scale(u, t)) == t * Dot33(u, u);
  }

  lemma LineSign(c: real, w: real, z: real)
    requires forall t: real :: Times(c, t) + w >= 0.0 <==> t >= z
    ensures c > 0.0 && w == -Times(c, z)
  {
    assert Times(c, z) + w >= 0.0;
    assert Times(c, z - 1.0) + w < 0.0;
    assert Times(c, z - 1.0) == Times(c, z) - c;
    hide Times;
    var t := Root(c, w);
    assert t >= z;
    NotBelow(c, z, t);
  }

  lemma Root(c: real, w: real) returns (t: real)
    requires c != 0.0
    ensures Times(c, t) + w == 0.0
  {
    t := -w / c;
    assert c * t == -w;
  }

  lemma NotBelow(c: real, z: real, t: real)
    requires c > 0.0 && z <= t
    ensures Times(c, z) <= Times(c, t)
  {
    assert c * (t - z) >= 0.0;
  }

  /** What of the row is not along u. */
  function Rest(row: V4, u: V4): V4 {
    var c := Dot33(row, u);
    V4(row.x - Times(c, u.x), row.y - Times(c, u.y), row.z - Times(c, u.z), 0.0)
  }

  lemma RestIsAcross(row: V4, u: V4)
    requires Dot33(u, u) == 1.0
    ensures Dot33(u, Rest(row, u)) == 0.0 && Dot33(row, Rest(row, u)) == Dot33(Rest(row, u), Rest(row, u))
  {
    var c, r := Dot33(row, u), Rest(row, u);
    assert Dot33(u, r) == Dot33(row, u) - c * Dot33(u, u);
    assert Dot33(row, r) == Dot33(r, r) + c * Dot33(u, r);
  }

  lemma SquaresVanish(r: V4)
    requires Dot33(r, r) <= 0.0
    ensures r.x == 0.0 && r.y == 0.0 && r.z == 0.0
  {
    SquareSign(r.x);
    SquareSign(r.y);
    SquareSign(r.z);
    assert Dot33(r, r) == Times(r.x, r.x) + Times(r.y, r.y) + Times(r.z, r.z);
    hide Times, Dot33;
  }

  lemma SquareSign(x: real)
    ensures Times(x, x) >= 0.0 && (x != 0.0 ==> Times(x, x) > 0.0)
  {
    assert Times(-x, -x) == Times(x, x) && Times(0.0, x) == 0.0;
    hide Times;
    if x > 0.0 {
      PositiveProduct(x, x);
    } else if x < 0.0 {
      PositiveProduct(-x, -x);
    }
  }

  lemma OffAxis(row: V4, u: V4, z: real, r: V4)
    requires Dot33(u, u) == 1.0 && Dot33(u, r) == 0.0
    ensures var p := Sub(Scale(u, z), r);
            Dot33(u, p) == z && Distance(row, p) == Times(Dot33(row, u), z) + row.w - Dot33(row, r)
  {
    AlongAxis(row, u, z);
    DotOfDifference(u, Scale(u, z), r);
    DistanceOfDifference(row, Scale(u, z), r);
    hide Dot33, Distance, Scale, Sub, Times;
  }

  lemma DotOfDifference(u: V4, p: V4, q: V4)
    ensures Dot33(u, Sub(p, q)) == Dot33(u, p) - Dot33(u, q)
  {
  }

  lemma DistanceOfDifference(row: V4, p: V4, q: V4)
    ensures Distance(row, Sub(p, q)) == Distance(row, p) - Dot33(row, q)
  {
  }

  /** Only the positive multiples of (u, -z) start at z along u. */
  lemma RowOfStart(row: V4, u: V4, z: real) returns (c: real)
    requires Dot33(u, u) == 1.0 && StartsAt(row, u, z)
    ensures c > 0.0 && row == V4(Times(c, u.x), Times(c, u.y), Times(c, u.z), -Times(c, z))
  {
    c := Dot33(row, u);
    hide Distance, Dot33, Times, Rest;
    forall t: real ensures Times(c, t) + row.w >= 0.0 <==> t >= z {
      AlongAxis(row, u, t);
    }
    LineSign(c, row.w, z);
    var r := Rest(row, u);
    RestIsAcross(row, u);
    OffAxis(row, u, z, r);
    SquaresVanish(r);
    RestParts(row, u);
  }

  lemma RestParts(row: V4, u: V4)
    ensures var (c, r) := (Dot33(row, u), Rest(row, u));
            r.x == row.x - Times(c, u.x) && r.y == row.y - Times(c, u.y) && r.z == row.z - Times(c, u.z)
  {
  }

  function Back(u: V4): V4 {
    V4(-u.x, -u.y, -u.z, u.w)
  }

  lemma EndIsStart(row: V4, u: V4, z: real)
    requires EndsAt(row, u, z)
    ensures StartsAt(row, Back(u), -z) && Dot33(Back(u), Back(u)) == Dot33(u, u)
  {
    hide Distance;
    forall p: V4 ensures Dot33(Back(u), p) == -Dot33(u, p) {
    }
  }

  /** Only positive multiples of (-u, z) end at z along u. */
  lemma RowOfEnd(row: V4, u: V4, z: real) returns (c: real)
    requires Dot33(u, u) == 1.0 && EndsAt(row, u, z)
    ensures c > 0.0 && row == V4(-Times(c, u.x), -Times(c, u.y), -Times(c, u.z), Times(c, z))
  {
    EndIsStart(row, u, z);
    hide EndsAt, StartsAt, Dot33;
    c := RowOfStart(row, Back(u), -z);
    assert Times(c, -u.x) == -Times(c, u.x) && Times(c, -u.y) == -Times(c, u.y) && Times(c, -u.z) == -Times(c, u.z);
    assert Times(c, -z) == -Times(c, z);
  }

  /** A row that is nowhere negative has no normal. */
  lemma RowOfAll(row: V4)
    requires forall p: V4 :: Distance(row, p) >= 0.0
    ensures row.x == 0.0 && row.y == 0.0 && row.z == 0.0 && row.w >= 0.0
  {
    var q := Dot33(row, row);
    forall t: real ensures Times(q, t) + row.w >= 0.0 {
      assert Distance(row, Scale(row, t)) == Times(Dot33(row, row), t) + row.w;
    }
    hide Distance, Dot33, Times;
    SquareIsPositive(row);
    if q > 0.0 {
      var t := Root(q, row.w + 1.0);
    }
    SquaresVanish(row);
    ZeroDistance(row);
  }

  lemma ZeroDistance(row: V4)
    requires row.x == 0.0 && row.y == 0.0 && row.z == 0.0
    ensures Distance(row, ZERO) == row.w
  {
  }

  // ---- Scaling such a row ----

  lemma RootOfSquare(s: real, c: real)
    requires s >= 0.0 && c > 0.0 && Times(s, s) == Times(c, c)
    ensures s == c
  {
    hide Times;
    if s < c {
      SmallerSquare(s, c);
    } else if c < s {
      SmallerSquare(c, s);
    }
  }

  lemma SmallerSquare(s: real, c: real)
    requires 0.0 <= s < c
    ensures Times(s, s) < Times(c, c)
  {
    PositiveProduct(c - s, c + s);
    assert Times(c, c) - Times(s, s) == Times(c - s, c + s);
    hide Times;
  }

  /** How much of a normal of length c is left after scaling: all of it, made one, or less for one below the least
      float. */
  function Left(c: real): real {
    c / Max(c, FltMin())
  }

  lemma LeftIsOne(c: real)
    requires c > 0.0
    ensures 0.0 < Left(c) <= 1.0 && (c >= FltMin() ==> Left(c) == 1.0)
  {
    var d := Max(c, FltMin());
    assert Left(c) * d == c;
    hide Left, FltMin;
    if Left(c) <= 0.0 || Left(c) > 1.0 || (c == d && Left(c) != 1.0) {
      Quotients(Left(c), c, d);
    }
  }

  lemma Quotients(l: real, c: real, d: real)
    requires l * d == c && 0.0 < c <= d
    ensures 0.0 < l <= 1.0 && (c == d ==> l == 1.0)
  {
    if l <= 0.0 {
      NotBelow(d, l, 0.0);
    } else if l > 1.0 {
      PositiveProduct(l - 1.0, d);
    }
    if c == d {
      assert (l - 1.0) * d == 0.0;
    }
  }

  /** The scaled row of a half-space: u, or -u, times what is left, and the distance times what is left. */
  lemma ScaledRow(row: V4, u: V4, c: real, w: real, sqrt: real -> real)
    requires IsRoot(sqrt) && c > 0.0 && Dot33(u, u) == 1.0
    requires row == V4(Times(c, u.x), Times(c, u.y), Times(c, u.z), Times(c, w))
    ensures var l := Left(c); Capped(row, sqrt) == V4(Times(l, u.x), Times(l, u.y), Times(l, u.z), Times(l, w))
    ensures Dot33(row, row) == Times(c, c)
  {
    hide Dot33, Times, IsRoot, FltMin, Capped, Max;
    SquareOfMultiple(row, u, c);
    RootOfRow(row, c, sqrt);
    CappedByRoot(row, c, sqrt);
    var d := Max(c, FltMin());
    LongerCap(c);
    ScaledPart(c, u.x, d);
    ScaledPart(c, u.y, d);
    ScaledPart(c, u.z, d);
    ScaledPart(c, w, d);
  }

  lemma LongerCap(c: real)
    requires c > 0.0
    ensures Max(c, FltMin()) > 0.0
  {
  }

  lemma CappedByRoot(row: V4, c: real, sqrt: real -> real)
    requires c > 0.0 && sqrt(Dot33(row, row)) == c
    ensures Max(c, FltMin()) > 0.0
    ensures var k := 1.0 / Max(c, FltMin()); Capped(row, sqrt) == V4(row.x * k, row.y * k, row.z * k, row.w * k)
  {
    hide Dot33;
  }

  lemma SquareOfMultiple(row: V4, u: V4, c: real)
    requires Dot33(u, u) == 1.0 && row.x == Times(c, u.x) && row.y == Times(c, u.y) && row.z == Times(c, u.z)
    ensures Dot33(row, row) == Times(c, c)
  {
    SquareOfProduct(c, u.x);
    SquareOfProduct(c, u.y);
    SquareOfProduct(c, u.z);
    var (q, x, y, z) := (Times(c, c), Times(u.x, u.x), Times(u.y, u.y), Times(u.z, u.z));
    assert q * (x + y + z) == Times(q, x) + Times(q, y) + Times(q, z);
  }

  lemma SquareOfProduct(c: real, x: real)
    ensures Times(c, x) * Times(c, x) == Times(Times(c, c), Times(x, x))
  {
    assert c * x * (c * x) == c * c * (x * x);
  }

  lemma ScaledPart(c: real, x: real, d: real)
    requires d > 0.0
    ensures Times(c, x) * (1.0 / d) == Times(c / d, x)
  {
    var k, q := 1.0 / d, c / d;
    assert k * d == 1.0 && q * d == c;
    assert (q - c * k) * d == 0.0;
    assert q == c * k;
  }

  // ---- The decision ----

  /** The nearer of the two scaled planes takes the near slot. */
  lemma NearerIsNear(depth: NdcDepth, m: M4, planes: seq<V4>, reversed: bool, sqrt: real -> real, flipped: bool)
    requires PlanesOf(depth, m, planes, reversed, sqrt)
    ensures var (wn, wf) := (Abs(Capped(NearRow(depth, m, flipped), sqrt).w), Abs(Capped(FarRow(depth, m, flipped), sqrt).w));
            reversed == flipped <==> if flipped then wn < wf else wn <= wf
  {
    hide Capped, NoNormal, SideRow, LeastRow, GreatestRow, SameSides;
  }

  lemma DepthRows(depth: NdcDepth, m: M4, flipped: bool)
    ensures forall p: V4 :: Distance(NearRow(depth, m, flipped), p) >= 0.0 <==>
              if flipped then WithinGreatest(m, p) else WithinLeast(depth, m, p)
    ensures forall p: V4 :: Distance(FarRow(depth, m, flipped), p) >= 0.0 <==>
              if flipped then WithinLeast(depth, m, p) else WithinGreatest(m, p)
  {
    forall p: V4
      ensures Distance(LeastRow(depth, m), p) >= 0.0 <==> WithinLeast(depth, m, p)
      ensures Distance(GreatestRow(m), p) >= 0.0 <==> WithinGreatest(m, p)
    {
      RowsClip(depth, m, p);
    }
    hide Distance, WithinLeast, WithinGreatest, LeastRow, GreatestRow;
  }

  /** What scaling leaves of a row's normal. */
  function Remains(row: V4, sqrt: real -> real): real {
    Left(sqrt(Dot33(row, row)))
  }

  lemma ScaledStart(row: V4, u: V4, z: real, sqrt: real -> real)
    requires IsRoot(sqrt) && Dot33(u, u) == 1.0 && StartsAt(row, u, z) && z > 0.0
    ensures 0.0 < Remains(row, sqrt) <= 1.0 && Abs(Capped(row, sqrt).w) == Times(Remains(row, sqrt), z)
  {
    var c := RowOfStart(row, u, z);
    assert Times(c, -z) == -Times(c, z);
    hide Dot33, Times, StartsAt, Left, Capped, IsRoot;
    ScaledRow(row, u, c, -z, sqrt);
    RootOfRow(row, c, sqrt);
    LeftIsOne(c);
    PositiveProduct(Left(c), z);
    NegatedProduct(Left(c), z);
  }

  lemma ScaledEnd(row: V4, u: V4, z: real, sqrt: real -> real)
    requires IsRoot(sqrt) && Dot33(u, u) == 1.0 && EndsAt(row, u, z) && z > 0.0
    ensures 0.0 < Remains(row, sqrt) <= 1.0 && Abs(Capped(row, sqrt).w) == Times(Remains(row, sqrt), z)
    ensures sqrt(Dot33(row, row)) >= FltMin() ==> Remains(row, sqrt) == 1.0
  {
    var c := RowOfEnd(row, u, z);
    NegatedProduct(c, u.x);
    NegatedProduct(c, u.y);
    NegatedProduct(c, u.z);
    BackIsUnit(u);
    hide Dot33, Times, EndsAt, Left, Capped, IsRoot, FltMin;
    ScaledRow(row, Back(u), c, z, sqrt);
    RootOfRow(row, c, sqrt);
    LeftIsOne(c);
    PositiveProduct(Left(c), z);
  }

  lemma BackIsUnit(u: V4)
    ensures Dot33(Back(u), Back(u)) == Dot33(u, u)
  {
  }

  lemma NegatedProduct(c: real, x: real)
    ensures Times(c, -x) == -Times(c, x)
  {
  }

  lemma RootOfRow(row: V4, c: real, sqrt: real -> real)
    requires IsRoot(sqrt) && c > 0.0 && Dot33(row, row) == Times(c, c)
    ensures sqrt(Dot33(row, row)) == c
  {
    SquareSign(c);
    var s := sqrt(Times(c, c));
    assert s >= 0.0 && Times(s, s) == Times(c, c);
    hide Times, Dot33;
    RootOfSquare(s, c);
  }

  /** Where the rows bound z from zn to zf along u, in either direction of depth and by either convention: the near
      slot gets the plane at zn, the far slot the one at zf, and the answer is true exactly if the greatest depth
      lies at zn. That is decided by what scaling leaves of the two normals, and always so if the far row's normal
      is not shorter than the least float. */
  lemma NearAndFar(depth: NdcDepth, m: M4, planes: seq<V4>, reversed: bool, sqrt: real -> real,
                   u: V4, zn: real, zf: real, flipped: bool)
    requires IsRoot(sqrt) && PlanesOf(depth, m, planes, reversed, sqrt) && SeesBetween(depth, m, u, zn, zf, flipped)
    ensures var (near, far) := (NearRow(depth, m, flipped), FarRow(depth, m, flipped));
            && (reversed == flipped <==>
                  if flipped then Times(Remains(near, sqrt), zn) < Times(Remains(far, sqrt), zf)
                  else Times(Remains(near, sqrt), zn) <= Times(Remains(far, sqrt), zf))
            && (sqrt(Dot33(far, far)) >= FltMin() ==> reversed == flipped)
            && (reversed == flipped ==> StartsAt(planes[PLANE_NEAR], u, zn))
            && (reversed == flipped && !NoNormal(far) ==> EndsAt(planes[PLANE_FAR], u, zf))
  {
    DepthRows(depth, m, flipped);
    hide Distance, WithinLeast, WithinGreatest, LeastRow, GreatestRow, SideRow, Capped, NoNormal, Dot33, Remains, IsRoot;
    var (near, far) := (NearRow(depth, m, flipped), FarRow(depth, m, flipped));
    assert StartsAt(near, u, zn) && EndsAt(far, u, zf);
    NearerIsNear(depth, m, planes, reversed, sqrt, flipped);
    ScaledStart(near, u, zn, sqrt);
    ScaledEnd(far, u, zf, sqrt);
    AtMost(Remains(near, sqrt), zn);
    hide Times;
  }

  lemma AtMost(l: real, z: real)
    requires 0.0 < l <= 1.0 && z > 0.0
    ensures Times(l, z) <= z && Times(1.0, z) == z
  {
    assert (1.0 - l) * z >= 0.0;
  }

  /** Where one depth bounds nothing, the plane of the other is the near one, unless its distance reaches 2^126
      times what the empty row holds. */
  lemma NearWithoutFar(depth: NdcDepth, m: M4, planes: seq<V4>, reversed: bool, sqrt: real -> real,
                       u: V4, zn: real, flipped: bool)
    requires IsRoot(sqrt) && PlanesOf(depth, m, planes, reversed, sqrt) && SeesFrom(depth, m, u, zn, flipped)
    ensures var (near, far) := (NearRow(depth, m, flipped), FarRow(depth, m, flipped));
            && far.x == 0.0 && far.y == 0.0 && far.z == 0.0 && far.w >= 0.0 && NoNormal(far)
            && (reversed == flipped <==>
                  if flipped then Times(Remains(near, sqrt), zn) < far.w / FltMin()
                  else Times(Remains(near, sqrt), zn) <= far.w / FltMin())
            && (zn < far.w / FltMin() ==> reversed == flipped)
            && (reversed == flipped ==> StartsAt(planes[PLANE_NEAR], u, zn))
  {
    DepthRows(depth, m, flipped);
    hide Distance, WithinLeast, WithinGreatest, LeastRow, GreatestRow, SideRow, Capped, NoNormal, Dot33, Remains, IsRoot;
    var (near, far) := (NearRow(depth, m, flipped), FarRow(depth, m, flipped));
    assert StartsAt(near, u, zn);
    NearerIsNear(depth, m, planes, reversed, sqrt, flipped);
    ScaledStart(near, u, zn, sqrt);
    RowOfAll(far);
    EmptyRow(far, sqrt);
    AtMost(Remains(near, sqrt), zn);
    hide Times;
  }

  /** Setting the two distances, as SetNearFar does, makes planes with normals u and -u start and end where their
      negated arguments say. */
  lemma DistancesSet(near: V4, far: V4, u: V4, zNearNeg: real, zFarNeg: real)
    requires near.x == u.x && near.y == u.y && near.z == u.z && far.x == -u.x && far.y == -u.y && far.z == -u.z
    ensures StartsAt(near.(w := zNearNeg), u, -zNearNeg) && EndsAt(far.(w := -zFarNeg), u, -zFarNeg)
  {
    forall p: V4
      ensures Distance(near.(w := zNearNeg), p) == Dot33(u, p) + zNearNeg
      ensures Distance(far.(w := -zFarNeg), p) == -Dot33(u, p) - zFarNeg
    {
    }
    hide Distance, Dot33;
  }

  lemma EmptyRow(row: V4, sqrt: real -> real)
    requires IsRoot(sqrt) && row.x == 0.0 && row.y == 0.0 && row.z == 0.0 && row.w >= 0.0
    ensures NoNormal(row) && Abs(Capped(row, sqrt).w) == row.w / FltMin()
  {
    assert Dot33(row, row) == 0.0;
    var tiny := FltMin();
    PositiveProduct(tiny, tiny);
    PositiveProduct(tiny, Times(tiny, tiny));
    CappedPlane(row, sqrt);
    var w := row.w;
    assert w * (1.0 / tiny) == w / tiny by { Reciprocal(w, tiny); }
    hide Times, Dot33, FltMin, SameSides, IsRoot;
  }

  lemma Reciprocal(w: real, d: real)
    requires d > 0.0
    ensures w * (1.0 / d) == w / d && (w >= 0.0 ==> w / d >= 0.0)
  {
    ScaledPart(1.0, w, d);
    var q := w / d;
    assert q * d == w;
    if w >= 0.0 && q < 0.0 {
      PositiveProduct(-q, d);
    }
  }
}
