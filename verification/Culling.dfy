/** From a box in object space to the test of its bounds against the frustum. */
module Culling {
  import opened Boxes
  import opened ClipPlanes
  import opened Frustum
  import opened Matrix
  import opened Vectors

  /** operator * of a matrix and a point. */
  function TransformPoint(m: M4, v: V4): V4 {
    var r := Madd(Swizzle(v, 0, 0, 0, 0), m.col0, m.col3);
    var r := Madd(Swizzle(v, 1, 1, 1, 1), m.col1, r);
    Madd(Swizzle(v, 2, 2, 2, 2), m.col2, r)
  }

  function RotateAbs(m: M4, v: V4): V4 {
    var r := Mul(Swizzle(v, 0, 0, 0, 0), AbsAll(m.col0));
    var r := Madd(Swizzle(v, 1, 1, 1, 1), AbsAll(m.col1), r);
    Madd(Swizzle(v, 2, 2, 2, 2), AbsAll(m.col2), r)
  }

  /** The image is the matrix times the point with w = 1. */
  lemma PointLanes(m: M4, p: V4)
    ensures TransformPoint(m, p)
         == V4(Distance(Row(m, 0), p), Distance(Row(m, 1), p), Distance(Row(m, 2), p), Distance(Row(m, 3), p))
  {
    PointIsColumn(m, p);
    ProductLane(m, SetW1(p));
    hide TransformPoint, TimesColumn, Row, Dot44;
  }

  lemma PointIsColumn(m: M4, p: V4)
    ensures TransformPoint(m, p) == TimesColumn(m, SetW1(p))
  {
  }

  function AbsDot(a: V4, e: V4): real {
    e.z * Abs(a.z) + (e.y * Abs(a.y) + e.x * Abs(a.x))
  }

  lemma RotateLanes(m: M4, e: V4)
    ensures RotateAbs(m, e)
         == V4(AbsDot(Row(m, 0), e), AbsDot(Row(m, 1), e), AbsDot(Row(m, 2), e), AbsDot(Row(m, 3), e))
  {
    hide Abs;
  }

  lemma TermReaches(a: real, lo: real, hi: real, centre: real, extent: real)
    requires centre == (lo + hi) * 0.5 && extent == hi - centre
    ensures a * centre + extent * Abs(a) == a * (if a > 0.0 then hi else lo)
    ensures a * centre - extent * Abs(a) == a * (if a > 0.0 then lo else hi)
  {
    assert lo == 2.0 * centre - hi;
    if a > 0.0 {
      assert a * (centre + extent) == a * hi && a * (centre - extent) == a * lo;
    } else {
      assert a * (centre - extent) == a * lo && a * (centre + extent) == a * hi;
    }
  }

  predicate IsHalf(lo: V4, hi: V4, centre: V4, extents: V4) {
    && centre.x == (lo.x + hi.x) * 0.5 && centre.y == (lo.y + hi.y) * 0.5 && centre.z == (lo.z + hi.z) * 0.5
    && extents.x == hi.x - centre.x && extents.y == hi.y - centre.y && extents.z == hi.z - centre.z
  }

  lemma ReachesCorners(row: V4, lo: V4, hi: V4, centre: V4, extents: V4)
    requires IsHalf(lo, hi, centre, extents)
    ensures Distance(row, centre) + AbsDot(row, extents) == Distance(row, Farthest(row, lo, hi))
    ensures Distance(row, centre) - AbsDot(row, extents) == Distance(row, Farthest(row, hi, lo))
  {
    TermReaches(row.x, lo.x, hi.x, centre.x, extents.x);
    TermReaches(row.y, lo.y, hi.y, centre.y, extents.y);
    TermReaches(row.z, lo.z, hi.z, centre.z, extents.z);
    hide Abs, IsHalf;
  }

  class BoundingBox {
    var vMin: V4
    var vMax: V4

    constructor (minv: V4, maxv: V4)
      ensures vMin == minv && vMax == maxv
    {
      vMin, vMax := minv, maxv;
    }
  }

  /** The box holds the image of every point of another box. */
  ghost predicate HoldsImage(m: M4, lo: V4, hi: V4, imageLo: V4, imageHi: V4) {
    forall p: V4 | InBox(p, lo, hi) :: InBox(TransformPoint(m, p), imageLo, imageHi)
  }

  /** The smallest such box: it lies in every other one. */
  ghost predicate IsSmallest(m: M4, lo: V4, hi: V4, imageLo: V4, imageHi: V4) {
    forall l: V4, h: V4 | HoldsImage(m, lo, hi, l, h) :: InBox(imageLo, l, h) && InBox(imageHi, l, h)
  }

  /** Each coordinate of the image's ends is that of the image of a corner: the nearest and the farthest one along
      the row of that coordinate. */
  predicate SpansCorners(m: M4, lo: V4, hi: V4, imageLo: V4, imageHi: V4) {
    && imageLo.x == Distance(Row(m, 0), Farthest(Row(m, 0), hi, lo))
            && imageHi.x == Distance(Row(m, 0), Farthest(Row(m, 0), lo, hi))
    && imageLo.y == Distance(Row(m, 1), Farthest(Row(m, 1), hi, lo))
            && imageHi.y == Distance(Row(m, 1), Farthest(Row(m, 1), lo, hi))
    && imageLo.z == Distance(Row(m, 2), Farthest(Row(m, 2), hi, lo))
            && imageHi.z == Distance(Row(m, 2), Farthest(Row(m, 2), lo, hi))
  }

  /** For any two ends, transforming the centre and the extents by magnitudes finds the images of those corners. */
  lemma CentreSpansCorners(m: M4, lo: V4, hi: V4, centre: V4, extents: V4)
    requires IsHalf(lo, hi, centre, extents)
    ensures var c, e := TransformPoint(m, centre), RotateAbs(m, extents); SpansCorners(m, lo, hi, Sub(c, e), Add(c, e))
  {
    PointLanes(m, centre);
    RotateLanes(m, extents);
    ReachesCorners(Row(m, 0), lo, hi, centre, extents);
    ReachesCorners(Row(m, 1), lo, hi, centre, extents);
    ReachesCorners(Row(m, 2), lo, hi, centre, extents);
    hide Row, TransformPoint, RotateAbs, AbsDot, Distance, Farthest, IsHalf;
  }

  /** For a box those ends hold the image and are the smallest that do. */
  lemma BoundsAreSmallest(m: M4, lo: V4, hi: V4, imageLo: V4, imageHi: V4)
    requires IsBox(lo, hi) && SpansCorners(m, lo, hi, imageLo, imageHi)
    ensures HoldsImage(m, lo, hi, imageLo, imageHi) && IsSmallest(m, lo, hi, imageLo, imageHi)
  {
    var (r0, r1, r2) := (Row(m, 0), Row(m, 1), Row(m, 2));
    hide Row, TransformPoint, Distance, Farthest, IsBox;
    forall p: V4 | InBox(p, lo, hi) ensures InBox(TransformPoint(m, p), imageLo, imageHi) {
      PointLanes(m, p);
      CornersBound(r0, lo, hi, p);
      CornersBound(r1, lo, hi, p);
      CornersBound(r2, lo, hi, p);
    }
    forall l: V4, h: V4 | HoldsImage(m, lo, hi, l, h) ensures InBox(imageLo, l, h) && InBox(imageHi, l, h) {
      Touches(m, r0, lo, hi, l, h);
      Touches(m, r1, lo, hi, l, h);
      Touches(m, r2, lo, hi, l, h);
    }
  }

  lemma Touches(m: M4, row: V4, lo: V4, hi: V4, l: V4, h: V4)
    requires IsBox(lo, hi) && HoldsImage(m, lo, hi, l, h)
    ensures l.x <= Distance(Row(m, 0), Farthest(row, lo, hi)) <= h.x
            && l.x <= Distance(Row(m, 0), Farthest(row, hi, lo)) <= h.x
    ensures l.y <= Distance(Row(m, 1), Farthest(row, lo, hi)) <= h.y
            && l.y <= Distance(Row(m, 1), Farthest(row, hi, lo)) <= h.y
    ensures l.z <= Distance(Row(m, 2), Farthest(row, lo, hi)) <= h.z
            && l.z <= Distance(Row(m, 2), Farthest(row, hi, lo)) <= h.z
  {
    CornersInBox(row, lo, hi);
    PointLanes(m, Farthest(row, lo, hi));
    PointLanes(m, Farthest(row, hi, lo));
    hide TransformPoint, Farthest, Row, Distance;
  }

  /** TransformAabb; the two boxes may be the same object. */
  method TransformAabb(m: M4, src: BoundingBox, dst: BoundingBox)
    modifies dst
    ensures SpansCorners(m, old(src.vMin), old(src.vMax), dst.vMin, dst.vMax)
    ensures IsBox(old(src.vMin), old(src.vMax)) ==>
              && HoldsImage(m, old(src.vMin), old(src.vMax), dst.vMin, dst.vMax)
              && IsSmallest(m, old(src.vMin), old(src.vMax), dst.vMin, dst.vMax)
  {
    var centre := Scale(Add(src.vMin, src.vMax), 0.5);
    var extents := Sub(src.vMax, centre);
    assert IsHalf(src.vMin, src.vMax, centre, extents);
    hide IsHalf, TransformPoint, RotateAbs, HoldsImage, IsSmallest, IsBox, SpansCorners;
    CentreSpansCorners(m, src.vMin, src.vMax, centre, extents);
    centre := TransformPoint(m, centre);
    extents := RotateAbs(m, extents);
    if IsBox(src.vMin, src.vMax) {
      BoundsAreSmallest(m, src.vMin, src.vMax, Sub(centre, extents), Add(centre, extents));
    }
    dst.vMin := Sub(centre, extents);
    dst.vMax := Add(centre, extents);
  }

  // ---- Soundness from object space to the test ----

  /** The last row keeps w at one. */
  predicate IsAffine(m: M4) {
    Row(m, 3) == V4(0.0, 0.0, 0.0, 1.0)
  }

  lemma AffineImage(m: M4, p: V4)
    requires IsAffine(m)
    ensures TimesColumn(m, SetW1(p)) == SetW1(TransformPoint(m, p))
  {
    PointIsColumn(m, p);
    ProductLane(m, SetW1(p));
    LastLane(p);
    hide TimesColumn, TransformPoint, Row, Dot44;
  }

  lemma LastLane(p: V4)
    ensures Dot44(V4(0.0, 0.0, 0.0, 1.0), SetW1(p)) == 1.0
  {
  }

  /** A point is visible from object space when its image is visible from world space. */
  lemma VisibleThroughModel(depth: NdcDepth, view: M4, model: M4, p: V4)
    requires IsAffine(model)
    ensures Visible(depth, Product(view, model), p) <==> Visible(depth, view, TransformPoint(model, p))
  {
    AffineImage(model, p);
    ProductActs(view, model, SetW1(p));
    hide TimesColumn, TransformPoint, Product, IsAffine, SetW1;
  }

  /** A box with a visible point is never rejected by the sides and the near plane, and by the far plane
      only if that is a stand-in with the whole box behind it. */
  lemma VisibleBoxIsKept(depth: NdcDepth, m: M4, planes: seq<V4>, reversed: bool, sqrt: real -> real, lo: V4, hi: V4, p: V4)
    requires PlanesOf(depth, m, planes, reversed, sqrt) && SidesHaveNormals(m) && Visible(depth, m, p) && InBox(p, lo, hi)
    ensures forall n: nat | n <= 5 :: !SomeOutside(planes, n, lo, hi)
    ensures SomeOutside(planes, 6, lo, hi) <==>
              NoNormal(FarRow(depth, m, reversed))
              && Outside(StandIn(planes[PLANE_NEAR], FarRow(depth, m, reversed)), lo, hi)
  {
    RowsClip(depth, m, p);
    SidesAreExact(depth, m, planes, reversed, sqrt, p);
    hide Distance, WithinSide, WithinLeast, WithinGreatest, SideRow, LeastRow, GreatestRow, NoNormal, StandIn, Capped,
            Dot33, InBox;
    forall i: nat | i < 5 ensures i !in OutsideOf(planes, lo, hi) {
      assert Distance(planes[i], p) >= 0.0;
    }
    assert !NoNormal(FarRow(depth, m, reversed)) ==> Distance(planes[5], p) >= 0.0;
    OnlyLast(planes, lo, hi);
  }

  lemma OnlyLast(planes: seq<V4>, lo: V4, hi: V4)
    requires |planes| == 6 && forall i: nat | i < 5 :: i !in OutsideOf(planes, lo, hi)
    ensures forall n: nat | n <= 5 :: !SomeOutside(planes, n, lo, hi)
    ensures SomeOutside(planes, 6, lo, hi) <==> Outside(planes[5], lo, hi)
  {
    assert Outside(planes[5], lo, hi) <==> 5 in OutsideOf(planes, lo, hi);
    hide OutsideOf, Outside;
  }

  /** End to end: if any point of an object's box is visible through model and view, the transformed box
      is not rejected by a frustum set up for the view. */
  lemma VisibleObjectIsKept(depth: NdcDepth, view: M4, model: M4, planes: seq<V4>, reversed: bool, sqrt: real -> real,
                            lo: V4, hi: V4, imageLo: V4, imageHi: V4, p: V4)
    requires IsAffine(model) && PlanesOf(depth, view, planes, reversed, sqrt) && SidesHaveNormals(view)
    requires InBox(p, lo, hi) && Visible(depth, Product(view, model), p) && HoldsImage(model, lo, hi, imageLo, imageHi)
    ensures forall n: nat | n <= 5 :: !SomeOutside(planes, n, imageLo, imageHi)
    ensures !NoNormal(FarRow(depth, view, reversed)) ==> !SomeOutside(planes, 6, imageLo, imageHi)
  {
    hide PlanesOf, SidesHaveNormals, Visible, InBox, IsAffine, Product, TransformPoint, SomeOutside, NoNormal, FarRow,
            Outside, StandIn;
    VisibleThroughModel(depth, view, model, p);
    VisibleBoxIsKept(depth, view, planes, reversed, sqrt, imageLo, imageHi, TransformPoint(model, p));
  }
}