/** Axis-aligned boxes against planes, in the three coordinates that count. */
module Boxes {
  import opened Vectors

  predicate InBox(p: V4, lo: V4, hi: V4) {
    lo.x <= p.x <= hi.x && lo.y <= p.y <= hi.y && lo.z <= p.z <= hi.z
  }

  predicate IsBox(lo: V4, hi: V4) {
    lo.x <= hi.x && lo.y <= hi.y && lo.z <= hi.z
  }

  /** Signed distance of p from a plane, up to the length of its normal. */
  function Distance(plane: V4, p: V4): real {
    Dot43(plane, p)
  }

  /** The whole box lies strictly behind the plane. */
  ghost predicate Outside(plane: V4, lo: V4, hi: V4) {
    forall p: V4 | InBox(p, lo, hi) :: Distance(plane, p) < 0.0
  }

  /** The whole box lies in front of the plane or on it. */
  ghost predicate Inside(plane: V4, lo: V4, hi: V4) {
    forall p: V4 | InBox(p, lo, hi) :: Distance(plane, p) >= 0.0
  }

  /** The mask tells the positive coordinates of the normal. */
  predicate IsMaskOf(mask: Mask, plane: V4) {
    mask.x == (plane.x > 0.0) && mask.y == (plane.y > 0.0) && mask.z == (plane.z > 0.0)
  }

  lemma TermBound(a: real, x: real, near: real, far: real)
    requires if a > 0.0 then near <= x <= far else far <= x <= near
    ensures a * near <= a * x <= a * far
  {
  }

  /** The corner farthest along a normal; with the ends exchanged, the nearest. */
  function Farthest(normal: V4, lo: V4, hi: V4): V4 {
    V4(if normal.x > 0.0 then hi.x else lo.x,
       if normal.y > 0.0 then hi.y else lo.y,
       if normal.z > 0.0 then hi.z else lo.z, 1.0)
  }

  /** The corner picked by the mask is the farthest, whatever the other lanes of the two ends hold. */
  lemma SelectedCorner(plane: V4, mask: Mask, lo: V4, hi: V4)
    requires IsMaskOf(mask, plane)
    ensures Dot44(plane, Select(SetW1(lo), SetW1(hi), mask)) == Distance(plane, Farthest(plane, lo, hi))
  {
    assert Select(SetW1(lo), SetW1(hi), mask) == SetW1(Farthest(plane, lo, hi));
    hide Select, SetW1, Farthest, Dot44, IsMaskOf;
  }

  /** No point of the box is farther along the normal than the farthest corner or nearer than the nearest. */
  lemma CornersBound(plane: V4, lo: V4, hi: V4, p: V4)
    requires InBox(p, lo, hi)
    ensures Distance(plane, Farthest(plane, hi, lo)) <= Distance(plane, p) <= Distance(plane, Farthest(plane, lo, hi))
  {
    var near, far := SetW1(Farthest(plane, hi, lo)), SetW1(Farthest(plane, lo, hi));
    assert CornersAround(plane, SetW1(p), near, far);
    hide Farthest, CornersAround, Dot44;
    DotBound(plane, SetW1(p), near, far);
  }

  predicate CornersAround(plane: V4, v: V4, near: V4, far: V4) {
    && (if plane.x > 0.0 then near.x <= v.x <= far.x else far.x <= v.x <= near.x)
    && (if plane.y > 0.0 then near.y <= v.y <= far.y else far.y <= v.y <= near.y)
    && (if plane.z > 0.0 then near.z <= v.z <= far.z else far.z <= v.z <= near.z)
    && near.w == v.w == far.w == 1.0
  }

  lemma DotBound(plane: V4, v: V4, near: V4, far: V4)
    requires CornersAround(plane, v, near, far)
    ensures Dot44(plane, near) <= Dot44(plane, v) <= Dot44(plane, far)
  {
    TermBound(plane.x, v.x, near.x, far.x);
    TermBound(plane.y, v.y, near.y, far.y);
    TermBound(plane.z, v.z, near.z, far.z);
    hide CornersAround;
  }

  lemma CornersInBox(plane: V4, lo: V4, hi: V4)
    requires IsBox(lo, hi)
    ensures InBox(Farthest(plane, lo, hi), lo, hi) && InBox(Farthest(plane, hi, lo), lo, hi)
  {
  }

  /** What the tests look at, for any two ends: the farthest corner is behind the plane. */
  predicate Behind(plane: V4, lo: V4, hi: V4) {
    Distance(plane, Farthest(plane, lo, hi)) < 0.0
  }

  /** The nearest corner is not. */
  predicate Ahead(plane: V4, lo: V4, hi: V4) {
    Distance(plane, Farthest(plane, hi, lo)) >= 0.0
  }

  /** One corner decides whether the box is outside, the opposite one whether it is inside. */
  lemma CornersDecide(plane: V4, lo: V4, hi: V4)
    requires IsBox(lo, hi)
    ensures Outside(plane, lo, hi) <==> Behind(plane, lo, hi)
    ensures Inside(plane, lo, hi) <==> Ahead(plane, lo, hi)
    ensures !(Outside(plane, lo, hi) && Inside(plane, lo, hi))
  {
    CornersInBox(plane, lo, hi);
    forall p: V4 | InBox(p, lo, hi)
      ensures Distance(plane, Farthest(plane, hi, lo)) <= Distance(plane, p) <= Distance(plane, Farthest(plane, lo, hi))
    {
      CornersBound(plane, lo, hi, p);
    }
    hide Farthest, InBox, Distance;
  }

  /** Whatever holds of a whole box holds of a box in it. */
  lemma SmallerBox(plane: V4, lo: V4, hi: V4, innerLo: V4, innerHi: V4)
    requires InBox(innerLo, lo, hi) && InBox(innerHi, lo, hi)
    ensures Outside(plane, lo, hi) ==> Outside(plane, innerLo, innerHi)
    ensures Inside(plane, lo, hi) ==> Inside(plane, innerLo, innerHi)
  {
    assert forall p: V4 :: InBox(p, innerLo, innerHi) ==> InBox(p, lo, hi);
    hide Distance;
  }
}
