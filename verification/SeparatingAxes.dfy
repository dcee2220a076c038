/** The thirteen axes are enough: a box and a triangle that none of them separates have a point in common, however
    degenerate the triangle. */
module SeparatingAxes {
  import opened BoxTriangle
  import opened HalfPlanes
  import opened Vectors

  // ---- A point in common as nine inequalities ----

  /** The half-plane of the (x, y) for which weights 1 - x - y, x and y of these values have no negative blend. */
  function FromValues(g: V4): HalfPlane {
    HalfPlane(g.x, g.y - g.x, g.z - g.x)
  }

  /** What inequality i is at the three vertices: within the box for i < 6, of no negative weight from 6 on. */
  function Values(i: nat, v0: V4, v1: V4, v2: V4, extents: V4): V4
    requires i < 9
  {
    if i == 0 then V4(extents.x - v0.x, extents.x - v1.x, extents.x - v2.x, 0.0)
    else if i == 1 then V4(extents.y - v0.y, extents.y - v1.y, extents.y - v2.y, 0.0)
    else if i == 2 then V4(extents.z - v0.z, extents.z - v1.z, extents.z - v2.z, 0.0)
    else if i == 3 then V4(extents.x + v0.x, extents.x + v1.x, extents.x + v2.x, 0.0)
    else if i == 4 then V4(extents.y + v0.y, extents.y + v1.y, extents.y + v2.y, 0.0)
    else if i == 5 then V4(extents.z + v0.z, extents.z + v1.z, extents.z + v2.z, 0.0)
    else if i == 6 then V4(1.0, 0.0, 0.0, 0.0)
    else if i == 7 then V4(0.0, 1.0, 0.0, 0.0)
    else V4(0.0, 0.0, 1.0, 0.0)
  }

  function Inequalities(v0: V4, v1: V4, v2: V4, extents: V4): (hs: seq<HalfPlane>)
    ensures |hs| == 9
  {
    seq(9, i requires 0 <= i < 9 => FromValues(Values(i, v0, v1, v2, extents)))
  }

  lemma ValueAt(g: V4, p: Spot)
    ensures At(FromValues(g), p) == Blend(1.0 - p.x - p.y, p.x, p.y, g.x, g.y, g.z)
  {
  }

  lemma BlendOfDifference(a: real, b: real, c: real, s: real, x: real, y: real, z: real)
    requires a + b + c == 1.0
    ensures Blend(a, b, c, s - x, s - y, s - z) == s - Blend(a, b, c, x, y, z)
    ensures Blend(a, b, c, s + x, s + y, s + z) == s + Blend(a, b, c, x, y, z)
  {
    BlendOfOne(a, b, c, s);
  }

  lemma BlendOfUnits(a: real, b: real, c: real)
    ensures Blend(a, b, c, 1.0, 0.0, 0.0) == a && Blend(a, b, c, 0.0, 1.0, 0.0) == b && Blend(a, b, c, 0.0, 0.0, 1.0) == c
  {
  }

  /** A point of all nine half-planes is a point of the triangle in the box. */
  lemma CommonPoint(v0: V4, v1: V4, v2: V4, extents: V4, p: Spot)
    requires InAll(Inequalities(v0, v1, v2, extents), p)
    ensures IsConvex(1.0 - p.x - p.y, p.x, p.y)
    ensures Bounded(Point(1.0 - p.x - p.y, p.x, p.y, v0, v1, v2), extents)
  {
    var (a, b, c) := (1.0 - p.x - p.y, p.x, p.y);
    forall i: nat | i < 9 ensures var g := Values(i, v0, v1, v2, extents); Blend(a, b, c, g.x, g.y, g.z) >= 0.0 {
      ValueAt(Values(i, v0, v1, v2, extents), p);
      assert At(Inequalities(v0, v1, v2, extents)[i], p) >= 0.0;
    }
    BlendOfDifference(a, b, c, extents.x, v0.x, v1.x, v2.x);
    BlendOfDifference(a, b, c, extents.y, v0.y, v1.y, v2.y);
    BlendOfDifference(a, b, c, extents.z, v0.z, v1.z, v2.z);
    BlendOfUnits(a, b, c);
    hide Blend, At, InAll;
    NineBlends(a, b, c, v0, v1, v2, extents);
  }

  lemma NineBlends(a: real, b: real, c: real, v0: V4, v1: V4, v2: V4, e: V4)
    requires forall i: nat | i < 9 :: var g := Values(i, v0, v1, v2, e); Blend(a, b, c, g.x, g.y, g.z) >= 0.0
    ensures Blend(a, b, c, e.x - v0.x, e.x - v1.x, e.x - v2.x) >= 0.0
            && Blend(a, b, c, e.x + v0.x, e.x + v1.x, e.x + v2.x) >= 0.0
    ensures Blend(a, b, c, e.y - v0.y, e.y - v1.y, e.y - v2.y) >= 0.0
            && Blend(a, b, c, e.y + v0.y, e.y + v1.y, e.y + v2.y) >= 0.0
    ensures Blend(a, b, c, e.z - v0.z, e.z - v1.z, e.z - v2.z) >= 0.0
            && Blend(a, b, c, e.z + v0.z, e.z + v1.z, e.z + v2.z) >= 0.0
    ensures Blend(a, b, c, 1.0, 0.0, 0.0) >= 0.0 && Blend(a, b, c, 0.0, 1.0, 0.0) >= 0.0
            && Blend(a, b, c, 0.0, 0.0, 1.0) >= 0.0
  {
    hide Blend;
    assert Values(0, v0, v1, v2, e) == V4(e.x - v0.x, e.x - v1.x, e.x - v2.x, 0.0);
    assert Values(1, v0, v1, v2, e) == V4(e.y - v0.y, e.y - v1.y, e.y - v2.y, 0.0);
    assert Values(2, v0, v1, v2, e) == V4(e.z - v0.z, e.z - v1.z, e.z - v2.z, 0.0);
    assert Values(3, v0, v1, v2, e) == V4(e.x + v0.x, e.x + v1.x, e.x + v2.x, 0.0);
    assert Values(4, v0, v1, v2, e) == V4(e.y + v0.y, e.y + v1.y, e.y + v2.y, 0.0);
    assert Values(5, v0, v1, v2, e) == V4(e.z + v0.z, e.z + v1.z, e.z + v2.z, 0.0);
    assert Values(6, v0, v1, v2, e) == V4(1.0, 0.0, 0.0, 0.0);
    assert Values(7, v0, v1, v2, e) == V4(0.0, 1.0, 0.0, 0.0);
    assert Values(8, v0, v1, v2, e) == V4(0.0, 0.0, 1.0, 0.0);
  }

  // ---- Without one, an axis with few parts ----

  /** An axis beyond whose reach all vertices lie, each by as much as its weight in `ends` more than the least. At
      most three of the six lanes differ from zero. */
  predicate Shows(n: V4, ends: V4, v0: V4, v1: V4, v2: V4, extents: V4) {
    && ends.x >= 0.0 && ends.y >= 0.0 && ends.z >= 0.0
    && Dot33(n, v0) - ends.x == Dot33(n, v1) - ends.y == Dot33(n, v2) - ends.z > Reach(n, extents)
    && FewLanes(n, ends)
  }

  predicate FewLanes(n: V4, ends: V4) {
    && (n.x != 0.0 && n.y != 0.0 && n.z != 0.0 ==> ends.x == 0.0 && ends.y == 0.0 && ends.z == 0.0)
    && ((n.x != 0.0 && n.y != 0.0) || (n.y != 0.0 && n.z != 0.0) || (n.z != 0.0 && n.x != 0.0) ==>
          (ends.x == 0.0 && ends.y == 0.0) || (ends.y == 0.0 && ends.z == 0.0) || (ends.z == 0.0 && ends.x == 0.0))
  }

  /** The lane that inequality i adds to: 0 to 2 of the axis, 3 to 5 of the ends. */
  function Slot(i: nat): nat
    requires i < 9
  {
    if i < 3 then i else i - 3
  }

  function OneLane(slot: nat, x: real): V4 {
    V4(if slot == 0 then x else 0.0, if slot == 1 then x else 0.0, if slot == 2 then x else 0.0, 0.0)
  }

  function AxisPart(i: nat, w: real): V4
    requires i < 9
  {
    if i < 6 then OneLane(Slot(i), if i < 3 then w else -w) else ZERO
  }

  function EndPart(i: nat, w: real): V4
    requires i < 9
  {
    if i < 6 then ZERO else OneLane(i - 6, w)
  }

  lemma OneInequality(i: nat, w: real, v0: V4, v1: V4, v2: V4, extents: V4)
    requires i < 9 && w >= 0.0
    ensures var (g, n, ends) := (Values(i, v0, v1, v2, extents), AxisPart(i, w), EndPart(i, w));
            && Times(w, g.x) == Reach(n, extents) - Dot33(n, v0) + ends.x
            && Times(w, g.y) == Reach(n, extents) - Dot33(n, v1) + ends.y
            && Times(w, g.z) == Reach(n, extents) - Dot33(n, v2) + ends.z
  {
    if i < 6 {
      LaneProducts(Slot(i), if i < 3 then w else -w, v0);
      LaneProducts(Slot(i), if i < 3 then w else -w, v1);
      LaneProducts(Slot(i), if i < 3 then w else -w, v2);
      LaneReach(Slot(i), if i < 3 then w else -w, extents);
      var k := Slot(i);
      SignedProducts(w, Lane(extents, k), Lane(v0, k));
      SignedProducts(w, Lane(extents, k), Lane(v1, k));
      SignedProducts(w, Lane(extents, k), Lane(v2, k));
      hide Dot33, Reach, Times;
    } else {
      NoReach(v0, extents);
      NoReach(v1, extents);
      NoReach(v2, extents);
      EndProducts(w);
      hide Dot33, Reach, Times;
    }
  }

  lemma LaneProducts(k: nat, x: real, v: V4)
    requires k < 3
    ensures Dot33(OneLane(k, x), v) == Times(x, Lane(v, k))
  {
  }

  lemma LaneReach(k: nat, x: real, extents: V4)
    requires k < 3
    ensures Reach(OneLane(k, x), extents) == Times(Abs(x), Lane(extents, k))
  {
  }

  lemma SignedProducts(w: real, extent: real, x: real)
    ensures Times(w, extent - x) == Times(w, extent) - Times(w, x)
    ensures Times(w, extent + x) == Times(w, extent) - Times(-w, x)
  {
  }

  lemma NoReach(v: V4, extents: V4)
    ensures Reach(ZERO, extents) == 0.0 && Dot33(ZERO, v) == 0.0
  {
  }

  lemma EndProducts(w: real)
    ensures Times(w, 1.0) == w && Times(w, 0.0) == 0.0
  {
  }

  lemma ReachOfSum(a: V4, b: V4, extents: V4)
    requires NonNegative(extents)
    ensures Reach(Add(a, b), extents) <= Reach(a, extents) + Reach(b, extents)
  {
    AbsOfSum(a.x, b.x, extents.x);
    AbsOfSum(a.y, b.y, extents.y);
    AbsOfSum(a.z, b.z, extents.z);
    hide Times, Abs;
  }

  lemma AbsOfSum(a: real, b: real, extent: real)
    requires extent >= 0.0
    ensures Times(Abs(a + b), extent) <= Times(Abs(a), extent) + Times(Abs(b), extent)
  {
    var gap := Abs(a) + Abs(b) - Abs(a + b);
    assert gap >= 0.0;
    assert gap * extent >= 0.0;
  }

  lemma DotOfSum(a: V4, b: V4, v: V4)
    ensures Dot33(Add(a, b), v) == Dot33(a, v) + Dot33(b, v)
  {
  }

  lemma SumIsConstant(w: V4, a: V4, b: V4, c: V4)
    requires var sum := Combine(w, FromValues(a), FromValues(b), FromValues(c)); sum.l == 0.0 && sum.m == 0.0
    ensures var k := Combine(w, FromValues(a), FromValues(b), FromValues(c)).k;
            && Times(w.x, a.x) + Times(w.y, b.x) + Times(w.z, c.x) == k
            && Times(w.x, a.y) + Times(w.y, b.y) + Times(w.z, c.y) == k
            && Times(w.x, a.z) + Times(w.y, b.z) + Times(w.z, c.z) == k
  {
    TimesDifference(w.x, a.y, a.x);
    TimesDifference(w.y, b.y, b.x);
    TimesDifference(w.z, c.y, c.x);
    TimesDifference(w.x, a.z, a.x);
    TimesDifference(w.y, b.z, b.x);
    TimesDifference(w.z, c.z, c.x);
    hide Times;
  }

  lemma TimesDifference(w: real, x: real, y: real)
    ensures Times(w, x - y) == Times(w, x) - Times(w, y)
  {
  }

  lemma SumOfThree(n0: V4, n1: V4, n2: V4, v: V4, extents: V4)
    requires NonNegative(extents)
    ensures Dot33(Add(Add(n0, n1), n2), v) == Dot33(n0, v) + Dot33(n1, v) + Dot33(n2, v)
    ensures Reach(Add(Add(n0, n1), n2), extents) <= Reach(n0, extents) + Reach(n1, extents) + Reach(n2, extents)
  {
    DotOfSum(n0, n1, v);
    DotOfSum(Add(n0, n1), n2, v);
    ReachOfSum(n0, n1, extents);
    ReachOfSum(Add(n0, n1), n2, extents);
    hide Dot33, Reach, Add;
  }

  /** Three indices fill three lanes at most. */
  lemma ThreeSlots(i: nat, j: nat, k: nat, w: V4)
    requires i < 9 && j < 9 && k < 9
    ensures FewLanes(Add(Add(AxisPart(i, w.x), AxisPart(j, w.y)), AxisPart(k, w.z)),
            Add(Add(EndPart(i, w.x), EndPart(j, w.y)), EndPart(k, w.z)))
  {
  }

  /** Where three of the inequalities cannot hold together, weights make of them the same negative number at every
      vertex. */
  lemma WeightsOfThree(v0: V4, v1: V4, v2: V4, extents: V4, i: nat, j: nat, k: nat) returns (w: V4, sum: real)
    requires i < 9 && j < 9 && k < 9
    requires var hs := Inequalities(v0, v1, v2, extents); !Meet([hs[i], hs[j], hs[k]])
    ensures NonNegativeWeights(w) && sum < 0.0
    ensures var (a, b, c) := (Values(i, v0, v1, v2, extents), Values(j, v0, v1, v2, extents),
            Values(k, v0, v1, v2, extents));
            && Times(w.x, a.x) + Times(w.y, b.x) + Times(w.z, c.x) == sum
            && Times(w.x, a.y) + Times(w.y, b.y) + Times(w.z, c.y) == sum
            && Times(w.x, a.z) + Times(w.y, b.z) + Times(w.z, c.z) == sum
  {
    var (a, b, c) := (Values(i, v0, v1, v2, extents), Values(j, v0, v1, v2, extents), Values(k, v0, v1, v2, extents));
    hide Meet, Values, Times, FromValues, NonNegativeWeights, Combine;
    w := Farkas(FromValues(a), FromValues(b), FromValues(c));
    sum := Combine(w, FromValues(a), FromValues(b), FromValues(c)).k;
    SumIsConstant(w, a, b, c);
  }

  /** Such weights make an axis with few parts. */
  lemma AxisOfThree(v0: V4, v1: V4, v2: V4, extents: V4, i: nat, j: nat, k: nat) returns (n: V4, ends: V4)
    requires NonNegative(extents) && i < 9 && j < 9 && k < 9
    requires var hs := Inequalities(v0, v1, v2, extents); !Meet([hs[i], hs[j], hs[k]])
    ensures Shows(n, ends, v0, v1, v2, extents)
  {
    hide Meet, Values, Times, Dot33, Reach, NonNegative, AxisPart, EndPart, FewLanes, Shows, Add, Inequalities;
    var w, sum := WeightsOfThree(v0, v1, v2, extents, i, j, k);
    OneInequality(i, w.x, v0, v1, v2, extents);
    OneInequality(j, w.y, v0, v1, v2, extents);
    OneInequality(k, w.z, v0, v1, v2, extents);
    EndsNotNegative(i, w.x);
    EndsNotNegative(j, w.y);
    EndsNotNegative(k, w.z);
    ThreeSlots(i, j, k, w);
    n := Add(Add(AxisPart(i, w.x), AxisPart(j, w.y)), AxisPart(k, w.z));
    ends := Add(Add(EndPart(i, w.x), EndPart(j, w.y)), EndPart(k, w.z));
    Assembled(AxisPart(i, w.x), AxisPart(j, w.y), AxisPart(k, w.z), EndPart(i, w.x), EndPart(j, w.y), EndPart(k, w.z),
              v0, v1, v2, extents, sum);
  }

  lemma Assembled(n0: V4, n1: V4, n2: V4, e0: V4, e1: V4, e2: V4, v0: V4, v1: V4, v2: V4, extents: V4, sum: real)
    requires NonNegative(extents) && sum < 0.0
    requires NonNegativeWeights(e0) && NonNegativeWeights(e1) && NonNegativeWeights(e2)
    requires var r := Reach(n0, extents) + Reach(n1, extents) + Reach(n2, extents);
             && r - (Dot33(n0, v0) + Dot33(n1, v0) + Dot33(n2, v0)) + (e0.x + e1.x + e2.x) == sum
             && r - (Dot33(n0, v1) + Dot33(n1, v1) + Dot33(n2, v1)) + (e0.y + e1.y + e2.y) == sum
             && r - (Dot33(n0, v2) + Dot33(n1, v2) + Dot33(n2, v2)) + (e0.z + e1.z + e2.z) == sum
    requires FewLanes(Add(Add(n0, n1), n2), Add(Add(e0, e1), e2))
    ensures Shows(Add(Add(n0, n1), n2), Add(Add(e0, e1), e2), v0, v1, v2, extents)
  {
    SumOfThree(n0, n1, n2, v0, extents);
    SumOfThree(n0, n1, n2, v1, extents);
    SumOfThree(n0, n1, n2, v2, extents);
    hide Dot33, Reach, FewLanes, NonNegative;
  }

  lemma EndsNotNegative(i: nat, w: real)
    requires i < 9 && w >= 0.0
    ensures NonNegativeWeights(EndPart(i, w))
  {
  }

  // ---- Such an axis leads to one of the thirteen ----

  predicate Beyond(d0: real, d1: real, d2: real, r: real) {
    (d0 > r && d1 > r && d2 > r) || (d0 < -r && d1 < -r && d2 < -r)
  }

  /** In two coordinates, the axis across (ex, ey) separates three points from a rectangle. */
  predicate PlaneBeyond(p0: real, q0: real, p1: real, q1: real, p2: real, q2: real, ex: real, ey: real, b1: real,
          b2: real) {
    Beyond(Across(p0, q0, ex, ey), Across(p1, q1, ex, ey), Across(p2, q2, ex, ey), Radius(ex, ey, b1, b2))
  }

  lemma SideFound(v0: V4, v1: V4, v2: V4, extents: V4)
    ensures Beyond(v0.x, v1.x, v2.x, extents.x) || Beyond(v0.y, v1.y, v2.y, extents.y)
            || Beyond(v0.z, v1.z, v2.z, extents.z)
            ==> SomeAxisSeparates(v0, v1, v2, extents)
  {
    UnitAxes(v0, extents);
    UnitAxes(v1, extents);
    UnitAxes(v2, extents);
    hide Dot33, Reach, X, Y, Z, EdgeSeparates, Cross, Sub;
  }

  lemma EdgeFound(e: V4, v0: V4, v1: V4, v2: V4, extents: V4)
    ensures || PlaneBeyond(v0.x, v0.y, v1.x, v1.y, v2.x, v2.y, e.x, e.y, extents.x, extents.y)
            || PlaneBeyond(v0.y, v0.z, v1.y, v1.z, v2.y, v2.z, e.y, e.z, extents.y, extents.z)
            || PlaneBeyond(v0.z, v0.x, v1.z, v1.x, v2.z, v2.x, e.z, e.x, extents.z, extents.x)
            ==> EdgeSeparates(e, v0, v1, v2, extents)
  {
    hide Across, Radius, Dot33, Reach, Cross, X, Y, Z;
    EdgeProjection(e, v0);
    EdgeProjection(e, v1);
    EdgeProjection(e, v2);
    EdgeReach(e, extents);
  }

  lemma ScaledBeyond(s: real, d0: real, d1: real, d2: real, r: real)
    requires s != 0.0 && d0 > r && d1 > r && d2 > r
    ensures Beyond(Times(s, d0), Times(s, d1), Times(s, d2), Times(Abs(s), r))
  {
    ScaledAbove(Abs(s), r, d0);
    ScaledAbove(Abs(s), r, d1);
    ScaledAbove(Abs(s), r, d2);
    Negates(s, d0);
    Negates(s, d1);
    Negates(s, d2);
    hide Times;
  }

  lemma ScaledAbove(s: real, r: real, d: real)
    requires s > 0.0 && d > r
    ensures Times(s, d) > Times(s, r)
  {
    var gap := d - r;
    assert s * gap > 0.0;
  }

  /** A multiple of an axis separates if the axis does. */
  lemma ParallelSeparates(n: V4, axis: V4, s: real, v0: V4, v1: V4, v2: V4, extents: V4)
    requires s != 0.0 && axis.x == Times(s, n.x) && axis.y == Times(s, n.y) && axis.z == Times(s, n.z)
    requires Dot33(n, v0) > Reach(n, extents) && Dot33(n, v1) > Reach(n, extents) && Dot33(n, v2) > Reach(n, extents)
    ensures Separates(axis, v0, v1, v2, extents)
  {
    DotOfMultiple(n, axis, s, v0);
    DotOfMultiple(n, axis, s, v1);
    DotOfMultiple(n, axis, s, v2);
    ReachOfMultiple(n, axis, s, extents);
    ScaledBeyond(s, Dot33(n, v0), Dot33(n, v1), Dot33(n, v2), Reach(n, extents));
    hide Dot33, Reach, Times;
  }

  lemma DotOfMultiple(n: V4, axis: V4, s: real, v: V4)
    requires axis.x == Times(s, n.x) && axis.y == Times(s, n.y) && axis.z == Times(s, n.z)
    ensures Dot33(axis, v) == Times(s, Dot33(n, v))
  {
  }

  lemma ReachOfMultiple(n: V4, axis: V4, s: real, extents: V4)
    requires axis.x == Times(s, n.x) && axis.y == Times(s, n.y) && axis.z == Times(s, n.z)
    ensures Reach(axis, extents) == Times(Abs(s), Reach(n, extents))
  {
    AbsOfMultiple(s, n.x, extents.x);
    AbsOfMultiple(s, n.y, extents.y);
    AbsOfMultiple(s, n.z, extents.z);
    Factor(Abs(s), Times(Abs(n.x), extents.x), Times(Abs(n.y), extents.y), Times(Abs(n.z), extents.z), 0.0);
    assert Times(Abs(s), 0.0) == 0.0;
    hide Times, Abs;
  }

  lemma AbsOfProduct(s: real, n: real)
    ensures Abs(Times(s, n)) == Times(Abs(s), Abs(n))
  {
    Negates(s, n);
    Negates(-s, n);
    if s >= 0.0 && n >= 0.0 {
      NotNegative(s, n);
    } else if s >= 0.0 {
      NotNegative(s, -n);
    } else if n >= 0.0 {
      NotNegative(-s, n);
    } else {
      NotNegative(-s, -n);
    }
    hide Times;
  }

  lemma AbsOfMultiple(s: real, n: real, extent: real)
    ensures Times(Abs(Times(s, n)), extent) == Times(Abs(s), Times(Abs(n), extent))
  {
    AbsOfProduct(s, n);
    Regrouped(Abs(s), Abs(n), extent);
    hide Times, Abs;
  }

  lemma Regrouped(a: real, b: real, c: real)
    ensures Times(Times(a, b), c) == Times(a, Times(b, c))
  {
  }

  // ---- An axis of one part: a side of the box ----

  lemma OnePart(n: V4, v0: V4, v1: V4, v2: V4, extents: V4)
    requires (n.x != 0.0 && n.y == 0.0 && n.z == 0.0) || (n.x == 0.0 && n.y != 0.0 && n.z == 0.0)
            || (n.x == 0.0 && n.y == 0.0 && n.z != 0.0)
    requires Dot33(n, v0) > Reach(n, extents) && Dot33(n, v1) > Reach(n, extents) && Dot33(n, v2) > Reach(n, extents)
    ensures SomeAxisSeparates(v0, v1, v2, extents)
  {
    hide Dot33, Reach, Separates, EdgeSeparates, Cross, Sub, Times;
    if n.x != 0.0 {
      var s := Inverse(n.x);
      ParallelSeparates(n, X, s, v0, v1, v2, extents);
    } else if n.y != 0.0 {
      var s := Inverse(n.y);
      ParallelSeparates(n, Y, s, v0, v1, v2, extents);
    } else {
      var s := Inverse(n.z);
      ParallelSeparates(n, Z, s, v0, v1, v2, extents);
    }
  }

  lemma Inverse(a: real) returns (s: real)
    requires a != 0.0
    ensures s != 0.0 && Times(s, a) == 1.0 && Times(s, 0.0) == 0.0
  {
    s := 1.0 / a;
    assert s * a == 1.0;
  }

  // ---- An axis of two parts: in a plane ----

  /** Two points above a line with a falling slope: a side of the rectangle separates them, or the line through
      both does. */
  lemma TwoAbove(n1: real, n2: real, p1: real, p2: real, q1: real, q2: real, b1: real, b2: real)
    requires n1 > 0.0 && n2 > 0.0
    requires Times(n1, p1) + Times(n2, p2) > Times(n1, b1) + Times(n2, b2)
    requires Times(n1, q1) + Times(n2, q2) > Times(n1, b1) + Times(n2, b2)
    ensures (p1 > b1 && q1 > b1) || (p2 > b2 && q2 > b2)
            || Abs(Turn(Spot(p1, p2), Spot(q1, q2))) > Radius(q1 - p1, q2 - p2, b1, b2)
  {
    var (u1, u2, w1, w2) := (p1 - b1, p2 - b2, q1 - b1, q2 - b2);
    TimesDifference(n1, p1, b1);
    TimesDifference(n2, p2, b2);
    TimesDifference(n1, q1, b1);
    TimesDifference(n2, q2, b2);
    Crossing(p1, p2, q1, q2, b1, b2);
    RadiusByTimes(q1 - p1, q2 - p2, b1, b2);
    Negates(b1, q2 - p2);
    Negates(b2, q1 - p1);
    Commuted(w1, u2);
    Commuted(w2, u1);
    hide Times, Turn, Radius;
    if u1 <= 0.0 {
      RightOf(n1, n2, u1, u2);
    } else if u2 <= 0.0 {
      RightOf(n2, n1, u2, u1);
    }
    if w1 <= 0.0 {
      RightOf(n1, n2, w1, w2);
    } else if w2 <= 0.0 {
      RightOf(n2, n1, w2, w1);
    }
    if u1 <= 0.0 && w2 <= 0.0 {
      Steep(n1, n2, u1, u2, w1, w2);
    } else if u2 <= 0.0 && w1 <= 0.0 {
      Steep(n1, n2, w1, w2, u1, u2);
    }
  }

  lemma RightOf(n1: real, n2: real, u1: real, u2: real)
    requires n1 > 0.0 && n2 > 0.0 && Times(n1, u1) + Times(n2, u2) > 0.0 && u1 <= 0.0
    ensures u2 > 0.0
  {
    NotNegative(n1, -u1);
    Negates(n1, u1);
    Negates(n2, u2);
    if u2 <= 0.0 {
      NotNegative(n2, -u2);
    }
    hide Times;
  }

  /** How far the line through both is from the corner (b1, b2), and from the other corners. */
  lemma Crossing(p1: real, p2: real, q1: real, q2: real, b1: real, b2: real)
    ensures Turn(Spot(p1, p2), Spot(q1, q2))
            == Times(p1 - b1, q2 - b2) - Times(p2 - b2, q1 - b1) + Times(b1, q2 - p2) - Times(b2, q1 - p1)
  {
  }

  lemma RadiusByTimes(ex: real, ey: real, b1: real, b2: real)
    ensures Radius(ex, ey, b1, b2) == Times(b1, Abs(ey)) + Times(b2, Abs(ex))
    ensures Radius(-ex, ey, b1, b2) == Radius(ex, -ey, b1, b2) == Radius(-ex, -ey, b1, b2) == Radius(ex, ey, b1, b2)
  {
  }

  lemma Commuted(a: real, b: real)
    ensures Times(a, b) == Times(b, a)
  {
  }

  lemma Steep(n1: real, n2: real, u1: real, u2: real, w1: real, w2: real)
    requires n1 > 0.0 && n2 > 0.0 && u1 <= 0.0 && w2 <= 0.0
    requires Times(n1, u1) + Times(n2, u2) > 0.0 && Times(n1, w1) + Times(n2, w2) > 0.0
    ensures u2 > 0.0 && w1 > 0.0 && Times(u1, w2) < Times(u2, w1)
  {
    RightOf(n1, n2, u1, u2);
    RightOf(n2, n1, w2, w1);
    var (a, b, c, d) := (Times(n1, -u1), Times(n2, u2), Times(n2, -w2), Times(n1, w1));
    Negates(n1, u1);
    Negates(n2, w2);
    NotNegative(n1, -u1);
    NotNegative(n2, -w2);
    ProductsGrow(a, b, c, d);
    PositiveProduct(n1, n2);
    Exchanged(n1, n2, -u1, -w2);
    Exchanged(n2, n1, u2, w1);
    hide Times;
    Cancels(Times(n1, n2), Times(-u1, -w2), Times(u2, w1));
    BothNegated(u1, w2);
  }

  lemma ProductsGrow(a: real, b: real, c: real, d: real)
    requires 0.0 <= a < b && 0.0 <= c < d
    ensures Times(a, c) < Times(b, d)
  {
    PositiveProduct(b, d - c);
    NotNegative(b - a, c);
    assert Times(b, d) - Times(a, c) == Times(b, d - c) + Times(b - a, c);
    hide Times;
  }

  lemma Exchanged(n1: real, n2: real, u: real, w: real)
    ensures Times(Times(n1, u), Times(n2, w)) == Times(Times(n1, n2), Times(u, w)) == Times(Times(n2, n1), Times(u, w))
  {
    assert n1 * u * (n2 * w) == n1 * n2 * (u * w);
  }

  lemma Cancels(s: real, x: real, y: real)
    requires s > 0.0 && Times(s, x) < Times(s, y)
    ensures x < y
  {
    if x > y {
      ScaledAbove(s, y, x);
    }
    hide Times;
  }

  lemma TwoPoints(n1: real, n2: real, p1: real, p2: real, q1: real, q2: real, b1: real, b2: real)
    requires n1 != 0.0 && n2 != 0.0
    requires Times(n1, p1) + Times(n2, p2) > Times(Abs(n1), b1) + Times(Abs(n2), b2)
    requires Times(n1, q1) + Times(n2, q2) > Times(Abs(n1), b1) + Times(Abs(n2), b2)
    ensures || (p1 > b1 && q1 > b1) || (p1 < -b1 && q1 < -b1) || (p2 > b2 && q2 > b2) || (p2 < -b2 && q2 < -b2)
            || Abs(Turn(Spot(p1, p2), Spot(q1, q2))) > Radius(q1 - p1, q2 - p2, b1, b2)
  {
    BothNegated(n1, p1);
    BothNegated(n1, q1);
    BothNegated(n2, p2);
    BothNegated(n2, q2);
    Mirrored(p1, p2, q1, q2);
    RadiusByTimes(q1 - p1, q2 - p2, b1, b2);
    hide Times, Turn, Radius;
    var (x, y) := (if n1 > 0.0 then p1 else -p1, if n1 > 0.0 then q1 else -q1);
    var (z, w) := (if n2 > 0.0 then p2 else -p2, if n2 > 0.0 then q2 else -q2);
    TwoAbove(Abs(n1), Abs(n2), x, z, y, w, b1, b2);
    assert y - x == q1 - p1 || y - x == -(q1 - p1);
    assert w - z == q2 - p2 || w - z == -(q2 - p2);
  }

  lemma Mirrored(p1: real, p2: real, q1: real, q2: real)
    ensures var t := Turn(Spot(p1, p2), Spot(q1, q2));
            && Turn(Spot(-p1, p2), Spot(-q1, q2)) == -t && Turn(Spot(p1, -p2), Spot(q1, -q2)) == -t
            && Turn(Spot(-p1, -p2), Spot(-q1, -q2)) == t
  {
  }

  /** In two coordinates, an axis beyond whose reach all points lie, two of them equally far, leads to a side of the
      rectangle or to the axis across an edge. */
  lemma TwoEqual(n1: real, n2: real, p0: real, q0: real, p1: real, q1: real, p2: real, q2: real, b1: real, b2: real)
    requires n1 != 0.0 && n2 != 0.0
    requires var r := Times(Abs(n1), b1) + Times(Abs(n2), b2);
             && Times(n1, p0) + Times(n2, q0) > r && Times(n1, p1) + Times(n2, q1) > r && Times(n1, p2) + Times(n2, q2) > r
    requires Times(n1, p0) + Times(n2, q0) == Times(n1, p1) + Times(n2, q1)
    ensures || Beyond(p0, p1, p2, b1) || Beyond(q0, q1, q2, b2)
            || PlaneBeyond(p0, q0, p1, q1, p2, q2, p1 - p0, q1 - q0, b1, b2)
            || PlaneBeyond(p0, q0, p1, q1, p2, q2, p2 - p1, q2 - q1, b1, b2)
  {
    if p0 == p1 && q0 == q1 {
      TwoPoints(n1, n2, p1, q1, p2, q2, b1, b2);
      OnEdge(p1, q1, p2, q2);
      hide Times, Turn, Radius, Across;
    } else {
      TimesDifference(n1, p1, p0);
      TimesDifference(n2, q1, q0);
      AcrossIsMultiple(n1, n2, p1 - p0, q1 - q0, p0, q0, p1, q1, p2, q2, b1, b2);
    }
  }

  lemma OnEdge(p1: real, q1: real, p2: real, q2: real)
    ensures Across(p1, q1, p2 - p1, q2 - q1) == Across(p2, q2, p2 - p1, q2 - q1) == Turn(Spot(p1, q1), Spot(p2, q2))
  {
  }

  lemma AcrossIsMultiple(n1: real, n2: real, ex: real, ey: real, p0: real, q0: real, p1: real, q1: real, p2: real,
          q2: real, b1: real, b2: real)
    requires n1 != 0.0 && n2 != 0.0 && Times(n1, ex) + Times(n2, ey) == 0.0 && !(ex == 0.0 && ey == 0.0)
    requires var r := Times(Abs(n1), b1) + Times(Abs(n2), b2);
             && Times(n1, p0) + Times(n2, q0) > r && Times(n1, p1) + Times(n2, q1) > r && Times(n1, p2) + Times(n2, q2) > r
    ensures PlaneBeyond(p0, q0, p1, q1, p2, q2, ex, ey, b1, b2)
  {
    var s := Ratio(n1, n2, ex, ey);
    MultipleAcross(s, n1, n2, p0, q0);
    MultipleAcross(s, n1, n2, p1, q1);
    MultipleAcross(s, n1, n2, p2, q2);
    MultipleRadius(s, n1, n2, b1, b2);
    hide Times, Across, Radius;
    var r := Times(Abs(n1), b1) + Times(Abs(n2), b2);
    ScaledBeyond(s, Times(n1, p0) + Times(n2, q0), Times(n1, p1) + Times(n2, q1), Times(n1, p2) + Times(n2, q2), r);
  }

  /** What is at right angles to (n1, n2) is (-s n2, s n1). */
  lemma Ratio(n1: real, n2: real, ex: real, ey: real) returns (s: real)
    requires n1 != 0.0 && n2 != 0.0 && Times(n1, ex) + Times(n2, ey) == 0.0 && !(ex == 0.0 && ey == 0.0)
    ensures s != 0.0 && ey == Times(s, n1) && ex == -Times(s, n2)
  {
    s := ey / n1;
    assert s * n1 == ey;
    assert n1 * (ex + s * n2) == 0.0;
    assert ex + s * n2 == 0.0;
  }

  lemma MultipleAcross(s: real, n1: real, n2: real, p: real, q: real)
    ensures Across(p, q, -Times(s, n2), Times(s, n1)) == Times(s, Times(n1, p) + Times(n2, q))
  {
  }

  lemma MultipleRadius(s: real, n1: real, n2: real, b1: real, b2: real)
    ensures Radius(-Times(s, n2), Times(s, n1), b1, b2) == Times(Abs(s), Times(Abs(n1), b1) + Times(Abs(n2), b2))
  {
    RadiusByTimes(-Times(s, n2), Times(s, n1), b1, b2);
    AbsOfMultiple(s, n1, b1);
    AbsOfMultiple(s, n2, b2);
    Commuted(b1, Abs(Times(s, n1)));
    Commuted(b2, Abs(Times(s, n2)));
    Factor(Abs(s), Times(Abs(n1), b1), Times(Abs(n2), b2), 0.0, 0.0);
    assert Times(Abs(s), 0.0) == 0.0;
    hide Times, Radius;
  }

  lemma TwoPartsInPlane(n1: real, n2: real, p0: real, q0: real, p1: real, q1: real, p2: real, q2: real, b1: real, b2: real)
    requires n1 != 0.0 && n2 != 0.0
    requires var (r, h0, h1, h2) := (Times(Abs(n1), b1) + Times(Abs(n2), b2),
                                     Times(n1, p0) + Times(n2, q0), Times(n1, p1) + Times(n2, q1),
                                     Times(n1, p2) + Times(n2, q2));
             h0 > r && h1 > r && h2 > r && (h0 == h1 || h1 == h2 || h2 == h0)
    ensures || Beyond(p0, p1, p2, b1) || Beyond(q0, q1, q2, b2)
            || PlaneBeyond(p0, q0, p1, q1, p2, q2, p1 - p0, q1 - q0, b1, b2)
            || PlaneBeyond(p0, q0, p1, q1, p2, q2, p2 - p1, q2 - q1, b1, b2)
            || PlaneBeyond(p0, q0, p1, q1, p2, q2, p0 - p2, q0 - q2, b1, b2)
  {
    hide Times, Across, Radius;
    if Times(n1, p0) + Times(n2, q0) == Times(n1, p1) + Times(n2, q1) {
      TwoEqual(n1, n2, p0, q0, p1, q1, p2, q2, b1, b2);
    } else if Times(n1, p1) + Times(n2, q1) == Times(n1, p2) + Times(n2, q2) {
      TwoEqual(n1, n2, p1, q1, p2, q2, p0, q0, b1, b2);
    } else {
      TwoEqual(n1, n2, p2, q2, p0, q0, p1, q1, b1, b2);
    }
  }

  lemma TwoParts(n: V4, ends: V4, v0: V4, v1: V4, v2: V4, extents: V4)
    requires Shows(n, ends, v0, v1, v2, extents)
    requires (n.x != 0.0 && n.y != 0.0 && n.z == 0.0) || (n.x == 0.0 && n.y != 0.0 && n.z != 0.0)
            || (n.x != 0.0 && n.y == 0.0 && n.z != 0.0)
    ensures SomeAxisSeparates(v0, v1, v2, extents)
  {
    DotByTimes(n, v0);
    DotByTimes(n, v1);
    DotByTimes(n, v2);
    ZeroLanes(n, v0, extents);
    ZeroLanes(n, v1, extents);
    ZeroLanes(n, v2, extents);
    SideFound(v0, v1, v2, extents);
    EdgeFound(Sub(v1, v0), v0, v1, v2, extents);
    EdgeFound(Sub(v2, v1), v0, v1, v2, extents);
    EdgeFound(Sub(v0, v2), v0, v1, v2, extents);
    hide Times, Dot33, PlaneBeyond, Beyond, Separates, EdgeSeparates, Cross, Abs;
    if n.z == 0.0 {
      TwoPartsInPlane(n.x, n.y, v0.x, v0.y, v1.x, v1.y, v2.x, v2.y, extents.x, extents.y);
    } else if n.x == 0.0 {
      TwoPartsInPlane(n.y, n.z, v0.y, v0.z, v1.y, v1.z, v2.y, v2.z, extents.y, extents.z);
    } else {
      TwoPartsInPlane(n.z, n.x, v0.z, v0.x, v1.z, v1.x, v2.z, v2.x, extents.z, extents.x);
    }
  }

  lemma ZeroLanes(n: V4, v: V4, extents: V4)
    ensures n.x == 0.0 ==> Times(n.x, v.x) == 0.0 && Times(Abs(n.x), extents.x) == 0.0
    ensures n.y == 0.0 ==> Times(n.y, v.y) == 0.0 && Times(Abs(n.y), extents.y) == 0.0
    ensures n.z == 0.0 ==> Times(n.z, v.z) == 0.0 && Times(Abs(n.z), extents.z) == 0.0
  {
  }

  // ---- An axis of three parts: the normal, or a straight triangle ----

  /** On an axis of three parts all vertices are equally far, so it is at right angles to the edges. */
  lemma AcrossEdges(n: V4, v0: V4, v1: V4, v2: V4)
    requires Dot33(n, v0) == Dot33(n, v1) == Dot33(n, v2)
    ensures Dot33(n, Sub(v1, v0)) == 0.0 && Dot33(n, Sub(v2, v1)) == 0.0
  {
    DotOfDifference(n, v1, v0);
    DotOfDifference(n, v2, v1);
    hide Dot33, Sub;
  }

  /** What is at right angles to both edges is a multiple of their cross product, if that is not zero. */
  lemma NormalIsMultiple(n: V4, e: V4, f: V4) returns (s: real)
    requires n.x != 0.0 && Dot33(n, e) == 0.0 && Dot33(n, f) == 0.0
    requires !(Cross(e, f).x == 0.0 && Cross(e, f).y == 0.0 && Cross(e, f).z == 0.0)
    ensures s != 0.0 && Cross(e, f).x == Times(s, n.x) && Cross(e, f).y == Times(s, n.y) && Cross(e, f).z == Times(s, n.z)
  {
    var c := Cross(e, f);
    CrossOfCross(n, e, f);
    hide Cross, Dot33, Times;
    s := Quotient(c.x, n.x);
    SameQuotient(s, n.x, c.x, n.y, c.y);
    SameQuotient(s, n.x, c.x, n.z, c.z);
    ZeroTimes(n.x);
    ZeroTimes(n.y);
    ZeroTimes(n.z);
  }

  lemma CrossOfCross(n: V4, e: V4, f: V4)
    requires Dot33(n, e) == 0.0 && Dot33(n, f) == 0.0
    ensures var c := Cross(e, f); Times(c.y, n.x) == Times(c.x, n.y) && Times(c.z, n.x) == Times(c.x, n.z)
  {
    var c := Cross(e, f);
    assert c.y * n.x - c.x * n.y == e.z * Dot33(n, f) - f.z * Dot33(n, e);
    assert c.z * n.x - c.x * n.z == f.y * Dot33(n, e) - e.y * Dot33(n, f);
  }

  lemma Quotient(c: real, n: real) returns (s: real)
    requires n != 0.0
    ensures c == Times(s, n)
  {
    s := c / n;
  }

  lemma SameQuotient(s: real, n: real, c: real, m: real, d: real)
    requires n != 0.0 && c == Times(s, n) && Times(d, n) == Times(c, m)
    ensures d == Times(s, m)
  {
    assert n * (d - s * m) == 0.0;
  }

  /** For an axis n at right angles to e: if the second and the third term of their product have one sign, e1 times
      the axis is made of the axes across (e1, e2) and across (e3, e1), reach and all. */
  lemma MadeOfTwo(n1: real, n2: real, n3: real, e1: real, e2: real, e3: real, v1: real, v2: real, v3: real, b1: real,
          b2: real, b3: real)
    requires Times(n1, e1) + Times(n2, e2) + Times(n3, e3) == 0.0
    requires (Times(n2, e2) >= 0.0 && Times(n3, e3) >= 0.0) || (Times(n2, e2) <= 0.0 && Times(n3, e3) <= 0.0)
    ensures Times(e1, Times(n1, v1) + Times(n2, v2) + Times(n3, v3))
         == Times(n3, Across(v3, v1, e3, e1)) - Times(n2, Across(v1, v2, e1, e2))
    ensures Times(Abs(e1), Times(Abs(n1), b1) + Times(Abs(n2), b2) + Times(Abs(n3), b3))
         == Times(Abs(n3), Radius(e3, e1, b3, b1)) + Times(Abs(n2), Radius(e1, e2, b1, b2))
  {
    MadeOfTwoAxes(n1, n2, n3, e1, e2, e3, v1, v2, v3);
    AbsOfProduct(n1, e1);
    AbsOfProduct(n2, e2);
    AbsOfProduct(n3, e3);
    MadeOfTwoReaches(Abs(n1), Abs(n2), Abs(n3), Abs(e1), Abs(e2), Abs(e3), b1, b2, b3);
    RadiusByTimes(e3, e1, b3, b1);
    RadiusByTimes(e1, e2, b1, b2);
    hide Times, Radius, Across;
  }

  lemma MadeOfTwoAxes(n1: real, n2: real, n3: real, e1: real, e2: real, e3: real, v1: real, v2: real, v3: real)
    requires Times(n1, e1) + Times(n2, e2) + Times(n3, e3) == 0.0
    ensures Times(e1, Times(n1, v1) + Times(n2, v2) + Times(n3, v3))
         == Times(n3, Across(v3, v1, e3, e1)) - Times(n2, Across(v1, v2, e1, e2))
  {
    assert Times(e1, Times(n1, v1) + Times(n2, v2) + Times(n3, v3))
        - (Times(n3, Across(v3, v1, e3, e1)) - Times(n2, Across(v1, v2, e1, e2)))
        == v1 * (Times(n1, e1) + Times(n2, e2) + Times(n3, e3));
  }

  lemma MadeOfTwoReaches(n1: real, n2: real, n3: real, e1: real, e2: real, e3: real, b1: real, b2: real, b3: real)
    requires Times(n1, e1) == Times(n2, e2) + Times(n3, e3)
    ensures Times(e1, Times(n1, b1) + Times(n2, b2) + Times(n3, b3))
         == Times(n3, Times(b3, e1) + Times(b1, e3)) + Times(n2, Times(b1, e2) + Times(b2, e1))
  {
    assert Times(e1, Times(n1, b1) + Times(n2, b2) + Times(n3, b3))
        - (Times(n3, Times(b3, e1) + Times(b1, e3)) + Times(n2, Times(b1, e2) + Times(b2, e1)))
        == b1 * (Times(n1, e1) - Times(n2, e2) - Times(n3, e3));
  }

  /** So one of those two reaches beyond the box where the axis does. */
  lemma OneOfTwo(n1: real, n2: real, n3: real, e1: real, e2: real, e3: real, v1: real, v2: real, v3: real, b1: real,
          b2: real, b3: real)
    requires Times(n1, e1) + Times(n2, e2) + Times(n3, e3) == 0.0 && e1 != 0.0
    requires (Times(n2, e2) >= 0.0 && Times(n3, e3) >= 0.0) || (Times(n2, e2) <= 0.0 && Times(n3, e3) <= 0.0)
    requires Times(n1, v1) + Times(n2, v2) + Times(n3, v3) > Times(Abs(n1), b1) + Times(Abs(n2), b2) + Times(Abs(n3), b3)
    ensures Abs(Across(v1, v2, e1, e2)) > Radius(e1, e2, b1, b2) || Abs(Across(v3, v1, e3, e1)) > Radius(e3, e1, b3, b1)
  {
    var (a, b, ra, rb) := (Across(v1, v2, e1, e2), Across(v3, v1, e3, e1), Radius(e1, e2, b1, b2), Radius(e3, e1, b3, b1));
    var (h, r) := (Times(n1, v1) + Times(n2, v2) + Times(n3, v3),
            Times(Abs(n1), b1) + Times(Abs(n2), b2) + Times(Abs(n3), b3));
    MadeOfTwo(n1, n2, n3, e1, e2, e3, v1, v2, v3, b1, b2, b3);
    ScaledAbove(Abs(e1), r, h);
    Negates(e1, h);
    AbsOfProduct(n2, a);
    AbsOfProduct(n3, b);
    hide Times, Across, Radius;
    if Abs(a) <= ra && Abs(b) <= rb {
      NotAbove(Abs(n2), Abs(a), ra);
      NotAbove(Abs(n3), Abs(b), rb);
    }
  }

  lemma NotAbove(s: real, x: real, y: real)
    requires s >= 0.0 && x <= y
    ensures Times(s, x) <= Times(s, y)
  {
    TimesDifference(s, y, x);
    NotNegative(s, y - x);
    hide Times;
  }

  /** All three vertices lie on a line along e. */
  predicate Straight(e: V4, v0: V4, v1: V4, v2: V4) {
    SameAcross(e, v0, v1) && SameAcross(e, v1, v2)
  }

  predicate SameAcross(e: V4, v: V4, u: V4) {
    && Across(v.x, v.y, e.x, e.y) == Across(u.x, u.y, e.x, e.y)
    && Across(v.y, v.z, e.y, e.z) == Across(u.y, u.z, e.y, e.z)
    && Across(v.z, v.x, e.z, e.x) == Across(u.z, u.x, e.z, e.x)
  }

  lemma StraightEdge(n: V4, e: V4, v0: V4, v1: V4, v2: V4, extents: V4)
    requires n.x != 0.0 && n.y != 0.0 && n.z != 0.0 && Dot33(n, e) == 0.0 && !(e.x == 0.0 && e.y == 0.0 && e.z == 0.0)
    requires Straight(e, v0, v1, v2) && Dot33(n, v0) > Reach(n, extents)
    ensures EdgeSeparates(e, v0, v1, v2, extents)
  {
    DotByTimes(n, e);
    DotByTimes(n, v0);
    var (t1, t2, t3) := (Times(n.x, e.x), Times(n.y, e.y), Times(n.z, e.z));
    NotZero(n.x, e.x);
    NotZero(n.y, e.y);
    NotZero(n.z, e.z);
    EdgeFound(e, v0, v1, v2, extents);
    hide Times, Dot33, Across, Radius, EdgeSeparates;
    if e.x != 0.0 && ((t2 >= 0.0 && t3 >= 0.0) || (t2 <= 0.0 && t3 <= 0.0)) {
      OneOfTwo(n.x, n.y, n.z, e.x, e.y, e.z, v0.x, v0.y, v0.z, extents.x, extents.y, extents.z);
    } else if e.y != 0.0 && ((t3 >= 0.0 && t1 >= 0.0) || (t3 <= 0.0 && t1 <= 0.0)) {
      OneOfTwo(n.y, n.z, n.x, e.y, e.z, e.x, v0.y, v0.z, v0.x, extents.y, extents.z, extents.x);
    } else {
      OneOfTwo(n.z, n.x, n.y, e.z, e.x, e.y, v0.z, v0.x, v0.y, extents.z, extents.x, extents.y);
    }
  }

  lemma NotZero(a: real, b: real)
    requires a != 0.0
    ensures Times(a, b) == 0.0 <==> b == 0.0
  {
  }

  lemma StraightAlong(v0: V4, v1: V4, v2: V4)
    requires var c := Cross(Sub(v1, v0), Sub(v2, v1)); c.x == 0.0 && c.y == 0.0 && c.z == 0.0
    ensures Straight(Sub(v1, v0), v0, v1, v2)
    ensures Sub(v1, v0).x == 0.0 && Sub(v1, v0).y == 0.0 && Sub(v1, v0).z == 0.0 ==> Straight(Sub(v2, v1), v0, v1, v2)
  {
    var (e, f) := (Sub(v1, v0), Sub(v2, v1));
    AcrossMoves(e, v0, v1);
    AcrossMoves(e, v1, v2);
    AcrossMoves(f, v0, v1);
    AcrossMoves(f, v1, v2);
    CrossByAcross(e, f);
    AcrossItself(e);
    AcrossItself(f);
    hide Across, Cross;
  }

  lemma AcrossMoves(e: V4, v: V4, u: V4)
    ensures Across(u.x, u.y, e.x, e.y) == Across(v.x, v.y, e.x, e.y) + Across(Sub(u, v).x, Sub(u, v).y, e.x, e.y)
    ensures Across(u.y, u.z, e.y, e.z) == Across(v.y, v.z, e.y, e.z) + Across(Sub(u, v).y, Sub(u, v).z, e.y, e.z)
    ensures Across(u.z, u.x, e.z, e.x) == Across(v.z, v.x, e.z, e.x) + Across(Sub(u, v).z, Sub(u, v).x, e.z, e.x)
  {
  }

  lemma CrossByAcross(e: V4, f: V4)
    ensures Cross(e, f).x == -Across(f.y, f.z, e.y, e.z) && Cross(e, f).y == -Across(f.z, f.x, e.z, e.x)
    ensures Cross(e, f).z == -Across(f.x, f.y, e.x, e.y)
  {
  }

  lemma AcrossItself(e: V4)
    ensures Across(e.x, e.y, e.x, e.y) == 0.0 && Across(e.y, e.z, e.y, e.z) == 0.0 && Across(e.z, e.x, e.z, e.x) == 0.0
    ensures Across(0.0, 0.0, e.x, e.y) == 0.0 && Across(0.0, 0.0, e.y, e.z) == 0.0 && Across(0.0, 0.0, e.z, e.x) == 0.0
  {
  }

  /** A single point beyond the reach of an axis is beyond a side. */
  lemma PointBeyond(n: V4, v: V4, extents: V4)
    requires Dot33(n, v) > Reach(n, extents)
    ensures Abs(v.x) > extents.x || Abs(v.y) > extents.y || Abs(v.z) > extents.z
  {
    DotByTimes(n, v);
    AbsOfProduct(n.x, v.x);
    AbsOfProduct(n.y, v.y);
    AbsOfProduct(n.z, v.z);
    hide Times, Dot33;
    if Abs(v.x) <= extents.x && Abs(v.y) <= extents.y && Abs(v.z) <= extents.z {
      NotAbove(Abs(n.x), Abs(v.x), extents.x);
      NotAbove(Abs(n.y), Abs(v.y), extents.y);
      NotAbove(Abs(n.z), Abs(v.z), extents.z);
    }
  }

  lemma ThreeParts(n: V4, ends: V4, v0: V4, v1: V4, v2: V4, extents: V4)
    requires Shows(n, ends, v0, v1, v2, extents) && n.x != 0.0 && n.y != 0.0 && n.z != 0.0
    ensures SomeAxisSeparates(v0, v1, v2, extents)
  {
    var (e, f) := (Sub(v1, v0), Sub(v2, v1));
    AcrossEdges(n, v0, v1, v2);
    hide Dot33, Reach, Cross, Straight, EdgeSeparates, Separates;
    var c := Cross(e, f);
    if c.x == 0.0 && c.y == 0.0 && c.z == 0.0 {
      StraightAlong(v0, v1, v2);
      if !(e.x == 0.0 && e.y == 0.0 && e.z == 0.0) {
        StraightEdge(n, e, v0, v1, v2, extents);
      } else if !(f.x == 0.0 && f.y == 0.0 && f.z == 0.0) {
        StraightEdge(n, f, v0, v1, v2, extents);
      } else {
        PointBeyond(n, v0, extents);
        SideFound(v0, v1, v2, extents);
      }
    } else {
      var s := NormalIsMultiple(n, e, f);
      ParallelSeparates(n, c, s, v0, v1, v2, extents);
    }
  }

  // ---- Main result ----

  lemma NoParts(n: V4, v: V4, extents: V4)
    requires n.x == 0.0 && n.y == 0.0 && n.z == 0.0
    ensures Dot33(n, v) == Reach(n, extents)
  {
  }

  lemma ShownSeparates(n: V4, ends: V4, v0: V4, v1: V4, v2: V4, extents: V4)
    requires Shows(n, ends, v0, v1, v2, extents)
    ensures SomeAxisSeparates(v0, v1, v2, extents)
  {
    hide Dot33, Reach, SomeAxisSeparates;
    if n.x == 0.0 && n.y == 0.0 && n.z == 0.0 {
      NoParts(n, v0, extents);
    }
    if n.x != 0.0 && n.y != 0.0 && n.z != 0.0 {
      ThreeParts(n, ends, v0, v1, v2, extents);
    } else if (n.x != 0.0 && n.y != 0.0) || (n.y != 0.0 && n.z != 0.0) || (n.z != 0.0 && n.x != 0.0) {
      TwoParts(n, ends, v0, v1, v2, extents);
    } else {
      OnePart(n, v0, v1, v2, extents);
    }
  }

  /** A centred box and a triangle without a common point are separated by one of the thirteen axes. */
  lemma SeparationIsComplete(v0: V4, v1: V4, v2: V4, extents: V4) returns (a: real, b: real, c: real)
    requires NonNegative(extents) && !SomeAxisSeparates(v0, v1, v2, extents)
    ensures IsConvex(a, b, c) && Bounded(Point(a, b, c, v0, v1, v2), extents)
  {
    var hs := Inequalities(v0, v1, v2, extents);
    hide SomeAxisSeparates, Inequalities;
    forall i: nat, j: nat, k: nat | i < 9 && j < 9 && k < 9 ensures Meet([hs[i], hs[j], hs[k]]) {
      if !Meet([hs[i], hs[j], hs[k]]) {
        var n, ends := AxisOfThree(v0, v1, v2, extents, i, j, k);
        ShownSeparates(n, ends, v0, v1, v2, extents);
      }
    }
    Helly(hs);
    var p :| InAll(hs, p);
    CommonPoint(v0, v1, v2, extents, p);
    a, b, c := 1.0 - p.x - p.y, p.x, p.y;
  }

  lemma Uncentred(a: real, b: real, c: real, boxcenter: V4, p0: V4, p1: V4, p2: V4, extents: V4)
    requires IsConvex(a, b, c)
    requires Bounded(Point(a, b, c, Sub(p0, boxcenter), Sub(p1, boxcenter), Sub(p2, boxcenter)), extents)
    ensures InClosedBox(Point(a, b, c, p0, p1, p2), boxcenter, extents)
  {
    BlendShift(a, b, c, p0.x, p1.x, p2.x, boxcenter.x);
    BlendShift(a, b, c, p0.y, p1.y, p2.y, boxcenter.y);
    BlendShift(a, b, c, p0.z, p1.z, p2.z, boxcenter.z);
    hide Blend, Abs;
  }

  /** The triangle, as the convex hull of its vertices, and the closed box have a point in common. */
  ghost predicate Overlap(boxcenter: V4, extents: V4, p0: V4, p1: V4, p2: V4) {
    exists a: real, b: real, c: real :: IsConvex(a, b, c) && InClosedBox(Point(a, b, c, p0, p1, p2), boxcenter, extents)
  }

  /** The answer is exact: true if and only if triangle and box have a point in common. */
  lemma OverlapExactly(boxcenter: V4, extents: V4, p0: V4, p1: V4, p2: V4)
    requires NonNegative(extents)
    ensures IsOverlapBoxTriangle(boxcenter, extents, p0, p1, p2) <==> Overlap(boxcenter, extents, p0, p1, p2)
  {
    hide IsOverlapBoxTriangle, InClosedBox, Point, InOpenBox, SomeAxisSeparates, IsConvex, NonNegative, Sub;
    if IsOverlapBoxTriangle(boxcenter, extents, p0, p1, p2) {
      OverlapIsNoSeparation(boxcenter, extents, p0, p1, p2);
      if InOpenBox(p0, boxcenter, extents) {
        EarlyAcceptanceIsExact(boxcenter, extents, p0, p1, p2);
        FirstVertex();
      } else {
        var a, b, c := SeparationIsComplete(Sub(p0, boxcenter), Sub(p1, boxcenter), Sub(p2, boxcenter), extents);
        Uncentred(a, b, c, boxcenter, p0, p1, p2, extents);
      }
    } else {
      RejectionIsSound(boxcenter, extents, p0, p1, p2);
    }
  }

  lemma FirstVertex()
    ensures IsConvex(1.0, 0.0, 0.0)
  {
  }
}
