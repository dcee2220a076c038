/** When finitely many half-planes have a point in common: Helly's theorem for the plane, and for three half-planes
    without a common point the weights that show it. */
module HalfPlanes {
  import opened Vectors

  datatype Spot = Spot(x: real, y: real)

  /** The points with k + l x + m y >= 0. */
  datatype HalfPlane = HalfPlane(k: real, l: real, m: real)

  function At(h: HalfPlane, p: Spot): real {
    h.k + Times(h.l, p.x) + Times(h.m, p.y)
  }

  predicate InAll(hs: seq<HalfPlane>, p: Spot) {
    forall i | 0 <= i < |hs| :: At(hs[i], p) >= 0.0
  }

  // ---- Radon's theorem ----

  function Turn(p: Spot, q: Spot): real {
    p.x * q.y - p.y * q.x
  }

  function Minus(p: Spot, q: Spot): Spot {
    Spot(p.x - q.x, p.y - q.y)
  }

  /** Weights for four points. */
  datatype Weights = Weights(a: real, b: real, c: real, d: real)

  function Total(w: Weights): real {
    w.a + w.b + w.c + w.d
  }

  function Weighed(w: Weights, a: real, b: real, c: real, d: real): real {
    Times(w.a, a) + Times(w.b, b) + Times(w.c, c) + Times(w.d, d)
  }

  function Centre(w: Weights, p: seq<Spot>): Spot
    requires |p| == 4
  {
    Spot(Weighed(w, p[0].x, p[1].x, p[2].x, p[3].x), Weighed(w, p[0].y, p[1].y, p[2].y, p[3].y))
  }

  const ORIGIN := Spot(0.0, 0.0)
  const NO_WEIGHTS := Weights(0.0, 0.0, 0.0, 0.0)

  lemma TurnsBalance(p: Spot, q: Spot, r: Spot)
    ensures Times(Turn(q, r), p.x) + Times(Turn(r, p), q.x) + Times(Turn(p, q), r.x) == 0.0
    ensures Times(Turn(q, r), p.y) + Times(Turn(r, p), q.y) + Times(Turn(p, q), r.y) == 0.0
  {
  }

  lemma StraightBalance(p: Spot, q: Spot)
    requires Turn(p, q) == 0.0
    ensures var (s, t) := (q.x * p.x + q.y * p.y, p.x * p.x + p.y * p.y);
            Times(s, p.x) - Times(t, q.x) == 0.0 && Times(s, p.y) - Times(t, q.y) == 0.0
  {
    assert Times(q.x * p.x + q.y * p.y, p.x) - Times(p.x * p.x + p.y * p.y, q.x) == -Times(p.y, Turn(p, q));
    assert Times(q.x * p.x + q.y * p.y, p.y) - Times(p.x * p.x + p.y * p.y, q.y) == Times(p.x, Turn(p, q));
  }

  lemma SquaresVanish(x: real, y: real)
    requires Times(x, x) + Times(y, y) == 0.0
    ensures x == 0.0 && y == 0.0
  {
    PositiveSquare(x);
    PositiveSquare(y);
    hide Times;
  }

  lemma PositiveSquare(x: real)
    ensures Times(x, x) >= 0.0 && (x != 0.0 ==> Times(x, x) > 0.0)
  {
    BothNegated(x, x);
    if x > 0.0 {
      PositiveProduct(x, x);
    } else if x < 0.0 {
      PositiveProduct(-x, -x);
    } else {
      ZeroTimes(x);
    }
    hide Times;
  }

  lemma BothNegated(a: real, b: real)
    ensures Times(-a, -b) == Times(a, b)
  {
  }

  /** Three vectors in the plane are dependent. */
  lemma Dependent(p: Spot, q: Spot, r: Spot) returns (a: real, b: real, c: real)
    ensures !(a == 0.0 && b == 0.0 && c == 0.0)
    ensures Times(a, p.x) + Times(b, q.x) + Times(c, r.x) == 0.0
    ensures Times(a, p.y) + Times(b, q.y) + Times(c, r.y) == 0.0
  {
    a, b, c := Turn(q, r), Turn(r, p), Turn(p, q);
    TurnsBalance(p, q, r);
    if a == 0.0 && b == 0.0 && c == 0.0 {
      a, b, c := q.x * p.x + q.y * p.y, -(p.x * p.x + p.y * p.y), 0.0;
      StraightBalance(p, q);
      if b == 0.0 {
        SquaresVanish(p.x, p.y);
        a := 1.0;
      }
    }
  }

  /** Weights that sum to zero and balance four points. */
  lemma Balanced(p: seq<Spot>) returns (w: Weights)
    requires |p| == 4
    ensures w != NO_WEIGHTS && Total(w) == 0.0 && Centre(w, p) == ORIGIN
  {
    var a, b, c := Dependent(Minus(p[0], p[3]), Minus(p[1], p[3]), Minus(p[2], p[3]));
    w := Weights(a, b, c, -(a + b + c));
    ShiftBack(a, b, c, p[0].x, p[1].x, p[2].x, p[3].x);
    ShiftBack(a, b, c, p[0].y, p[1].y, p[2].y, p[3].y);
    hide Times;
  }

  lemma ShiftBack(a: real, b: real, c: real, x: real, y: real, z: real, o: real)
    ensures Times(a, x - o) + Times(b, y - o) + Times(c, z - o)
            == Times(a, x) + Times(b, y) + Times(c, z) + Times(-(a + b + c), o)
  {
  }

  predicate IsAverage(w: Weights) {
    w.a >= 0.0 && w.b >= 0.0 && w.c >= 0.0 && w.d >= 0.0 && Total(w) == 1.0
  }

  function Part(x: real, s: real): real
    requires s > 0.0
  {
    if x > 0.0 then x / s else 0.0
  }

  function Positives(w: Weights, s: real): Weights
    requires s > 0.0
  {
    Weights(Part(w.a, s), Part(w.b, s), Part(w.c, s), Part(w.d, s))
  }

  function Opposite(w: Weights): Weights {
    Weights(-w.a, -w.b, -w.c, -w.d)
  }

  function Negatives(w: Weights, s: real): Weights
    requires s > 0.0
  {
    Positives(Opposite(w), s)
  }

  function PositiveTotal(w: Weights): real {
    Abs(w.a) / 2.0 + Abs(w.b) / 2.0 + Abs(w.c) / 2.0 + Abs(w.d) / 2.0
  }

  lemma PartsDiffer(x: real, s: real)
    requires s > 0.0
    ensures Times(s, Part(x, s)) == (if x > 0.0 then x else 0.0) && Times(s, Part(x, s)) - Times(s, Part(-x, s)) == x
    ensures Part(x, s) >= 0.0 && (Part(x, s) == 0.0 || Part(-x, s) == 0.0)
  {
    if x > 0.0 {
      assert s * (x / s) == x;
    } else if x < 0.0 {
      assert s * (-x / s) == -x;
    }
  }

  lemma Cancel(s: real, x: real, y: real)
    requires s > 0.0 && Times(s, x) == Times(s, y)
    ensures x == y
  {
    assert s * (x - y) == 0.0;
  }

  lemma Factor(s: real, a: real, b: real, c: real, d: real)
    ensures Times(s, a + b + c + d) == Times(s, a) + Times(s, b) + Times(s, c) + Times(s, d)
  {
  }

  lemma PositivesAverage(w: Weights)
    requires w != NO_WEIGHTS && Total(w) == 0.0
    ensures var s := PositiveTotal(w); s > 0.0 && IsAverage(Positives(w, s))
  {
    var s := PositiveTotal(w);
    assert s > 0.0;
    var u := Positives(w, s);
    assert Times(s, 1.0) == s;
    hide Times, Part;
    PartsDiffer(w.a, s);
    PartsDiffer(w.b, s);
    PartsDiffer(w.c, s);
    PartsDiffer(w.d, s);
    Factor(s, u.a, u.b, u.c, u.d);
    Cancel(s, Total(u), 1.0);
  }

  /** The positive and the negative weights, each scaled to a total of one. */
  lemma SplitWeights(w: Weights)
    requires w != NO_WEIGHTS && Total(w) == 0.0
    ensures var s := PositiveTotal(w); s > 0.0 && IsAverage(Positives(w, s)) && IsAverage(Negatives(w, s))
  {
    OppositeTotals(w);
    hide Positives, IsAverage, PositiveTotal, Total, Opposite;
    PositivesAverage(w);
    PositivesAverage(Opposite(w));
  }

  lemma OppositeTotals(w: Weights)
    ensures Total(Opposite(w)) == -Total(w) && (Opposite(w) == NO_WEIGHTS ==> w == NO_WEIGHTS)
    ensures PositiveTotal(Opposite(w)) == PositiveTotal(w)
  {
  }

  lemma WeighedDifference(w: Weights, u: Weights, v: Weights, s: real, a: real, b: real, c: real, d: real)
    requires s > 0.0 && Weighed(w, a, b, c, d) == 0.0
    requires w == Weights(Times(s, u.a) - Times(s, v.a), Times(s, u.b) - Times(s, v.b), Times(s, u.c) - Times(s, v.c),
            Times(s, u.d) - Times(s, v.d))
    ensures Weighed(u, a, b, c, d) == Weighed(v, a, b, c, d)
  {
    TermDifference(s, u.a, v.a, a);
    TermDifference(s, u.b, v.b, b);
    TermDifference(s, u.c, v.c, c);
    TermDifference(s, u.d, v.d, d);
    Factor(s, Times(u.a, a), Times(u.b, b), Times(u.c, c), Times(u.d, d));
    Factor(s, Times(v.a, a), Times(v.b, b), Times(v.c, c), Times(v.d, d));
    hide Times;
    Cancel(s, Weighed(u, a, b, c, d), Weighed(v, a, b, c, d));
  }

  lemma TermDifference(s: real, u: real, v: real, a: real)
    ensures Times(Times(s, u) - Times(s, v), a) == Times(s, Times(u, a)) - Times(s, Times(v, a))
  {
  }

  /** Four points of the plane fall into two groups with a common average. */
  lemma Radon(p: seq<Spot>) returns (u: Weights, v: Weights)
    requires |p| == 4
    ensures IsAverage(u) && IsAverage(v) && Centre(u, p) == Centre(v, p)
    ensures (u.a == 0.0 || v.a == 0.0) && (u.b == 0.0 || v.b == 0.0) && (u.c == 0.0 || v.c == 0.0)
            && (u.d == 0.0 || v.d == 0.0)
  {
    var w := Balanced(p);
    var s := PositiveTotal(w);
    SplitWeights(w);
    u, v := Positives(w, s), Negatives(w, s);
    PartsDiffer(w.a, s);
    PartsDiffer(w.b, s);
    PartsDiffer(w.c, s);
    PartsDiffer(w.d, s);
    hide Times, Part, PositiveTotal, IsAverage;
    WeighedDifference(w, u, v, s, p[0].x, p[1].x, p[2].x, p[3].x);
    WeighedDifference(w, u, v, s, p[0].y, p[1].y, p[2].y, p[3].y);
  }

  // ---- Helly's theorem ----

  /** A half-plane holds the average of the points that it holds. */
  lemma HoldsCentre(h: HalfPlane, w: Weights, p: seq<Spot>)
    requires |p| == 4 && IsAverage(w)
    requires (w.a == 0.0 || At(h, p[0]) >= 0.0) && (w.b == 0.0 || At(h, p[1]) >= 0.0)
    requires (w.c == 0.0 || At(h, p[2]) >= 0.0) && (w.d == 0.0 || At(h, p[3]) >= 0.0)
    ensures At(h, Centre(w, p)) >= 0.0
  {
    WeighedAt(h, w, p);
    NotNegative(w.a, At(h, p[0]));
    NotNegative(w.b, At(h, p[1]));
    NotNegative(w.c, At(h, p[2]));
    NotNegative(w.d, At(h, p[3]));
    hide Times, At;
  }

  lemma NotNegative(w: real, x: real)
    requires w >= 0.0 && (w == 0.0 || x >= 0.0)
    ensures Times(w, x) >= 0.0
  {
  }

  lemma WeighedAt(h: HalfPlane, w: Weights, p: seq<Spot>)
    requires |p| == 4 && Total(w) == 1.0
    ensures At(h, Centre(w, p)) == Weighed(w, At(h, p[0]), At(h, p[1]), At(h, p[2]), At(h, p[3]))
  {
    TimesWeighed(h.l, w, p[0].x, p[1].x, p[2].x, p[3].x);
    TimesWeighed(h.m, w, p[0].y, p[1].y, p[2].y, p[3].y);
    Spread(w.a, h.k, h.l, h.m, p[0]);
    Spread(w.b, h.k, h.l, h.m, p[1]);
    Spread(w.c, h.k, h.l, h.m, p[2]);
    Spread(w.d, h.k, h.l, h.m, p[3]);
    Constant(w, h.k);
    hide Times;
  }

  lemma Constant(w: Weights, k: real)
    requires Total(w) == 1.0
    ensures Times(w.a, k) + Times(w.b, k) + Times(w.c, k) + Times(w.d, k) == k
  {
    assert Total(w) * k == k;
  }

  lemma Spread(w: real, k: real, l: real, m: real, p: Spot)
    ensures Times(w, k + Times(l, p.x) + Times(m, p.y)) == Times(w, k) + Times(w, Times(l, p.x)) + Times(w, Times(m, p.y))
  {
  }

  lemma TimesWeighed(l: real, w: Weights, a: real, b: real, c: real, d: real)
    ensures Times(l, Weighed(w, a, b, c, d))
            == Times(w.a, Times(l, a)) + Times(w.b, Times(l, b)) + Times(w.c, Times(l, c)) + Times(w.d, Times(l, d))
  {
    Regroup(l, w.a, a);
    Regroup(l, w.b, b);
    Regroup(l, w.c, c);
    Regroup(l, w.d, d);
    Factor(l, Times(w.a, a), Times(w.b, b), Times(w.c, c), Times(w.d, d));
    hide Times;
  }

  lemma Regroup(l: real, w: real, a: real)
    ensures Times(l, Times(w, a)) == Times(w, Times(l, a))
  {
  }

  /** Four sets, each an intersection of half-planes: if each three have a point in common, all four do. */
  lemma HellyOfFour(sets: seq<seq<HalfPlane>>, p: seq<Spot>) returns (r: Spot)
    requires |sets| == |p| == 4
    requires forall i, j | 0 <= i < 4 && 0 <= j < 4 && i != j :: InAll(sets[i], p[j])
    ensures forall i | 0 <= i < 4 :: InAll(sets[i], r)
  {
    var u, v := Radon(p);
    r := Centre(u, p);
    hide IsAverage, Centre, At;
    forall i, n | 0 <= i < 4 && 0 <= n < |sets[i]| ensures At(sets[i][n], r) >= 0.0 {
      var h := sets[i][n];
      assert forall j | 0 <= j < 4 && i != j :: At(h, p[j]) >= 0.0;
      if (if i == 0 then u.a else if i == 1 then u.b else if i == 2 then u.c else u.d) == 0.0 {
        HoldsCentre(h, u, p);
      } else {
        HoldsCentre(h, v, p);
      }
    }
  }

  ghost predicate Meet(hs: seq<HalfPlane>) {
    exists p :: InAll(hs, p)
  }

  /** Half-planes of which each three meet, and each two with a given set, all meet with that set. */
  lemma {:induction false} HellyWithin(hs: seq<HalfPlane>, set_: seq<HalfPlane>)
    requires forall i, j, k | 0 <= i < |hs| && 0 <= j < |hs| && 0 <= k < |hs| :: Meet([hs[i], hs[j], hs[k]])
    requires forall i, j | 0 <= i < |hs| && 0 <= j < |hs| :: Meet(set_ + [hs[i], hs[j]])
    requires Meet(set_)
    ensures Meet(set_ + hs)
    decreases |hs|
  {
    hide Meet;
    if hs == [] {
      assert set_ + hs == set_;
    } else {
      var last := |hs| - 1;
      var (front, h) := (hs[..last], hs[last]);
      var smaller := set_ + [h];
      forall i, j | 0 <= i < last && 0 <= j < last ensures Meet(smaller + [front[i], front[j]]) {
        assert Meet([hs[i], hs[j], hs[last]]) && Meet(set_ + [hs[i], hs[j]]) && Meet(set_ + [hs[i], hs[last]])
            && Meet(set_ + [hs[j], hs[last]]);
        FourMeet(set_, hs[i], hs[j], h);
      }
      assert Meet(set_ + [hs[last], hs[last]]);
      DropOne(set_, h);
      forall i, j, k | 0 <= i < last && 0 <= j < last && 0 <= k < last ensures Meet([front[i], front[j], front[k]]) {
        assert Meet([hs[i], hs[j], hs[k]]);
      }
      HellyWithin(front, smaller);
      Reordered(set_, front, h);
      assert hs == front + [h];
    }
  }

  lemma DropOne(set_: seq<HalfPlane>, h: HalfPlane)
    requires Meet(set_ + [h, h])
    ensures Meet(set_ + [h])
  {
    var p :| InAll(set_ + [h, h], p);
    var (all, fewer) := (set_ + [h, h], set_ + [h]);
    forall i | 0 <= i < |fewer| ensures At(fewer[i], p) >= 0.0 {
      assert fewer[i] == all[i];
    }
    assert InAll(fewer, p);
  }

  lemma Reordered(set_: seq<HalfPlane>, front: seq<HalfPlane>, h: HalfPlane)
    requires Meet((set_ + [h]) + front)
    ensures Meet(set_ + (front + [h]))
  {
    var p :| InAll((set_ + [h]) + front, p);
    Splits(set_ + [h], front, p);
    Splits(set_, [h], p);
    Splits(front, [h], p);
    Splits(set_, front + [h], p);
  }

  lemma Splits(a: seq<HalfPlane>, b: seq<HalfPlane>, p: Spot)
    ensures InAll(a + b, p) <==> InAll(a, p) && InAll(b, p)
  {
    hide At;
    var all := a + b;
    if InAll(all, p) {
      assert forall i | 0 <= i < |a| :: a[i] == all[i];
      assert forall i | 0 <= i < |b| :: b[i] == all[|a| + i];
    }
  }

  lemma FourMeet(set_: seq<HalfPlane>, a: HalfPlane, b: HalfPlane, c: HalfPlane)
    requires Meet([a, b, c]) && Meet(set_ + [a, b]) && Meet(set_ + [a, c]) && Meet(set_ + [b, c])
    ensures Meet((set_ + [c]) + [a, b])
  {
    var p0 :| InAll([a, b, c], p0);
    var p1 :| InAll(set_ + [b, c], p1);
    var p2 :| InAll(set_ + [a, c], p2);
    var p3 :| InAll(set_ + [a, b], p3);
    Pairs(a, b, c, p0);
    Splits(set_, [b, c], p1);
    Splits(set_, [a, c], p2);
    Splits(set_, [a, b], p3);
    Two(b, c, p1);
    Two(a, c, p2);
    Two(a, b, p3);
    hide InAll;
    var sets := [set_, [a], [b], [c]];
    var r := HellyOfFour(sets, [p0, p1, p2, p3]);
    assert InAll(sets[0], r) && InAll(sets[1], r) && InAll(sets[2], r) && InAll(sets[3], r);
    Two(a, b, r);
    Splits(set_, [c], r);
    Splits(set_ + [c], [a, b], r);
  }

  lemma Pairs(a: HalfPlane, b: HalfPlane, c: HalfPlane, p: Spot)
    requires InAll([a, b, c], p)
    ensures InAll([a], p) && InAll([b], p) && InAll([c], p)
  {
    assert [a, b, c][0] == a && [a, b, c][1] == b && [a, b, c][2] == c;
  }

  lemma Two(a: HalfPlane, b: HalfPlane, p: Spot)
    ensures InAll([a, b], p) <==> InAll([a], p) && InAll([b], p)
  {
    assert [a, b] == [a] + [b];
    Splits([a], [b], p);
  }

  /** Half-planes of which each three have a point in common all have one. */
  lemma Helly(hs: seq<HalfPlane>)
    requires hs != []
    requires forall i, j, k | 0 <= i < |hs| && 0 <= j < |hs| && 0 <= k < |hs| :: Meet([hs[i], hs[j], hs[k]])
    ensures Meet(hs)
  {
    var none: seq<HalfPlane> := [];
    assert InAll(none, ORIGIN);
    hide Meet;
    forall i, j | 0 <= i < |hs| && 0 <= j < |hs| ensures Meet(none + [hs[i], hs[j]]) {
      assert Meet([hs[i], hs[j], hs[j]]);
      PairMeets(none, hs[i], hs[j]);
    }
    HellyFrom(hs, none);
  }

  lemma HellyFrom(hs: seq<HalfPlane>, none: seq<HalfPlane>)
    requires forall i, j, k | 0 <= i < |hs| && 0 <= j < |hs| && 0 <= k < |hs| :: Meet([hs[i], hs[j], hs[k]])
    requires forall i, j | 0 <= i < |hs| && 0 <= j < |hs| :: Meet(none + [hs[i], hs[j]])
    requires none == [] && Meet(none)
    ensures Meet(hs)
  {
    hide Meet;
    HellyWithin(hs, none);
    assert none + hs == hs;
  }

  lemma PairMeets(none: seq<HalfPlane>, a: HalfPlane, b: HalfPlane)
    requires Meet([a, b, b]) && none == []
    ensures Meet(none + [a, b])
  {
    var p :| InAll([a, b, b], p);
    Pairs(a, b, b, p);
    Two(a, b, p);
    assert none + [a, b] == [a, b];
  }

  // ---- Three half-planes that do not meet ----

  /** Of the inequalities k + t s >= 0, the i-th fails for every s, or the i-th and the j-th never hold together. */
  ghost predicate Opposes(k: seq<real>, t: seq<real>, i: nat, j: nat)
    requires |k| == |t| && i < |t| && j < |t|
  {
    (t[i] == 0.0 && k[i] < 0.0) || (t[i] > 0.0 > t[j] && Times(t[i], k[j]) - Times(t[j], k[i]) < 0.0)
  }

  /** Inequalities k + t s >= 0 in one unknown have a solution, or one of them or two of them show that there is
      none. */
  lemma {:induction false} Line(k: seq<real>, t: seq<real>) returns (ok: bool, s: real, i: nat, j: nat)
    requires |k| == |t|
    ensures ok ==> forall a | 0 <= a < |k| :: k[a] + Times(t[a], s) >= 0.0
    ensures !ok ==> i < |k| && j < |k| && Opposes(k, t, i, j)
  {
    ok, s, i, j := true, 0.0, 0, 0;
    if k != [] {
      var last := |k| - 1;
      ok, s, i, j := Line(k[..last], t[..last]);
      assert forall a | 0 <= a < last :: k[..last][a] == k[a] && t[..last][a] == t[a];
      hide Times;
      if ok && k[last] + Times(t[last], s) < 0.0 {
        ok, s, i, j := LineGrows(k, t, s);
      }
    }
  }

  lemma LineGrows(k: seq<real>, t: seq<real>, s: real) returns (ok: bool, s': real, i: nat, j: nat)
    requires |k| == |t| > 0 && k[|k| - 1] + Times(t[|k| - 1], s) < 0.0
    requires forall a | 0 <= a < |k| - 1 :: k[a] + Times(t[a], s) >= 0.0
    ensures ok ==> forall a | 0 <= a < |k| :: k[a] + Times(t[a], s') >= 0.0
    ensures !ok ==> i < |k| && j < |k| && Opposes(k, t, i, j)
  {
    var last := |k| - 1;
    ok, s', i, j := false, s, last, last;
    if t[last] == 0.0 {
      assert Times(t[last], s) == 0.0;
    } else {
      s' := -k[last] / t[last];
      assert t[last] * s' == -k[last];
      assert k[last] + Times(t[last], s') >= 0.0;
      hide Times;
      if a: nat :| a < last && k[a] + Times(t[a], s') < 0.0 {
        Opposed(k[last], t[last], k[a], t[a], s, s');
        if t[last] > 0.0 {
          j := a;
        } else {
          i := a;
        }
      } else {
        ok := true;
      }
    }
  }

  lemma Opposed(k: real, t: real, k': real, t': real, s: real, s': real)
    requires k + Times(t, s) < 0.0 && Times(t, s') == -k && k' + Times(t', s) >= 0.0 && k' + Times(t', s') < 0.0 && t != 0.0
    ensures t > 0.0 ==> t' < 0.0 && Times(t, k') - Times(t', k) < 0.0
    ensures t < 0.0 ==> t' > 0.0 && Times(t', k) - Times(t, k') < 0.0
  {
    var d := s' - s;
    assert t * d > 0.0 && t' * d < 0.0;
    var gap := k' + t' * s';
    assert t * gap == t * k' - t' * k by {
      assert t * (t' * s') == t' * (t * s');
    }
  }

  /** The weighted sum of three half-planes. */
  function Combine(w: V4, h: HalfPlane, g: HalfPlane, f: HalfPlane): HalfPlane {
    HalfPlane(Times(w.x, h.k) + Times(w.y, g.k) + Times(w.z, f.k),
              Times(w.x, h.l) + Times(w.y, g.l) + Times(w.z, f.l),
              Times(w.x, h.m) + Times(w.y, g.m) + Times(w.z, f.m))
  }

  predicate NonNegativeWeights(w: V4) {
    w.x >= 0.0 && w.y >= 0.0 && w.z >= 0.0
  }

  /** Weights for h and g that leave no m, if there are any. */
  function PairWeights(h: HalfPlane, g: HalfPlane): (real, real) {
    if h.m > 0.0 > g.m then (-g.m, h.m) else (0.0, 0.0)
  }

  function OwnWeight(h: HalfPlane): real {
    if h.m == 0.0 then 1.0 else 0.0
  }

  /** The weights of all inequalities without m that follow from one or two of the three. */
  function Eliminations(h: HalfPlane, g: HalfPlane, f: HalfPlane): (ws: seq<V4>)
    ensures |ws| == 9
  {
    var (hg, gh, gf, fg, hf, fh) :=
      (PairWeights(h, g), PairWeights(g, h), PairWeights(g, f), PairWeights(f, g), PairWeights(h, f), PairWeights(f, h));
    [V4(OwnWeight(h), 0.0, 0.0, 0.0), V4(0.0, OwnWeight(g), 0.0, 0.0), V4(0.0, 0.0, OwnWeight(f), 0.0),
     V4(hg.0, hg.1, 0.0, 0.0), V4(gh.1, gh.0, 0.0, 0.0), V4(0.0, gf.0, gf.1, 0.0),
     V4(0.0, fg.1, fg.0, 0.0), V4(hf.0, 0.0, hf.1, 0.0), V4(fh.1, 0.0, fh.0, 0.0)]
  }

  lemma NoM(h: HalfPlane, g: HalfPlane, f: HalfPlane)
    ensures forall i | 0 <= i < 9 ::
              NonNegativeWeights(Eliminations(h, g, f)[i]) && Combine(Eliminations(h, g, f)[i], h, g, f).m == 0.0
  {
    OwnCancels(h);
    OwnCancels(g);
    OwnCancels(f);
    PairCancels(h, g);
    PairCancels(g, h);
    PairCancels(g, f);
    PairCancels(f, g);
    PairCancels(h, f);
    PairCancels(f, h);
    ZeroTimes(h.m);
    ZeroTimes(g.m);
    ZeroTimes(f.m);
    hide Times, PairWeights, OwnWeight;
    var ws := Eliminations(h, g, f);
    forall i | 0 <= i < 9 ensures NonNegativeWeights(ws[i]) && Combine(ws[i], h, g, f).m == 0.0 {
    }
  }

  lemma OwnCancels(h: HalfPlane)
    ensures OwnWeight(h) >= 0.0 && Times(OwnWeight(h), h.m) == 0.0
  {
  }

  lemma PairCancels(h: HalfPlane, g: HalfPlane)
    ensures var w := PairWeights(h, g); w.0 >= 0.0 && w.1 >= 0.0 && Times(w.0, h.m) + Times(w.1, g.m) == 0.0
  {
  }

  /** Three half-planes have a point in common, or weights that leave of their inequalities only that a negative
      number is not negative. */
  lemma {:induction false} Farkas(h: HalfPlane, g: HalfPlane, f: HalfPlane) returns (w: V4)
    requires !Meet([h, g, f])
    ensures NonNegativeWeights(w)
    ensures var sum := Combine(w, h, g, f); sum.l == 0.0 && sum.m == 0.0 && sum.k < 0.0
  {
    var ws := Eliminations(h, g, f);
    NoM(h, g, f);
    var k := seq(9, i requires 0 <= i < 9 => Combine(ws[i], h, g, f).k);
    var l := seq(9, i requires 0 <= i < 9 => Combine(ws[i], h, g, f).l);
    hide Meet, Combine, Eliminations, Times, NonNegativeWeights;
    var ok, x, i, j := Line(k, l);
    if ok {
      FindsY(h, g, f, k, l, x);
      assert false;
    } else if l[i] == 0.0 && k[i] < 0.0 {
      w := ws[i];
    } else {
      w := Mixed(ws[i], ws[j], -l[j], l[i]);
      MixedSum(ws[i], ws[j], -l[j], l[i], h, g, f);
      MixedLine(k[i], k[j], l[i], l[j]);
    }
  }

  lemma MixedLine(k: real, k': real, l: real, l': real)
    ensures Times(-l', l) + Times(l, l') == 0.0
    ensures Times(-l', k) + Times(l, k') == Times(l, k') - Times(l', k)
  {
  }

  function Mixed(u: V4, v: V4, s: real, t: real): V4 {
    V4(Times(s, u.x) + Times(t, v.x), Times(s, u.y) + Times(t, v.y), Times(s, u.z) + Times(t, v.z), 0.0)
  }

  lemma MixedSum(u: V4, v: V4, s: real, t: real, h: HalfPlane, g: HalfPlane, f: HalfPlane)
    requires s >= 0.0 && t >= 0.0 && NonNegativeWeights(u) && NonNegativeWeights(v)
    ensures NonNegativeWeights(Mixed(u, v, s, t))
    ensures var (sum, left, right) := (Combine(Mixed(u, v, s, t), h, g, f), Combine(u, h, g, f), Combine(v, h, g, f));
            && sum.k == Times(s, left.k) + Times(t, right.k)
            && sum.l == Times(s, left.l) + Times(t, right.l)
            && sum.m == Times(s, left.m) + Times(t, right.m)
  {
    NotNegative(s, u.x);
    NotNegative(s, u.y);
    NotNegative(s, u.z);
    NotNegative(t, v.x);
    NotNegative(t, v.y);
    NotNegative(t, v.z);
    MixedTerm(u, v, s, t, h.k, g.k, f.k);
    MixedTerm(u, v, s, t, h.l, g.l, f.l);
    MixedTerm(u, v, s, t, h.m, g.m, f.m);
    hide Times;
  }

  lemma MixedTerm(u: V4, v: V4, s: real, t: real, a: real, b: real, c: real)
    ensures var w := Mixed(u, v, s, t);
            Times(w.x, a) + Times(w.y, b) + Times(w.z, c)
            == Times(s, Times(u.x, a) + Times(u.y, b) + Times(u.z, c))
             + Times(t, Times(v.x, a) + Times(v.y, b) + Times(v.z, c))
  {
    MixedProduct(u.x, v.x, s, t, a);
    MixedProduct(u.y, v.y, s, t, b);
    MixedProduct(u.z, v.z, s, t, c);
    Factor(s, Times(u.x, a), Times(u.y, b), Times(u.z, c), 0.0);
    Factor(t, Times(v.x, a), Times(v.y, b), Times(v.z, c), 0.0);
    assert Times(s, 0.0) == 0.0 && Times(t, 0.0) == 0.0;
    hide Times;
  }

  lemma MixedProduct(u: real, v: real, s: real, t: real, a: real)
    ensures Times(Times(s, u) + Times(t, v), a) == Times(s, Times(u, a)) + Times(t, Times(v, a))
  {
  }

  /** Where the inequalities without m hold, some y meets the three. */
  lemma FindsY(h: HalfPlane, g: HalfPlane, f: HalfPlane, k: seq<real>, l: seq<real>, x: real)
    requires |k| == |l| == 9
    requires forall i | 0 <= i < 9 :: var sum := Combine(Eliminations(h, g, f)[i], h, g, f); k[i] == sum.k && l[i] == sum.l
    requires forall i | 0 <= i < 9 :: k[i] + Times(l[i], x) >= 0.0
    ensures Meet([h, g, f])
  {
    var (a, b, c) := (h.k + Times(h.l, x), g.k + Times(g.l, x), f.k + Times(f.l, x));
    var (values, ms) := ([a, b, c], [h.m, g.m, f.m]);
    forall n | 0 <= n < 9 ensures var w := Eliminations(h, g, f)[n]; Times(w.x, a) + Times(w.y, b) + Times(w.z, c) >= 0.0 {
      CombineAt(Eliminations(h, g, f)[n], h, g, f, x);
    }
    hide Times, Combine, Meet;
    NoneOpposed(h, g, f, a, b, c);
    var ok, y, i, j := Line(values, ms);
    assert ok;
    MeetAt(h, g, f, Spot(x, y), values, ms);
  }

  lemma MeetAt(h: HalfPlane, g: HalfPlane, f: HalfPlane, p: Spot, values: seq<real>, ms: seq<real>)
    requires |values| == |ms| == 3 && ms == [h.m, g.m, f.m]
    requires values == [h.k + Times(h.l, p.x), g.k + Times(g.l, p.x), f.k + Times(f.l, p.x)]
    requires forall i | 0 <= i < 3 :: values[i] + Times(ms[i], p.y) >= 0.0
    ensures Meet([h, g, f])
  {
    hide Times;
    assert values[0] + Times(ms[0], p.y) >= 0.0 && values[1] + Times(ms[1], p.y) >= 0.0
            && values[2] + Times(ms[2], p.y) >= 0.0;
    assert InAll([h, g, f], p);
  }

  lemma NoneOpposed(h: HalfPlane, g: HalfPlane, f: HalfPlane, a: real, b: real, c: real)
    requires forall n | 0 <= n < 9 ::
               var w := Eliminations(h, g, f)[n]; Times(w.x, a) + Times(w.y, b) + Times(w.z, c) >= 0.0
    ensures forall i, j | 0 <= i < 3 && 0 <= j < 3 :: !Opposes([a, b, c], [h.m, g.m, f.m], i, j)
  {
    var ws := Eliminations(h, g, f);
    ZeroTimes(a);
    ZeroTimes(b);
    ZeroTimes(c);
    NotOpposed(h, g, a, b);
    NotOpposed(g, h, b, a);
    NotOpposed(g, f, b, c);
    NotOpposed(f, g, c, b);
    NotOpposed(h, f, a, c);
    NotOpposed(f, h, c, a);
    hide Times, PairWeights, OwnWeight;
    assert Times(ws[0].x, a) >= 0.0 && Times(ws[1].y, b) >= 0.0 && Times(ws[2].z, c) >= 0.0;
    assert Times(ws[3].x, a) + Times(ws[3].y, b) >= 0.0 && Times(ws[4].x, a) + Times(ws[4].y, b) >= 0.0;
    assert Times(ws[5].y, b) + Times(ws[5].z, c) >= 0.0 && Times(ws[6].y, b) + Times(ws[6].z, c) >= 0.0;
    assert Times(ws[7].x, a) + Times(ws[7].z, c) >= 0.0 && Times(ws[8].x, a) + Times(ws[8].z, c) >= 0.0;
  }

  lemma NotOpposed(h: HalfPlane, g: HalfPlane, a: real, b: real)
    ensures var w := PairWeights(h, g);
            Times(w.0, a) + Times(w.1, b) >= 0.0 ==> !(h.m > 0.0 > g.m && Times(h.m, b) - Times(g.m, a) < 0.0)
    ensures Times(OwnWeight(h), a) >= 0.0 ==> !(h.m == 0.0 && a < 0.0)
  {
  }

  lemma CombineAt(w: V4, h: HalfPlane, g: HalfPlane, f: HalfPlane, x: real)
    ensures var sum := Combine(w, h, g, f);
            sum.k + Times(sum.l, x)
            == Times(w.x, h.k + Times(h.l, x)) + Times(w.y, g.k + Times(g.l, x)) + Times(w.z, f.k + Times(f.l, x))
  {
    Distribute(w.x, h.k, h.l, x);
    Distribute(w.y, g.k, g.l, x);
    Distribute(w.z, f.k, f.l, x);
    Distribute3(Times(w.x, h.l), Times(w.y, g.l), Times(w.z, f.l), x);
    hide Times;
  }

  lemma Distribute(w: real, k: real, l: real, x: real)
    ensures Times(w, k + Times(l, x)) == Times(w, k) + Times(Times(w, l), x)
  {
  }

  lemma Distribute3(a: real, b: real, c: real, x: real)
    ensures Times(a + b + c, x) == Times(a, x) + Times(b, x) + Times(c, x)
  {
  }
}
