/** The view frustum and its box tests, with and without the mask of planes already passed. */
module Frustum {
  import opened Boxes
  import opened ClipPlanes
  import opened MaskBits
  import opened Matrix
  import opened Vectors

  datatype State = ClipOut | ClipIn | ClipPartial

  // ---- What the tests should answer ----

  /** The planes that have the whole box strictly behind them, and those that have it all in front. */
  ghost function OutsideOf(planes: seq<V4>, lo: V4, hi: V4): set<nat> {
    set i: nat | i < |planes| && Outside(planes[i], lo, hi)
  }

  ghost function InsideOf(planes: seq<V4>, lo: V4, hi: V4): set<nat> {
    set i: nat | i < |planes| && Inside(planes[i], lo, hi)
  }

  /** The same told by the corners, for any two ends. */
  function BehindOf(planes: seq<V4>, lo: V4, hi: V4): set<nat> {
    set i: nat | i < |planes| && Behind(planes[i], lo, hi)
  }

  function AheadOf(planes: seq<V4>, lo: V4, hi: V4): set<nat> {
    set i: nat | i < |planes| && Ahead(planes[i], lo, hi)
  }

  lemma CornersTell(planes: seq<V4>, lo: V4, hi: V4)
    requires IsBox(lo, hi)
    ensures BehindOf(planes, lo, hi) == OutsideOf(planes, lo, hi) && AheadOf(planes, lo, hi) == InsideOf(planes, lo, hi)
    ensures OutsideOf(planes, lo, hi) !! InsideOf(planes, lo, hi)
  {
    forall i: nat | i < |planes|
      ensures Outside(planes[i], lo, hi) <==> Behind(planes[i], lo, hi)
      ensures Inside(planes[i], lo, hi) <==> Ahead(planes[i], lo, hi)
      ensures !(Outside(planes[i], lo, hi) && Inside(planes[i], lo, hi))
    {
      CornersDecide(planes[i], lo, hi);
    }
    hide Behind, Ahead, Outside, Inside;
  }

  /** Where a box is with respect to the first n planes, from those that have it behind and those that have it
      ahead. */
  function StateBy(n: nat, behind: set<nat>, ahead: set<nat>): State {
    if exists i: nat :: i < n && i in behind then ClipOut
    else if forall i: nat | i < n :: i in ahead then ClipIn
    else ClipPartial
  }

  ghost predicate SomeOutside(planes: seq<V4>, n: nat, lo: V4, hi: V4) {
    exists i: nat | i < n :: i in OutsideOf(planes, lo, hi)
  }

  ghost function StateOf(planes: seq<V4>, n: nat, lo: V4, hi: V4): State {
    StateBy(n, OutsideOf(planes, lo, hi), InsideOf(planes, lo, hi))
  }

  /** The bits of a mask are true of a box. */
  ghost predicate MaskHolds(planes: seq<V4>, mask: bv32, lo: V4, hi: V4)
    requires |planes| <= PLANES_NUM
  {
    forall i: nat | i < |planes| && Bit(mask, i) :: i in InsideOf(planes, lo, hi)
  }

  /** What a test that skips and sets bits of the mask does: the answer counts the planes without a bit,
      and up to the plane that ended the test a bit is set for each plane with the box ahead. */
  ghost predicate Stepped(size: nat, n: nat, behind: set<nat>, ahead: set<nat>, before: bv32, state: State, after: bv32)
    requires n <= size <= PLANES_NUM
  {
    && (state == ClipOut <==> exists i: nat | i < n :: !Bit(before, i) && i in behind)
    && (state != ClipOut ==> (state == ClipIn <==> forall i: nat | i < n :: Bit(before, i) || i in ahead))
    && (forall i: nat | i < size :: Bit(before, i) ==> Bit(after, i))
    && (forall i: nat | i < size :: Bit(after, i) ==> Bit(before, i) || (i < n && i in ahead))
    && (state != ClipOut ==> forall i: nat | i < n :: i in ahead ==> Bit(after, i))
  }

  /** A true mask does not change the answer, and stays true. */
  lemma TrueMaskIsHarmless(planes: seq<V4>, n: nat, lo: V4, hi: V4, before: bv32, state: State, after: bv32)
    requires n <= |planes| <= PLANES_NUM && IsBox(lo, hi) && MaskHolds(planes, before, lo, hi)
    requires Stepped(|planes|, n, OutsideOf(planes, lo, hi), InsideOf(planes, lo, hi), before, state, after)
    ensures state == StateOf(planes, n, lo, hi) && MaskHolds(planes, after, lo, hi)
  {
    CornersTell(planes, lo, hi);
    hide Bit, OutsideOf, InsideOf, BehindOf, AheadOf;
  }

  /** A true mask stays true for every box within. */
  lemma MaskHoldsWithin(planes: seq<V4>, mask: bv32, lo: V4, hi: V4, innerLo: V4, innerHi: V4)
    requires |planes| <= PLANES_NUM && MaskHolds(planes, mask, lo, hi)
    requires InBox(innerLo, lo, hi) && InBox(innerHi, lo, hi)
    ensures MaskHolds(planes, mask, innerLo, innerHi)
  {
    hide Bit, Inside, Outside, InBox;
    forall i: nat | i < |planes| && Bit(mask, i) ensures i in InsideOf(planes, innerLo, innerHi) {
      SmallerBox(planes[i], lo, hi, innerLo, innerHi);
    }
  }

  datatype Box = Box(lo: V4, hi: V4)

  /** Boxes each lying within the one before. */
  ghost predicate Nested(boxes: seq<Box>) {
    && (forall k | 0 <= k < |boxes| :: IsBox(boxes[k].lo, boxes[k].hi))
    && (forall k | 0 < k < |boxes| ::
          InBox(boxes[k].lo, boxes[k - 1].lo, boxes[k - 1].hi) && InBox(boxes[k].hi, boxes[k - 1].lo, boxes[k - 1].hi))
  }

  /** Handing the mask down a chain of nested boxes of any depth, starting from none, gives each box the
      answer it would get without a mask. */
  lemma {:induction false} MaskedChainAgrees(planes: seq<V4>, n: nat, boxes: seq<Box>, masks: seq<bv32>,
          states: seq<State>, k: nat)
    requires n <= |planes| <= PLANES_NUM && Nested(boxes)
    requires |masks| == |boxes| + 1 && |states| == |boxes| && masks[0] == 0
    requires forall j: nat | j < |boxes| ::
               Stepped(|planes|, n, OutsideOf(planes, boxes[j].lo, boxes[j].hi), InsideOf(planes, boxes[j].lo, boxes[j].hi),
                       masks[j], states[j], masks[j + 1])
    requires k < |boxes|
    ensures states[k] == StateOf(planes, n, boxes[k].lo, boxes[k].hi)
    ensures MaskHolds(planes, masks[k + 1], boxes[k].lo, boxes[k].hi)
  {
    hide Stepped, StateOf, InBox, MaskHolds, OutsideOf, InsideOf;
    if k == 0 {
      EmptyMaskHolds(planes, boxes[0].lo, boxes[0].hi);
    } else {
      MaskedChainAgrees(planes, n, boxes, masks, states, k - 1);
      MaskHoldsWithin(planes, masks[k], boxes[k - 1].lo, boxes[k - 1].hi, boxes[k].lo, boxes[k].hi);
    }
    TrueMaskIsHarmless(planes, n, boxes[k].lo, boxes[k].hi, masks[k], states[k], masks[k + 1]);
  }

  lemma EmptyMaskHolds(planes: seq<V4>, lo: V4, hi: V4)
    requires |planes| <= PLANES_NUM
    ensures MaskHolds(planes, 0, lo, hi)
  {
    hide Bit, Inside;
    forall i: nat | i < |planes| ensures !Bit(0, i) {
      NoBits(i);
    }
  }

  // ---- The frustum ----

  class Frustum {
    const planes: array<V4>
    const masks: array<Mask>

    ghost predicate Shape() {
      planes.Length == PLANES_NUM && masks.Length == PLANES_NUM
    }

    /** Every mask tells the signs of its plane's normal. */
    ghost predicate Valid()
      reads planes, masks
    {
      Shape() && forall i | 0 <= i < PLANES_NUM :: IsMaskOf(masks[i], planes[i])
    }

    constructor ()
      ensures Shape() && fresh(planes) && fresh(masks)
    {
      planes := new V4[PLANES_NUM];
      masks := new Mask[PLANES_NUM];
    }

    /** `reversed` is what MvpToPlanes returned; the caller does not get it. */
    method Setup(depth: NdcDepth, mvp: M4, sqrt: real -> real, rsqrt: real -> real) returns (ghost reversed: bool)
      requires Shape() && IsRoot(sqrt) && IsReciprocalRoot(rsqrt)
      modifies planes, masks
      ensures Valid()
      ensures PlanesOf(depth, mvp, planes[..], reversed, sqrt)
    {
      hide PlanesOf, IsRoot, IsReciprocalRoot;
      reversed := MvpToPlanes(depth, mvp, planes, sqrt, rsqrt);
      var i := 0;
      while i < PLANES_NUM
        invariant 0 <= i <= PLANES_NUM
        invariant forall j | 0 <= j < i :: IsMaskOf(masks[j], planes[j])
        invariant PlanesOf(depth, mvp, planes[..], reversed, sqrt)
      {
        masks[i] := Greater(planes[i], ZERO);
        i := i + 1;
      }
    }

    /** Moves the planes to a new origin; the masks need no update. */
    method Translate(pos: V4)
      requires Valid()
      modifies planes
      ensures Valid()
      ensures forall i: nat, p: V4 | i < PLANES_NUM :: Distance(planes[i], p) == Distance(old(planes[i]), Add(p, pos))
    {
      var i := 0;
      while i < PLANES_NUM
        invariant 0 <= i <= PLANES_NUM
        invariant forall j | 0 <= j < i :: planes[j] == Moved(old(planes[j]), pos)
        invariant forall j | i <= j < PLANES_NUM :: planes[j] == old(planes[j])
      {
        planes[i] := planes[i].(w := Dot43(planes[i], pos));
        i := i + 1;
      }
      hide Distance;
      forall i: nat, p: V4 | i < PLANES_NUM
        ensures Distance(planes[i], p) == Distance(old(planes[i]), Add(p, pos))
      {
        MovedDistance(old(planes[i]), pos, p);
      }
    }

    method SetNearFar(zNearNeg: real, zFarNeg: real)
      requires Valid()
      modifies planes
      ensures Valid()
      ensures planes[..] == old(planes[..])[PLANE_NEAR := old(planes[PLANE_NEAR]).(w := zNearNeg)]
                                           [PLANE_FAR := old(planes[PLANE_FAR]).(w := -zFarNeg)]
    {
      planes[PLANE_NEAR] := planes[PLANE_NEAR].(w := zNearNeg);
      planes[PLANE_FAR] := planes[PLANE_FAR].(w := -zFarNeg);
    }

    method SetFar(zFarNeg: real)
      requires Valid()
      modifies planes
      ensures Valid()
      ensures planes[..] == old(planes[..])[PLANE_FAR := old(planes[PLANE_FAR]).(w := -zFarNeg)]
    {
      planes[PLANE_FAR] := planes[PLANE_FAR].(w := -zFarNeg);
    }

    method CheckAabb(minv: V4, maxv: V4, n: nat) returns (visible: bool)
      requires Valid() && n <= PLANES_NUM
      ensures visible <==> forall i: nat | i < n :: i !in BehindOf(planes[..], minv, maxv)
      ensures IsBox(minv, maxv) ==> (visible <==> !SomeOutside(planes[..], n, minv, maxv))
    {
      hide BehindOf, OutsideOf, Dot44, Select, SetW1, IsMaskOf, IsBox;
      if IsBox(minv, maxv) {
        CornersTell(planes[..], minv, maxv);
      }
      var min1 := SetW1(minv);
      var max1 := SetW1(maxv);
      var i := 0;
      while i < n
        invariant 0 <= i <= n
        invariant forall j: nat | j < i :: j !in BehindOf(planes[..], minv, maxv)
      {
        SelectedTests(planes[..], i, masks[i], minv, maxv);
        var v := Select(min1, max1, masks[i]);
        if Dot44(planes[i], v) < 0.0 {
          return false;
        }
        i := i + 1;
      }
      return true;
    }

    method CheckAabbMask(minv: V4, maxv: V4, mask: bv32, n: nat) returns (visible: bool)
      requires Valid() && n <= PLANES_NUM
      ensures visible <==> forall i: nat | i < n :: Bit(mask, i) || i !in BehindOf(planes[..], minv, maxv)
      ensures IsBox(minv, maxv) ==>
                (visible <==> forall i: nat | i < n :: Bit(mask, i) || i !in OutsideOf(planes[..], minv, maxv))
    {
      hide BehindOf, OutsideOf, Dot44, Select, SetW1, IsMaskOf, IsBox, Bit;
      if IsBox(minv, maxv) {
        CornersTell(planes[..], minv, maxv);
      }
      var min1 := SetW1(minv);
      var max1 := SetW1(maxv);
      var i := 0;
      while i < n
        invariant 0 <= i <= n
        invariant forall j: nat | j < i :: Bit(mask, j) || j !in BehindOf(planes[..], minv, maxv)
      {
        if !Bit(mask, i) {
          SelectedTests(planes[..], i, masks[i], minv, maxv);
          var v := Select(min1, max1, masks[i]);
          if Dot44(planes[i], v) < 0.0 {
            return false;
          }
        }
        i := i + 1;
      }
      return true;
    }

    method CheckAabbState(minv: V4, maxv: V4, n: nat) returns (clip: State)
      requires Valid() && n <= PLANES_NUM
      ensures clip == StateBy(n, BehindOf(planes[..], minv, maxv), AheadOf(planes[..], minv, maxv))
      ensures IsBox(minv, maxv) ==> clip == StateOf(planes[..], n, minv, maxv)
    {
      hide Dot44, Select, SetW1, IsMaskOf, IsBox, BehindOf, AheadOf, OutsideOf, InsideOf;
      if IsBox(minv, maxv) {
        CornersTell(planes[..], minv, maxv);
      }
      var min1 := SetW1(minv);
      var max1 := SetW1(maxv);
      clip := ClipIn;
      var i := 0;
      while i < n
        invariant 0 <= i <= n && clip != ClipOut
        invariant forall j: nat | j < i :: j !in BehindOf(planes[..], minv, maxv)
        invariant clip == ClipIn <==> forall j: nat | j < i :: j in AheadOf(planes[..], minv, maxv)
      {
        SelectedTests(planes[..], i, masks[i], minv, maxv);
        var v := Select(min1, max1, masks[i]);
        if Dot44(planes[i], v) < 0.0 {
          return ClipOut;
        }
        v := Select(max1, min1, masks[i]);
        if Dot44(planes[i], v) < 0.0 {
          clip := ClipPartial;
        }
        i := i + 1;
      }
    }

    method CheckAabbMaskState(minv: V4, maxv: V4, mask0: bv32, n: nat) returns (result: State, mask: bv32)
      requires Valid() && n <= PLANES_NUM
      ensures Stepped(PLANES_NUM, n, BehindOf(planes[..], minv, maxv), AheadOf(planes[..], minv, maxv), mask0, result, mask)
      ensures IsBox(minv, maxv) ==>
                Stepped(PLANES_NUM, n, OutsideOf(planes[..], minv, maxv), InsideOf(planes[..], minv, maxv),
                        mask0, result, mask)
    {
      hide Dot44, Select, SetW1, IsMaskOf, IsBox, Bit, PlaneBit, BehindOf, AheadOf, OutsideOf, InsideOf;
      if IsBox(minv, maxv) {
        CornersTell(planes[..], minv, maxv);
      }
      mask := mask0;
      var min1 := SetW1(minv);
      var max1 := SetW1(maxv);
      result := ClipIn;
      ghost var ahead := AheadOf(planes[..], minv, maxv);
      var i := 0;
      while i < n
        invariant 0 <= i <= n && result != ClipOut
        invariant forall j: nat | j < i :: Bit(mask0, j) || j !in BehindOf(planes[..], minv, maxv)
        invariant result == ClipIn <==> forall j: nat | j < i :: Bit(mask0, j) || j in ahead
        invariant forall j: nat | j < PLANES_NUM :: Bit(mask, j) <==> Bit(mask0, j) || (j < i && j in ahead)
      {
        if !Bit(mask, i) {
          SelectedTests(planes[..], i, masks[i], minv, maxv);
          var v := Select(min1, max1, masks[i]);
          if Dot44(planes[i], v) < 0.0 {
            result := ClipOut;
            return;
          }
          v := Select(max1, min1, masks[i]);
          if Dot44(planes[i], v) < 0.0 {
            result := ClipPartial;
          } else {
            forall j: nat | j < PLANES_NUM ensures Bit(Or(mask, PlaneBit(i)), j) <==> Bit(mask, j) || i == j {
              SetBit(mask, i, j);
            }
            mask := Or(mask, PlaneBit(i));
          }
        }
        i := i + 1;
      }
    }
  }

  /** The two selections of a test look at the farthest and at the nearest corner. */
  lemma SelectedTests(planes: seq<V4>, i: nat, mask: Mask, lo: V4, hi: V4)
    requires i < |planes| && IsMaskOf(mask, planes[i])
    ensures Dot44(planes[i], Select(SetW1(lo), SetW1(hi), mask)) < 0.0 <==> i in BehindOf(planes, lo, hi)
    ensures Dot44(planes[i], Select(SetW1(hi), SetW1(lo), mask)) >= 0.0 <==> i in AheadOf(planes, lo, hi)
  {
    SelectedCorner(planes[i], mask, lo, hi);
    SelectedCorner(planes[i], mask, hi, lo);
    hide Dot44, Select, SetW1, Distance, Farthest, IsMaskOf;
  }

  function Moved(plane: V4, pos: V4): V4 {
    plane.(w := Dot43(plane, pos))
  }

  lemma MovedDistance(plane: V4, pos: V4, p: V4)
    ensures Distance(Moved(plane, pos), p) == Distance(plane, Add(p, pos))
  {
  }

  /** Testing a box against the moved frustum is testing the moved box against the original one. */
  lemma TranslatedTests(planes: seq<V4>, moved: seq<V4>, pos: V4, n: nat, lo: V4, hi: V4)
    requires n <= |planes| == |moved|
    requires forall i: nat, p: V4 | i < |planes| :: Distance(moved[i], p) == Distance(planes[i], Add(p, pos))
    ensures StateOf(moved, n, lo, hi) == StateOf(planes, n, Add(lo, pos), Add(hi, pos))
  {
    hide Outside, Inside, StateBy;
    forall i: nat | i < |planes|
      ensures Outside(moved[i], lo, hi) <==> Outside(planes[i], Add(lo, pos), Add(hi, pos))
      ensures Inside(moved[i], lo, hi) <==> Inside(planes[i], Add(lo, pos), Add(hi, pos))
    {
      TranslatedPlane(planes[i], moved[i], pos, lo, hi);
    }
    assert OutsideOf(moved, lo, hi) == OutsideOf(planes, Add(lo, pos), Add(hi, pos));
    assert InsideOf(moved, lo, hi) == InsideOf(planes, Add(lo, pos), Add(hi, pos));
  }

  lemma TranslatedPlane(plane: V4, moved: V4, pos: V4, lo: V4, hi: V4)
    requires forall p: V4 :: Distance(moved, p) == Distance(plane, Add(p, pos))
    ensures Outside(moved, lo, hi) <==> Outside(plane, Add(lo, pos), Add(hi, pos))
    ensures Inside(moved, lo, hi) <==> Inside(plane, Add(lo, pos), Add(hi, pos))
  {
    hide Distance;
    forall p: V4 | InBox(p, Add(lo, pos), Add(hi, pos))
      ensures InBox(Sub(p, pos), lo, hi) && Distance(plane, p) == Distance(moved, Sub(p, pos))
    {
      assert Add(Sub(p, pos), pos) == p;
    }
    forall p: V4 | InBox(p, lo, hi) ensures InBox(Add(p, pos), Add(lo, pos), Add(hi, pos)) {
    }
  }
}
