/** The names of a matrix's variants. They decide the files that are written, so two variants with one name
    overwrite each other; nothing in expandVariantMatrix excludes that. */
module VariantNames {
  import opened Powers
  import opened VariantMatrix
  import opened Wrappers

  // ----- Joined parts -----

  predicate NoSeparator(part: string) {
    '_' !in part
  }

  /** The joined name grows by an underscore and the next part. */
  lemma {:induction false} JoinAppends(parts: seq<string>, part: string)
    ensures Join([]) == "" && Join(parts + [part]) == Join(parts) + "_" + part
  {
    if parts == [] {
      assert [part][1..] == [] && parts + [part] == [part];
    } else {
      assert (parts + [part])[1..] == parts[1..] + [part];
      JoinAppends(parts[1..], part);
      assert "_" + parts[0] + (Join(parts[1..]) + "_" + part) == "_" + parts[0] + Join(parts[1..]) + "_" + part;
    }
  }

  /** Where no part holds the separator, the joined text tells the parts. */
  lemma {:induction false} JoinTellsParts(a: seq<string>, b: seq<string>)
    requires (forall p :: p in a ==> NoSeparator(p)) && (forall p :: p in b ==> NoSeparator(p))
    requires Join(a) == Join(b)
    ensures a == b
  {
    if a != [] && b != [] {
      var s, t := a[0] + Join(a[1..]), b[0] + Join(b[1..]);
      assert Join(a) == "_" + s && Join(b) == "_" + t;
      assert s == Join(a)[1..] && t == Join(b)[1..];
      FirstPartEnds(a[0], Join(a[1..]), b[0], Join(b[1..]));
      JoinTellsParts(a[1..], b[1..]);
      assert a == [a[0]] + a[1..] && b == [b[0]] + b[1..];
    }
  }

  predicate StartsNewPart(s: string) {
    s != "" ==> s[0] == '_'
  }

  lemma FirstPartEnds(p: string, s: string, q: string, t: string)
    requires NoSeparator(p) && NoSeparator(q) && StartsNewPart(s) && StartsNewPart(t) && p + s == q + t
    ensures p == q && s == t
  {
    NotShorter(p, s, q, t);
    NotShorter(q, t, p, s);
    assert p == (p + s)[..|p|] && q == (q + t)[..|q|];
    SameFront(p, s, t);
  }

  lemma NotShorter(p: string, s: string, q: string, t: string)
    requires NoSeparator(q) && StartsNewPart(s) && p + s == q + t
    ensures |p| >= |q|
  {
    assert forall i :: 0 <= i < |q| ==> (q + t)[i] == q[i];
    assert s != "" ==> (p + s)[|p|] == s[0];
    assert |p + s| == |q + t|;
  }

  lemma SameFront<T>(front: seq<T>, s: seq<T>, t: seq<T>)
    ensures front + s == front + t <==> s == t
  {
    if front + s == front + t {
      assert s == (front + s)[|front|..] && t == (front + t)[|front|..];
    }
  }

  // ----- Which choices share a name -----

  lemma {:induction false} NamesArePicked(splitext: SplitExt, picks: seq<AxisValue>, name: string) returns (i: nat)
    requires name in AllNames(splitext, picks)
    ensures i < |picks| && NameOf(splitext, picks[i]) == name != ""
  {
    if NameOf(splitext, picks[0]) == name != "" {
      i := 0;
    } else {
      var j := NamesArePicked(splitext, picks[1..], name);
      i := j + 1;
    }
  }

  lemma {:induction false} NoNames(splitext: SplitExt, picks: seq<AxisValue>)
    requires forall i :: 0 <= i < |picks| ==> NameOf(splitext, picks[i]) == ""
    ensures AllNames(splitext, picks) == []
  {
    if picks != [] {
      NoNames(splitext, picks[1..]);
    }
  }

  /** If one pick only has a name, that is all there is. */
  lemma {:induction false} OneName(splitext: SplitExt, picks: seq<AxisValue>, i: nat)
    requires i < |picks| && NameOf(splitext, picks[i]) != ""
    requires forall j :: 0 <= j < |picks| && j != i ==> NameOf(splitext, picks[j]) == ""
    ensures AllNames(splitext, picks) == [NameOf(splitext, picks[i])]
  {
    if i == 0 {
      NoNames(splitext, picks[1..]);
    } else {
      OneName(splitext, picks[1..], i - 1);
    }
  }

  lemma {:induction false} SameNames(splitext: SplitExt, a: seq<AxisValue>, b: seq<AxisValue>)
    requires |a| == |b| && forall i :: 0 <= i < |a| ==> NameOf(splitext, a[i]) == NameOf(splitext, b[i])
    ensures AllNames(splitext, a) == AllNames(splitext, b)
  {
    if a != [] {
      SameNames(splitext, a[1..], b[1..]);
    }
  }

  /** Two values of one axis never have the same name part. */
  ghost predicate ApartOnAxes(splitext: SplitExt, axes: seq<seq<AxisValue>>) {
    forall i, v, w :: 0 <= i < |axes| && 0 <= v < w < |axes[i]| ==>
      NameOf(splitext, axes[i][v]) != NameOf(splitext, axes[i][w])
  }

  /** No two axes share a name part, other than the empty one. */
  ghost predicate ApartAcrossAxes(splitext: SplitExt, axes: seq<seq<AxisValue>>) {
    forall i, j, v, w ::
      0 <= i < j < |axes| && 0 <= v < |axes[i]| && 0 <= w < |axes[j]| && NameOf(splitext, axes[i][v]) != "" ==>
        NameOf(splitext, axes[i][v]) != NameOf(splitext, axes[j][w])
  }

  /** No name part holds the separator. */
  ghost predicate SeparatorFree(splitext: SplitExt, axes: seq<seq<AxisValue>>) {
    forall i, v :: 0 <= i < |axes| && 0 <= v < |axes[i]| ==> NoSeparator(NameOf(splitext, axes[i][v]))
  }

  /** Every axis has a value that adds nothing to the name, as a "-" does. */
  ghost predicate EveryAxisSilent(splitext: SplitExt, axes: seq<seq<AxisValue>>) {
    forall i :: 0 <= i < |axes| ==> exists v :: 0 <= v < |axes[i]| && NameOf(splitext, axes[i][v]) == ""
  }

  /** Choices that differ have different lists of name parts, if the parts are apart. */
  lemma {:induction false} PartsTellChoice(splitext: SplitExt, axes: seq<seq<AxisValue>>, d: seq<nat>, e: seq<nat>)
    requires ApartOnAxes(splitext, axes) && ApartAcrossAxes(splitext, axes) && IsChoice(axes, d) && IsChoice(axes, e)
    requires AllNames(splitext, Pick(axes, d)) == AllNames(splitext, Pick(axes, e))
    ensures d == e
  {
    hide NameOf;
    if axes != [] {
      var rest := axes[1..];
      PickSplits(axes, d);
      PickSplits(axes, e);
      FirstDigitsAgree(splitext, axes, d, e);
      assert NameOf(splitext, axes[0][d[0]]) == NameOf(splitext, axes[0][e[0]]);
      assert d[0] == e[0];
      assert ApartOnAxes(splitext, rest) by {
        assert forall i :: 0 <= i < |rest| ==> rest[i] == axes[i + 1];
      }
      assert ApartAcrossAxes(splitext, rest) by {
        assert forall i :: 0 <= i < |rest| ==> rest[i] == axes[i + 1];
      }
      var name := NameOf(splitext, axes[0][d[0]]);
      SameFront(if name != "" then [name] else [], AllNames(splitext, Pick(rest, d[1..])),
          AllNames(splitext, Pick(rest, e[1..])));
      PartsTellChoice(splitext, rest, d[1..], e[1..]);
      assert d == [d[0]] + d[1..] && e == [e[0]] + e[1..];
    }
  }

  lemma PickSplits(axes: seq<seq<AxisValue>>, d: seq<nat>)
    requires axes != [] && IsChoice(axes, d)
    ensures IsChoice(axes[1..], d[1..])
    ensures Pick(axes, d) == [axes[0][d[0]]] + Pick(axes[1..], d[1..])
    ensures Pick(axes, d)[1..] == Pick(axes[1..], d[1..]) && Pick(axes, d)[0] == axes[0][d[0]]
  {
  }

  lemma {:induction false} FirstDigitsAgree(splitext: SplitExt, axes: seq<seq<AxisValue>>, d: seq<nat>, e: seq<nat>)
    requires axes != [] && ApartAcrossAxes(splitext, axes) && IsChoice(axes, d) && IsChoice(axes, e)
    requires AllNames(splitext, Pick(axes, d)) == AllNames(splitext, Pick(axes, e))
    ensures NameOf(splitext, axes[0][d[0]]) == NameOf(splitext, axes[0][e[0]])
  {
    PickSplits(axes, d);
    PickSplits(axes, e);
    var n, m := NameOf(splitext, axes[0][d[0]]), NameOf(splitext, axes[0][e[0]]);
    hide NameOf;
    if n != m && n != "" {
      assert AllNames(splitext, Pick(axes, d))[0] == n;
      NameIsOnFirst(splitext, axes, e, n, d[0]);
    } else if n != m {
      assert AllNames(splitext, Pick(axes, e))[0] == m;
      NameIsOnFirst(splitext, axes, d, m, e[0]);
    }
  }

  /** A name part of the first axis can only come from the first axis. */
  lemma {:induction false} NameIsOnFirst(splitext: SplitExt, axes: seq<seq<AxisValue>>, d: seq<nat>, name: string, v: nat)
    requires axes != [] && ApartAcrossAxes(splitext, axes) && IsChoice(axes, d)
    requires v < |axes[0]| && NameOf(splitext, axes[0][v]) == name != "" && name in AllNames(splitext, Pick(axes, d))
    ensures NameOf(splitext, axes[0][d[0]]) == name
  {
    var i := NamesArePicked(splitext, Pick(axes, d), name);
    assert Pick(axes, d)[i] == axes[i][d[i]];
  }

  // ----- Which variants share a name -----

  ghost predicate NamesDiffer(variants: seq<Variant>) {
    forall k, l :: 0 <= k < l < |variants| ==> variants[k].name != variants[l].name
  }

  /** The name parts of variant k. */
  function PartsOf(splitext: SplitExt, axes: seq<seq<AxisValue>>, k: nat): seq<string>
    requires IsChoice(axes, Digits(axes, k))
  {
    AllNames(splitext, Pick(axes, Digits(axes, k)))
  }

  /** Two variants share a name exactly if their joined parts agree; without separators in the parts, exactly if
      they have the same parts in the same order. */
  lemma {:induction false} SameNameExactly(splitext: SplitExt, m: Matrix, inputType: string, k: nat, l: nat)
    requires WellFormed(m) && Expand(splitext, m, inputType).Ok? && forall n :: n in AxisOrder(m) ==> n in m.axes
    requires k < Size(OrderedAxes(m)) && l < Size(OrderedAxes(m))
    ensures IsChoice(OrderedAxes(m), Digits(OrderedAxes(m), k)) && IsChoice(OrderedAxes(m), Digits(OrderedAxes(m), l))
    ensures |Expand(splitext, m, inputType).value| == Size(OrderedAxes(m))
    ensures var variants, axes := Expand(splitext, m, inputType).value, OrderedAxes(m);
            && (variants[k].name == variants[l].name <==>
                  Join(PartsOf(splitext, axes, k)) == Join(PartsOf(splitext, axes, l)))
            && (SeparatorFree(splitext, axes) ==>
                  (variants[k].name == variants[l].name <==> PartsOf(splitext, axes, k) == PartsOf(splitext, axes, l)))
  {
    var axes := OrderedAxes(m);
    VariantHoldsDigits(splitext, m, inputType, k);
    VariantHoldsDigits(splitext, m, inputType, l);
    hide Expand, Digits, AllNames, Pick, StageOf, WellFormed;
    SameFront(m.base, Join(PartsOf(splitext, axes, k)), Join(PartsOf(splitext, axes, l)));
    if SeparatorFree(splitext, axes) && Join(PartsOf(splitext, axes, k)) == Join(PartsOf(splitext, axes, l)) {
      PartsAreFree(splitext, axes, k);
      PartsAreFree(splitext, axes, l);
      JoinTellsParts(PartsOf(splitext, axes, k), PartsOf(splitext, axes, l));
    }
  }

  lemma PartsAreFree(splitext: SplitExt, axes: seq<seq<AxisValue>>, k: nat)
    requires SeparatorFree(splitext, axes) && IsChoice(axes, Digits(axes, k))
    ensures forall p :: p in PartsOf(splitext, axes, k) ==> NoSeparator(p)
  {
    var d := Digits(axes, k);
    hide NameOf, Digits, AllNames, NoSeparator;
    forall p | p in PartsOf(splitext, axes, k) ensures NoSeparator(p) {
      var i := NamesArePicked(splitext, Pick(axes, d), p);
      assert Pick(axes, d)[i] == axes[i][d[i]];
    }
  }

  /** All names differ if no part holds the separator, no axis has a part twice and no two axes share one.
      The second condition is always needed, and the third wherever every axis has a silent value. */
  lemma {:induction false} NamesDifferExactly(splitext: SplitExt, m: Matrix, inputType: string)
    requires WellFormed(m) && Expand(splitext, m, inputType).Ok? && forall n :: n in AxisOrder(m) ==> n in m.axes
    ensures var variants, axes := Expand(splitext, m, inputType).value, OrderedAxes(m);
            && (SeparatorFree(splitext, axes) && ApartOnAxes(splitext, axes) && ApartAcrossAxes(splitext, axes)
                ==> NamesDiffer(variants))
            && (NamesDiffer(variants) ==> ApartOnAxes(splitext, axes))
            && (NamesDiffer(variants) && EveryAxisSilent(splitext, axes) ==> ApartAcrossAxes(splitext, axes))
  {
    var axes, variants := OrderedAxes(m), Expand(splitext, m, inputType).value;
    hide Expand, WellFormed;
    if SeparatorFree(splitext, axes) && ApartOnAxes(splitext, axes) && ApartAcrossAxes(splitext, axes) {
      ApartNamesDiffer(splitext, m, inputType);
    }
    if NamesDiffer(variants) {
      if !ApartOnAxes(splitext, axes) {
        var d, e := TwoOnOneAxis(splitext, m, axes);
        OneNameTwice(splitext, m, inputType, d, e);
      }
      if EveryAxisSilent(splitext, axes) && !ApartAcrossAxes(splitext, axes) {
        var d, e := OneOnTwoAxes(splitext, axes);
        OneNameTwice(splitext, m, inputType, d, e);
      }
    }
  }

  lemma {:induction false} ApartNamesDiffer(splitext: SplitExt, m: Matrix, inputType: string)
    requires WellFormed(m) && Expand(splitext, m, inputType).Ok? && forall n :: n in AxisOrder(m) ==> n in m.axes
    requires var axes := OrderedAxes(m);
             SeparatorFree(splitext, axes) && ApartOnAxes(splitext, axes) && ApartAcrossAxes(splitext, axes)
    ensures NamesDiffer(Expand(splitext, m, inputType).value)
  {
    var axes, variants := OrderedAxes(m), Expand(splitext, m, inputType).value;
    hide Expand, WellFormed, SeparatorFree, ApartOnAxes, ApartAcrossAxes, Digits;
    VariantCount(splitext, m, inputType);
    forall k: nat, l: nat | k < l < |variants| ensures variants[k].name != variants[l].name {
      SameNameExactly(splitext, m, inputType, k, l);
      if variants[k].name == variants[l].name {
        PartsTellChoice(splitext, axes, Digits(axes, k), Digits(axes, l));
        DigitsAreChoice(axes, k);
        DigitsAreChoice(axes, l);
      }
    }
  }

  lemma VariantCount(splitext: SplitExt, m: Matrix, inputType: string)
    requires WellFormed(m) && Expand(splitext, m, inputType).Ok? && forall n :: n in AxisOrder(m) ==> n in m.axes
    ensures |Expand(splitext, m, inputType).value| == Size(OrderedAxes(m))
  {
    WithAxesLength(splitext, m.common, OrderedAxes(m));
    FinishEntries(m.base, inputType, WithAxes(splitext, m.common, OrderedAxes(m)).value);
  }

  /** Two choices with the same parts make two variants with the same name. */
  lemma {:induction false} OneNameTwice(splitext: SplitExt, m: Matrix, inputType: string, d: seq<nat>, e: seq<nat>)
    requires WellFormed(m) && Expand(splitext, m, inputType).Ok? && forall n :: n in AxisOrder(m) ==> n in m.axes
    requires IsChoice(OrderedAxes(m), d) && IsChoice(OrderedAxes(m), e) && d != e
    requires AllNames(splitext, Pick(OrderedAxes(m), d)) == AllNames(splitext, Pick(OrderedAxes(m), e))
    ensures !NamesDiffer(Expand(splitext, m, inputType).value)
  {
    var axes, variants := OrderedAxes(m), Expand(splitext, m, inputType).value;
    var k, l := Position(axes, d), Position(axes, e);
    PositionInRange(axes, d);
    PositionInRange(axes, e);
    SameNameExactly(splitext, m, inputType, k, l);
    hide Expand, WellFormed, AllNames, Digits;
    assert variants[k].name == variants[l].name && k != l;
  }

  lemma TwoOnOneAxis(splitext: SplitExt, m: Matrix, axes: seq<seq<AxisValue>>) returns (d: seq<nat>, e: seq<nat>)
    requires !ApartOnAxes(splitext, axes) && WellFormed(m) && (forall n :: n in AxisOrder(m) ==> n in m.axes)
            && axes == OrderedAxes(m)
    ensures IsChoice(axes, d) && IsChoice(axes, e) && d != e
    ensures AllNames(splitext, Pick(axes, d)) == AllNames(splitext, Pick(axes, e))
  {
    hide NameOf, AllNames;
    var i: nat, v: nat, w: nat :| i < |axes| && v < w < |axes[i]|
            && NameOf(splitext, axes[i][v]) == NameOf(splitext, axes[i][w]);
    assert forall j :: 0 <= j < |axes| ==> axes[j] != [];
    var zeros: seq<nat> := seq(|axes|, j => 0);
    d, e := zeros[i := v], zeros[i := w];
    assert d[i] == v && e[i] == w;
    SameNames(splitext, Pick(axes, d), Pick(axes, e));
  }

  lemma OneOnTwoAxes(splitext: SplitExt, axes: seq<seq<AxisValue>>) returns (d: seq<nat>, e: seq<nat>)
    requires EveryAxisSilent(splitext, axes) && !ApartAcrossAxes(splitext, axes)
    ensures IsChoice(axes, d) && IsChoice(axes, e) && d != e
    ensures AllNames(splitext, Pick(axes, d)) == AllNames(splitext, Pick(axes, e))
  {
    hide NameOf, AllNames;
    var i: nat, j: nat, v: nat, w: nat :| i < j < |axes| && v < |axes[i]| && w < |axes[j]| &&
      NameOf(splitext, axes[i][v]) == NameOf(splitext, axes[j][w]) != "";
    var silent := SilentChoice(splitext, axes);
    d, e := silent[i := v], silent[j := w];
    assert d[i] == v && e[i] == silent[i];
    OneName(splitext, Pick(axes, d), i);
    OneName(splitext, Pick(axes, e), j);
  }

  lemma SilentChoice(splitext: SplitExt, axes: seq<seq<AxisValue>>) returns (digits: seq<nat>)
    requires EveryAxisSilent(splitext, axes)
    ensures IsChoice(axes, digits) && forall i :: 0 <= i < |axes| ==> NameOf(splitext, axes[i][digits[i]]) == ""
  {
    hide NameOf;
    digits := [];
    while |digits| < |axes|
      invariant |digits| <= |axes|
      invariant forall i :: 0 <= i < |digits| ==> digits[i] < |axes[i]| && NameOf(splitext, axes[i][digits[i]]) == ""
    {
      var v: nat :| v < |axes[|digits|]| && NameOf(splitext, axes[|digits|][v]) == "";
      digits := digits + [v];
    }
  }

  // ----- From the expansion to the header -----

  function AxisSizes(axes: seq<seq<AxisValue>>): seq<nat> {
    seq(|axes|, i requires 0 <= i < |axes| => |axes[i]|)
  }

  /** The variants of an expansion are what the grouping takes, and on every axis each of them is listed exactly once
      by the groups written. */
  lemma {:induction false} ExpandedVariantInOneGroup(splitext: SplitExt, m: Matrix, inputType: string, stages: seq<string>,
                                                     groups: seq<Group>, positions: seq<seq<nat>>, a: nat, k: nat)
    requires WellFormed(m) && Expand(splitext, m, inputType).Ok? && forall n :: n in AxisOrder(m) ==> n in m.axes
    requires NoDuplicates(stages) && forall v :: v in Expand(splitext, m, inputType).value ==> v.stage in stages
    requires a < |OrderedAxes(m)| && k < |Expand(splitext, m, inputType).value|
    ensures forall v :: v in Expand(splitext, m, inputType).value ==> |v.axisValues| == |AxisSizes(OrderedAxes(m))|
    ensures AllGroups(AxisSizes(OrderedAxes(m)), Expand(splitext, m, inputType).value, stages, groups, positions) ==>
              InOneGroup(Expand(splitext, m, inputType).value, groups, positions, a, k)
  {
    var axes, variants := OrderedAxes(m), Expand(splitext, m, inputType).value;
    VariantCount(splitext, m, inputType);
    forall l: nat | l < |variants| ensures |variants[l].axisValues| == |axes| && variants[l].axisValues[a] < |axes[a]| {
      VariantHoldsDigits(splitext, m, inputType, l);
    }
    hide Expand, WellFormed, AllGroups, InOneGroup;
    if AllGroups(AxisSizes(axes), variants, stages, groups, positions) {
      EachVariantInOneGroup(AxisSizes(axes), variants, stages, groups, positions, a, k);
    }
  }
}
