/** expandVariantMatrix and the grouping in writeVariantMatrixHeader: the cross product of the
    axes of a shader variant matrix, with shader-stage inference and conflict detection. */
module VariantMatrix {
  import opened Powers
  import opened Wrappers

  /** One `//!> axis` line. `index` is its position among the values of its axis. */
  datatype AxisValue = AxisValue(suffix: string, defines: seq<string>, index: nat)

  /** The parsed declaration; `names` lists the axes in declaration order. */
  datatype Matrix = Matrix(
    base: string, common: seq<string>, names: seq<string>, axes: map<string, seq<AxisValue>>, order: Option<seq<string>>)

  /** A partial variant: name parts, stage so far, defines and the index chosen on each axis. */
  datatype Combination = Combination(nameParts: seq<string>, stage: Option<string>, defines: seq<string>, axisValues: seq<nat>)

  datatype Variant = Variant(name: string, stage: string, defines: seq<string>, axisValues: seq<nat>)

  datatype Error =
    | NoAxes | DuplicateAxis | UnknownAxis(name: string) | MissingAxis(name: string)
    | BadSuffix(suffix: string) | StageConflict(first: string, second: string) | NoStage

  datatype Result<T> = Ok(value: T) | Err(error: Error)

  const STAGES := [".comp", ".vert", ".geom", ".frag", ".rgen", ".rchit", ".rahit", ".rmiss", ".rint"]

  type SplitExt = string -> (string, string)

  /** Name part and stage of a suffix; None if its extension is no shader stage. */
  function SuffixParts(splitext: SplitExt, suffix: string): Option<(string, string)> {
    if suffix == "-" then Some(("", ""))
    else
      var parts := splitext(suffix);
      if parts.1 != "" && parts.1 !in STAGES then None else Some(parts)
  }

  // ----- What the loops compute -----

  function Extend(c: Combination, parts: (string, string), value: AxisValue): Combination {
    Combination(
      if parts.0 != "" then c.nameParts + [parts.0] else c.nameParts,
      if parts.1 != "" then Some(parts.1) else c.stage,
      c.defines + value.defines,
      c.axisValues + [value.index])
  }

  predicate Clash(stage: Option<string>, suffixStage: string) {
    suffixStage != "" && stage.Some? && suffixStage != stage.value
  }

  /** The innermost loop: one axis value joined to every combination so far. */
  function WithValue(combos: seq<Combination>, parts: (string, string), value: AxisValue): Result<seq<Combination>> {
    if combos == [] then Ok([])
    else
      match WithValue(combos[..|combos| - 1], parts, value)
      case Err(e) => Err(e)
      case Ok(done) =>
        var c := combos[|combos| - 1];
        if Clash(c.stage, parts.1) then Err(StageConflict(c.stage.value, parts.1)) else Ok(done + [Extend(c, parts, value)])
  }

  /** The loop over the values of one axis. */
  function WithAxis(splitext: SplitExt, combos: seq<Combination>, values: seq<AxisValue>): Result<seq<Combination>> {
    if values == [] then Ok([])
    else
      var value := values[|values| - 1];
      match WithAxis(splitext, combos, values[..|values| - 1])
      case Err(e) => Err(e)
      case Ok(done) =>
        match SuffixParts(splitext, value.suffix)
        case None => Err(BadSuffix(value.suffix))
        case Some(parts) =>
          match WithValue(combos, parts, value)
          case Err(e) => Err(e)
          case Ok(more) => Ok(done + more)
  }

  /** The loop over the axes. */
  function WithAxes(splitext: SplitExt, common: seq<string>, axes: seq<seq<AxisValue>>): Result<seq<Combination>> {
    if axes == [] then Ok([Combination([], None, common, [])])
    else
      match WithAxes(splitext, common, axes[..|axes| - 1])
      case Err(e) => Err(e)
      case Ok(combos) => WithAxis(splitext, combos, axes[|axes| - 1])
  }

  // ----- Positions in the cross product -----

  function Size(axes: seq<seq<AxisValue>>): nat {
    if axes == [] then 1 else Size(axes[..|axes| - 1]) * |axes[|axes| - 1]|
  }

  /** A choice of one value on every axis. */
  ghost predicate IsChoice(axes: seq<seq<AxisValue>>, digits: seq<nat>) {
    |digits| == |axes| && forall i :: 0 <= i < |axes| ==> digits[i] < |axes[i]|
  }

  /** The mixed-radix value of a choice, first axis least significant. */
  function Position(axes: seq<seq<AxisValue>>, digits: seq<nat>): nat
    requires |digits| == |axes|
  {
    if axes == [] then 0
    else
      var last := |axes| - 1;
      Position(axes[..last], digits[..last]) + Size(axes[..last]) * digits[last]
  }

  function Digits(axes: seq<seq<AxisValue>>, k: nat): (digits: seq<nat>)
    ensures |digits| == |axes|
  {
    if axes == [] then []
    else
      var last := |axes| - 1;
      var size := Size(axes[..last]);
      if size == 0 then Digits(axes[..last], 0) + [0] else Digits(axes[..last], k % size) + [k / size]
  }

  lemma {:induction false} PositionInRange(axes: seq<seq<AxisValue>>, digits: seq<nat>)
    requires IsChoice(axes, digits)
    ensures Position(axes, digits) < Size(axes)
    ensures Digits(axes, Position(axes, digits)) == digits
  {
    if axes != [] {
      var last := |axes| - 1;
      var size, rest := Size(axes[..last]), Position(axes[..last], digits[..last]);
      PositionInRange(axes[..last], digits[..last]);
      NextBlock(size, rest, digits[last], |axes[last]|);
      assert digits == digits[..last] + [digits[last]];
    }
  }

  lemma NextBlock(size: nat, rest: nat, digit: nat, count: nat)
    requires rest < size && digit < count
    ensures (rest + size * digit) / size == digit && (rest + size * digit) % size == rest
    ensures 0 <= rest + size * digit < size * count
  {
    DivModUnique(rest + size * digit, size, digit, rest);
    MulMonotone(0, digit, size);
    MulMonotone(digit + 1, count, size);
    assert size * digit == digit * size && size * count == count * size && (digit + 1) * size == digit * size + size;
  }

  lemma {:induction false} DigitsAreChoice(axes: seq<seq<AxisValue>>, k: nat)
    requires k < Size(axes)
    ensures IsChoice(axes, Digits(axes, k)) && Position(axes, Digits(axes, k)) == k
  {
    if axes != [] {
      var last := |axes| - 1;
      var size := Size(axes[..last]);
      BlockOf(size, |axes[last]|, k);
      var digits := Digits(axes, k);
      assert digits[..last] == Digits(axes[..last], k % size) && digits[last] == k / size;
      DigitsAreChoice(axes[..last], k % size);
    }
  }

  lemma BlockOf(size: nat, count: nat, k: nat)
    requires k < size * count
    ensures size > 0 && k / size < count && size * (k / size) + k % size == k
  {
    MulMonotone(0, count, size);
    assert size != 0;
    var q := k / size;
    assert size * q + k % size == k;
    if count <= q {
      MulMonotone(count, q, size);
    }
  }

  // ----- What each entry holds -----

  function Pick(axes: seq<seq<AxisValue>>, digits: seq<nat>): seq<AxisValue>
    requires |digits| == |axes| && forall i :: 0 <= i < |axes| ==> digits[i] < |axes[i]|
  {
    seq(|axes|, i requires 0 <= i < |axes| => axes[i][digits[i]])
  }

  /** The shader stage that a value asks for, "" if it leaves the stage open, and its part of the name. */
  function StageOf(splitext: SplitExt, value: AxisValue): string {
    if value.suffix == "-" then "" else splitext(value.suffix).1
  }

  function NameOf(splitext: SplitExt, value: AxisValue): string {
    if value.suffix == "-" then "" else splitext(value.suffix).0
  }

  /** The suffixes that are accepted. */
  predicate Accepted(splitext: SplitExt, suffix: string) {
    || suffix == "-" || splitext(suffix).1 == ""
    || splitext(suffix).1 in [".comp", ".vert", ".geom", ".frag", ".rgen", ".rchit", ".rahit", ".rmiss", ".rint"]
  }

  /** What the routine makes of a suffix: refused, or its part of the name and its stage. */
  lemma SuffixExactly(splitext: SplitExt, value: AxisValue)
    ensures SuffixParts(splitext, value.suffix)
         == if Accepted(splitext, value.suffix) then Some((NameOf(splitext, value), StageOf(splitext, value))) else None
  {
    assert STAGES == [".comp", ".vert", ".geom", ".frag", ".rgen", ".rchit", ".rahit", ".rmiss", ".rint"];
  }

  lemma AcceptedExactly(splitext: SplitExt)
    ensures forall value: AxisValue :: SuffixParts(splitext, value.suffix).Some? <==> Accepted(splitext, value.suffix)
  {
    forall value: AxisValue ensures SuffixParts(splitext, value.suffix).Some? <==> Accepted(splitext, value.suffix) {
      SuffixExactly(splitext, value);
    }
  }

  function AllDefines(picks: seq<AxisValue>): seq<string> {
    if picks == [] then [] else picks[0].defines + AllDefines(picks[1..])
  }

  function AllNames(splitext: SplitExt, picks: seq<AxisValue>): seq<string> {
    if picks == [] then []
    else (if NameOf(splitext, picks[0]) != "" then [NameOf(splitext, picks[0])] else []) + AllNames(splitext, picks[1..])
  }

  function Indices(picks: seq<AxisValue>): seq<nat> {
    seq(|picks|, i requires 0 <= i < |picks| => picks[i].index)
  }

  lemma IndicesAppend(picks: seq<AxisValue>, p: AxisValue)
    ensures Indices(picks + [p]) == Indices(picks) + [p.index]
  {
  }

  /** The combination of one chosen value on every axis, read off the values themselves. */
  ghost predicate Combines(splitext: SplitExt, common: seq<string>, picks: seq<AxisValue>, c: Combination) {
    && c.nameParts == AllNames(splitext, picks)
    && c.defines == common + AllDefines(picks)
    && c.axisValues == Indices(picks)
    && StageFits(splitext, picks, c.stage)
  }

  lemma {:induction false} DefinesAppend(picks: seq<AxisValue>, p: AxisValue)
    ensures AllDefines(picks + [p]) == AllDefines(picks) + p.defines
  {
    if picks == [] {
      assert [p][1..] == [] && picks + [p] == [p];
    } else {
      assert (picks + [p])[1..] == picks[1..] + [p];
      DefinesAppend(picks[1..], p);
    }
  }

  lemma {:induction false} NamesAppend(splitext: SplitExt, picks: seq<AxisValue>, p: AxisValue)
    ensures AllNames(splitext, picks + [p]) ==
            AllNames(splitext, picks) + if NameOf(splitext, p) != "" then [NameOf(splitext, p)] else []
  {
    hide NameOf;
    var own := if NameOf(splitext, p) != "" then [NameOf(splitext, p)] else [];
    if picks == [] {
      assert [p][1..] == [] && picks + [p] == [p];
    } else {
      var first := if NameOf(splitext, picks[0]) != "" then [NameOf(splitext, picks[0])] else [];
      assert (picks + [p])[0] == picks[0] && (picks + [p])[1..] == picks[1..] + [p];
      assert AllNames(splitext, picks + [p]) == first + AllNames(splitext, picks[1..] + [p]);
      assert AllNames(splitext, picks) == first + AllNames(splitext, picks[1..]);
      hide AllNames;
      NamesAppend(splitext, picks[1..], p);
      Associates(first, AllNames(splitext, picks[1..]), own);
    }
  }

  lemma Associates<T>(a: seq<T>, b: seq<T>, c: seq<T>)
    ensures a + (b + c) == a + b + c
  {
  }

  lemma {:induction false} ExtendCombines(splitext: SplitExt, common: seq<string>, picks: seq<AxisValue>, c: Combination, p: AxisValue)
    requires Combines(splitext, common, picks, c) && SuffixParts(splitext, p.suffix).Some?
    ensures Combines(splitext, common, picks + [p], Extend(c, SuffixParts(splitext, p.suffix).value, p))
  {
    SuffixExactly(splitext, p);
    hide AllDefines, AllNames, StageFits, Indices, SuffixParts, Accepted;
    DefinesAppend(picks, p);
    NamesAppend(splitext, picks, p);
    assert common + AllDefines(picks) + p.defines == common + (AllDefines(picks) + p.defines);
    IndicesAppend(picks, p);
    StageExtends(splitext, picks, c.stage, p);
  }

  ghost predicate StageFits(splitext: SplitExt, picks: seq<AxisValue>, stage: Option<string>) {
    && (stage == None <==> forall i :: 0 <= i < |picks| ==> StageOf(splitext, picks[i]) == "")
    && (stage.Some? ==> exists i :: 0 <= i < |picks| && stage.value != "" && StageOf(splitext, picks[i]) == stage.value)
  }

  lemma StageExtends(splitext: SplitExt, picks: seq<AxisValue>, stage: Option<string>, p: AxisValue)
    requires StageFits(splitext, picks, stage)
    ensures StageFits(splitext, picks + [p], if StageOf(splitext, p) != "" then Some(StageOf(splitext, p)) else stage)
  {
    var all := picks + [p];
    assert all[|picks|] == p && forall i :: 0 <= i < |picks| ==> all[i] == picks[i];
    if stage.Some? {
      var i :| 0 <= i < |picks| && stage.value != "" && StageOf(splitext, picks[i]) == stage.value;
      assert StageOf(splitext, all[i]) == stage.value;
    }
    if StageOf(splitext, p) != "" {
      assert StageOf(splitext, all[|picks|]) == StageOf(splitext, p);
    }
  }

  lemma {:induction false} WithValueEntries(combos: seq<Combination>, parts: (string, string), value: AxisValue)
    ensures WithValue(combos, parts, value).Err? <==> exists k :: 0 <= k < |combos| && Clash(combos[k].stage, parts.1)
    ensures WithValue(combos, parts, value).Err? ==> WithValue(combos, parts, value).error.StageConflict?
    ensures WithValue(combos, parts, value).Ok? ==>
              && |WithValue(combos, parts, value).value| == |combos|
              && forall k :: 0 <= k < |combos| ==> WithValue(combos, parts, value).value[k] == Extend(combos[k], parts, value)
  {
    hide Clash, Extend;
    if combos != [] {
      var last := |combos| - 1;
      WithValueEntries(combos[..last], parts, value);
      assert forall k :: 0 <= k < last ==> combos[..last][k] == combos[k];
      if k :| 0 <= k < |combos| && Clash(combos[k].stage, parts.1) {
        assert k < last ==> Clash(combos[..last][k].stage, parts.1);
      }
    }
  }

  /** A value stops the loop if its suffix is bad or its stage clashes with a combination's. */
  ghost predicate Stops(splitext: SplitExt, combos: seq<Combination>, value: AxisValue) {
    || SuffixParts(splitext, value.suffix) == None
    || exists k :: 0 <= k < |combos| && Clash(combos[k].stage, StageOf(splitext, value))
  }

  lemma StageIsPart(splitext: SplitExt, value: AxisValue)
    ensures SuffixParts(splitext, value.suffix).Some? ==> StageOf(splitext, value) == SuffixParts(splitext, value.suffix).value.1
  {
    SuffixExactly(splitext, value);
  }

  lemma {:induction false} WithAxisStops(splitext: SplitExt, combos: seq<Combination>, values: seq<AxisValue>)
    ensures WithAxis(splitext, combos, values).Err? <==> exists v :: 0 <= v < |values| && Stops(splitext, combos, values[v])
    ensures WithAxis(splitext, combos, values).Err? && (forall v :: 0 <= v < |values| ==> SuffixParts(splitext, values[v].suffix).Some?)
            ==> WithAxis(splitext, combos, values).error.StageConflict?
  {
    hide WithValue, Clash, SuffixParts, StageOf;
    if values != [] {
      var last := |values| - 1;
      var front := values[..last];
      StageIsPart(splitext, values[last]);
      WithAxisStops(splitext, combos, front);
      assert forall v :: 0 <= v < last ==> front[v] == values[v];
      if v :| 0 <= v < |values| && Stops(splitext, combos, values[v]) {
        assert v < last ==> Stops(splitext, combos, front[v]);
      }
      if SuffixParts(splitext, values[last].suffix).Some? {
        WithValueEntries(combos, SuffixParts(splitext, values[last].suffix).value, values[last]);
      }
    }
  }

  lemma WithValueLength(combos: seq<Combination>, parts: (string, string), value: AxisValue)
    ensures WithValue(combos, parts, value).Ok? ==> |WithValue(combos, parts, value).value| == |combos|
  {
    WithValueEntries(combos, parts, value);
  }

  lemma OneMore(n: nat, k: nat)
    ensures Times(n, k + 1) == Times(n, k) + n
  {
  }

  lemma {:induction false} WithAxisLength(splitext: SplitExt, combos: seq<Combination>, values: seq<AxisValue>)
    requires WithAxis(splitext, combos, values).Ok?
    ensures |WithAxis(splitext, combos, values).value| == |combos| * |values|
    ensures forall v :: 0 <= v < |values| ==> SuffixParts(splitext, values[v].suffix).Some?
  {
    WithAxisCount(splitext, combos, values);
    WithAxisValid(splitext, combos, values);
    hide WithAxis, SuffixParts;
  }

  lemma {:induction false} WithAxisCount(splitext: SplitExt, combos: seq<Combination>, values: seq<AxisValue>)
    requires WithAxis(splitext, combos, values).Ok?
    ensures |WithAxis(splitext, combos, values).value| == Times(|combos|, |values|)
  {
    if values == [] {
      assert |combos| * 0 == 0;
    } else {
      var last := |values| - 1;
      WithAxisUnfolds(splitext, combos, values);
      OneMore(|combos|, last);
      hide WithAxis, SuffixParts, Times;
      WithAxisCount(splitext, combos, values[..last]);
    }
  }

  lemma {:induction false} WithAxisValid(splitext: SplitExt, combos: seq<Combination>, values: seq<AxisValue>)
    requires WithAxis(splitext, combos, values).Ok?
    ensures forall v :: 0 <= v < |values| ==> SuffixParts(splitext, values[v].suffix).Some?
  {
    if values != [] {
      var last := |values| - 1;
      WithAxisUnfolds(splitext, combos, values);
      hide WithAxis, SuffixParts;
      WithAxisValid(splitext, combos, values[..last]);
      assert forall v :: 0 <= v < last ==> values[..last][v] == values[v];
    }
  }

  lemma WithAxisUnfolds(splitext: SplitExt, combos: seq<Combination>, values: seq<AxisValue>)
    requires WithAxis(splitext, combos, values).Ok? && values != []
    ensures var last := |values| - 1;
            && WithAxis(splitext, combos, values[..last]).Ok? && SuffixParts(splitext, values[last].suffix).Some?
            && |WithAxis(splitext, combos, values).value| == |WithAxis(splitext, combos, values[..last]).value| + |combos|
  {
    var last := values[|values| - 1];
    hide WithValue;
    if SuffixParts(splitext, last.suffix).Some? {
      WithValueLength(combos, SuffixParts(splitext, last.suffix).value, last);
    }
  }

  /** The values of an axis are laid out in blocks, one copy of all earlier combinations each. */
  lemma {:induction false} WithAxisEntry(splitext: SplitExt, combos: seq<Combination>, values: seq<AxisValue>, v: nat, k: nat)
    requires WithAxis(splitext, combos, values).Ok? && v < |values| && k < |combos|
    ensures SuffixParts(splitext, values[v].suffix).Some?
    ensures k + Times(|combos|, v) < |WithAxis(splitext, combos, values).value|
    ensures WithAxis(splitext, combos, values).value[k + Times(|combos|, v)] ==
            Extend(combos[k], SuffixParts(splitext, values[v].suffix).value, values[v])
  {
    hide WithValue, SuffixParts, Extend;
    var last, n := |values| - 1, |combos|;
    var front := values[..last];
    WithAxisLength(splitext, combos, values);
    WithAxisLength(splitext, combos, front);
    NextBlock(n, k, v, |values|);
    if v < last {
      NextBlock(n, k, v, last);
      WithAxisEntry(splitext, combos, front, v, k);
    } else {
      WithValueEntries(combos, SuffixParts(splitext, values[last].suffix).value, values[last]);
    }
  }

  lemma {:induction false} WithAxesLength(splitext: SplitExt, common: seq<string>, axes: seq<seq<AxisValue>>)
    requires WithAxes(splitext, common, axes).Ok?
    ensures |WithAxes(splitext, common, axes).value| == Size(axes)
  {
    if axes != [] {
      var last := |axes| - 1;
      WithAxesLength(splitext, common, axes[..last]);
      WithAxisLength(splitext, WithAxes(splitext, common, axes[..last]).value, axes[last]);
    }
  }

  lemma PickExtends(axes: seq<seq<AxisValue>>, digits: seq<nat>)
    requires IsChoice(axes, digits) && axes != []
    ensures var last := |axes| - 1;
            IsChoice(axes[..last], digits[..last]) && Pick(axes, digits) == Pick(axes[..last], digits[..last]) + [axes[last][digits[last]]]
  {
  }

  /** The entry at the position of a choice combines the values chosen. */
  lemma {:induction false} EntryCombines(splitext: SplitExt, common: seq<string>, axes: seq<seq<AxisValue>>, digits: seq<nat>)
    requires WithAxes(splitext, common, axes).Ok? && IsChoice(axes, digits)
    ensures Position(axes, digits) < |WithAxes(splitext, common, axes).value| == Size(axes)
    ensures Combines(splitext, common, Pick(axes, digits), WithAxes(splitext, common, axes).value[Position(axes, digits)])
    decreases axes, 1
  {
    WithAxesLength(splitext, common, axes);
    PositionInRange(axes, digits);
    if axes == [] {
      assert common + [] == common;
    } else {
      LastAxisCombines(splitext, common, axes, digits);
    }
  }

  lemma {:induction false} LastAxisCombines(splitext: SplitExt, common: seq<string>, axes: seq<seq<AxisValue>>, digits: seq<nat>)
    requires WithAxes(splitext, common, axes).Ok? && IsChoice(axes, digits) && axes != []
    ensures Position(axes, digits) < |WithAxes(splitext, common, axes).value|
    ensures Combines(splitext, common, Pick(axes, digits), WithAxes(splitext, common, axes).value[Position(axes, digits)])
    decreases axes, 0
  {
    var last := |axes| - 1;
    LastAxis(splitext, common, axes, digits);
    PickExtends(axes, digits);
    hide Combines, Pick, WithAxes, WithAxis, Position, Size, SuffixParts, Extend, Times;
    var combos, before := WithAxes(splitext, common, axes[..last]).value, Position(axes[..last], digits[..last]);
    EntryCombines(splitext, common, axes[..last], digits[..last]);
    WithAxisEntry(splitext, combos, axes[last], digits[last], before);
    ExtendCombines(splitext, common, Pick(axes[..last], digits[..last]), combos[before], axes[last][digits[last]]);
  }

  lemma LastAxis(splitext: SplitExt, common: seq<string>, axes: seq<seq<AxisValue>>, digits: seq<nat>)
    requires WithAxes(splitext, common, axes).Ok? && IsChoice(axes, digits) && axes != []
    ensures var last := |axes| - 1;
            && WithAxes(splitext, common, axes[..last]).Ok?
            && WithAxes(splitext, common, axes) == WithAxis(splitext, WithAxes(splitext, common, axes[..last]).value, axes[last])
            && Position(axes, digits) == Position(axes[..last], digits[..last]) + Times(Size(axes[..last]), digits[last])
  {
  }

  /** Entry k holds the mixed-radix digits of k, the first axis varying fastest. */
  lemma {:induction false} EntryCombinesDigits(splitext: SplitExt, common: seq<string>, axes: seq<seq<AxisValue>>, k: nat)
    requires WithAxes(splitext, common, axes).Ok? && k < Size(axes)
    ensures |WithAxes(splitext, common, axes).value| == Size(axes)
    ensures IsChoice(axes, Digits(axes, k))
    ensures Combines(splitext, common, Pick(axes, Digits(axes, k)), WithAxes(splitext, common, axes).value[k])
  {
    DigitsAreChoice(axes, k);
    EntryCombines(splitext, common, axes, Digits(axes, k));
  }

  // ----- When the expansion stops -----

  ghost predicate SuffixesValid(splitext: SplitExt, axes: seq<seq<AxisValue>>) {
    forall i, v :: 0 <= i < |axes| && 0 <= v < |axes[i]| ==> Accepted(splitext, axes[i][v].suffix)
  }

  /** Values v of axis i and w of axis j ask for different shader stages. */
  ghost predicate ConflictAt(splitext: SplitExt, axes: seq<seq<AxisValue>>, i: nat, j: nat, v: nat, w: nat) {
    && i < j < |axes| && v < |axes[i]| && w < |axes[j]|
    && StageOf(splitext, axes[i][v]) != "" && StageOf(splitext, axes[j][w]) != ""
    && StageOf(splitext, axes[i][v]) != StageOf(splitext, axes[j][w])
  }

  ghost predicate HasConflict(splitext: SplitExt, axes: seq<seq<AxisValue>>) {
    exists i, j, v, w :: ConflictAt(splitext, axes, i, j, v, w)
  }

  ghost predicate NoAxisEmpty(axes: seq<seq<AxisValue>>) {
    forall i :: 0 <= i < |axes| ==> axes[i] != []
  }

  /** If a new value clashes with a combination so far, two axes conflict. */
  lemma {:induction false} ClashIsConflict(splitext: SplitExt, common: seq<string>, axes: seq<seq<AxisValue>>, k: nat, w: nat)
    requires axes != [] && w < |axes[|axes| - 1]|
    requires WithAxes(splitext, common, axes[..|axes| - 1]).Ok? && k < |WithAxes(splitext, common, axes[..|axes| - 1]).value|
    requires Clash(WithAxes(splitext, common, axes[..|axes| - 1]).value[k].stage, StageOf(splitext, axes[|axes| - 1][w]))
    ensures HasConflict(splitext, axes)
  {
    var last := |axes| - 1;
    var front := axes[..last];
    WithAxesLength(splitext, common, front);
    EntryCombinesDigits(splitext, common, front, k);
    var digits := Digits(front, k);
    var stage := WithAxes(splitext, common, front).value[k].stage.value;
    var i :| 0 <= i < last && stage != "" && StageOf(splitext, Pick(front, digits)[i]) == stage;
    assert Pick(front, digits)[i] == axes[i][digits[i]];
    assert ConflictAt(splitext, axes, i, last, digits[i], w);
  }

  /** If a value of the last axis conflicts with value v of axis i, and the axes before agree, the
      combination that holds v clashes with it. */
  lemma {:induction false} ConflictIsClash(splitext: SplitExt, common: seq<string>, axes: seq<seq<AxisValue>>, i: nat, v: nat, w: nat)
    returns (k: nat)
    requires axes != [] && NoAxisEmpty(axes) && ConflictAt(splitext, axes, i, |axes| - 1, v, w)
    requires WithAxes(splitext, common, axes[..|axes| - 1]).Ok? && !HasConflict(splitext, axes[..|axes| - 1])
    ensures k < |WithAxes(splitext, common, axes[..|axes| - 1]).value|
    ensures Clash(WithAxes(splitext, common, axes[..|axes| - 1]).value[k].stage, StageOf(splitext, axes[|axes| - 1][w]))
  {
    hide StageFits, StageOf, HasConflict, SuffixParts;
    var last := |axes| - 1;
    var front := axes[..last];
    var digits := seq(last, j => if j == i then v else 0);
    assert IsChoice(front, digits);
    k := Position(front, digits);
    EntryCombines(splitext, common, front, digits);
    var picks := Pick(front, digits);
    assert picks[i] == axes[i][v];
    forall j: nat | j < |picks| && StageOf(splitext, picks[j]) != ""
      ensures StageOf(splitext, picks[j]) == StageOf(splitext, picks[i])
    {
      AgreeingStages(splitext, front, digits, i, j);
    }
    AgreedStage(splitext, picks, WithAxes(splitext, common, front).value[k].stage, i);
  }

  lemma AgreedStage(splitext: SplitExt, picks: seq<AxisValue>, stage: Option<string>, i: nat)
    requires StageFits(splitext, picks, stage) && i < |picks| && StageOf(splitext, picks[i]) != ""
    requires forall j :: 0 <= j < |picks| && StageOf(splitext, picks[j]) != "" ==> StageOf(splitext, picks[j]) == StageOf(splitext, picks[i])
    ensures stage == Some(StageOf(splitext, picks[i]))
  {
  }

  lemma ConflictInFront(splitext: SplitExt, axes: seq<seq<AxisValue>>)
    requires axes != []
    ensures HasConflict(splitext, axes[..|axes| - 1]) ==> HasConflict(splitext, axes)
    ensures HasConflict(splitext, axes) && !HasConflict(splitext, axes[..|axes| - 1]) ==>
              exists i, j, v, w :: ConflictAt(splitext, axes, i, j, v, w) && j == |axes| - 1
  {
    var front := axes[..|axes| - 1];
    if i: nat, j: nat, v: nat, w: nat :| ConflictAt(splitext, front, i, j, v, w) {
      assert ConflictAt(splitext, axes, i, j, v, w);
    }
    if i: nat, j: nat, v: nat, w: nat :| ConflictAt(splitext, axes, i, j, v, w) {
      if j < |axes| - 1 {
        assert ConflictAt(splitext, front, i, j, v, w);
      }
    }
  }

  /** The expansion succeeds exactly if every suffix is valid and no two axes ask for different
      stages; with valid suffixes the only failure is the stage conflict. */
  lemma {:induction false} StopsExactlyOnConflict(splitext: SplitExt, common: seq<string>, axes: seq<seq<AxisValue>>)
    requires NoAxisEmpty(axes)
    ensures WithAxes(splitext, common, axes).Ok? <==> SuffixesValid(splitext, axes) && !HasConflict(splitext, axes)
    ensures SuffixesValid(splitext, axes) && HasConflict(splitext, axes) ==> WithAxes(splitext, common, axes).error.StageConflict?
  {
    if axes != [] {
      var last := |axes| - 1;
      var front := axes[..last];
      StopsExactlyOnConflict(splitext, common, front);
      ConflictInFront(splitext, axes);
      ValidAxes(splitext, axes);
      if WithAxes(splitext, common, front).Ok? {
        LastAxisStops(splitext, common, axes);
      }
    }
  }

  ghost predicate ValuesValid(splitext: SplitExt, values: seq<AxisValue>) {
    forall v :: 0 <= v < |values| ==> Accepted(splitext, values[v].suffix)
  }

  lemma ValidAxes(splitext: SplitExt, axes: seq<seq<AxisValue>>)
    requires axes != []
    ensures SuffixesValid(splitext, axes) <==>
            SuffixesValid(splitext, axes[..|axes| - 1]) && ValuesValid(splitext, axes[|axes| - 1])
  {
    var last := |axes| - 1;
    if SuffixesValid(splitext, axes[..last]) && ValuesValid(splitext, axes[last]) {
      forall i, v | 0 <= i < |axes| && 0 <= v < |axes[i]| ensures Accepted(splitext, axes[i][v].suffix) {
        if i < last {
          assert axes[i] == axes[..last][i];
        }
      }
    }
  }

  /** Some value of the last axis stops the loop exactly if one is invalid or conflicts. */
  lemma {:induction false} SomeValueStops(splitext: SplitExt, common: seq<string>, axes: seq<seq<AxisValue>>)
    requires axes != [] && NoAxisEmpty(axes)
    requires WithAxes(splitext, common, axes[..|axes| - 1]).Ok? && !HasConflict(splitext, axes[..|axes| - 1])
    ensures var combos, values := WithAxes(splitext, common, axes[..|axes| - 1]).value, axes[|axes| - 1];
            (exists w :: 0 <= w < |values| && Stops(splitext, combos, values[w]))
              <==> !ValuesValid(splitext, values) || HasConflict(splitext, axes)
  {
    var last := |axes| - 1;
    var combos, values := WithAxes(splitext, common, axes[..last]).value, axes[last];
    hide WithAxes, HasConflict, Stops;
    if HasConflict(splitext, axes) {
      var w := ConflictStops(splitext, common, axes);
    }
    if w: nat :| w < |values| && Stops(splitext, combos, values[w]) {
      StopIsConflict(splitext, common, axes, w);
    }
    if !ValuesValid(splitext, values) {
      var w :| 0 <= w < |values| && !Accepted(splitext, values[w].suffix);
      RefusedStops(splitext, combos, values[w]);
    }
  }

  lemma RefusedStops(splitext: SplitExt, combos: seq<Combination>, value: AxisValue)
    requires !Accepted(splitext, value.suffix)
    ensures Stops(splitext, combos, value)
  {
    SuffixExactly(splitext, value);
  }

  lemma {:induction false} ConflictStops(splitext: SplitExt, common: seq<string>, axes: seq<seq<AxisValue>>) returns (w: nat)
    requires axes != [] && NoAxisEmpty(axes) && HasConflict(splitext, axes)
    requires WithAxes(splitext, common, axes[..|axes| - 1]).Ok? && !HasConflict(splitext, axes[..|axes| - 1])
    ensures w < |axes[|axes| - 1]| && Stops(splitext, WithAxes(splitext, common, axes[..|axes| - 1]).value, axes[|axes| - 1][w])
  {
    hide WithAxes, ConflictAt, HasConflict, Clash, SuffixParts, StageOf;
    ConflictInFront(splitext, axes);
    var i: nat, j: nat, v: nat, u: nat :| ConflictAt(splitext, axes, i, j, v, u) && j == |axes| - 1;
    w := u;
    var k := ConflictIsClash(splitext, common, axes, i, v, w);
    InRange(splitext, axes, i, j, v, w);
  }

  lemma {:induction false} StopIsConflict(splitext: SplitExt, common: seq<string>, axes: seq<seq<AxisValue>>, w: nat)
    requires axes != [] && w < |axes[|axes| - 1]| && WithAxes(splitext, common, axes[..|axes| - 1]).Ok?
    requires Stops(splitext, WithAxes(splitext, common, axes[..|axes| - 1]).value, axes[|axes| - 1][w])
    ensures !ValuesValid(splitext, axes[|axes| - 1]) || HasConflict(splitext, axes)
  {
    var combos, value := WithAxes(splitext, common, axes[..|axes| - 1]).value, axes[|axes| - 1][w];
    SuffixExactly(splitext, value);
    hide WithAxes, HasConflict, Clash, SuffixParts, Accepted, StageOf;
    if k: nat :| k < |combos| && Clash(combos[k].stage, StageOf(splitext, value)) {
      ClashIsConflict(splitext, common, axes, k, w);
    }
  }

  lemma InRange(splitext: SplitExt, axes: seq<seq<AxisValue>>, i: nat, j: nat, v: nat, w: nat)
    requires ConflictAt(splitext, axes, i, j, v, w)
    ensures i < j < |axes| && v < |axes[i]| && w < |axes[j]|
  {
  }

  lemma {:induction false} LastAxisStops(splitext: SplitExt, common: seq<string>, axes: seq<seq<AxisValue>>)
    requires axes != [] && NoAxisEmpty(axes)
    requires var front := axes[..|axes| - 1];
             WithAxes(splitext, common, front).Ok? && SuffixesValid(splitext, front) && !HasConflict(splitext, front)
    ensures WithAxes(splitext, common, axes).Ok? <==> SuffixesValid(splitext, axes) && !HasConflict(splitext, axes)
    ensures SuffixesValid(splitext, axes) && HasConflict(splitext, axes) ==> WithAxes(splitext, common, axes).error.StageConflict?
  {
    var last := |axes| - 1;
    AcceptedExactly(splitext);
    WithAxisStops(splitext, WithAxes(splitext, common, axes[..last]).value, axes[last]);
    SomeValueStops(splitext, common, axes);
    ValidAxes(splitext, axes);
    hide HasConflict, SuffixesValid, Stops, SuffixParts, Accepted;
  }

  // ----- The whole expansion -----

  /** What parsing the declaration guarantees. */
  ghost predicate WellFormed(m: Matrix) {
    && NoDuplicates(m.names) && (forall n :: n in m.names <==> n in m.axes)
    && forall n :: n in m.axes ==> m.axes[n] != [] && forall v :: 0 <= v < |m.axes[n]| ==> m.axes[n][v].index == v
  }

  ghost predicate NoDuplicates(s: seq<string>) {
    forall i, j :: 0 <= i < j < |s| ==> s[i] != s[j]
  }

  function AxisOrder(m: Matrix): seq<string> {
    if m.order.Some? then m.order.value else m.names
  }

  function FirstNotIn(list: seq<string>, known: set<string>): Option<string> {
    if list == [] then None else if list[0] !in known then Some(list[0]) else FirstNotIn(list[1..], known)
  }

  function OrderError(m: Matrix): Option<Error> {
    var order := AxisOrder(m);
    if |order| == 0 then Some(NoAxes)
    else if |order| != |set n | n in order| then Some(DuplicateAxis)
    else
      match FirstNotIn(order, m.axes.Keys)
      case Some(n) => Some(UnknownAxis(n))
      case None =>
        match FirstNotIn(m.names, set n | n in order)
        case Some(n) => Some(MissingAxis(n))
        case None => None
  }

  lemma {:induction false} FirstNotInFinds(list: seq<string>, known: set<string>)
    ensures FirstNotIn(list, known) == None <==> forall n :: n in list ==> n in known
    ensures FirstNotIn(list, known).Some? ==>
              exists i :: 0 <= i < |list| && list[i] == FirstNotIn(list, known).value && IsFirstNotIn(list, known, i)
  {
    if list != [] {
      FirstNotInFinds(list[1..], known);
      if list[0] !in known {
        assert IsFirstNotIn(list, known, 0);
      } else if FirstNotIn(list, known).Some? {
        var i :| 0 <= i < |list[1..]| && list[1..][i] == FirstNotIn(list[1..], known).value && IsFirstNotIn(list[1..], known, i);
        forall j | 0 <= j < i + 1 ensures list[j] in known {
          assert j > 0 ==> list[1..][j - 1] == list[j];
        }
        assert IsFirstNotIn(list, known, i + 1);
      }
    }
  }

  predicate IsFirstNotIn(list: seq<string>, known: set<string>, i: int) {
    0 <= i < |list| && list[i] !in known && forall j :: 0 <= j < i ==> list[j] in known
  }

  lemma {:induction false} SetCountsDistinct(s: seq<string>)
    ensures |set n | n in s| <= |s|
    ensures |set n | n in s| == |s| <==> NoDuplicates(s)
  {
    if s != [] {
      SetCountsDistinct(s[1..]);
      var all, rest := set n | n in s, set n | n in s[1..];
      assert all == rest + {s[0]};
      if s[0] in rest {
        assert all == rest;
        var j :| 0 <= j < |s[1..]| && s[1..][j] == s[0];
        assert s[j + 1] == s[0];
      } else {
        assert NoDuplicates(s) ==> NoDuplicates(s[1..]);
        assert NoDuplicates(s[1..]) ==> NoDuplicates(s);
      }
    }
  }

  /** The order, which is the declared one or else that of the axes, is accepted exactly if it lists every declared
      axis once and nothing else; otherwise the error names the first thing that is wrong. */
  lemma {:induction false} OrderErrorExactly(m: Matrix)
    requires WellFormed(m)
    ensures var order := if m.order.Some? then m.order.value else m.names;
            && (OrderError(m) == None <==> order != [] && NoDuplicates(order) && forall n :: n in order <==> n in m.axes)
            && (OrderError(m) == Some(NoAxes) <==> order == [])
            && (OrderError(m) == Some(DuplicateAxis) <==> !NoDuplicates(order))
            && (forall n :: OrderError(m) == Some(UnknownAxis(n)) ==> exists i :: IsFirstNotIn(order, m.axes.Keys, i) && order[i] == n)
            && (forall n :: OrderError(m) == Some(MissingAxis(n)) ==>
                  exists i :: IsFirstNotIn(m.names, (set x | x in order), i) && m.names[i] == n)
  {
    var order := AxisOrder(m);
    SetCountsDistinct(order);
    FirstNotInFinds(order, m.axes.Keys);
    FirstNotInFinds(m.names, set n | n in order);
  }

  function OrderedAxes(m: Matrix): (axes: seq<seq<AxisValue>>)
    requires forall n :: n in AxisOrder(m) ==> n in m.axes
    ensures |axes| == |AxisOrder(m)|
    ensures forall i :: 0 <= i < |axes| ==> axes[i] == m.axes[AxisOrder(m)[i]]
  {
    seq(|AxisOrder(m)|, i requires 0 <= i < |AxisOrder(m)| => m.axes[AxisOrder(m)[i]])
  }

  function Join(parts: seq<string>): string {
    if parts == [] then "" else "_" + parts[0] + Join(parts[1..])
  }

  function Finish(base: string, inputType: string, combos: seq<Combination>): Result<seq<Variant>> {
    if combos == [] then Ok([])
    else
      match Finish(base, inputType, combos[..|combos| - 1])
      case Err(e) => Err(e)
      case Ok(done) =>
        var c := combos[|combos| - 1];
        if c.stage == None && inputType == "" then Err(NoStage) else Ok(done + [Finished(base, inputType, c)])
  }

  function Finished(base: string, inputType: string, c: Combination): Variant {
    Variant(base + Join(c.nameParts), if c.stage.Some? then c.stage.value else inputType, c.defines, c.axisValues)
  }

  function Expand(splitext: SplitExt, m: Matrix, inputType: string): Result<seq<Variant>> {
    FirstNotInFinds(AxisOrder(m), m.axes.Keys);
    match OrderError(m)
    case Some(e) => Err(e)
    case None =>
      match WithAxes(splitext, m.common, OrderedAxes(m))
      case Err(e) => Err(e)
      case Ok(combos) => Finish(m.base, inputType, combos)
  }

  lemma {:induction false} FinishEntries(base: string, inputType: string, combos: seq<Combination>)
    ensures Finish(base, inputType, combos).Err? <==> inputType == "" && exists k :: 0 <= k < |combos| && combos[k].stage == None
    ensures Finish(base, inputType, combos).Ok? ==>
              && |Finish(base, inputType, combos).value| == |combos|
              && forall k :: 0 <= k < |combos| ==> Finish(base, inputType, combos).value[k] == Finished(base, inputType, combos[k])
  {
    if combos != [] {
      var front := combos[..|combos| - 1];
      FinishEntries(base, inputType, front);
      assert forall k :: 0 <= k < |front| ==> front[k] == combos[k];
      if k :| 0 <= k < |combos| && combos[k].stage == None {
        assert k < |front| ==> front[k].stage == None;
      }
    }
  }

  ghost predicate LeavesStageOpen(splitext: SplitExt, values: seq<AxisValue>) {
    exists v :: 0 <= v < |values| && StageOf(splitext, values[v]) == ""
  }

  /** Some variant gets no explicit stage exactly if every axis has a value that leaves it open. */
  lemma {:induction false} SomeEntryOpen(splitext: SplitExt, common: seq<string>, axes: seq<seq<AxisValue>>)
    requires WithAxes(splitext, common, axes).Ok?
    ensures var combos := WithAxes(splitext, common, axes).value;
            (exists k :: 0 <= k < |combos| && combos[k].stage == None) <==>
            forall i :: 0 <= i < |axes| ==> LeavesStageOpen(splitext, axes[i])
  {
    var combos := WithAxes(splitext, common, axes).value;
    WithAxesLength(splitext, common, axes);
    if k :| 0 <= k < |combos| && combos[k].stage == None {
      EntryCombinesDigits(splitext, common, axes, k);
      var digits := Digits(axes, k);
      forall i | 0 <= i < |axes| ensures LeavesStageOpen(splitext, axes[i]) {
        assert Pick(axes, digits)[i] == axes[i][digits[i]];
        assert StageOf(splitext, axes[i][digits[i]]) == "";
      }
    }
    if forall i :: 0 <= i < |axes| ==> LeavesStageOpen(splitext, axes[i]) {
      var digits := OpenChoice(splitext, axes);
      EntryCombines(splitext, common, axes, digits);
      var k := Position(axes, digits);
      assert combos[k].stage == None;
    }
  }

  lemma {:induction false} OpenChoice(splitext: SplitExt, axes: seq<seq<AxisValue>>) returns (digits: seq<nat>)
    requires forall i :: 0 <= i < |axes| ==> LeavesStageOpen(splitext, axes[i])
    ensures IsChoice(axes, digits)
    ensures forall i :: 0 <= i < |axes| ==> StageOf(splitext, Pick(axes, digits)[i]) == ""
  {
    hide StageOf;
    digits := [];
    while |digits| < |axes|
      invariant |digits| <= |axes|
      invariant forall i :: 0 <= i < |digits| ==> digits[i] < |axes[i]| && StageOf(splitext, axes[i][digits[i]]) == ""
    {
      assert LeavesStageOpen(splitext, axes[|digits|]);
      var v: nat :| v < |axes[|digits|]| && StageOf(splitext, axes[|digits|][v]) == "";
      digits := digits + [v];
    }
  }

  /** Exactly when a matrix expands: the order lists the axes once each, the suffixes are valid, no two
      axes ask for different stages, and a stage is known for every variant. */
  lemma {:induction false} ExpandsExactlyIf(splitext: SplitExt, m: Matrix, inputType: string)
    requires WellFormed(m)
    ensures Expand(splitext, m, inputType).Ok? <==>
              && OrderError(m) == None
              && (forall n :: n in AxisOrder(m) ==> n in m.axes)
              && SuffixesValid(splitext, OrderedAxes(m)) && !HasConflict(splitext, OrderedAxes(m))
              && (inputType == "" ==> exists i :: 0 <= i < |OrderedAxes(m)| && !LeavesStageOpen(splitext, OrderedAxes(m)[i]))
  {
    FirstNotInFinds(AxisOrder(m), m.axes.Keys);
    if OrderError(m) == None {
      var axes := OrderedAxes(m);
      StopsExactlyOnConflict(splitext, m.common, axes);
      if WithAxes(splitext, m.common, axes).Ok? {
        SomeEntryOpen(splitext, m.common, axes);
        FinishEntries(m.base, inputType, WithAxes(splitext, m.common, axes).value);
      }
    }
  }

  /** The values picked are those that the indices choose on the axes in their order, which is the declared one or else
      that of the axes. Their suffixes are accepted; a "-" has no part and no stage, any other what splitext gives. */
  ghost predicate IsPicked(splitext: SplitExt, m: Matrix, indices: seq<nat>, picks: seq<AxisValue>) {
    var order := if m.order.Some? then m.order.value else m.names;
    && |picks| == |indices| == |order|
    && (forall i :: 0 <= i < |picks| ==>
          order[i] in m.axes && indices[i] < |m.axes[order[i]]| && picks[i] == m.axes[order[i]][indices[i]])
    && (forall i :: 0 <= i < |picks| ==>
          var suffix := picks[i].suffix;
          if suffix == "-" then NameOf(splitext, picks[i]) == StageOf(splitext, picks[i]) == ""
          else (NameOf(splitext, picks[i]), StageOf(splitext, picks[i])) == splitext(suffix)
               && splitext(suffix).1 in ["", ".comp", ".vert", ".geom", ".frag", ".rgen", ".rchit", ".rahit", ".rmiss", ".rint"])
  }

  lemma PickedHolds(splitext: SplitExt, m: Matrix, digits: seq<nat>)
    requires (forall n :: n in AxisOrder(m) ==> n in m.axes) && IsChoice(OrderedAxes(m), digits)
    requires SuffixesValid(splitext, OrderedAxes(m))
    ensures IsPicked(splitext, m, digits, Pick(OrderedAxes(m), digits))
  {
    var axes, picks := OrderedAxes(m), Pick(OrderedAxes(m), digits);
    assert forall i :: 0 <= i < |picks| ==> picks[i] == axes[i][digits[i]] && Accepted(splitext, picks[i].suffix);
  }

  /** Variant k of a successful expansion: which values it combines, and everything it holds. */
  lemma {:induction false} VariantHoldsDigits(splitext: SplitExt, m: Matrix, inputType: string, k: nat)
    requires WellFormed(m) && Expand(splitext, m, inputType).Ok? && forall n :: n in AxisOrder(m) ==> n in m.axes
    requires k < Size(OrderedAxes(m))
    ensures |Expand(splitext, m, inputType).value| == Size(OrderedAxes(m))
    ensures IsChoice(OrderedAxes(m), Digits(OrderedAxes(m), k))
    ensures var variant, picks := Expand(splitext, m, inputType).value[k], Pick(OrderedAxes(m), Digits(OrderedAxes(m), k));
            && variant.axisValues == Digits(OrderedAxes(m), k)
            && IsPicked(splitext, m, variant.axisValues, picks)
            && variant.name == m.base + Join(AllNames(splitext, picks))
            && variant.defines == m.common + AllDefines(picks)
            && (forall i :: 0 <= i < |picks| && StageOf(splitext, picks[i]) != "" ==> variant.stage == StageOf(splitext, picks[i]))
            && ((forall i :: 0 <= i < |picks| ==> StageOf(splitext, picks[i]) == "") ==> variant.stage == inputType)
  {
    hide WithAxes, Digits, Pick, StageOf, AllNames, AllDefines, Indices, Join, Finish, HasConflict, WellFormed, NoAxisEmpty;
    hide SuffixesValid, IsPicked, StageFits, Size, IsChoice;
    var axes := OrderedAxes(m);
    NoneEmpty(m);
    EntryCombinesDigits(splitext, m.common, axes, k);
    FinishEntries(m.base, inputType, WithAxes(splitext, m.common, axes).value);
    StopsExactlyOnConflict(splitext, m.common, axes);
    var digits := Digits(axes, k);
    IsChoiceOf(axes, digits);
    var picks, c := Pick(axes, digits), WithAxes(splitext, m.common, axes).value[k];
    IndicesAreDigits(m, digits);
    PickedHolds(splitext, m, digits);
    VariantStage(splitext, axes, digits, c.stage);
  }

  lemma NoneEmpty(m: Matrix)
    requires WellFormed(m) && forall n :: n in AxisOrder(m) ==> n in m.axes
    ensures NoAxisEmpty(OrderedAxes(m))
  {
  }

  lemma IsChoiceOf(axes: seq<seq<AxisValue>>, digits: seq<nat>)
    requires IsChoice(axes, digits)
    ensures |digits| == |axes| && (forall i :: 0 <= i < |axes| ==> digits[i] < |axes[i]|) && |Pick(axes, digits)| == |axes|
  {
  }

  lemma VariantStage(splitext: SplitExt, axes: seq<seq<AxisValue>>, digits: seq<nat>, stage: Option<string>)
    requires IsChoice(axes, digits) && !HasConflict(splitext, axes) && StageFits(splitext, Pick(axes, digits), stage)
    ensures var picks := Pick(axes, digits);
            && (forall i :: 0 <= i < |picks| && StageOf(splitext, picks[i]) != "" ==> stage == Some(StageOf(splitext, picks[i])))
            && ((forall i :: 0 <= i < |picks| ==> StageOf(splitext, picks[i]) == "") ==> stage == None)
  {
    var picks := Pick(axes, digits);
    hide StageOf, HasConflict;
    forall i: nat | i < |picks| && StageOf(splitext, picks[i]) != "" ensures stage == Some(StageOf(splitext, picks[i])) {
      ChosenStage(splitext, axes, digits, stage, i);
    }
  }

  lemma IndicesAreDigits(m: Matrix, digits: seq<nat>)
    requires WellFormed(m) && (forall n :: n in AxisOrder(m) ==> n in m.axes) && IsChoice(OrderedAxes(m), digits)
    ensures Indices(Pick(OrderedAxes(m), digits)) == digits
  {
  }

  /** The stage of a combination is that of any pick with a stage. */
  lemma ChosenStage(splitext: SplitExt, axes: seq<seq<AxisValue>>, digits: seq<nat>, stage: Option<string>, i: nat)
    requires IsChoice(axes, digits) && !HasConflict(splitext, axes) && StageFits(splitext, Pick(axes, digits), stage)
    requires i < |axes| && StageOf(splitext, Pick(axes, digits)[i]) != ""
    ensures stage == Some(StageOf(splitext, Pick(axes, digits)[i]))
  {
    var picks := Pick(axes, digits);
    hide StageOf, HasConflict, StageFits;
    forall j: nat | j < |picks| && StageOf(splitext, picks[j]) != ""
      ensures StageOf(splitext, picks[j]) == StageOf(splitext, picks[i])
    {
      AgreeingStages(splitext, axes, digits, i, j);
    }
    AgreedStage(splitext, picks, stage, i);
  }

  lemma AgreeingStages(splitext: SplitExt, axes: seq<seq<AxisValue>>, digits: seq<nat>, i: nat, j: nat)
    requires IsChoice(axes, digits) && !HasConflict(splitext, axes) && i < |axes| && j < |axes|
    requires StageOf(splitext, Pick(axes, digits)[i]) != "" && StageOf(splitext, Pick(axes, digits)[j]) != ""
    ensures StageOf(splitext, Pick(axes, digits)[i]) == StageOf(splitext, Pick(axes, digits)[j])
  {
    if i < j {
      assert !ConflictAt(splitext, axes, i, j, digits[i], digits[j]);
    } else if j < i {
      assert !ConflictAt(splitext, axes, j, i, digits[j], digits[i]);
    }
  }

  /** The full cross product, once each: every choice of values is the choice of exactly one variant. */
  lemma {:induction false} EveryChoiceOnce(splitext: SplitExt, m: Matrix, inputType: string, choice: seq<nat>)
    requires WellFormed(m) && Expand(splitext, m, inputType).Ok? && forall n :: n in AxisOrder(m) ==> n in m.axes
    requires IsChoice(OrderedAxes(m), choice)
    ensures var variants := Expand(splitext, m, inputType).value;
            forall k :: 0 <= k < |variants| ==> (variants[k].axisValues == choice <==> k == Position(OrderedAxes(m), choice))
    ensures Position(OrderedAxes(m), choice) < |Expand(splitext, m, inputType).value|
  {
    var axes, variants := OrderedAxes(m), Expand(splitext, m, inputType).value;
    PositionInRange(axes, choice);
    VariantHoldsDigits(splitext, m, inputType, Position(axes, choice));
    forall k | 0 <= k < |variants| ensures variants[k].axisValues == choice <==> k == Position(axes, choice) {
      VariantHoldsDigits(splitext, m, inputType, k);
      DigitsAreChoice(axes, k);
    }
  }

  // ----- The routine -----

  lemma {:induction false} WithValueStopsEarly(combos: seq<Combination>, parts: (string, string), value: AxisValue, k: nat)
    requires k <= |combos| && WithValue(combos[..k], parts, value).Err?
    ensures WithValue(combos, parts, value) == WithValue(combos[..k], parts, value)
    decreases |combos|
  {
    if k < |combos| {
      assert combos[..|combos| - 1][..k] == combos[..k];
      WithValueStopsEarly(combos[..|combos| - 1], parts, value, k);
    } else {
      assert combos[..k] == combos;
    }
  }

  lemma {:induction false} WithAxisStopsEarly(splitext: SplitExt, combos: seq<Combination>, values: seq<AxisValue>, v: nat)
    requires v <= |values| && WithAxis(splitext, combos, values[..v]).Err?
    ensures WithAxis(splitext, combos, values) == WithAxis(splitext, combos, values[..v])
    decreases |values|
  {
    if v < |values| {
      assert values[..|values| - 1][..v] == values[..v];
      WithAxisStopsEarly(splitext, combos, values[..|values| - 1], v);
    } else {
      assert values[..v] == values;
    }
  }

  lemma {:induction false} WithAxesStopsEarly(splitext: SplitExt, common: seq<string>, axes: seq<seq<AxisValue>>, a: nat)
    requires a <= |axes| && WithAxes(splitext, common, axes[..a]).Err?
    ensures WithAxes(splitext, common, axes) == WithAxes(splitext, common, axes[..a])
    decreases |axes|
  {
    if a < |axes| {
      assert axes[..|axes| - 1][..a] == axes[..a];
      WithAxesStopsEarly(splitext, common, axes[..|axes| - 1], a);
    } else {
      assert axes[..a] == axes;
    }
  }

  /** The two inner loops for one axis. */
  method ExpandAxis(splitext: SplitExt, combinations: seq<Combination>, values: seq<AxisValue>) returns (r: Result<seq<Combination>>)
    ensures r == WithAxis(splitext, combinations, values)
  {
    var nextCombinations: seq<Combination> := [];
    for v := 0 to |values|
      invariant WithAxis(splitext, combinations, values[..v]) == Ok(nextCombinations)
    {
      var value := values[v];
      assert values[..v + 1][..v] == values[..v];
      var parts := SuffixParts(splitext, value.suffix);
      if parts == None {
        WithAxisStopsEarly(splitext, combinations, values, v + 1);
        return Err(BadSuffix(value.suffix));
      }
      ghost var before, more := nextCombinations, [];
      for k := 0 to |combinations|
        invariant WithValue(combinations[..k], parts.value, value) == Ok(more)
        invariant nextCombinations == before + more
      {
        var c := combinations[k];
        assert combinations[..k + 1][..k] == combinations[..k];
        if parts.value.1 != "" && c.stage.Some? && parts.value.1 != c.stage.value {
          WithValueStopsEarly(combinations, parts.value, value, k + 1);
          WithAxisStopsEarly(splitext, combinations, values, v + 1);
          return Err(StageConflict(c.stage.value, parts.value.1));
        }
        var nextNameParts := c.nameParts;
        if parts.value.0 != "" {
          nextNameParts := nextNameParts + [parts.value.0];
        }
        var nextStage := if parts.value.1 != "" then Some(parts.value.1) else c.stage;
        var next := Combination(nextNameParts, nextStage, c.defines + value.defines, c.axisValues + [value.index]);
        more := more + [next];
        nextCombinations := nextCombinations + [next];
      }
      assert combinations[..|combinations|] == combinations;
    }
    assert values[..|values|] == values;
    return Ok(nextCombinations);
  }

  lemma OrderIsKnown(m: Matrix)
    ensures OrderError(m) == None ==> forall n :: n in AxisOrder(m) ==> n in m.axes
  {
    FirstNotInFinds(AxisOrder(m), m.axes.Keys);
  }

  method ExpandVariantMatrix(splitext: SplitExt, m: Matrix, inputType: string) returns (r: Result<seq<Variant>>)
    ensures r == Expand(splitext, m, inputType)
  {
    hide OrderError, WithAxis, Finish;
    OrderIsKnown(m);
    var error := OrderError(m);
    if error.Some? {
      return Err(error.value);
    }
    var axes := OrderedAxes(m);
    var combinations := [Combination([], None, m.common, [])];
    for a := 0 to |axes|
      invariant WithAxes(splitext, m.common, axes[..a]) == Ok(combinations)
    {
      assert axes[..a + 1][..a] == axes[..a];
      var next := ExpandAxis(splitext, combinations, axes[a]);
      if next.Err? {
        WithAxesStopsEarly(splitext, m.common, axes, a + 1);
        return Err(next.error);
      }
      combinations := next.value;
    }
    assert axes[..|axes|] == axes;
    r := FinishAll(m.base, inputType, combinations);
  }

  method FinishAll(base: string, inputType: string, combinations: seq<Combination>) returns (r: Result<seq<Variant>>)
    ensures r == Finish(base, inputType, combinations)
  {
    var variants: seq<Variant> := [];
    for k := 0 to |combinations|
      invariant Finish(base, inputType, combinations[..k]) == Ok(variants)
    {
      var c := combinations[k];
      assert combinations[..k + 1][..k] == combinations[..k];
      if c.stage == None && inputType == "" {
        FinishEntries(base, inputType, combinations);
        NoStageIsTheError(base, inputType, combinations);
        return Err(NoStage);
      }
      variants := variants + [Finished(base, inputType, c)];
    }
    assert combinations[..|combinations|] == combinations;
    return Ok(variants);
  }

  lemma {:induction false} NoStageIsTheError(base: string, inputType: string, combos: seq<Combination>)
    ensures Finish(base, inputType, combos).Err? ==> Finish(base, inputType, combos).error == NoStage
  {
    if combos != [] {
      NoStageIsTheError(base, inputType, combos[..|combos| - 1]);
    }
  }

  // ----- The groups of the generated header -----

  /** The arguments of one X-macro: the variants with this value on this axis and this stage. */
  datatype Group = Group(axis: nat, index: nat, stage: string, members: seq<Variant>)

  function Matching(variants: seq<Variant>, axis: nat, index: nat, stage: string): seq<Variant>
    requires forall v :: v in variants ==> axis < |v.axisValues|
  {
    if variants == [] then []
    else
      var last := variants[|variants| - 1];
      Matching(variants[..|variants| - 1], axis, index, stage)
      + if last.axisValues[axis] == index && last.stage == stage then [last] else []
  }

  predicate Fits(v: Variant, g: Group) {
    g.axis < |v.axisValues| && v.axisValues[g.axis] == g.index && v.stage == g.stage
  }

  /** The group lists, in their order, the variants that fit, each once: `at` are their positions. */
  ghost predicate Lists(g: Group, variants: seq<Variant>, at: seq<nat>) {
    && |at| == |g.members|
    && (forall i, j :: 0 <= i < j < |at| ==> at[i] < at[j])
    && (forall i :: 0 <= i < |at| ==> at[i] < |variants| && g.members[i] == variants[at[i]])
    && (forall k: nat :: k in at <==> k < |variants| && Fits(variants[k], g))
  }

  lemma {:induction false} MatchingLists(variants: seq<Variant>, g: Group) returns (at: seq<nat>)
    requires forall v :: v in variants ==> g.axis < |v.axisValues|
    requires g.members == Matching(variants, g.axis, g.index, g.stage)
    ensures Lists(g, variants, at)
  {
    if variants == [] {
      at := [];
    } else {
      var last := |variants| - 1;
      var front := g.(members := Matching(variants[..last], g.axis, g.index, g.stage));
      at := MatchingLists(variants[..last], front);
      ListsOneMore(variants, front, at);
      at := at + if Fits(variants[last], g) then [last] else [];
    }
  }

  lemma ListsOneMore(variants: seq<Variant>, front: Group, at: seq<nat>)
    requires variants != [] && Lists(front, variants[..|variants| - 1], at)
    ensures var (last, fits) := (|variants| - 1, Fits(variants[|variants| - 1], front));
            Lists(front.(members := front.members + if fits then [variants[last]] else []), variants, at + if fits then [last] else [])
  {
    var last := |variants| - 1;
    var fits := Fits(variants[last], front);
    var g := front.(members := front.members + if fits then [variants[last]] else []);
    var all := at + if fits then [last] else [];
    FitsByKey(g, front);
    hide Fits;
    forall k: nat ensures k in all <==> k < |variants| && Fits(variants[k], g) {
      assert k in all <==> k in at || (fits && k == last);
      assert k < last ==> variants[..last][k] == variants[k];
    }
    assert forall i :: 0 <= i < |at| ==> at[i] in at && variants[..last][at[i]] == variants[at[i]];
  }

  lemma FitsByKey(g: Group, h: Group)
    requires g.axis == h.axis && g.index == h.index && g.stage == h.stage
    ensures forall v :: Fits(v, g) <==> Fits(v, h)
  {
  }

  ghost predicate AllListed(variants: seq<Variant>, groups: seq<Group>, positions: seq<seq<nat>>) {
    && |positions| == |groups|
    && forall n :: 0 <= n < |groups| ==> groups[n].members != [] && Lists(groups[n], variants, positions[n])
  }

  ghost predicate HasGroup(groups: seq<Group>, a: nat, v: Variant) {
    exists n :: 0 <= n < |groups| && groups[n].axis == a && Fits(v, groups[n])
  }

  ghost predicate Earlier(stages: seq<string>, s: string, t: string) {
    exists i, j :: 0 <= i < j < |stages| && stages[i] == s && stages[j] == t
  }

  /** Groups are written axis by axis, on an axis value by value, and for a value stage by stage. */
  ghost predicate Before(stages: seq<string>, g: Group, h: Group) {
    g.axis < h.axis || (g.axis == h.axis && (g.index < h.index || (g.index == h.index && Earlier(stages, g.stage, h.stage))))
  }

  ghost predicate InOrder(stages: seq<string>, groups: seq<Group>) {
    forall i, j :: 0 <= i < j < |groups| ==> Before(stages, groups[i], groups[j])
  }

  /** The groups are those of the axes, in order, none is empty, each lists exactly what fits, and none that has
      members is missing. */
  ghost predicate AllGroups(sizes: seq<nat>, variants: seq<Variant>, stages: seq<string>, groups: seq<Group>,
                            positions: seq<seq<nat>>) {
    && (forall g :: g in groups ==> g.axis < |sizes| && g.index < sizes[g.axis] && g.stage in stages)
    && InOrder(stages, groups) && AllListed(variants, groups, positions)
    && forall a, v :: 0 <= a < |sizes| && v in variants && a < |v.axisValues| && v.axisValues[a] < sizes[a] && v.stage in stages
         ==> HasGroup(groups, a, v)
  }

  lemma Appended(variants: seq<Variant>, stages: seq<string>, groups: seq<Group>, at: seq<seq<nat>>,
                 more: seq<Group>, moreAt: seq<seq<nat>>)
    requires InOrder(stages, groups) && AllListed(variants, groups, at)
    requires InOrder(stages, more) && AllListed(variants, more, moreAt)
    requires forall g, h :: g in groups && h in more ==> Before(stages, g, h)
    ensures InOrder(stages, groups + more) && AllListed(variants, groups + more, at + moreAt)
  {
    hide Before, Lists;
  }

  lemma GroupsGrow(groups: seq<Group>, more: seq<Group>)
    ensures forall a, v :: HasGroup(groups, a, v) || HasGroup(more, a, v) ==> HasGroup(groups + more, a, v)
  {
    var all := groups + more;
    hide Fits;
    forall a, v | HasGroup(groups, a, v) || HasGroup(more, a, v) ensures HasGroup(all, a, v) {
      if n :| 0 <= n < |groups| && groups[n].axis == a && Fits(v, groups[n]) {
        assert all[n] == groups[n];
      } else {
        var n :| 0 <= n < |more| && more[n].axis == a && Fits(v, more[n]);
        assert all[|groups| + n] == more[n];
      }
    }
  }

  /** The three nested loops that write the X-macros, with the empty groups skipped. `sizes` gives
      the number of values on each axis, `stages` the stages of the variants without repetition. */
  method WriteGroups(sizes: seq<nat>, variants: seq<Variant>, stages: seq<string>) returns (groups: seq<Group>)
    requires forall v :: v in variants ==> |v.axisValues| == |sizes|
    requires NoDuplicates(stages)
    ensures exists positions :: AllGroups(sizes, variants, stages, groups, positions)
  {
    hide InOrder, AllListed, HasGroup, Matching, NoDuplicates;
    groups := [];
    ghost var positions: seq<seq<nat>> := [];
    NoGroups(variants, stages);
    for a := 0 to |sizes|
      invariant forall g :: g in groups ==> g.axis < a && g.index < sizes[g.axis] && g.stage in stages
      invariant InOrder(stages, groups) && AllListed(variants, groups, positions)
      invariant forall b, v :: 0 <= b < a && v in variants && v.axisValues[b] < sizes[b] && v.stage in stages
                  ==> HasGroup(groups, b, v)
    {
      var axisGroups := WriteAxis(a, sizes[a], |sizes|, variants, stages);
      ghost var axisPositions :| AllListed(variants, axisGroups, axisPositions);
      Appended(variants, stages, groups, positions, axisGroups, axisPositions);
      GroupsGrow(groups, axisGroups);
      groups, positions := groups + axisGroups, positions + axisPositions;
    }
    assert AllGroups(sizes, variants, stages, groups, positions);
  }

  /** The groups of one axis. */
  method WriteAxis(a: nat, size: nat, ghost rank: nat, variants: seq<Variant>, stages: seq<string>)
    returns (groups: seq<Group>)
    requires a < rank && forall v :: v in variants ==> |v.axisValues| == rank
    requires NoDuplicates(stages)
    ensures forall g :: g in groups ==> g.axis == a && g.index < size && g.stage in stages
    ensures InOrder(stages, groups) && exists positions :: AllListed(variants, groups, positions)
    ensures forall v :: v in variants && v.axisValues[a] < size && v.stage in stages ==> HasGroup(groups, a, v)
  {
    hide InOrder, AllListed, HasGroup, Lists, Matching;
    groups := [];
    ghost var positions: seq<seq<nat>> := [];
    NoGroups(variants, stages);
    for index := 0 to size
      invariant forall g :: g in groups ==> g.axis == a && g.index < index && g.stage in stages
      invariant InOrder(stages, groups) && AllListed(variants, groups, positions)
      invariant forall v :: v in variants && v.axisValues[a] < index && v.stage in stages ==> HasGroup(groups, a, v)
    {
      for t := 0 to |stages|
        invariant forall g :: g in groups ==> g.axis == a && g.stage in stages && (g.index < index || (g.index == index && g.stage in stages[..t]))
        invariant InOrder(stages, groups) && AllListed(variants, groups, positions)
        invariant forall v :: v in variants && v.axisValues[a] < index && v.stage in stages ==> HasGroup(groups, a, v)
        invariant forall v :: v in variants && v.axisValues[a] == index && v.stage in stages[..t] ==> HasGroup(groups, a, v)
      {
        var group := Group(a, index, stages[t], Matching(variants, a, index, stages[t]));
        ghost var at := MatchingLists(variants, group);
        if group.members != [] {
          OneGroup(variants, stages, group, at);
          Appended(variants, stages, groups, positions, [group], [at]);
          GroupsGrow(groups, [group]);
          groups, positions := groups + [group], positions + [at];
        } else {
          NoneFits(variants, group, at);
        }
        assert stages[..t + 1] == stages[..t] + [stages[t]];
      }
      assert stages[..|stages|] == stages;
    }
  }

  lemma NoGroups(variants: seq<Variant>, stages: seq<string>)
    ensures InOrder(stages, []) && AllListed(variants, [], [])
  {
  }

  lemma OneGroup(variants: seq<Variant>, stages: seq<string>, g: Group, at: seq<nat>)
    requires Lists(g, variants, at) && g.members != []
    ensures InOrder(stages, [g]) && AllListed(variants, [g], [at])
    ensures forall v :: Fits(v, g) ==> HasGroup([g], g.axis, v)
  {
    hide Lists, Fits;
    assert [g][0] == g;
  }

  lemma NoneFits(variants: seq<Variant>, g: Group, at: seq<nat>)
    requires Lists(g, variants, at) && g.members == []
    ensures forall v :: v in variants ==> !Fits(v, g)
  {
    hide Fits;
    forall v | v in variants ensures !Fits(v, g) {
      var k :| 0 <= k < |variants| && variants[k] == v;
      assert k !in at;
    }
  }

  lemma OrderedDiffer(stages: seq<string>, g: Group, h: Group)
    requires NoDuplicates(stages) && Before(stages, g, h)
    ensures !(g.axis == h.axis && g.index == h.index && g.stage == h.stage)
  {
  }

  /** Position k of the variants is the i-th that group n of the axis lists. */
  predicate IsAt(groups: seq<Group>, positions: seq<seq<nat>>, a: nat, k: nat, n: nat, i: nat)
    requires |groups| == |positions|
  {
    n < |groups| && groups[n].axis == a && i < |positions[n]| && positions[n][i] == k
  }

  /** On every axis each variant is an argument of exactly one group, that of its own value and stage, and listed there
      once: every position occurs exactly once. */
  lemma {:induction false} EachVariantInOneGroup(sizes: seq<nat>, variants: seq<Variant>, stages: seq<string>, groups: seq<Group>,
                                                 positions: seq<seq<nat>>, a: nat, k: nat)
    requires NoDuplicates(stages) && AllGroups(sizes, variants, stages, groups, positions)
    requires a < |sizes| && k < |variants| && a < |variants[k].axisValues|
    requires variants[k].stage in stages && variants[k].axisValues[a] < sizes[a]
    ensures InOneGroup(variants, groups, positions, a, k)
  {
    assert variants[k] in variants;
    assert HasGroup(groups, a, variants[k]);
    hide HasGroup, AllListed, InOrder, NoDuplicates, Fits, IsAt;
    var n, i := FindPlace(variants, groups, positions, a, k);
    forall n': nat, i': nat | IsAt(groups, positions, a, k, n', i') ensures n' == n && i' == i {
      SamePlace(variants, stages, groups, positions, a, k, n, i, n', i');
    }
  }

  lemma FindPlace(variants: seq<Variant>, groups: seq<Group>, positions: seq<seq<nat>>, a: nat, k: nat)
    returns (n: nat, i: nat)
    requires AllListed(variants, groups, positions) && k < |variants| && HasGroup(groups, a, variants[k])
    ensures IsAt(groups, positions, a, k, n, i) && i < |groups[n].members| && groups[n].members[i] == variants[k]
    ensures Fits(variants[k], groups[n])
  {
    hide Fits;
    n :| 0 <= n < |groups| && groups[n].axis == a && Fits(variants[k], groups[n]);
    assert Lists(groups[n], variants, positions[n]);
    assert k in positions[n];
    i :| 0 <= i < |positions[n]| && positions[n][i] == k;
  }

  lemma SamePlace(variants: seq<Variant>, stages: seq<string>, groups: seq<Group>, positions: seq<seq<nat>>, a: nat, k: nat,
                  n: nat, i: nat, n': nat, i': nat)
    requires NoDuplicates(stages) && InOrder(stages, groups) && AllListed(variants, groups, positions)
    requires IsAt(groups, positions, a, k, n, i) && IsAt(groups, positions, a, k, n', i')
    ensures n' == n && i' == i
  {
    assert Lists(groups[n], variants, positions[n]) && Lists(groups[n'], variants, positions[n']);
    assert k in positions[n] && k in positions[n'];
    hide Before, NoDuplicates;
    if n < n' {
      OrderedDiffer(stages, groups[n], groups[n']);
    } else if n' < n {
      OrderedDiffer(stages, groups[n'], groups[n]);
    }
  }

  /** One group of the axis lists position k, once, and that is the one of the variant's own value and stage. */
  ghost predicate InOneGroup(variants: seq<Variant>, groups: seq<Group>, positions: seq<seq<nat>>, a: nat, k: nat)
    requires |groups| == |positions| && k < |variants|
  {
    exists n: nat, i: nat ::
      && IsAt(groups, positions, a, k, n, i) && i < |groups[n].members| && groups[n].members[i] == variants[k]
      && Fits(variants[k], groups[n])
      && forall n': nat, i': nat :: IsAt(groups, positions, a, k, n', i') ==> n' == n && i' == i
  }
}
