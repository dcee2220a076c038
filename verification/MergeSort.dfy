/** Sort_merge: a bottom-up merge sort that ping-pongs between two buffers.
    The functional part says what each pass computes; SortMerge is the routine itself. */
module MergeSort {
  import opened Orders
  import opened Powers

  function Min(a: nat, b: nat): nat {
    if a < b then a else b
  }

  // ----- Specification -----

  /** The merge loop followed by the two block copies. */
  function Merge<T>(cmp: (T, T) -> bool, l: seq<T>, r: seq<T>): seq<T> {
    if l == [] then r
    else if r == [] then l
    else if cmp(l[0], r[0]) then [l[0]] + Merge(cmp, l[1..], r)
    else [r[0]] + Merge(cmp, l, r[1..])
  }

  /** One pass: merge neighbouring runs of length h into runs of length 2*h. */
  function Pass<T>(cmp: (T, T) -> bool, s: seq<T>, h: nat): seq<T>
    requires h > 0
    decreases |s|
  {
    if s == [] then []
    else
      var mid, end := Min(h, |s|), Min(2 * h, |s|);
      Merge(cmp, s[..mid], s[mid..end]) + Pass(cmp, s[end..], h)
  }

  /** All the passes, starting with runs of length h. */
  function Passes<T>(cmp: (T, T) -> bool, s: seq<T>, h: nat): (r: seq<T>)
    requires h > 0
    decreases |s| - h
    ensures |r| == |s|
  {
    if h < |s| then
      PassPermutes(cmp, s, h);
      Passes(cmp, Pass(cmp, s, h), 2 * h)
    else s
  }

  // ----- Permutation -----

  lemma {:induction false} MergePermutes<T>(cmp: (T, T) -> bool, l: seq<T>, r: seq<T>)
    ensures multiset(Merge(cmp, l, r)) == multiset(l) + multiset(r)
    ensures |Merge(cmp, l, r)| == |l| + |r|
    decreases |l| + |r|
  {
    if l != [] && r != [] {
      assert l == [l[0]] + l[1..] && r == [r[0]] + r[1..];
      if cmp(l[0], r[0]) {
        MergePermutes(cmp, l[1..], r);
      } else {
        MergePermutes(cmp, l, r[1..]);
      }
    }
  }

  lemma {:induction false} PassPermutes<T>(cmp: (T, T) -> bool, s: seq<T>, h: nat)
    requires h > 0
    ensures multiset(Pass(cmp, s, h)) == multiset(s)
    ensures |Pass(cmp, s, h)| == |s|
    decreases |s|
  {
    if s != [] {
      var mid, end := Min(h, |s|), Min(2 * h, |s|);
      MergePermutes(cmp, s[..mid], s[mid..end]);
      PassPermutes(cmp, s[end..], h);
      ThreeParts(s, mid, end);
      hide Merge;
    }
  }

  lemma ThreeParts<T>(s: seq<T>, mid: nat, end: nat)
    requires mid <= end <= |s|
    ensures multiset(s) == multiset(s[..mid]) + multiset(s[mid..end]) + multiset(s[end..])
  {
    assert s == s[..mid] + s[mid..end] + s[end..];
  }

  lemma {:induction false} PassesPermute<T>(cmp: (T, T) -> bool, s: seq<T>, h: nat)
    requires h > 0
    ensures multiset(Passes(cmp, s, h)) == multiset(s)
    decreases |s| - h
  {
    if h < |s| {
      PassPermutes(cmp, s, h);
      PassesPermute(cmp, Pass(cmp, s, h), 2 * h);
    }
  }

  // ----- Order and ties -----

  /** The elements of s that the order cannot tell from x, in the order in which s holds them. */
  ghost function Ties<T>(le: (T, T) -> bool, x: T, s: seq<T>): seq<T> {
    if s == [] then []
    else (if le(x, s[0]) && le(s[0], x) then [s[0]] else []) + Ties(le, x, s[1..])
  }

  ghost function Reverse<T>(s: seq<T>): seq<T> {
    if s == [] then [] else Reverse(s[1..]) + [s[0]]
  }

  /** What a sorted run does to the order of tied elements. */
  ghost function TieOrder<T>(tiesLeft: bool, s: seq<T>): seq<T> {
    if tiesLeft then s else Reverse(s)
  }

  lemma {:induction false} TiesConcat<T>(le: (T, T) -> bool, x: T, a: seq<T>, b: seq<T>)
    ensures Ties(le, x, a + b) == Ties(le, x, a) + Ties(le, x, b)
  {
    if a == [] {
      assert a + b == b;
    } else {
      assert (a + b)[1..] == a[1..] + b;
      TiesConcat(le, x, a[1..], b);
    }
  }

  lemma {:induction false} ReverseConcat<T>(a: seq<T>, b: seq<T>)
    ensures Reverse(a + b) == Reverse(b) + Reverse(a)
  {
    if a == [] {
      assert a + b == b;
    } else {
      assert (a + b)[1..] == a[1..] + b;
      ReverseConcat(a[1..], b);
    }
  }

  /** A sorted run that starts strictly above y holds nothing tied with y. */
  lemma {:induction false} NoTies<T(!new)>(le: (T, T) -> bool, x: T, y: T, s: seq<T>)
    requires TotalPreorder(le) && Sorted(le, s)
    requires le(x, y) && le(y, x)
    requires s != [] ==> !le(s[0], y)
    ensures Ties(le, x, s) == []
  {
    if s != [] {
      assert forall i :: 0 < i < |s| ==> le(s[0], s[i]);
      NoTies(le, x, y, s[1..]);
    }
  }

  ghost predicate Below<T>(le: (T, T) -> bool, x: T, s: seq<T>) {
    forall i :: 0 <= i < |s| ==> le(x, s[i])
  }

  lemma {:induction false} SortedCons<T(!new)>(le: (T, T) -> bool, x: T, s: seq<T>)
    requires Sorted(le, s) && Below(le, x, s)
    ensures Sorted(le, [x] + s)
  {
    assert forall i :: 0 <= i < |s| ==> ([x] + s)[i + 1] == s[i];
  }

  lemma {:induction false} SortedHead<T(!new)>(le: (T, T) -> bool, s: seq<T>)
    requires TotalPreorder(le) && Sorted(le, s) && s != []
    ensures Below(le, s[0], s) && Sorted(le, s[1..])
  {
    assert le(s[0], s[0]);
  }

  lemma {:induction false} MergeBelow<T(!new)>(cmp: (T, T) -> bool, le: (T, T) -> bool, x: T, l: seq<T>, r: seq<T>)
    requires Below(le, x, l) && Below(le, x, r)
    ensures Below(le, x, Merge(cmp, l, r))
    decreases |l| + |r|
  {
    if l != [] && r != [] {
      if cmp(l[0], r[0]) {
        MergeBelow(cmp, le, x, l[1..], r);
      } else {
        MergeBelow(cmp, le, x, l, r[1..]);
      }
    }
  }

  lemma {:induction false} BelowTransfers<T(!new)>(le: (T, T) -> bool, x: T, y: T, s: seq<T>)
    requires TotalPreorder(le) && le(x, y) && Below(le, y, s)
    ensures Below(le, x, s)
  {
    forall i | 0 <= i < |s| ensures le(x, s[i]) {
      assert le(y, s[i]);
    }
  }

  lemma {:induction false} MergeSorts<T(!new)>(cmp: (T, T) -> bool, le: (T, T) -> bool, tiesLeft: bool, l: seq<T>, r: seq<T>)
    requires SortsBy(cmp, le, tiesLeft)
    requires Sorted(le, l) && Sorted(le, r)
    ensures Sorted(le, Merge(cmp, l, r))
    decreases |l| + |r|
  {
    if l != [] && r != [] {
      SortedHead(le, l);
      SortedHead(le, r);
      if cmp(l[0], r[0]) {
        MergeSorts(cmp, le, tiesLeft, l[1..], r);
        assert le(l[0], r[0]);
        BelowTransfers(le, l[0], r[0], r);
        MergeBelow(cmp, le, l[0], l[1..], r);
        SortedCons(le, l[0], Merge(cmp, l[1..], r));
      } else {
        MergeSorts(cmp, le, tiesLeft, l, r[1..]);
        assert le(r[0], l[0]);
        BelowTransfers(le, r[0], l[0], l);
        MergeBelow(cmp, le, r[0], l, r[1..]);
        SortedCons(le, r[0], Merge(cmp, l, r[1..]));
      }
    }
  }

  lemma SortedTail<T>(le: (T, T) -> bool, s: seq<T>)
    requires Sorted(le, s) && s != []
    ensures Sorted(le, s[1..])
  {
  }

  /** The element that the merge loop takes first has no tie that must come before it. */
  lemma {:induction false} HeadIsNext<T(!new)>(cmp: (T, T) -> bool, le: (T, T) -> bool, tiesLeft: bool, x: T, l: seq<T>, r: seq<T>)
    requires SortsBy(cmp, le, tiesLeft)
    requires Sorted(le, l) && Sorted(le, r) && l != [] && r != []
    ensures cmp(l[0], r[0]) && !tiesLeft && le(x, l[0]) && le(l[0], x) ==> Ties(le, x, r) == []
    ensures !cmp(l[0], r[0]) && tiesLeft && le(x, r[0]) && le(r[0], x) ==> Ties(le, x, l) == []
  {
    if cmp(l[0], r[0]) && !tiesLeft && le(x, l[0]) && le(l[0], x) {
      NoTies(le, x, l[0], r);
    }
    if !cmp(l[0], r[0]) && tiesLeft && le(x, r[0]) && le(r[0], x) {
      NoTies(le, x, r[0], l);
    }
  }

  lemma HeadTies<T(!new)>(le: (T, T) -> bool, x: T, head: T, s: seq<T>)
    ensures Ties(le, x, [head] + s) == Ties(le, x, [head]) + Ties(le, x, s)
    ensures Ties(le, x, [head]) != [] ==> le(x, head) && le(head, x)
  {
    TiesConcat(le, x, [head], s);
  }

  /** A head joins the ties of its own run, wherever those stand. */
  lemma HeadJoins<T>(head: seq<T>, own: seq<T>, other: seq<T>)
    ensures head + (own + other) == (head + own) + other
    ensures head == [] || other == [] ==> head + (other + own) == other + (head + own)
  {
  }

  /** Merging keeps each run's own tie order and puts all of one run's ties before the other's. */
  lemma {:induction false} MergeTies<T(!new)>(cmp: (T, T) -> bool, le: (T, T) -> bool, tiesLeft: bool, x: T, l: seq<T>, r: seq<T>)
    requires SortsBy(cmp, le, tiesLeft)
    requires Sorted(le, l) && Sorted(le, r)
    ensures Ties(le, x, Merge(cmp, l, r)) ==
            if tiesLeft then Ties(le, x, l) + Ties(le, x, r) else Ties(le, x, r) + Ties(le, x, l)
    decreases |l| + |r|
  {
    hide SortsBy, Sorted, Ties;
    if l == [] || r == [] {
      NoTiesInNothing(le, x);
    } else {
      SortedTail(le, l);
      SortedTail(le, r);
      HeadIsNext(cmp, le, tiesLeft, x, l, r);
      if cmp(l[0], r[0]) {
        MergeTies(cmp, le, tiesLeft, x, l[1..], r);
        HeadTies(le, x, l[0], Merge(cmp, l[1..], r));
        HeadTies(le, x, l[0], l[1..]);
        assert [l[0]] + l[1..] == l;
        HeadJoins(Ties(le, x, [l[0]]), Ties(le, x, l[1..]), Ties(le, x, r));
      } else {
        MergeTies(cmp, le, tiesLeft, x, l, r[1..]);
        HeadTies(le, x, r[0], Merge(cmp, l, r[1..]));
        HeadTies(le, x, r[0], r[1..]);
        assert [r[0]] + r[1..] == r;
        HeadJoins(Ties(le, x, [r[0]]), Ties(le, x, r[1..]), Ties(le, x, l));
      }
    }
  }

  lemma NoTiesInNothing<T>(le: (T, T) -> bool, x: T)
    ensures Ties(le, x, []) == []
  {
  }

  /** s is made of sorted runs of length h, and each run holds its ties with x in the order that
      sorting the same stretch of the input `from` gives. */
  ghost predicate Runs<T>(le: (T, T) -> bool, tiesLeft: bool, x: T, s: seq<T>, from: seq<T>, h: nat)
    requires h > 0
    decreases |s|
  {
    && |s| == |from|
    && (s != [] ==>
          var k := Min(h, |s|);
          && Sorted(le, s[..k])
          && Ties(le, x, s[..k]) == TieOrder(tiesLeft, Ties(le, x, from[..k]))
          && Runs(le, tiesLeft, x, s[k..], from[k..], h))
  }

  lemma {:induction false} SingletonRuns<T(!new)>(le: (T, T) -> bool, tiesLeft: bool, x: T, s: seq<T>)
    ensures Runs(le, tiesLeft, x, s, s, 1)
  {
    if s != [] {
      assert s[..1] == [s[0]];
      assert s[..1][1..] == [];
      assert Ties(le, x, []) == [];
      ReverseConcat(Ties(le, x, s[..1]), []);
      SingletonRuns(le, tiesLeft, x, s[1..]);
    }
  }

  lemma {:induction false} MergedRun<T(!new)>(cmp: (T, T) -> bool, le: (T, T) -> bool, tiesLeft: bool, x: T,
                                              l: seq<T>, r: seq<T>, l0: seq<T>, r0: seq<T>)
    requires SortsBy(cmp, le, tiesLeft)
    requires Sorted(le, l) && Sorted(le, r)
    requires Ties(le, x, l) == TieOrder(tiesLeft, Ties(le, x, l0))
    requires Ties(le, x, r) == TieOrder(tiesLeft, Ties(le, x, r0))
    ensures Sorted(le, Merge(cmp, l, r))
    ensures Ties(le, x, Merge(cmp, l, r)) == TieOrder(tiesLeft, Ties(le, x, l0 + r0))
  {
    MergeSorts(cmp, le, tiesLeft, l, r);
    MergeTies(cmp, le, tiesLeft, x, l, r);
    TiesConcat(le, x, l0, r0);
    ReverseConcat(Ties(le, x, l0), Ties(le, x, r0));
  }

  /** Takes the first two runs off. */
  lemma {:induction false} RunsSplit<T(!new)>(le: (T, T) -> bool, tiesLeft: bool, x: T, s: seq<T>, from: seq<T>, h: nat)
    returns (l: seq<T>, r: seq<T>, rest: seq<T>, l0: seq<T>, r0: seq<T>, rest0: seq<T>)
    requires h > 0 && s != []
    requires Runs(le, tiesLeft, x, s, from, h)
    ensures s == l + r + rest && |l| == Min(h, |s|) && |l| + |r| == Min(2 * h, |s|)
    ensures from == l0 + r0 + rest0 && |l0| == |l| && |r0| == |r| && |rest0| == |rest|
    ensures Sorted(le, l) && Sorted(le, r)
    ensures Ties(le, x, l) == TieOrder(tiesLeft, Ties(le, x, l0))
    ensures Ties(le, x, r) == TieOrder(tiesLeft, Ties(le, x, r0))
    ensures Runs(le, tiesLeft, x, rest, rest0, h)
  {
    hide Runs, Sorted, Ties, TieOrder;
    var mid := Min(h, |s|);
    var k := Min(h, |s| - mid);
    FirstRun(le, tiesLeft, x, s, from, h);
    l, l0 := s[..mid], from[..mid];
    var (s2, from2) := (s[mid..], from[mid..]);
    FirstRun(le, tiesLeft, x, s2, from2, h);
    r, r0 := s2[..k], from2[..k];
    rest, rest0 := s2[k..], from2[k..];
    SplitTwice(s, mid, k);
    SplitTwice(from, mid, k);
  }

  lemma SplitTwice<T>(s: seq<T>, mid: nat, k: nat)
    requires mid + k <= |s|
    ensures s == s[..mid] + s[mid..][..k] + s[mid..][k..]
  {
  }

  lemma FirstRun<T>(le: (T, T) -> bool, tiesLeft: bool, x: T, s: seq<T>, from: seq<T>, h: nat)
    requires h > 0 && Runs(le, tiesLeft, x, s, from, h)
    ensures |s| == |from|
    ensures var k := Min(h, |s|);
            Sorted(le, s[..k]) && Ties(le, x, s[..k]) == TieOrder(tiesLeft, Ties(le, x, from[..k]))
            && Runs(le, tiesLeft, x, s[k..], from[k..], h)
  {
  }

  lemma {:induction false} PassUnfolds<T>(cmp: (T, T) -> bool, l: seq<T>, r: seq<T>, rest: seq<T>, h: nat)
    requires h > 0 && l != []
    requires |l| == Min(h, |l| + |r| + |rest|) && |l| + |r| == Min(2 * h, |l| + |r| + |rest|)
    ensures Pass(cmp, l + r + rest, h) == Merge(cmp, l, r) + Pass(cmp, rest, h)
  {
    var s := l + r + rest;
    assert s[..|l|] == l && s[|l|..|l| + |r|] == r && s[|l| + |r|..] == rest;
  }

  lemma {:induction false} RunsJoin<T(!new)>(le: (T, T) -> bool, tiesLeft: bool, x: T,
                                             a: seq<T>, b: seq<T>, fromA: seq<T>, fromB: seq<T>, h: nat)
    requires h > 0 && a != [] && |a| == |fromA| == Min(h, |a| + |b|)
    requires Sorted(le, a) && Ties(le, x, a) == TieOrder(tiesLeft, Ties(le, x, fromA))
    requires Runs(le, tiesLeft, x, b, fromB, h)
    ensures Runs(le, tiesLeft, x, a + b, fromA + fromB, h)
  {
    assert (a + b)[..|a|] == a && (a + b)[|a|..] == b;
    assert (fromA + fromB)[..|a|] == fromA && (fromA + fromB)[|a|..] == fromB;
  }

  /** One pass doubles the length of the runs. */
  lemma {:induction false} PassDoublesRuns<T(!new)>(cmp: (T, T) -> bool, le: (T, T) -> bool, tiesLeft: bool, x: T,
                                                    s: seq<T>, from: seq<T>, h: nat)
    requires h > 0 && SortsBy(cmp, le, tiesLeft)
    requires Runs(le, tiesLeft, x, s, from, h)
    ensures Runs(le, tiesLeft, x, Pass(cmp, s, h), from, 2 * h)
    decreases |s|
  {
    if s != [] {
      var l, r, rest, l0, r0, rest0 := RunsSplit(le, tiesLeft, x, s, from, h);
      PassUnfolds(cmp, l, r, rest, h);
      MergedRun(cmp, le, tiesLeft, x, l, r, l0, r0);
      MergePermutes(cmp, l, r);
      PassPermutes(cmp, rest, h);
      PassDoublesRuns(cmp, le, tiesLeft, x, rest, rest0, h);
      RunsJoin(le, tiesLeft, x, Merge(cmp, l, r), Pass(cmp, rest, h), l0 + r0, rest0, 2 * h);
    }
  }

  lemma {:induction false} PassesSort<T(!new)>(cmp: (T, T) -> bool, le: (T, T) -> bool, tiesLeft: bool, x: T,
                                               s: seq<T>, from: seq<T>, h: nat)
    requires h > 0 && SortsBy(cmp, le, tiesLeft)
    requires Runs(le, tiesLeft, x, s, from, h)
    ensures Sorted(le, Passes(cmp, s, h))
    ensures Ties(le, x, Passes(cmp, s, h)) == TieOrder(tiesLeft, Ties(le, x, from))
    decreases |s| - h
  {
    if h < |s| {
      PassPermutes(cmp, s, h);
      PassDoublesRuns(cmp, le, tiesLeft, x, s, from, h);
      PassesSort(cmp, le, tiesLeft, x, Pass(cmp, s, h), from, 2 * h);
    } else {
      assert s[..|s|] == s && from[..|s|] == from;
    }
  }

  // ----- Main results -----

  /** With a strict weak order the result is an ordered permutation of the input in which any two
      elements the order cannot tell apart have changed places: ties come out in exactly
      reversed input order. */
  lemma {:induction false} StrictOrderSortsAndReversesTies<T(!new)>(cmp: (T, T) -> bool, s: seq<T>, x: T)
    requires StrictWeakOrder(cmp)
    ensures multiset(Passes(cmp, s, 1)) == multiset(s)
    ensures InOrder(cmp, Passes(cmp, s, 1))
    ensures var le := (a, b) => !cmp(b, a);
            Ties(le, x, Passes(cmp, s, 1)) == Reverse(Ties(le, x, s))
  {
    var le := (a, b) => !cmp(b, a);
    assert SortsBy(cmp, le, false) by {
      forall a, b ensures le(a, b) || le(b, a) {
        assert cmp(a, b) && cmp(b, a) ==> cmp(a, a);
      }
    }
    SingletonRuns(le, false, x, s);
    PassesSort(cmp, le, false, x, s, s, 1);
    PassesPermute(cmp, s, 1);
  }

  /** With a reflexive comparison (<= rather than <) the sort is stable. */
  lemma {:induction false} PreorderSortsStably<T(!new)>(cmp: (T, T) -> bool, s: seq<T>, x: T)
    requires TotalPreorder(cmp)
    ensures multiset(Passes(cmp, s, 1)) == multiset(s)
    ensures Sorted(cmp, Passes(cmp, s, 1))
    ensures Ties(cmp, x, Passes(cmp, s, 1)) == Ties(cmp, x, s)
  {
    SingletonRuns(cmp, true, x, s);
    PassesSort(cmp, cmp, true, x, s, s, 1);
    PassesPermute(cmp, s, 1);
  }

  // ----- The routine -----

  /** One turn of the merge loop, seen as a step over what is left of the two runs. */
  lemma {:induction false} MergeStep<T>(cmp: (T, T) -> bool, s: seq<T>, j: nat, nj: nat, k: nat, nk: nat, out: seq<T>)
    requires j < nj <= k < nk <= |s|
    ensures out + Merge(cmp, s[j..nj], s[k..nk]) ==
            if cmp(s[j], s[k]) then (out + [s[j]]) + Merge(cmp, s[j + 1..nj], s[k..nk])
            else (out + [s[k]]) + Merge(cmp, s[j..nj], s[k + 1..nk])
  {
    assert s[j..nj][1..] == s[j + 1..nj] && s[k..nk][1..] == s[k + 1..nk];
  }

  /** The merge loop: fills dst from `i` on while both runs last, and says where it stopped. */
  method MergeWhileBoth<T>(cmp: (T, T) -> bool, dst: array<T>, src: array<T>, i: uint32, nj: uint32, nk: uint32, ghost s: seq<T>)
    returns (tmp: uint32, j: uint32, k: uint32)
    requires dst != src && dst.Length == src.Length && s == src[..]
    requires i <= nj <= nk && nk as int <= src.Length
    modifies dst
    ensures i <= j <= nj <= k <= nk && tmp as int == j as int + k as int - nj as int
    ensures j == nj || k == nk
    ensures dst[..tmp] + Merge(cmp, s[j..nj], s[k..nk]) == old(dst[..i]) + Merge(cmp, s[i..nj], s[nj..nk])
  {
    hide Merge;
    tmp, j, k := i, i, nj;
    ghost var out, whole := dst[..i], dst[..i] + Merge(cmp, s[i..nj], s[nj..nk]);
    while j < nj && k < nk
      invariant i <= j <= nj <= k <= nk && tmp as int == j as int + k as int - nj as int
      invariant dst[..tmp] == out
      invariant out + Merge(cmp, s[j..nj], s[k..nk]) == whole
      decreases nk - k + (nj - j)
    {
      MergeStep(cmp, s, j as int, nj as int, k as int, nk as int, out);
      if cmp(src[j], src[k]) {
        dst[tmp] := src[j];
        out := out + [src[j]];
        j := j + 1;
      } else {
        dst[tmp] := src[k];
        out := out + [src[k]];
        k := k + 1;
      }
      tmp := tmp + 1;
    }
  }

  /** memcpy(dst + d, src + from, count * sizeof(T)) for two different buffers. */
  method CopyBlock<T>(dst: array<T>, d: uint32, src: array<T>, from: uint32, count: uint32, ghost s: seq<T>)
    requires dst != src && s == src[..]
    requires d as int + count as int <= dst.Length && from as int + count as int <= src.Length
    modifies dst
    ensures dst[..d as int + count as int] == old(dst[..d]) + s[from..from as int + count as int]
  {
    forall p | 0 <= p < count as int {
      dst[d as int + p] := src[from as int + p];
    }
  }

  /** The two block copies after the merge loop, of which at most one has anything to copy. */
  method CopyRest<T>(cmp: (T, T) -> bool, dst: array<T>, src: array<T>, tmp0: uint32, j: uint32, nj0: uint32, k: uint32, nk0: uint32,
                     ghost s: seq<T>)
    requires dst != src && dst.Length == src.Length && s == src[..]
    requires j <= nj0 <= k <= nk0 && nk0 as int <= src.Length && (j == nj0 || k == nk0)
    requires tmp0 as int == j as int + k as int - nj0 as int
    modifies dst
    ensures dst[..nk0] == old(dst[..tmp0]) + Merge(cmp, s[j..nj0], s[k..nk0])
  {
    var tmp, nj, nk := tmp0, nj0, nk0;
    nj := nj - j;
    nk := nk - k;
    if nj != 0 {
      CopyBlock(dst, tmp, src, j, nj, s);
      tmp := tmp + nj;
    }
    if nk != 0 {
      CopyBlock(dst, tmp, src, k, nk, s);
      tmp := tmp + nk;
    }
  }

  /** One turn of the loop over i, seen as a step over the part of the pass still to do. */
  lemma {:induction false} PassStep<T>(cmp: (T, T) -> bool, s: seq<T>, h: nat, i: nat, mid: nat, end: nat, out: seq<T>)
    requires h > 0 && i < |s| && mid == Min(i + h, |s|) && end == Min(i + 2 * h, |s|)
    ensures out + Pass(cmp, s[i..], h) == out + Merge(cmp, s[i..mid], s[mid..end]) + Pass(cmp, s[end..], h)
  {
    assert s[i..] == s[i..mid] + s[mid..end] + s[end..];
    PassUnfolds(cmp, s[i..mid], s[mid..end], s[end..], h);
  }

  /** The body of the loop over i: merges the two runs that start at i into dst from position i on. */
  method MergeRuns<T>(cmp: (T, T) -> bool, dst: array<T>, src: array<T>, n: uint32, size: uint32, i: uint32,
                      ghost s: seq<T>, ghost h: nat)
    requires dst != src && n as int == dst.Length == src.Length && s == src[..]
    requires i < n && 2 <= size as int == 2 * h < 2 * n as int <= 0x8000_0000
    modifies dst
    ensures var end := Min(i as int + 2 * h, n as int);
            dst[..end] + Pass(cmp, s[end..], h) == old(dst[..i]) + Pass(cmp, s[i..], h)
  {
    hide Merge, Pass;
    var nj := i + size / 2;
    if nj > n {
      nj := n;
    }
    var nk := i + size;
    if nk > n {
      nk := n;
    }
    PassStep(cmp, s, h, i as int, nj as int, nk as int, dst[..i]);
    var tmp, j, k := MergeWhileBoth(cmp, dst, src, i, nj, nk, s);
    CopyRest(cmp, dst, src, tmp, j, nj, k, nk, s);
  }

  lemma PassOfNothing<T>(cmp: (T, T) -> bool, s: seq<T>, h: nat)
    requires h > 0
    ensures Pass(cmp, s[|s|..], h) == [] && s[0..] == s
  {
  }

  /** The loop over i: one whole pass from src to dst. */
  method MergePass<T>(cmp: (T, T) -> bool, dst: array<T>, src: array<T>, n: uint32, size: uint32, ghost h: nat)
    requires dst != src && n as int == dst.Length == src.Length
    requires 2 <= size as int == 2 * h < 2 * n as int <= 0x8000_0000
    modifies dst
    ensures dst[..] == Pass(cmp, src[..], h)
  {
    hide Pass;
    var i := 0;
    ghost var s := src[..];
    PassOfNothing(cmp, s, h);
    ghost var done: nat := 0;
    while i < n
      invariant done == Min(i as int, n as int)
      invariant dst[..done] + Pass(cmp, s[done..], h) == Pass(cmp, s, h)
      invariant i as int <= n as int + size as int
    {
      MergeRuns(cmp, dst, src, n, size, i, s, h);
      done := Min(done + 2 * h, n as int);
      i := i + size;
    }
    assert dst[..done] == dst[..];
  }

  /** Returns the buffer that holds the sorted elements: `a` or the scratch buffer `t`.
      n <= 2^30 is exactly when the doubling of `size` can get past n; see PassLoopEnds. */
  method SortMerge<T>(cmp: (T, T) -> bool, t: array<T>, a: array<T>, n: uint32) returns (r: array<T>)
    requires t != a && n as int == t.Length == a.Length
    requires n <= 0x4000_0000
    modifies t, a
    ensures r == a || r == t
    ensures r[..] == Passes(cmp, old(a[..]), 1)
  {
    if n < 2 {
      return a;
    }
    var n2 := n * 2;
    var size := 2;
    var src, dst := a, t;
    ghost var s, h: nat := a[..], 1;
    while size < n2
      invariant (src == a && dst == t) || (src == t && dst == a)
      invariant size as int == 2 * h && h > 0
      invariant |s| == n as int && src[..] == s && Passes(cmp, s, h) == Passes(cmp, old(a[..]), 1)
      decreases n2 as int - size as int
    {
      MergePass(cmp, dst, src, n, size, h);
      s, h := Pass(cmp, s, h), 2 * h;
      src, dst := dst, src;
      size := size * 2;
    }
    return src;
  }

  // ----- How far the counters reach -----

  /** `size` after k turns of the outer loop, in the 32 bits that the routine keeps it in. */
  function SizeAfter(k: nat): nat {
    if k == 0 then 2 else SizeAfter(k - 1) * 2 % 0x1_0000_0000
  }

  lemma DoubleWraps(x: nat)
    requires x <= 0x8000_0000
    ensures x * 2 % 0x1_0000_0000 == if x == 0x8000_0000 then 0 else x * 2
  {
  }

  /** The largest power of two that fits 32 bits, by exponent. */
  lemma Pow2UpTo31(k: nat)
    requires k <= 31
    ensures Pow2(k) <= 0x8000_0000 && (Pow2(k) == 0x8000_0000 <==> k == 31)
  {
    var top := 31;
    Pow2Values();
    if k < top {
      Pow2Monotone(k + 1, top);
    }
  }

  lemma {:induction false} SizeAfterIsPower(k: nat)
    ensures SizeAfter(k) == if k <= 30 then Pow2(k + 1) else 0
    ensures SizeAfter(k) <= 0x8000_0000 && (k == 30 ==> SizeAfter(k) == 0x8000_0000)
  {
    if k <= 30 {
      Pow2UpTo31(k + 1);
    }
    if k > 0 {
      SizeAfterIsPower(k - 1);
      DoubleWraps(SizeAfter(k - 1));
      if k <= 31 {
        Pow2UpTo31(k);
      }
    }
  }

  /** The bound of the outer loop, kept in 32 bits as well. */
  function LoopBound(n: nat): nat {
    2 * n % 0x1_0000_0000
  }

  /** The outer loop ends after k turns. */
  ghost predicate EndsAfter(n: nat, k: nat) {
    SizeAfter(k) >= LoopBound(n) && forall j: nat | j < k :: SizeAfter(j) < LoopBound(n)
  }

  lemma {:induction false} FirstEnd(n: nat, k: nat) returns (first: nat)
    requires SizeAfter(k) >= LoopBound(n)
    ensures first <= k && EndsAfter(n, first)
  {
    if j: nat :| j < k && SizeAfter(j) >= LoopBound(n) {
      first := FirstEnd(n, j);
    } else {
      first := k;
    }
  }

  /** The outer loop ends exactly if its bound is at most 2^31, and it ends with all n elements in one
      run exactly if n <= 2^30. In between `size` wraps to 0, right after the pass that has merged
      everything, and the loop goes on for ever; from 2^31 elements on the bound itself wraps. */
  lemma {:induction false} PassLoopEnds(n: nat)
    requires 2 <= n < 0x1_0000_0000
    ensures (exists k :: EndsAfter(n, k)) <==> LoopBound(n) <= 0x8000_0000
    ensures (exists k :: EndsAfter(n, k) && SizeAfter(k) >= 2 * n) <==> n <= 0x4000_0000
  {
    hide SizeAfter, EndsAfter;
    forall k: nat | EndsAfter(n, k) ensures LoopBound(n) <= SizeAfter(k) <= 0x8000_0000 {
      EndedSize(n, k);
    }
    if LoopBound(n) <= 0x8000_0000 {
      var last := LargestSize();
      var first := FirstEnd(n, last);
      EndedSize(n, first);
    }
  }

  lemma LargestSize() returns (last: nat)
    ensures SizeAfter(last) == 0x8000_0000
  {
    last := 30;
    SizeAfterIsPower(last);
  }

  lemma EndedSize(n: nat, k: nat)
    requires EndsAfter(n, k)
    ensures LoopBound(n) <= SizeAfter(k) <= 0x8000_0000
  {
    SizeAfterIsPower(k);
  }
}
