/** Sort_heap: an in-place heap sort whose one loop first builds the heap and then empties it.
    Every sift works with a hole: the element being placed is held aside in `t`, so the
    reasoning is about the array with `t` put into the hole. */
module HeapSort {
  import opened Orders

  function Parent(c: nat): nat
    requires c > 0
  {
    (c - 1) / 2
  }

  /** Every parent from `lo` on is in order with its children below `n`. */
  ghost predicate HeapFrom<T>(cmp: (T, T) -> bool, s: seq<T>, lo: nat, n: nat)
    requires n <= |s|
  {
    forall c :: 0 < c < n && Parent(c) >= lo ==> !cmp(s[Parent(c)], s[c])
  }

  /** A heap from `lo` on except for the children of `hole`; those are still in order with the
      hole's own parent. */
  ghost predicate HeapExcept<T>(cmp: (T, T) -> bool, s: seq<T>, lo: nat, n: nat, hole: nat)
    requires n <= |s|
  {
    && (forall c :: 0 < c < n && Parent(c) >= lo && Parent(c) != hole ==> !cmp(s[Parent(c)], s[c]))
    && (forall c :: 0 < c < n && Parent(c) == hole && hole > 0 && Parent(hole) >= lo ==> !cmp(s[Parent(hole)], s[c]))
  }

  /** The elements from n on are in their final places. */
  ghost predicate TailDone<T>(cmp: (T, T) -> bool, s: seq<T>, n: nat) {
    forall j, k :: 0 <= j < k < |s| && n <= k ==> !cmp(s[k], s[j])
  }

  function Swap<T>(s: seq<T>, j: nat, k: nat): seq<T>
    requires j < |s| && k < |s|
  {
    s[j := s[k]][k := s[j]]
  }

  /** `child` is a child of `hole` that no sibling comes after. */
  ghost predicate BestChild<T>(cmp: (T, T) -> bool, s: seq<T>, n: nat, hole: nat, child: nat)
    requires n <= |s|
  {
    && 0 < child < n && Parent(child) == hole
    && forall c :: 0 < c < n && Parent(c) == hole ==> !cmp(s[child], s[c])
  }

  lemma SwapPermutes<T>(s: seq<T>, j: nat, k: nat)
    requires j < |s| && k < |s|
    ensures multiset(Swap(s, j, k)) == multiset(s)
  {
  }

  /** The larger of the hole's one or two children, as the inner loop picks it. */
  function PickChild<T>(cmp: (T, T) -> bool, s: seq<T>, n: nat, hole: nat): (child: nat)
    requires 2 * hole + 1 < n <= |s|
    ensures hole < child < n
  {
    var child := 2 * hole + 1;
    if child + 1 < n && cmp(s[child], s[child + 1]) then child + 1 else child
  }

  lemma {:induction false} PickChildIsBest<T(!new)>(cmp: (T, T) -> bool, s: seq<T>, n: nat, hole: nat)
    requires StrictWeakOrder(cmp) && 2 * hole + 1 < n <= |s|
    ensures BestChild(cmp, s, n, hole, PickChild(cmp, s, n, hole))
  {
    var child := 2 * hole + 1;
    if child + 1 < n && cmp(s[child], s[child + 1]) {
      Asymmetric(cmp, s[child], s[child + 1]);
    }
    forall c | 0 < c < n && Parent(c) == hole ensures c == child || c == child + 1 {
    }
  }

  lemma {:induction false} SiftMoves<T(!new)>(cmp: (T, T) -> bool, s: seq<T>, lo: nat, n: nat, hole: nat, child: nat)
    requires StrictWeakOrder(cmp) && n <= |s| && lo <= hole
    requires HeapExcept(cmp, s, lo, n, hole) && BestChild(cmp, s, n, hole, child)
    requires cmp(s[hole], s[child])
    ensures HeapExcept(cmp, Swap(s, hole, child), lo, n, child)
  {
    var v := Swap(s, hole, child);
    forall c | 0 < c < n && Parent(c) >= lo && Parent(c) != child ensures !cmp(v[Parent(c)], v[c]) {
      if c == child {
        Asymmetric(cmp, s[hole], s[child]);
      }
    }
  }

  lemma {:induction false} SiftStops<T(!new)>(cmp: (T, T) -> bool, s: seq<T>, lo: nat, n: nat, hole: nat, child: nat)
    requires StrictWeakOrder(cmp) && n <= |s|
    requires HeapExcept(cmp, s, lo, n, hole)
    requires BestChild(cmp, s, n, hole, child) && !cmp(s[hole], s[child])
    ensures HeapFrom(cmp, s, lo, n)
  {
    forall c | 0 < c < n && Parent(c) >= lo ensures !cmp(s[Parent(c)], s[c]) {
      if Parent(c) == hole {
        assert !cmp(s[child], s[c]);
      }
    }
  }

  lemma {:induction false} RootIsLast<T(!new)>(cmp: (T, T) -> bool, s: seq<T>, n: nat, k: nat)
    requires StrictWeakOrder(cmp) && k < n <= |s|
    requires HeapFrom(cmp, s, 0, n)
    ensures !cmp(s[0], s[k])
  {
    if k > 0 {
      RootIsLast(cmp, s, n, Parent(k));
      assert !cmp(s[Parent(k)], s[k]);
    }
  }

  /** Moving the root behind the heap keeps the tail done and leaves a heap but for the root. */
  lemma {:induction false} RootMovesBehind<T(!new)>(cmp: (T, T) -> bool, s: seq<T>, n: nat)
    requires StrictWeakOrder(cmp) && n < |s|
    requires HeapFrom(cmp, s, 0, n + 1) && TailDone(cmp, s, n + 1)
    ensures TailDone(cmp, Swap(s, 0, n), n) && HeapExcept(cmp, Swap(s, 0, n), 0, n, 0)
  {
    var v := Swap(s, 0, n);
    forall j, k | 0 <= j < k < |s| && n <= k ensures !cmp(v[k], v[j]) {
      if k == n {
        RootIsLast(cmp, s, n + 1, if j == 0 then n else j);
      } else {
        assert v[k] == s[k];
        assert v[j] == s[if j == 0 then n else if j == n then 0 else j];
      }
    }
  }

  lemma MultisetCancels<T(!new)>(a: multiset<T>, b: multiset<T>, c: multiset<T>)
    requires a + c == b + c
    ensures a == b
  {
    forall x ensures a[x] == b[x] {
      assert (a + c)[x] == (b + c)[x];
    }
  }

  /** Permuting the first n elements keeps a finished tail finished. */
  lemma {:induction false} TailStaysDone<T(!new)>(cmp: (T, T) -> bool, s: seq<T>, v: seq<T>, n: nat)
    requires n <= |s| == |v| && s[n..] == v[n..] && multiset(s) == multiset(v)
    requires TailDone(cmp, s, n)
    ensures TailDone(cmp, v, n)
  {
    forall j, k | 0 <= j < k < |v| && n <= k ensures !cmp(v[k], v[j]) {
      assert v[k] == v[n..][k - n] == s[k];
      if j >= n {
        assert v[j] == v[n..][j - n] == s[j];
      } else {
        assert s == s[..n] + s[n..] && v == v[..n] + v[n..];
        assert multiset(s[..n]) + multiset(s[n..]) == multiset(v[..n]) + multiset(v[n..]);
        MultisetCancels(multiset(s[..n]), multiset(v[..n]), multiset(s[n..]));
        assert v[j] == v[..n][j] && v[j] in multiset(v[..n]);
        var q :| 0 <= q < n && s[..n][q] == v[j];
        assert !cmp(s[k], s[q]);
      }
    }
  }

  // ----- The routine -----

  /** What sifting preserves and restores, whatever happens in between. */
  ghost predicate Sifting<T(!new)>(cmp: (T, T) -> bool, v0: seq<T>, v: seq<T>, lo: nat, n: nat, hole: nat)
    requires n <= |v0|
  {
    && |v| == |v0| && multiset(v) == multiset(v0) && v[n..] == v0[n..]
    && (StrictWeakOrder(cmp) && HeapExcept(cmp, v0, lo, n, lo) ==> HeapExcept(cmp, v, lo, n, hole))
  }

  ghost predicate Sifted<T(!new)>(cmp: (T, T) -> bool, v0: seq<T>, v: seq<T>, lo: nat, n: nat)
    requires n <= |v0|
  {
    && |v| == |v0| && multiset(v) == multiset(v0) && v[n..] == v0[n..]
    && (StrictWeakOrder(cmp) && HeapExcept(cmp, v0, lo, n, lo) ==> HeapFrom(cmp, v, lo, n))
  }

  lemma SiftingMoves<T(!new)>(cmp: (T, T) -> bool, v0: seq<T>, v: seq<T>, lo: nat, n: nat, hole: nat)
    requires lo <= hole && 2 * hole + 1 < n <= |v0| && Sifting(cmp, v0, v, lo, n, hole)
    requires cmp(v[hole], v[PickChild(cmp, v, n, hole)])
    ensures Sifting(cmp, v0, Swap(v, hole, PickChild(cmp, v, n, hole)), lo, n, PickChild(cmp, v, n, hole))
  {
    var child := PickChild(cmp, v, n, hole);
    SwapPermutes(v, hole, child);
    if StrictWeakOrder(cmp) && HeapExcept(cmp, v0, lo, n, lo) {
      PickChildIsBest(cmp, v, n, hole);
      SiftMoves(cmp, v, lo, n, hole, child);
    }
  }

  lemma SiftingStops<T(!new)>(cmp: (T, T) -> bool, v0: seq<T>, v: seq<T>, lo: nat, n: nat, hole: nat)
    requires n <= |v0| && Sifting(cmp, v0, v, lo, n, hole)
    requires 2 * hole + 1 < n ==> !cmp(v[hole], v[PickChild(cmp, v, n, hole)])
    ensures Sifted(cmp, v0, v, lo, n)
  {
    if StrictWeakOrder(cmp) && HeapExcept(cmp, v0, lo, n, lo) && 2 * hole + 1 < n {
      PickChildIsBest(cmp, v, n, hole);
      SiftStops(cmp, v, lo, n, hole, PickChild(cmp, v, n, hole));
    }
  }

  /** The inner loop and the store that ends it: puts t into the heap that has its hole at i. */
  method Sift<T(!new)>(cmp: (T, T) -> bool, a: array<T>, i: uint32, n: uint32, t: T)
    requires i < n <= 0x8000_0000 && n as int <= a.Length
    modifies a
    ensures Sifted(cmp, old(a[..])[i := t], a[..], i as int, n as int)
  {
    hide HeapExcept, HeapFrom, StrictWeakOrder;
    var parent := i;
    var child := i * 2 + 1;
    ghost var v0 := a[..][i := t];
    ghost var v := v0;
    while child < n
      invariant i <= parent < n && child as int == 2 * parent as int + 1
      invariant |v| == a.Length && v[parent] == t
      invariant forall p :: 0 <= p < a.Length && p != parent as int ==> a[p] == v[p]
      invariant Sifting(cmp, v0, v, i as int, n as int, parent as int)
      decreases n - parent
    {
      if child + 1 < n && cmp(a[child], a[child + 1]) {
        child := child + 1;
      }
      assert child as int == PickChild(cmp, v, n as int, parent as int);
      if cmp(t, a[child]) {
        SiftingMoves(cmp, v0, v, i as int, n as int, parent as int);
        v := Swap(v, parent as int, child as int);
        a[parent] := a[child];
        parent := child;
        child := parent * 2 + 1;
      } else {
        break;
      }
    }
    SiftingStops(cmp, v0, v, i as int, n as int, parent as int);
    a[parent] := t;
    assert a[..] == v;
  }

  // ----- The whole loop -----

  /** What the outer loop keeps: below n a heap from i on, behind it the finished tail. */
  ghost predicate Progress<T(!new)>(cmp: (T, T) -> bool, s0: seq<T>, s: seq<T>, i: nat, n: nat) {
    && n <= |s| == |s0| && multiset(s) == multiset(s0)
    && (StrictWeakOrder(cmp) ==> HeapFrom(cmp, s, i, n) && TailDone(cmp, s, n))
  }

  lemma BuildStarts<T(!new)>(cmp: (T, T) -> bool, s: seq<T>)
    ensures Progress(cmp, s, s, |s| / 2, |s|)
  {
  }

  /** A building turn: the hole opens at i - 1, whose children are already heaps. */
  lemma {:induction false} BuildTurn<T(!new)>(cmp: (T, T) -> bool, s0: seq<T>, s: seq<T>, v: seq<T>, i: nat)
    requires 0 < i <= |s| && Progress(cmp, s0, s, i, |s|)
    requires Sifted(cmp, s, v, i - 1, |s|)
    ensures Progress(cmp, s0, v, i - 1, |s|)
  {
  }

  /** An extracting turn: the root moves behind the heap, the last element is sifted from the root. */
  lemma {:induction false} ExtractTurn<T(!new)>(cmp: (T, T) -> bool, s0: seq<T>, s: seq<T>, v: seq<T>, n: nat)
    requires 0 < n < |s| && Progress(cmp, s0, s, 0, n + 1)
    requires Sifted(cmp, Swap(s, 0, n), v, 0, n)
    ensures Progress(cmp, s0, v, 0, n)
  {
    SwapPermutes(s, 0, n);
    if StrictWeakOrder(cmp) {
      RootMovesBehind(cmp, s, n);
      TailStaysDone(cmp, Swap(s, 0, n), v, n);
    }
  }

  lemma LoopEnds<T(!new)>(cmp: (T, T) -> bool, s0: seq<T>, s: seq<T>)
    requires Progress(cmp, s0, s, 0, 1)
    ensures multiset(s) == multiset(s0) && (StrictWeakOrder(cmp) ==> InOrder(cmp, s))
  {
  }

  /** One turn of the loop: takes the element to sift in, opens the hole for it and sifts. */
  method Turn<T(!new)>(cmp: (T, T) -> bool, a: array<T>, i0: uint32, n0: uint32, ghost s0: seq<T>)
    returns (i: uint32, n: uint32)
    requires 1 <= n0 <= 0x8000_0000 && n0 as int <= a.Length && i0 as int <= a.Length / 2
    requires i0 > 0 ==> n0 as int == a.Length
    requires Progress(cmp, s0, a[..], i0 as int, n0 as int)
    modifies a
    ensures i == (if i0 > 0 then i0 - 1 else 0) && n == (if i0 > 0 then n0 else n0 - 1)
    ensures Progress(cmp, s0, a[..], i as int, if n == 0 then 1 else n as int)
  {
    hide Progress, Sifted, StrictWeakOrder, InOrder;
    i, n := i0, n0;
    var t: T;
    ghost var s, filled := a[..], a[..];
    if i > 0 {
      i := i - 1;
      t := a[i];
      assert a[..][i := t] == filled;
    } else {
      n := n - 1;
      if n == 0 {
        return;
      }
      t := a[n];
      a[n] := a[0];
      filled := Swap(s, 0, n as int);
      assert a[..][i := t] == filled;
    }
    Sift(cmp, a, i, n, t);
    if i0 > 0 {
      BuildTurn(cmp, s0, s, a[..], i as int + 1);
    } else {
      ExtractTurn(cmp, s0, s, a[..], n as int);
    }
  }

  /** The routine. It permutes its buffer of n elements with any comparison at all, and puts them
      in order if the comparison is a strict weak order. n <= 2^31 keeps `child` below 2^32. */
  method SortHeap<T(!new)>(cmp: (T, T) -> bool, a: array<T>, n0: uint32)
    requires n0 as int == a.Length && n0 <= 0x8000_0000
    modifies a
    ensures multiset(a[..]) == multiset(old(a[..]))
    ensures StrictWeakOrder(cmp) ==> InOrder(cmp, a[..])
  {
    var n := n0;
    if n < 2 {
      return;
    }
    hide Progress, StrictWeakOrder, InOrder;
    var i := n / 2;
    ghost var s0 := a[..];
    BuildStarts(cmp, s0);
    while true
      invariant 1 <= n && n as int <= a.Length && i as int <= a.Length / 2
      invariant i > 0 ==> n as int == a.Length
      invariant Progress(cmp, s0, a[..], i as int, n as int)
      decreases i as int + n as int
    {
      i, n := Turn(cmp, a, i, n, s0);
      if n == 0 {
        LoopEnds(cmp, s0, a[..]);
        return;
      }
    }
  }

  /** A parent inside the heap can compute its first child in 32 bits exactly if n <= 2^31. */
  lemma ChildIndexFits(n: nat)
    requires n < 0x1_0000_0000
    ensures (forall parent: nat :: parent < n ==> 2 * parent + 1 < 0x1_0000_0000) <==> n <= 0x8000_0000
  {
    var edge := 0x8000_0000;
    assert 2 * edge + 1 >= 0x1_0000_0000;
  }
}
