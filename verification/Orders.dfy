/** Comparison functions as the two sorting routines take them, and 32-bit unsigned counters. */
module Orders {

  /** The type of every counter and index of the sorting routines. Dafny checks each operation on
      it for overflow, so a verified body is one in which no counter wraps. */
  newtype uint32 = x: int | 0 <= x < 0x1_0000_0000

  ghost predicate StrictWeakOrder<T(!new)>(cmp: (T, T) -> bool) {
    && (forall x :: !cmp(x, x))
    && (forall x, y, z :: cmp(x, y) && cmp(y, z) ==> cmp(x, z))
    && (forall x, y, z :: !cmp(x, y) && !cmp(y, z) ==> !cmp(x, z))
  }

  ghost predicate TotalPreorder<T(!new)>(le: (T, T) -> bool) {
    && (forall x, y :: le(x, y) || le(y, x))
    && (forall x, y, z :: le(x, y) && le(y, z) ==> le(x, z))
  }

  /** `le` is the order that `cmp` sorts by. When neither element must come first, `cmp` picks
      its left argument exactly if `tiesLeft` holds. */
  ghost predicate SortsBy<T(!new)>(cmp: (T, T) -> bool, le: (T, T) -> bool, tiesLeft: bool) {
    && TotalPreorder(le)
    && forall x, y :: cmp(x, y) == if tiesLeft then le(x, y) else !le(y, x)
  }

  ghost predicate Sorted<T>(le: (T, T) -> bool, s: seq<T>) {
    forall i, j :: 0 <= i < j < |s| ==> le(s[i], s[j])
  }

  /** "No later element is ordered before an earlier one." */
  ghost predicate InOrder<T>(cmp: (T, T) -> bool, s: seq<T>) {
    forall i, j :: 0 <= i < j < |s| ==> !cmp(s[j], s[i])
  }

  lemma Asymmetric<T(!new)>(cmp: (T, T) -> bool, x: T, y: T)
    requires StrictWeakOrder(cmp) && cmp(x, y)
    ensures !cmp(y, x)
  {
    assert !cmp(x, x);
  }
}
