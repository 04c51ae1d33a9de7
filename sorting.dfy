/**
 * The contract of std::sort with a comparator: the range ends up as a
 * permutation of what it held, and no element is "less" (by the comparator)
 * than an element placed before it.  std::sort is not stable, so nothing is
 * promised about the order of elements that compare equivalent.
 */
module Sorting {

  /** What std::sort demands of its comparator: a strict weak ordering. */
  ghost predicate StrictWeakOrder<T(!new)>(less: (T, T) -> bool) {
    && (forall x :: !less(x, x))
    && (forall x, y, z :: less(x, y) && less(y, z) ==> less(x, z))
    && (forall x, y, z :: !less(x, y) && !less(y, z) ==> !less(x, z))
  }

  /** No element is less than one placed before it. */
  predicate SortedBy<T>(s: seq<T>, less: (T, T) -> bool) {
    forall i, j :: 0 <= i < j < |s| ==> !less(s[j], s[i])
  }

  /** Reversing the arguments of a strict weak ordering gives one. */
  lemma FlippedOrder<T(!new)>(less: (T, T) -> bool, flipped: (T, T) -> bool)
    requires StrictWeakOrder(less)
    requires forall x, y :: flipped(x, y) == less(y, x)
    ensures StrictWeakOrder(flipped)
  {
  }

  /** Comparing values by a key under a strict weak ordering gives one. */
  lemma ByKeyOrder<T(!new), K(!new)>(less: (K, K) -> bool, key: T -> K, byKey: (T, T) -> bool)
    requires StrictWeakOrder(less)
    requires forall x, y :: byKey(x, y) == less(key(x), key(y))
    ensures StrictWeakOrder(byKey)
  {
  }

  /** Exchanges two neighbouring elements, as std::iter_swap does. */
  method SwapDown<T>(a: array<T>, j: int)
    requires 0 < j < a.Length
    modifies a
    ensures a[..] == old(a[..])[j - 1 := old(a[j])][j := old(a[j - 1])]
    ensures multiset(a[..]) == old(multiset(a[..]))
  {
    a[j - 1], a[j] := a[j], a[j - 1];
  }

  /** Moves a[i] down into the sorted prefix a[..i]; a[i + 1..] is untouched. */
  method InsertAt<T(!new)>(a: array<T>, i: int, less: (T, T) -> bool)
    requires StrictWeakOrder(less)
    requires 0 <= i < a.Length
    requires SortedBy(a[..i], less)
    modifies a
    ensures SortedBy(a[..i + 1], less)
    ensures a[i + 1..] == old(a[i + 1..])
    ensures multiset(a[..]) == old(multiset(a[..]))
  {
    var j := i;
    while 0 < j && less(a[j], a[j - 1])
      invariant 0 <= j <= i
      invariant forall p, q :: 0 <= p < q <= i && p != j && q != j ==> !less(a[q], a[p])
      invariant forall q :: j < q <= i ==> less(a[j], a[q])
      invariant a[i + 1..] == old(a[i + 1..])
      invariant multiset(a[..]) == old(multiset(a[..]))
    {
      SwapDown(a, j);
      j := j - 1;
    }
  }

  /**
   * Sorts the array in place, as std::sort(begin, end, less) does (here by
   * insertion, which std::sort's contract allows).
   */
  method SortInPlace<T(!new)>(a: array<T>, less: (T, T) -> bool)
    requires StrictWeakOrder(less)
    modifies a
    ensures SortedBy(a[..], less)
    ensures multiset(a[..]) == old(multiset(a[..]))
  {
    var i := 0;
    while i < a.Length
      invariant 0 <= i <= a.Length
      invariant SortedBy(a[..i], less)
      invariant multiset(a[..]) == old(multiset(a[..]))
    {
      InsertAt(a, i, less);
      i := i + 1;
    }
    assert a[..a.Length] == a[..];
  }
}
