/**
 * The string operations the sorters rely on: find_first_not_of, the
 * editor's stringTakeWhileAdmissable and stringReplace helpers, and
 * generic_string::compare.  Characters are compared by their code.
 */
module Strings {
  import opened Wrappers

  /** Every character of s is one of chars. */
  predicate AllIn(s: string, chars: string) {
    forall i :: 0 <= i < |s| ==> s[i] in chars
  }

  /**
   * Position of the first character of s that is not one of chars, as
   * find_first_not_of; None stands for npos.
   */
  function FindFirstNotOf(s: string, chars: string): (r: Option<nat>)
    ensures r.None? <==> AllIn(s, chars)
    ensures r.Some? ==> r.value < |s| && s[r.value] !in chars && AllIn(s[..r.value], chars)
  {
    if s == [] then None
    else if s[0] !in chars then Some(0)
    else
      match FindFirstNotOf(s[1..], chars)
      case None => None
      case Some(i) => assert s[1..][..i] == s[1..i + 1]; Some(i + 1)
  }

  /** p is the longest prefix of s made only of characters in chars. */
  predicate IsLongestPrefixIn(p: string, s: string, chars: string) {
    && |p| <= |s|
    && p == s[..|p|]
    && AllIn(p, chars)
    && (|p| == |s| || s[|p|] !in chars)
  }

  /** There is only one longest admissible prefix. */
  lemma LongestPrefixUnique(p: string, q: string, s: string, chars: string)
    requires IsLongestPrefixIn(p, s, chars) && IsLongestPrefixIn(q, s, chars)
    ensures p == q
  {
  }

  /**
   * The leading run of input made of admissible characters: input cut at
   * its first inadmissible character, or all of input when there is none.
   */
  function TakeWhileAdmissible(input: string, admissible: string): (r: string)
    ensures IsLongestPrefixIn(r, input, admissible)
  {
    match FindFirstNotOf(input, admissible)
    case None => input
    case Some(idx) => input[..idx]
  }

  /** An admissible head is kept whole, and the cut happens in what follows it. */
  lemma TakeWhileAppend(p: string, q: string, chars: string)
    requires AllIn(p, chars)
    ensures TakeWhileAdmissible(p + q, chars) == p + TakeWhileAdmissible(q, chars)
  {
    var t := TakeWhileAdmissible(q, chars);
    assert (p + q)[..|p + t|] == p + q[..|t|];
    assert |p + t| < |p + q| ==> (p + q)[|p + t|] == q[|t|];
    assert AllIn(p + t, chars) by {
      forall i | 0 <= i < |p + t| ensures (p + t)[i] in chars {
        if i >= |p| { assert (p + t)[i] == t[i - |p|]; }
      }
    }
    LongestPrefixUnique(TakeWhileAdmissible(p + q, chars), p + t, p + q, chars);
  }

  /** Every occurrence of the character from in s replaced by to. */
  function ReplaceChar(s: string, from: char, to: char): (r: string)
    ensures |r| == |s|
    ensures forall i :: 0 <= i < |s| ==> r[i] == if s[i] == from then to else s[i]
    ensures from != to ==> from !in r
  {
    if s == [] then []
    else [if s[0] == from then to else s[0]] + ReplaceChar(s[1..], from, to)
  }

  /**
   * Three-way lexicographic comparison, as generic_string::compare: negative
   * when a orders first, zero when equal, positive when b orders first.  A
   * proper prefix orders before the longer string.
   */
  function Compare(a: string, b: string): (r: int)
    ensures -1 <= r <= 1
    ensures r == 0 <==> a == b
  {
    if a == [] && b == [] then 0
    else if a == [] then -1
    else if b == [] then 1
    else if a[0] < b[0] then -1
    else if b[0] < a[0] then 1
    else
      var r := Compare(a[1..], b[1..]);
      assert r == 0 ==> a == [a[0]] + a[1..] == [b[0]] + b[1..] == b;
      r
  }

  /** Swapping the arguments negates the comparison. */
  lemma {:induction false} CompareAntisymmetric(a: string, b: string)
    ensures Compare(a, b) == -Compare(b, a)
  {
    if a != [] && b != [] && a[0] == b[0] {
      CompareAntisymmetric(a[1..], b[1..]);
    }
  }

  /** "Orders before" under Compare is transitive. */
  lemma {:induction false} CompareTransitive(a: string, b: string, c: string)
    requires Compare(a, b) < 0 && Compare(b, c) < 0
    ensures Compare(a, c) < 0
  {
    if a != [] && b != [] && c != [] && a[0] == b[0] == c[0] {
      CompareTransitive(a[1..], b[1..], c[1..]);
    }
  }

  /** A proper prefix compares before the longer string. */
  lemma {:induction false} ComparePrefix(a: string, t: string)
    requires t != []
    ensures Compare(a, a + t) < 0
  {
    if a != [] {
      assert (a + t)[1..] == a[1..] + t;
      ComparePrefix(a[1..], t);
    }
  }

  /** At the first differing position, the smaller character decides. */
  lemma {:induction false} CompareFirstDifference(a: string, b: string, k: nat)
    requires k < |a| && k < |b| && a[..k] == b[..k] && a[k] < b[k]
    ensures Compare(a, b) < 0
  {
    if k > 0 {
      assert a[0] == a[..k][0] == b[..k][0] == b[0];
      assert a[1..][..k - 1] == a[..k][1..] == b[..k][1..] == b[1..][..k - 1];
      CompareFirstDifference(a[1..], b[1..], k - 1);
    }
  }
}
