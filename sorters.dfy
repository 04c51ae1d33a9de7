/**
 * Line sorting strategies of the editor's "sort lines" commands: a
 * lexicographic sort, and numeric sorts that turn each line into a key
 * (a 64-bit integer, or a double read with a decimal comma or dot), keep
 * blank lines aside, sort the rest by key and put the blank lines back at
 * one end.  The sorter class hierarchy becomes the closed SorterKind; the
 * descending flag is an argument.
 */
module Sorters {
  import opened Wrappers
  import opened Strings
  import opened Sorting
  import opened IntegerParsing

  datatype SorterKind = Lexicographic | Integer | DecimalComma | DecimalDot

  /** The characters a line may hold and still count as empty. */
  const Blanks: string := " \t\r\n"
  const IntegerAdmissible: string := " \t\r\n0123456789-"
  const DecimalCommaAdmissible: string := " \t\r\n0123456789,-"
  const DecimalDotAdmissible: string := " \t\r\n0123456789.-"

  predicate IsBlank(c: char) {
    c == ' ' || c == '\t' || c == '\r' || c == '\n'
  }

  // ---------------------------------------------------------------------
  // Lexicographic sorting
  // ---------------------------------------------------------------------

  /** The comparator the lexicographic sorter hands to std::sort. */
  function LexicographicLess(descending: bool): (less: (string, string) -> bool)
  {
    if descending then (a: string, b: string) => Compare(a, b) > 0
    else (a: string, b: string) => Compare(a, b) < 0
  }

  lemma LexicographicLessIsOrder(descending: bool)
    ensures StrictWeakOrder(LexicographicLess(descending))
  {
    var less := LexicographicLess(descending);
    forall x, y, z | less(x, y) && less(y, z) ensures less(x, z) {
      if descending {
        CompareAntisymmetric(x, y);
        CompareAntisymmetric(y, z);
        CompareAntisymmetric(x, z);
        CompareTransitive(z, y, x);
      } else {
        CompareTransitive(x, y, z);
      }
    }
    forall x, y, z | !less(x, y) && !less(y, z) ensures !less(x, z) {
      CompareAntisymmetric(x, y);
      CompareAntisymmetric(y, z);
      CompareAntisymmetric(x, z);
      if Compare(x, y) != 0 && Compare(y, z) != 0 {
        if descending {
          CompareTransitive(x, y, z);
        } else {
          CompareTransitive(z, y, x);
        }
      }
    }
  }

  /**
   * LexicographicSorter::sort: the lines in ascending order of
   * generic_string::compare, or descending order when descending is set.
   */
  method LexicographicSort(lines: seq<string>, descending: bool) returns (sorted: seq<string>)
    ensures |sorted| == |lines|
    ensures multiset(sorted) == multiset(lines)
    ensures forall i, j :: 0 <= i < j < |sorted| ==>
              if descending then Compare(sorted[i], sorted[j]) >= 0 else Compare(sorted[i], sorted[j]) <= 0
  {
    var less := LexicographicLess(descending);
    LexicographicLessIsOrder(descending);
    var a := new string[|lines|](k requires 0 <= k < |lines| => lines[k]);
    assert a[..] == lines;
    SortInPlace(a, less);
    sorted := a[..];
    assert |multiset(sorted)| == |multiset(lines)|;
    forall i, j | 0 <= i < j < |sorted|
      ensures if descending then Compare(sorted[i], sorted[j]) >= 0 else Compare(sorted[i], sorted[j]) <= 0
    {
      assert !less(sorted[j], sorted[i]);
      CompareAntisymmetric(sorted[i], sorted[j]);
    }
  }

  // ---------------------------------------------------------------------
  // Classification and per-grammar preparation
  // ---------------------------------------------------------------------

  /**
   * NumericSorter::considerStringEmpty: the string has no character other
   * than space, tab, carriage return and line feed.
   */
  predicate ConsiderStringEmpty(input: string) {
    forall i :: 0 <= i < |input| ==> IsBlank(input[i])
  }

  /** The source's test: find_first_not_of(" \t\r\n") finds nothing (npos). */
  lemma ConsiderStringEmptyIsNoNonBlank(input: string)
    ensures ConsiderStringEmpty(input) <==> FindFirstNotOf(input, Blanks).None?
  {
  }

  /** IntegerSorter::prepareStringForConversion: the leading run of digits, '-' and blanks. */
  function PrepareInteger(input: string): (r: string)
    ensures IsLongestPrefixIn(r, input, IntegerAdmissible)
  {
    TakeWhileAdmissible(input, IntegerAdmissible)
  }

  /**
   * DecimalCommaSorter::prepareStringForConversion: the leading run of
   * digits, ',', '-' and blanks, with every ',' turned into '.'.
   */
  function PrepareDecimalComma(input: string): (r: string)
    ensures |r| <= |input| && IsLongestPrefixIn(input[..|r|], input, DecimalCommaAdmissible)
    ensures forall i :: 0 <= i < |r| ==> r[i] == if input[i] == ',' then '.' else input[i]
    ensures ',' !in r
  {
    var admissablePart := TakeWhileAdmissible(input, DecimalCommaAdmissible);
    ReplaceChar(admissablePart, ',', '.')
  }

  /** DecimalDotSorter::prepareStringForConversion: the leading run of digits, '.', '-' and blanks. */
  function PrepareDecimalDot(input: string): (r: string)
    ensures IsLongestPrefixIn(r, input, DecimalDotAdmissible)
  {
    TakeWhileAdmissible(input, DecimalDotAdmissible)
  }

  // ---------------------------------------------------------------------
  // Numeric sorting: the specification functions
  // ---------------------------------------------------------------------

  /** The line goes to the empties: its prepared form is blank. */
  predicate IsEmptyLine(prepare: string -> string, line: string) {
    ConsiderStringEmpty(prepare(line))
  }

  /** The line is empty, or its prepared form converts to a key. */
  predicate Convertible<K>(prepare: string -> string, convert: string -> Option<K>, line: string) {
    IsEmptyLine(prepare, line) || convert(prepare(line)).Some?
  }

  /** Every one of the first n lines is empty or converts. */
  predicate AllConvertible<K>(lines: seq<string>, n: nat, prepare: string -> string, convert: string -> Option<K>)
    requires n <= |lines|
  {
    forall j :: 0 <= j < n ==> Convertible(prepare, convert, lines[j])
  }

  /** Line i is the first line that is not empty and does not convert. */
  predicate FirstFailure<K>(lines: seq<string>, i: nat, prepare: string -> string, convert: string -> Option<K>) {
    && i < |lines|
    && !IsEmptyLine(prepare, lines[i])
    && convert(prepare(lines[i])).None?
    && AllConvertible(lines, i, prepare, convert)
  }

  lemma AllConvertibleStep<K>(lines: seq<string>, i: nat, prepare: string -> string, convert: string -> Option<K>)
    requires i < |lines| && AllConvertible(lines, i, prepare, convert)
    requires Convertible(prepare, convert, lines[i])
    ensures AllConvertible(lines, i + 1, prepare, convert)
  {
  }

  /** The empty lines, in input order. */
  function EmptiesOf(lines: seq<string>, prepare: string -> string): (r: seq<string>)
    ensures |r| <= |lines|
  {
    if lines == [] then []
    else
      var last := lines[|lines| - 1];
      EmptiesOf(lines[..|lines| - 1], prepare) + if IsEmptyLine(prepare, last) then [last] else []
  }

  /** The non-empty lines, in input order. */
  function CandidatesOf(lines: seq<string>, prepare: string -> string): (r: seq<string>)
    ensures |r| <= |lines|
  {
    if lines == [] then []
    else
      var last := lines[|lines| - 1];
      CandidatesOf(lines[..|lines| - 1], prepare) + if IsEmptyLine(prepare, last) then [] else [last]
  }

  /** Every line is an empty line or a candidate, and never both. */
  lemma {:induction false} Partition(lines: seq<string>, prepare: string -> string)
    ensures |EmptiesOf(lines, prepare)| + |CandidatesOf(lines, prepare)| == |lines|
    ensures multiset(EmptiesOf(lines, prepare)) + multiset(CandidatesOf(lines, prepare)) == multiset(lines)
  {
    if lines != [] {
      var init, last := lines[..|lines| - 1], lines[|lines| - 1];
      Partition(init, prepare);
      assert multiset(lines) == multiset(init) + multiset{last} by {
        assert lines == init + [last];
      }
      PartitionStep(EmptiesOf(init, prepare), CandidatesOf(init, prepare), last, IsEmptyLine(prepare, last));
    }
  }

  lemma PartitionStep(e: seq<string>, c: seq<string>, last: string, empty: bool)
    ensures var e', c' := e + (if empty then [last] else []), c + (if empty then [] else [last]);
            && |e'| + |c'| == |e| + |c| + 1
            && multiset(e') + multiset(c') == multiset(e) + multiset(c) + multiset{last}
  {
  }

  /** One more line of input extends exactly one of the two filters, by that line. */
  lemma FiltersStep(lines: seq<string>, i: nat, prepare: string -> string)
    requires i < |lines|
    ensures EmptiesOf(lines[..i + 1], prepare)
         == EmptiesOf(lines[..i], prepare) + if IsEmptyLine(prepare, lines[i]) then [lines[i]] else []
    ensures CandidatesOf(lines[..i + 1], prepare)
         == CandidatesOf(lines[..i], prepare) + if IsEmptyLine(prepare, lines[i]) then [] else [lines[i]]
  {
    assert lines[..i + 1][..i] == lines[..i];
  }

  /** The key of a line whose prepared form converts. */
  function KeyOf<K>(prepare: string -> string, convert: string -> Option<K>, line: string): (key: K)
    requires convert(prepare(line)).Some?
  {
    convert(prepare(line)).value
  }

  /**
   * Every line of block has a key, and the keys never decrease (never
   * increase when descending) under the key order less.
   */
  predicate KeysInOrder<K>(block: seq<string>, prepare: string -> string, convert: string -> Option<K>,
                           less: (K, K) -> bool, descending: bool)
  {
    && (forall k :: 0 <= k < |block| ==> convert(prepare(block[k])).Some?)
    && forall i, j :: 0 <= i < j < |block| ==>
         if descending then !less(KeyOf(prepare, convert, block[i]), KeyOf(prepare, convert, block[j]))
         else !less(KeyOf(prepare, convert, block[j]), KeyOf(prepare, convert, block[i]))
  }

  // ---------------------------------------------------------------------
  // Numeric sorting: the algorithm
  // ---------------------------------------------------------------------

  /** Every pair points at a line of a sequence of n lines. */
  predicate IndicesBelow<K>(pairs: seq<(nat, K)>, n: nat) {
    forall k :: 0 <= k < |pairs| ==> pairs[k].0 < n
  }

  /** The lines a sequence of (line index, key) pairs points at, in order. */
  function PickLines<L, K>(lines: seq<L>, pairs: seq<(nat, K)>): (r: seq<L>)
    requires IndicesBelow(pairs, |lines|)
    ensures |r| == |pairs|
  {
    if pairs == [] then [] else [lines[pairs[0].0]] + PickLines(lines, pairs[1..])
  }

  lemma {:induction false} PickLinesAt<L, K>(lines: seq<L>, pairs: seq<(nat, K)>, k: nat)
    requires IndicesBelow(pairs, |lines|) && k < |pairs|
    ensures PickLines(lines, pairs)[k] == lines[pairs[k].0]
  {
    if k > 0 {
      PickLinesAt(lines, pairs[1..], k - 1);
    }
  }

  lemma {:induction false} PickLinesAppend<L, K>(lines: seq<L>, ps: seq<(nat, K)>, qs: seq<(nat, K)>)
    requires IndicesBelow(ps, |lines|) && IndicesBelow(qs, |lines|)
    ensures IndicesBelow(ps + qs, |lines|)
    ensures PickLines(lines, ps + qs) == PickLines(lines, ps) + PickLines(lines, qs)
  {
    assert IndicesBelow(ps + qs, |lines|) by {
      forall k | 0 <= k < |ps + qs| ensures (ps + qs)[k].0 < |lines| {
        if k < |ps| { assert (ps + qs)[k] == ps[k]; } else { assert (ps + qs)[k] == qs[k - |ps|]; }
      }
    }
    if ps == [] {
      assert ps + qs == qs;
    } else {
      assert (ps + qs)[1..] == ps[1..] + qs;
      PickLinesAppend(lines, ps[1..], qs);
    }
  }

  lemma PickLinesSplit<L, K>(lines: seq<L>, front: seq<(nat, K)>, x: (nat, K), back: seq<(nat, K)>)
    requires IndicesBelow(front, |lines|) && IndicesBelow(back, |lines|) && x.0 < |lines|
    ensures IndicesBelow(front + [x] + back, |lines|) && IndicesBelow(front + back, |lines|)
    ensures multiset(PickLines(lines, front + [x] + back))
         == multiset(PickLines(lines, front + back)) + multiset{lines[x.0]}
  {
    PickLinesAppend(lines, front, [x]);
    PickLinesAppend(lines, front + [x], back);
    PickLinesAppend(lines, front, back);
  }

  lemma IndicesBelowSlices<K>(qs: seq<(nat, K)>, k: nat, n: nat)
    requires IndicesBelow(qs, n) && k < |qs|
    ensures IndicesBelow(qs[..k], n) && IndicesBelow(qs[k + 1..], n) && qs[k].0 < n
    ensures qs == qs[..k] + [qs[k]] + qs[k + 1..]
  {
    var back := qs[k + 1..];
    forall j | 0 <= j < |back| ensures back[j].0 < n {
      assert back[j] == qs[k + 1 + j];
    }
  }

  lemma MultisetCancel<T>(a: multiset<T>, b: multiset<T>, c: multiset<T>)
    requires a + b == a + c
    ensures b == c
  {
    assert b == (a + b) - a;
    assert c == (a + c) - a;
  }

  lemma IndexOf<T>(x: T, qs: seq<T>) returns (k: nat)
    requires x in multiset(qs)
    ensures k < |qs| && qs[k] == x
  {
    assert x in qs;
    k :| 0 <= k < |qs| && qs[k] == x;
  }

  lemma RemoveMatched<T>(ps: seq<T>, qs: seq<T>, k: nat)
    requires multiset(ps) == multiset(qs)
    requires ps != [] && k < |qs| && qs[k] == ps[0]
    ensures multiset(qs[..k] + qs[k + 1..]) == multiset(ps[1..])
  {
    var x, front, back := ps[0], qs[..k], qs[k + 1..];
    assert ps == [x] + ps[1..];
    assert qs == front + [x] + back;
    assert multiset(qs) == multiset{x} + multiset(front + back);
    MultisetCancel(multiset{x}, multiset(ps[1..]), multiset(front + back));
  }

  /** Reordering the pairs reorders the lines they point at. */
  lemma {:induction false} PickLinesPermutation<L, K>(lines: seq<L>, ps: seq<(nat, K)>, qs: seq<(nat, K)>)
    requires IndicesBelow(ps, |lines|) && IndicesBelow(qs, |lines|)
    requires multiset(ps) == multiset(qs)
    ensures multiset(PickLines(lines, ps)) == multiset(PickLines(lines, qs))
  {
    if ps == [] {
      assert |qs| == |multiset(qs)| == 0;
    } else {
      var x := ps[0];
      assert x in multiset(qs);
      var k := IndexOf(x, qs);
      IndicesBelowSlices(qs, k, |lines|);
      var front, back := qs[..k], qs[k + 1..];
      RemoveMatched(ps, qs, k);
      PickLinesSplit(lines, front, x, back);
      PickLinesPermutation(lines, ps[1..], front + back);
    }
  }

  /** Each pair holds the index of a line of lines and the key that line converts to. */
  predicate KeyedLines<K(==)>(lines: seq<string>, pairs: seq<(nat, K)>, prepare: string -> string,
                          convert: string -> Option<K>)
  {
    && IndicesBelow(pairs, |lines|)
    && forall k :: 0 <= k < |pairs| ==> convert(prepare(lines[pairs[k].0])) == Some(pairs[k].1)
  }

  /** Appending a keyed line keeps the pairs keyed and adds that line to the lines they point at. */
  lemma KeepKeyedLine<K>(lines: seq<string>, pairs: seq<(nat, K)>, i: nat, key: K,
                         prepare: string -> string, convert: string -> Option<K>)
    requires KeyedLines(lines, pairs, prepare, convert)
    requires i < |lines| && convert(prepare(lines[i])) == Some(key)
    ensures KeyedLines(lines, pairs + [(i, key)], prepare, convert)
    ensures PickLines(lines, pairs + [(i, key)]) == PickLines(lines, pairs) + [lines[i]]
  {
    PickLinesAppend(lines, pairs, [(i, key)]);
    assert PickLines(lines, [(i, key)]) == [lines[i]];
  }

  /** Each pair names a later line than the pairs before it, so no line is named twice. */
  predicate IncreasingIndices<K>(pairs: seq<(nat, K)>) {
    forall p, q :: 0 <= p < q < |pairs| ==> pairs[p].0 < pairs[q].0
  }

  /** Appending a pair for line i, after pairs for earlier lines only, keeps the indices increasing. */
  lemma IncreasingStep<K>(pairs: seq<(nat, K)>, i: nat, key: K)
    requires IncreasingIndices(pairs) && IndicesBelow(pairs, i)
    ensures IncreasingIndices(pairs + [(i, key)]) && IndicesBelow(pairs + [(i, key)], i + 1)
  {
    var ext := pairs + [(i, key)];
    forall k | 0 <= k < |ext| ensures ext[k].0 <= i && (k < |pairs| ==> ext[k].0 < i) {
      if k < |pairs| { assert ext[k] == pairs[k]; }
    }
  }

  /** The state of the classification pass after its first n lines. */
  predicate Classified<K(==)>(lines: seq<string>, n: nat, pairs: seq<(nat, K)>, empties: seq<string>,
                              prepare: string -> string, convert: string -> Option<K>)
  {
    && n <= |lines|
    && empties == EmptiesOf(lines[..n], prepare)
    && KeyedLines(lines, pairs, prepare, convert)
    && IncreasingIndices(pairs) && IndicesBelow(pairs, n)
    && PickLines(lines, pairs) == CandidatesOf(lines[..n], prepare)
    && AllConvertible(lines, n, prepare, convert)
  }

  /** An empty line n goes to the empties. */
  lemma ClassifyEmpty<K>(lines: seq<string>, n: nat, pairs: seq<(nat, K)>, empties: seq<string>,
                             prepare: string -> string, convert: string -> Option<K>)
    requires n < |lines| && Classified(lines, n, pairs, empties, prepare, convert)
    requires IsEmptyLine(prepare, lines[n])
    ensures Classified(lines, n + 1, pairs, empties + [lines[n]], prepare, convert)
  {
    FiltersStep(lines, n, prepare);
    AllConvertibleStep(lines, n, prepare, convert);
  }

  /** A line n with a key becomes the pair (n, key). */
  lemma ClassifyKeyed<K>(lines: seq<string>, n: nat, pairs: seq<(nat, K)>, empties: seq<string>, key: K,
                             prepare: string -> string, convert: string -> Option<K>)
    requires n < |lines| && Classified(lines, n, pairs, empties, prepare, convert)
    requires !IsEmptyLine(prepare, lines[n]) && convert(prepare(lines[n])) == Some(key)
    ensures Classified(lines, n + 1, pairs + [(n, key)], empties, prepare, convert)
  {
    FiltersStep(lines, n, prepare);
    AllConvertibleStep(lines, n, prepare, convert);
    KeepKeyedLine(lines, pairs, n, key, prepare, convert);
    IncreasingStep(pairs, n, key);
  }

  /** A line n that is not empty and has no key is the first failure. */
  lemma ClassifyFails<K>(lines: seq<string>, n: nat, pairs: seq<(nat, K)>, empties: seq<string>,
                         prepare: string -> string, convert: string -> Option<K>)
    requires n < |lines| && Classified(lines, n, pairs, empties, prepare, convert)
    requires !IsEmptyLine(prepare, lines[n]) && convert(prepare(lines[n])).None?
    ensures FirstFailure(lines, n, prepare, convert)
  {
  }

  /** After the last line, the pass has classified the whole input. */
  lemma ClassifiedAll<K>(lines: seq<string>, pairs: seq<(nat, K)>, empties: seq<string>,
                         prepare: string -> string, convert: string -> Option<K>)
    requires Classified(lines, |lines|, pairs, empties, prepare, convert)
    ensures AllConvertible(lines, |lines|, prepare, convert)
    ensures empties == EmptiesOf(lines, prepare)
    ensures KeyedLines(lines, pairs, prepare, convert) && IncreasingIndices(pairs)
    ensures PickLines(lines, pairs) == CandidatesOf(lines, prepare)
  {
    assert lines[..|lines|] == lines;
  }

  /**
   * The classification pass of NumericSorter::sort (its first loop): blank
   * lines are collected in empties, every other line is converted and kept
   * as (index, key); the first line that does not convert stops the pass
   * with its index, as the source's `throw lineIndex`.
   */
  method Classify<K(==)>(lines: seq<string>, prepare: string -> string, convert: string -> Option<K>)
    returns (nonEmptyInputAsNumbers: seq<(nat, K)>, empties: seq<string>, failedAt: Option<nat>)
    ensures failedAt.Some? ==> FirstFailure(lines, failedAt.value, prepare, convert)
    ensures failedAt.None? ==>
              && AllConvertible(lines, |lines|, prepare, convert)
              && empties == EmptiesOf(lines, prepare)
              && KeyedLines(lines, nonEmptyInputAsNumbers, prepare, convert)
              && IncreasingIndices(nonEmptyInputAsNumbers)
              && PickLines(lines, nonEmptyInputAsNumbers) == CandidatesOf(lines, prepare)
  {
    nonEmptyInputAsNumbers, empties := [], [];
    var lineIndex := 0;
    while lineIndex < |lines|
      invariant 0 <= lineIndex <= |lines|
      invariant Classified(lines, lineIndex, nonEmptyInputAsNumbers, empties, prepare, convert)
    {
      var originalLine := lines[lineIndex];
      var preparedLine := prepare(originalLine);
      if ConsiderStringEmpty(preparedLine) {
        ClassifyEmpty(lines, lineIndex, nonEmptyInputAsNumbers, empties, prepare, convert);
        empties := empties + [originalLine];
      } else {
        match convert(preparedLine)
        case None =>
          ClassifyFails(lines, lineIndex, nonEmptyInputAsNumbers, empties, prepare, convert);
          return nonEmptyInputAsNumbers, empties, Some(lineIndex);
        case Some(key) =>
          ClassifyKeyed(lines, lineIndex, nonEmptyInputAsNumbers, empties, key, prepare, convert);
          nonEmptyInputAsNumbers := nonEmptyInputAsNumbers + [(lineIndex, key)];
      }
      lineIndex := lineIndex + 1;
    }
    ClassifiedAll(lines, nonEmptyInputAsNumbers, empties, prepare, convert);
    failedAt := None;
  }

  /**
   * The std::sort call of NumericSorter::sort: the pairs reordered so that
   * their keys do not decrease under less (do not increase when descending).
   */
  method SortByKey<K(!new)>(pairs: seq<(nat, K)>, less: (K, K) -> bool, descending: bool)
    returns (sorted: seq<(nat, K)>)
    requires StrictWeakOrder(less)
    ensures multiset(sorted) == multiset(pairs)
    ensures forall i, j :: 0 <= i < j < |sorted| ==>
              if descending then !less(sorted[i].1, sorted[j].1) else !less(sorted[j].1, sorted[i].1)
  {
    var byKey := if descending then (p: (nat, K), q: (nat, K)) => less(q.1, p.1)
                 else (p: (nat, K), q: (nat, K)) => less(p.1, q.1);
    if descending {
      FlippedOrder(less, (x: K, y: K) => less(y, x));
      ByKeyOrder((x: K, y: K) => less(y, x), (p: (nat, K)) => p.1, byKey);
    } else {
      ByKeyOrder(less, (p: (nat, K)) => p.1, byKey);
    }
    var a := new (nat, K)[|pairs|](k requires 0 <= k < |pairs| => pairs[k]);
    assert a[..] == pairs;
    SortInPlace(a, byKey);
    sorted := a[..];
    forall i, j | 0 <= i < j < |sorted|
      ensures if descending then !less(sorted[i].1, sorted[j].1) else !less(sorted[j].1, sorted[i].1)
    {
      assert !byKey(sorted[j], sorted[i]);
    }
  }

  /**
   * The output loop of NumericSorter::sort: the empties, then the line of
   * each sorted pair; or, when descending, the empties last.
   */
  method Assemble<K>(lines: seq<string>, sorted: seq<(nat, K)>, empties: seq<string>, descending: bool)
    returns (output: seq<string>)
    requires IndicesBelow(sorted, |lines|)
    ensures output == if descending then PickLines(lines, sorted) + empties
                      else empties + PickLines(lines, sorted)
  {
    output := [];
    if !descending {
      output := output + empties;
    }
    for k := 0 to |sorted|
      invariant output == (if descending then [] else empties) + PickLines(lines, sorted[..k])
    {
      IndicesBelowSlices(sorted, k, |lines|);
      assert sorted[..k + 1] == sorted[..k] + [sorted[k]];
      PickLinesAppend(lines, sorted[..k], [sorted[k]]);
      assert PickLines(lines, [sorted[k]]) == [lines[sorted[k].0]];
      output := output + [lines[sorted[k].0]];
    }
    assert sorted[..|sorted|] == sorted;
    if descending {
      output := output + empties;
    }
  }

  /** Reordering keyed pairs keeps them keyed. */
  lemma KeyedLinesPermutation<K>(lines: seq<string>, ps: seq<(nat, K)>, qs: seq<(nat, K)>,
                                 prepare: string -> string, convert: string -> Option<K>)
    requires KeyedLines(lines, ps, prepare, convert)
    requires multiset(ps) == multiset(qs)
    ensures KeyedLines(lines, qs, prepare, convert)
  {
    forall k | 0 <= k < |qs|
      ensures qs[k].0 < |lines| && convert(prepare(lines[qs[k].0])) == Some(qs[k].1)
    {
      assert qs[k] in multiset(ps);
    }
  }

  /** Sorted pairs of keyed lines point at lines whose keys are in order. */
  lemma SortedPairsKeyOrder<K>(lines: seq<string>, sorted: seq<(nat, K)>, prepare: string -> string,
                              convert: string -> Option<K>, less: (K, K) -> bool, descending: bool)
    requires KeyedLines(lines, sorted, prepare, convert)
    requires forall i, j :: 0 <= i < j < |sorted| ==>
               if descending then !less(sorted[i].1, sorted[j].1) else !less(sorted[j].1, sorted[i].1)
    ensures KeysInOrder(PickLines(lines, sorted), prepare, convert, less, descending)
  {
    var block := PickLines(lines, sorted);
    forall k | 0 <= k < |block| ensures block[k] == lines[sorted[k].0] {
      PickLinesAt(lines, sorted, k);
    }
    assert forall k :: 0 <= k < |block| ==> KeyOf(prepare, convert, block[k]) == sorted[k].1;
  }

  /**
   * out is lines rearranged as a numeric sort must: the empty lines, in
   * their input order, at the front (at the back when descending), and the
   * rest, a rearrangement of the candidates, with their keys in order.
   */
  predicate NumericallySorted<K>(lines: seq<string>, out: seq<string>, prepare: string -> string,
                                 convert: string -> Option<K>, less: (K, K) -> bool, descending: bool)
  {
    var empties, candidates := EmptiesOf(lines, prepare), CandidatesOf(lines, prepare);
    && |out| == |lines|
    && multiset(out) == multiset(lines)
    && if descending then
         && out[|candidates|..] == empties
         && multiset(out[..|candidates|]) == multiset(candidates)
         && KeysInOrder(out[..|candidates|], prepare, convert, less, descending)
       else
         && out[..|empties|] == empties
         && multiset(out[|empties|..]) == multiset(candidates)
         && KeysInOrder(out[|empties|..], prepare, convert, less, descending)
  }

  /** The empties joined to a key-ordered rearrangement of the candidates form a sorted output. */
  lemma AssembledIsSorted<K>(lines: seq<string>, block: seq<string>, out: seq<string>, prepare: string -> string,
                             convert: string -> Option<K>, less: (K, K) -> bool, descending: bool)
    requires multiset(block) == multiset(CandidatesOf(lines, prepare))
    requires KeysInOrder(block, prepare, convert, less, descending)
    requires out == if descending then block + EmptiesOf(lines, prepare) else EmptiesOf(lines, prepare) + block
    ensures NumericallySorted(lines, out, prepare, convert, less, descending)
  {
    var empties, candidates := EmptiesOf(lines, prepare), CandidatesOf(lines, prepare);
    Partition(lines, prepare);
    assert |block| == |multiset(block)| == |candidates|;
    if descending {
      assert out[..|block|] == block && out[|block|..] == empties;
    } else {
      assert out[..|empties|] == empties && out[|empties|..] == block;
    }
  }

  /**
   * NumericSorter::sort.  One pass over the lines puts each blank-when-
   * prepared line into the empties and converts every other one to a key;
   * the first line that does not convert aborts the sort with its index.
   * Otherwise the keyed lines are sorted by key (ascending by less, or
   * descending) and the empties, in their input order, go in front when
   * ascending and behind when descending.
   */
  method NumericSort<K(==, !new)>(lines: seq<string>, descending: bool, prepare: string -> string,
                              convert: string -> Option<K>, less: (K, K) -> bool)
    returns (r: Result<seq<string>, nat>)
    requires StrictWeakOrder(less)
    ensures r.Failure? ==> FirstFailure(lines, r.error, prepare, convert)
    ensures r.Success? ==> AllConvertible(lines, |lines|, prepare, convert)
    ensures r.Success? ==> NumericallySorted(lines, r.value, prepare, convert, less, descending)
  {
    var nonEmptyInputAsNumbers, empties, failedAt := Classify(lines, prepare, convert);
    if failedAt.Some? {
      return Failure(failedAt.value);
    }
    var sorted := SortByKey(nonEmptyInputAsNumbers, less, descending);
    KeyedLinesPermutation(lines, nonEmptyInputAsNumbers, sorted, prepare, convert);
    PickLinesPermutation(lines, sorted, nonEmptyInputAsNumbers);
    SortedPairsKeyOrder(lines, sorted, prepare, convert, less, descending);
    var output := Assemble(lines, sorted, empties, descending);
    AssembledIsSorted(lines, PickLines(lines, sorted), output, prepare, convert, less, descending);
    r := Success(output);
  }

  // ---------------------------------------------------------------------
  // The sorter variants
  // ---------------------------------------------------------------------

  /** operator< on long long, the key order of IntegerSorter. */
  predicate IntLess(a: int, b: int) {
    a < b
  }

  /** operator< on the (finite) doubles the decimal sorters read. */
  predicate RealLess(a: real, b: real) {
    a < b
  }

  lemma KeyOrders()
    ensures StrictWeakOrder(IntLess) && StrictWeakOrder(RealLess)
  {
  }

  /** The preparation step of each numeric variant (the lexicographic sorter has none). */
  function Preparation(kind: SorterKind): (prepare: string -> string)
    requires kind != Lexicographic
  {
    match kind
    case Integer => PrepareInteger
    case DecimalComma => PrepareDecimalComma
    case DecimalDot => PrepareDecimalDot
  }

  /** Preparation keeps a prefix of the line, up to turning ',' into '.'. */
  lemma PreparedIsPrefix(kind: SorterKind, line: string)
    requires kind != Lexicographic
    ensures |Preparation(kind)(line)| <= |line|
    ensures forall i :: 0 <= i < |Preparation(kind)(line)| ==>
              Preparation(kind)(line)[i] == line[i] || (line[i] == ',' && Preparation(kind)(line)[i] == '.')
  {
  }

  /** A line of blanks is an empty line for every numeric variant. */
  lemma BlankLineIsEmpty(kind: SorterKind, line: string)
    requires kind != Lexicographic
    requires ConsiderStringEmpty(line)
    ensures IsEmptyLine(Preparation(kind), line)
  {
    PreparedIsPrefix(kind, line);
  }

  /**
   * A line whose first character is outside the variant's admissible set
   * (a word, say) prepares to nothing and so counts as empty: it is never
   * the line a numeric sort fails on.
   */
  lemma InadmissibleStartIsEmpty(kind: SorterKind, line: string)
    requires kind != Lexicographic
    requires line != []
    requires line[0] !in match kind
                         case Integer => IntegerAdmissible
                         case DecimalComma => DecimalCommaAdmissible
                         case _ => DecimalDotAdmissible
    ensures Preparation(kind)(line) == []
    ensures IsEmptyLine(Preparation(kind), line)
  {
  }

  lemma DigitIsAdmissible(c: char)
    requires IsDigit(c)
    ensures c in IntegerAdmissible
  {
    assert c == '0' || c == '1' || c == '2' || c == '3' || c == '4'
        || c == '5' || c == '6' || c == '7' || c == '8' || c == '9';
  }

  /**
   * A line made of blanks, a '-' and then no digit ("--5", " - 5", "-\t7")
   * is not an empty line, and the integer sorter cannot convert it: an
   * integer sort of lines holding it fails.
   */
  lemma IntegerSignWithoutDigit(blanks: string, u: string)
    requires ConsiderStringEmpty(blanks)
    requires u == [] || !IsDigit(u[0])
    ensures !IsEmptyLine(PrepareInteger, blanks + "-" + u)
    ensures ParseLongLong(PrepareInteger(blanks + "-" + u)) == None
  {
    var head := blanks + "-";
    assert AllIn(head, IntegerAdmissible) by {
      forall i | 0 <= i < |head| ensures head[i] in IntegerAdmissible {
        if i < |blanks| { assert head[i] == blanks[i]; }
      }
    }
    TakeWhileAppend(head, u, IntegerAdmissible);
    var p := TakeWhileAdmissible(u, IntegerAdmissible);
    assert PrepareInteger(blanks + "-" + u) == blanks + ['-'] + p;
    assert (blanks + ['-'] + p)[|blanks|] == '-';
    assert p == [] || p[0] == u[0];
    SignNoDigit(blanks, '-', p);
  }

  /**
   * A line made of blanks, a number and then text that does not start with
   * an admissible character gets that number as its key when it fits in 64
   * bits, and makes the integer sort fail otherwise.
   */
  lemma IntegerLineKey(blanks: string, n: int, rest: string)
    requires ConsiderStringEmpty(blanks)
    requires rest == [] || rest[0] !in IntegerAdmissible
    ensures ParseLongLong(PrepareInteger(blanks + Show(n) + rest)) == FitLongLong(n)
  {
    var number := Show(n);
    assert AllIn(blanks + number, IntegerAdmissible) by {
      forall i | 0 <= i < |blanks + number| ensures (blanks + number)[i] in IntegerAdmissible {
        if i >= |blanks| {
          var c := number[i - |blanks|];
          assert c == '-' || IsDigit(c);
          if c != '-' {
            DigitIsAdmissible(c);
          }
        }
      }
    }
    TakeWhileAppend(blanks + number, rest, IntegerAdmissible);
    assert TakeWhileAdmissible(rest, IntegerAdmissible) == [];
    assert PrepareInteger(blanks + number + rest) == blanks + (number + []);
    ParseSkipsSpaces(blanks, number + []);
    ParseShow(n, []);
  }

  /**
   * r is what NumericSorter::sort gives for these lines: the first line that
   * neither is empty nor converts, or the numerically sorted lines.
   */
  predicate NumericResult<K>(lines: seq<string>, r: Result<seq<string>, nat>, prepare: string -> string,
                             convert: string -> Option<K>, less: (K, K) -> bool, descending: bool)
  {
    && (r.Failure? ==> FirstFailure(lines, r.error, prepare, convert))
    && (r.Success? ==> NumericallySorted(lines, r.value, prepare, convert, less, descending))
  }

  /**
   * With the decimal-comma sorter, a line with no admissible first character
   * (here "abc") is an empty line, so a sort of ["3,5", "1,25", "abc"] never
   * fails at index 2, whatever the double parser does.
   */
  lemma WordLineNeverFails(parseDouble: string -> Option<real>)
    ensures !FirstFailure(["3,5", "1,25", "abc"], 2, PrepareDecimalComma, parseDouble)
  {
    InadmissibleStartIsEmpty(DecimalComma, "abc");
  }

  /**
   * The sort entry point: the chosen variant applied to the lines.  The
   * decimal variants read keys with parseDouble, which stands for the
   * locale-fixed string-to-double conversion of the source.
   */
  method Sort(kind: SorterKind, lines: seq<string>, descending: bool, parseDouble: string -> Option<real>)
    returns (r: Result<seq<string>, nat>)
    ensures kind == Lexicographic ==> r.Success?
    ensures r.Success? ==> |r.value| == |lines| && multiset(r.value) == multiset(lines)
    ensures r.Success? && kind == Lexicographic ==>
              forall i, j :: 0 <= i < j < |r.value| ==>
                if descending then Compare(r.value[i], r.value[j]) >= 0 else Compare(r.value[i], r.value[j]) <= 0
    ensures r.Success? && kind != Lexicographic ==>
              var empties := EmptiesOf(lines, Preparation(kind));
              if descending then r.value[|lines| - |empties|..] == empties else r.value[..|empties|] == empties
    ensures r.Failure? ==> r.error < |lines| && !ConsiderStringEmpty(lines[r.error])
    ensures kind == Integer ==> NumericResult(lines, r, PrepareInteger, ParseLongLong, IntLess, descending)
    ensures kind == DecimalComma ==> NumericResult(lines, r, PrepareDecimalComma, parseDouble, RealLess, descending)
    ensures kind == DecimalDot ==> NumericResult(lines, r, PrepareDecimalDot, parseDouble, RealLess, descending)
  {
    KeyOrders();
    match kind
    case Lexicographic =>
      var sorted := LexicographicSort(lines, descending);
      r := Success(sorted);
    case Integer =>
      r := NumericSort(lines, descending, PrepareInteger, ParseLongLong, IntLess);
      NumericOutcome(kind, lines, descending, ParseLongLong, IntLess, r);
    case DecimalComma =>
      r := NumericSort(lines, descending, PrepareDecimalComma, parseDouble, RealLess);
      NumericOutcome(kind, lines, descending, parseDouble, RealLess, r);
    case DecimalDot =>
      r := NumericSort(lines, descending, PrepareDecimalDot, parseDouble, RealLess);
      NumericOutcome(kind, lines, descending, parseDouble, RealLess, r);
  }

  /** What a numeric sort's result says in terms of the input lines alone. */
  lemma NumericOutcome<K>(kind: SorterKind, lines: seq<string>, descending: bool, convert: string -> Option<K>,
                          less: (K, K) -> bool, r: Result<seq<string>, nat>)
    requires kind != Lexicographic
    requires r.Failure? ==> FirstFailure(lines, r.error, Preparation(kind), convert)
    requires r.Success? ==> NumericallySorted(lines, r.value, Preparation(kind), convert, less, descending)
    ensures r.Success? ==> |r.value| == |lines| && multiset(r.value) == multiset(lines)
    ensures r.Success? ==>
              var empties := EmptiesOf(lines, Preparation(kind));
              if descending then r.value[|lines| - |empties|..] == empties else r.value[..|empties|] == empties
    ensures r.Failure? ==> r.error < |lines| && !ConsiderStringEmpty(lines[r.error])
  {
    if r.Success? {
      Partition(lines, Preparation(kind));
    } else if ConsiderStringEmpty(lines[r.error]) {
      BlankLineIsEmpty(kind, lines[r.error]);
      assert false;
    }
  }
}
