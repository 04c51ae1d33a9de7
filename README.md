# Line sorters of Notepad++ in Dafny

This project models the line-sorting strategies of Notepad++
(`PowerEditor/src/MISC/Common/Sorters.h`) and proves what they promise:

- **Lexicographic sorting**: the lines are sorted by `generic_string::compare`, ascending or descending.
- **Numeric sorting** has three variants:
  - the integer sorter, with `std::stoll` keys;
  - the decimal-comma sorter, with double keys;
  - the decimal-dot sorter, with double keys.
- **How a numeric sort runs**:
  1. Each line is *prepared*: its leading run of admissible characters is kept, and for the comma variant every `,` becomes `.`.
  2. A line whose prepared form holds only space, tab, CR or LF is an *empty line* (`considerStringEmpty`).
  3. Every other line is converted to a key. The first line that does not convert aborts the sort with that line's index, as the source's `throw lineIndex` does.
  4. Otherwise the keyed lines are sorted by key, and the empty lines go back at the front (ascending) or at the back (descending), in their input order.

Files:

- `wrappers.dfy`: `Option`, and `Result` (`Success(lines)` or `Failure(index)`).
- `strings.dfy`:
  - `find_first_not_of`;
  - the leading-admissible-run helper (`stringTakeWhileAdmissable`);
  - single-character replacement (`stringReplace`);
  - `generic_string::compare` and its order properties.
- `sorting.dfy`: `std::sort`, as an in-place insertion sort on an `array`. The comparator is any strict weak ordering (the requirement `std::sort` places on its comparator).
- `integer_parsing.dfy`: `std::stoll` in base 10, following `strtoll` (section 7.22.1.4 of the C11 standard) over the range −2^63 … 2^63−1.
- `sorters.dfy`: the sorters.
  - The class hierarchy `ISorter` / `NumericSorter<T>` and its subclasses becomes the closed datatype `SorterKind = Lexicographic | Integer | DecimalComma | DecimalDot`, plus a `descending` argument.
  - `NumericSort` is generic over the key type. It takes the variant's `prepare` and `convert` functions and the key order as arguments.
  - It runs as three methods:
    - `Classify`: the first loop, with its `push_back`s;
    - `SortByKey`: the `std::sort` on `(index, key)` pairs;
    - `Assemble`: the output loop.
  - Each of them is proved against specification functions:
    - `EmptiesOf` and `CandidatesOf`, which split the lines into empties and candidates;
    - `FirstFailure`;
    - `KeysInOrder`;
    - `NumericallySorted`.

Two consequences of the code are worth stating:

- **No stability.** Neither sort is stable: `std::sort` (lines 62 and 120) may emit ties in any order.
  - Among the non-empty lines, only the key order is promised.
  - The empty lines keep their input order (`NumericSort`, `Sort`).
- **Words are empty lines.** A line with no admissible first character prepares to the empty string. An example is `abc` for the decimal-comma sorter.
  - Such a line counts as an empty line, so a numeric sort never fails on it (`InadmissibleStartIsEmpty`, `NumericSort`, `Sort`).
  - For instance, a decimal-comma sort of `["3,5", "1,25", "abc"]` never fails at index 2 (`WordLineNeverFails`).

## Model

| member | source | states |
|---|---|---|
| Sorters.LexicographicLessIsOrder | PowerEditor/src/MISC/Common/Sorters.h:62-72 | the comparator handed to `std::sort` (`compare < 0`, or `compare > 0` when descending) is a strict weak ordering, as `std::sort` requires |
| Sorters.LexicographicSort | PowerEditor/src/MISC/Common/Sorters.h:59-74 | the output is a permutation of the lines (same length, same multiset), and every pair of output lines compares `<= 0` in output order (`>= 0` when descending) |
| Sorting.SortInPlace | PowerEditor/src/MISC/Common/Sorters.h:62 | `std::sort` with a strict weak ordering: afterwards no element is less than one before it, and the array holds the same multiset |
| Sorting.InsertAt | PowerEditor/src/MISC/Common/Sorters.h:120 | one insertion step: a sorted prefix grows by one element, the rest of the array is unchanged and the multiset is kept |
| Sorting.SwapDown | PowerEditor/src/MISC/Common/Sorters.h:120 | exchanging two neighbours changes exactly those two cells and keeps the multiset |
| Sorting.FlippedOrder | PowerEditor/src/MISC/Common/Sorters.h:122-125 | the reversed comparator of a descending sort (`a > b`) is again a strict weak ordering |
| Sorting.ByKeyOrder | PowerEditor/src/MISC/Common/Sorters.h:120-130 | comparing `(index, key)` pairs by key alone is a strict weak ordering |
| Strings.Compare | PowerEditor/src/MISC/Common/Sorters.h:66 | the comparison's sign, which is 0 exactly when the strings are equal |
| Strings.CompareAntisymmetric | PowerEditor/src/MISC/Common/Sorters.h:66 | swapping the operands of `compare` negates the result |
| Strings.CompareTransitive | PowerEditor/src/MISC/Common/Sorters.h:70 | `compare(a, b) < 0` and `compare(b, c) < 0` give `compare(a, c) < 0` |
| Strings.ComparePrefix | PowerEditor/src/MISC/Common/Sorters.h:70 | a proper prefix compares before the longer string |
| Strings.CompareFirstDifference | PowerEditor/src/MISC/Common/Sorters.h:70 | the first differing character decides the comparison |
| Strings.FindFirstNotOf | PowerEditor/src/MISC/Common/Sorters.h:153 | `npos` (None) exactly when every character is in the set; otherwise the index of the first character outside it |
| Sorters.ConsiderStringEmptyIsNoNonBlank | PowerEditor/src/MISC/Common/Sorters.h:150-154 | a line counts as empty (every character is space, tab, CR or LF, so the empty string counts too) exactly when `find_first_not_of(" \t\r\n")` finds nothing |
| Strings.TakeWhileAdmissible | PowerEditor/src/MISC/Common/Sorters.h:177 | the result is the longest prefix of the input made only of admissible characters |
| Strings.LongestPrefixUnique | PowerEditor/src/MISC/Common/Sorters.h:177 | there is only one such longest prefix |
| Strings.TakeWhileAppend | PowerEditor/src/MISC/Common/Sorters.h:177 | an admissible head is kept whole and the cut falls in what follows |
| Strings.ReplaceChar | PowerEditor/src/MISC/Common/Sorters.h:196 | same length; every `from` becomes `to` and every other character stays; no `from` remains |
| Sorters.PrepareInteger | PowerEditor/src/MISC/Common/Sorters.h:175-178 | the longest prefix made of `" \t\r\n0123456789-"` |
| Sorters.PrepareDecimalComma | PowerEditor/src/MISC/Common/Sorters.h:193-197 | the same length as the longest prefix made of `" \t\r\n0123456789,-"`; that prefix with `,` turned into `.`; no `,` left |
| Sorters.PrepareDecimalDot | PowerEditor/src/MISC/Common/Sorters.h:212-215 | the longest prefix made of `" \t\r\n0123456789.-"` |
| Sorters.PreparedIsPrefix | PowerEditor/src/MISC/Common/Sorters.h:175-215 | every variant's preparation keeps a prefix of the line, up to `,` turned into `.` |
| Sorters.BlankLineIsEmpty | PowerEditor/src/MISC/Common/Sorters.h:150-154 | a line of blanks prepares to blanks, so it is an empty line for every numeric variant |
| Sorters.InadmissibleStartIsEmpty | PowerEditor/src/MISC/Common/Sorters.h:175-215 | a line starting with a character outside its variant's set prepares to the empty string and is an empty line |
| IntegerParsing.SkipSpaces | PowerEditor/src/MISC/Common/Sorters.h:182 | `stoll` drops exactly the leading `isspace` characters |
| IntegerParsing.LeadingDigits | PowerEditor/src/MISC/Common/Sorters.h:182 | the longest run of decimal digits at the start |
| IntegerParsing.ParseLongLong | PowerEditor/src/MISC/Common/Sorters.h:180-183 | every key `stoll` returns lies in the signed 64-bit range |
| IntegerParsing.NatDigitsValue | PowerEditor/src/MISC/Common/Sorters.h:182 | the decimal spelling of n denotes n |
| IntegerParsing.ParseShow | PowerEditor/src/MISC/Common/Sorters.h:180-183 | reading back the decimal spelling of any integer, followed by any non-digit text, gives that integer when it fits in 64 bits and fails otherwise |
| IntegerParsing.ParseSkipsSpaces | PowerEditor/src/MISC/Common/Sorters.h:182 | leading white space does not change what `stoll` returns |
| IntegerParsing.ParseNeedsDigit | PowerEditor/src/MISC/Common/Sorters.h:182 | a string with no digit is rejected (`invalid_argument`) |
| IntegerParsing.SignNoDigit | PowerEditor/src/MISC/Common/Sorters.h:180-183 | leading white space, a sign, and then no digit (`"--5"`, `"- 5"`, `"-"`): `stoll` throws `invalid_argument`, whatever follows |
| IntegerParsing.NoNumberStart | PowerEditor/src/MISC/Common/Sorters.h:180-183 | leading white space, then a character that is no sign, digit or space, or nothing at all: `invalid_argument` |
| IntegerParsing.PlainDigits | PowerEditor/src/MISC/Common/Sorters.h:180-183 | leading white space, any run of digits, then a non-digit or nothing: the run's value when it fits in 64 bits, leading zeros allowed (`"007"` gives 7) |
| IntegerParsing.NegDigits | PowerEditor/src/MISC/Common/Sorters.h:180-183 | leading white space, `-`, any run of digits, then a non-digit or nothing: minus the run's value when it fits in 64 bits (`"-0"` gives 0) |
| Sorters.IntegerLineKey | PowerEditor/src/MISC/Common/Sorters.h:175-183 | blanks, a number and text starting with a non-admissible character: the integer key is that number when it fits in 64 bits, and conversion fails otherwise |
| Sorters.IntegerSignWithoutDigit | PowerEditor/src/MISC/Common/Sorters.h:175-183 | a line of blanks, `-` and then no digit (`"--5"`, `" - 5"`, `"-\t7"`) is not an empty line and gets no integer key, so an integer sort of lines holding it fails |
| Sorters.KeyOrders | PowerEditor/src/MISC/Common/Sorters.h:124-128 | `<` on `long long` keys and on the (finite) double keys is a strict weak ordering |
| Sorters.Partition | PowerEditor/src/MISC/Common/Sorters.h:98-118 | every line is an empty line or a candidate, never both: the sizes sum to the number of lines and the two multisets add up to the lines' multiset |
| Sorters.FiltersStep | PowerEditor/src/MISC/Common/Sorters.h:102-116 | one more line extends exactly one of the two groups, by that line |
| Sorters.Classify | PowerEditor/src/MISC/Common/Sorters.h:98-117 | on failure, the index of the first line that is neither empty nor convertible; otherwise every line is empty or convertible, `empties` is the empty lines in input order, and the pairs carry strictly increasing line indices, point at exactly the candidates in input order, and hold each line's key |
| Sorters.SortByKey | PowerEditor/src/MISC/Common/Sorters.h:119-130 | the pairs, rearranged so that keys never decrease under `<` (never increase when descending) |
| Sorters.Assemble | PowerEditor/src/MISC/Common/Sorters.h:131-146 | the output is the empties followed by the lines of the sorted pairs, or those lines followed by the empties when descending |
| Sorters.PickLinesPermutation | PowerEditor/src/MISC/Common/Sorters.h:137-140 | rearranging the pairs rearranges the lines they point at |
| Sorters.AssembledIsSorted | PowerEditor/src/MISC/Common/Sorters.h:131-146 | the empties joined to a key-ordered rearrangement of the candidates form an output of the right length, a permutation of the lines, with the empties at the right end |
| Sorters.NumericSort | PowerEditor/src/MISC/Common/Sorters.h:92-147 | Failure(i) exactly at the first line that is not empty and does not convert. On success every line converted or was empty, and the output is a permutation of the input. It is the empty lines in input order, then the candidates in key order (ascending), or the candidates in descending key order then the empty lines |
| Sorters.Sort | PowerEditor/src/MISC/Common/Sorters.h:33-51 | dispatch on the sorter kind. The lexicographic sort never fails and is sorted by `compare`. Each numeric kind gives exactly what `NumericSort` promises for its preparation, conversion and key order (`NumericResult`): failure at the first non-empty line that does not convert, or else a permutation with the empties in input order at the start (ascending) or the end (descending) and the other lines in key order. As corollaries, every success is a permutation and a failure never names a blank line |
| Sorters.WordLineNeverFails | PowerEditor/src/MISC/Common/Sorters.h:193-197 | a decimal-comma sort of `["3,5", "1,25", "abc"]` cannot fail at index 2, whatever the double parser does, because `abc` prepares to the empty string |

## Left out

- Locale: `_wcreate_locale` / `_free_locale` and `_usLocale` (lines 84, 89, 165) manage a Windows runtime resource and carry no sorting logic.
- Double conversion: `stodLocale` (lines 201 and 219) is not part of this model. It belongs to another file and does floating-point parsing. The decimal sorters take it as a parameter `parseDouble: string -> Option<real>`.
  - Keys are `real`, so no NaN or infinity can arise. A prepared string holds only digits, signs, separators and blanks, so `"nan"` and `"inf"` cannot reach the parser anyway.
  - Rounding is not modelled.
- `stringTakeWhileAdmissable` and `stringReplace` are not part of this model; they belong to another file. They are defined from their call sites:
  - `stringTakeWhileAdmissable` keeps the leading admissible run (`find_first_not_of` and `substr`);
  - `stringReplace` replaces one character with another, the only use here (`","` to `"."`).
- Characters: strings are sequences of Unicode scalar values, and `Compare` orders them by code point. In the Unicode build `generic_string` is `std::wstring`, and `compare` orders UTF-16 code units. The two orders therefore differ when a character beyond U+FFFF (a surrogate pair, from 0xD800) meets one in U+E000 … U+FFFF. For example, ascending `compare` puts U+1F600 (0xD83D …) before U+FF01, while the model puts U+FF01 first. Both orders are ordinal and locale-free.
- Strings.Compare: it returns only −1, 0 or 1, where `generic_string::compare` may return any negative or positive value. Only the sign is used (lines 66 and 70).
- `std::sort`: modelled by an insertion sort. Only its result is specified: sorted under the comparator, and a permutation.
- Stability: no stability is proved, because `std::sort` does not guarantee it.
- `reserve` (lines 97 and 132): a capacity hint with no effect on contents.
- `assert` (lines 118 and 145): these become postconditions (`Partition`, and the length clause of `NumericSort`).
- `size_t`: indices are unbounded naturals. A vector of more than 2^64 lines cannot exist.
- The `isDescending()` accessor and the constructors of the sorter classes: these become the `descending` argument of the sort methods.
- `isspace` in `stoll`: `IsSpace` holds the six characters of the "C" locale. A wide-character `iswspace` may accept more. Preparation only lets space, tab, CR and LF through, so the difference cannot be observed from the sorters.
