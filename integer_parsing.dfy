/**
 * std::stoll on a decimal string, which follows strtoll (section 7.22.1.4
 * of the C11 standard) with base 10: leading white space is skipped, an
 * optional sign is read, then the longest run of decimal digits.  Anything
 * after the digits is ignored.  It fails (std::invalid_argument) when no
 * digit is found and (std::out_of_range) when the value does not fit in a
 * signed 64-bit integer; both failures are None here.
 */
module IntegerParsing {
  import opened Wrappers

  const LLongMin: int := -0x8000_0000_0000_0000
  const LLongMax: int := 0x7FFF_FFFF_FFFF_FFFF

  /** isspace in the "C" locale: space, \t, \n, \v, \f, \r. */
  predicate IsSpace(c: char) {
    c == ' ' || c == '\t' || c == '\n' || c == '\r' || c as int == 0x0B || c as int == 0x0C
  }

  predicate IsDigit(c: char) {
    '0' <= c <= '9'
  }

  predicate AllDigits(s: string) {
    forall i :: 0 <= i < |s| ==> IsDigit(s[i])
  }

  /** s without its leading white space. */
  function SkipSpaces(s: string): (r: string)
    ensures |r| <= |s| && r == s[|s| - |r|..]
    ensures forall i :: 0 <= i < |s| - |r| ==> IsSpace(s[i])
    ensures r == [] || !IsSpace(r[0])
  {
    if s != [] && IsSpace(s[0]) then
      var r := SkipSpaces(s[1..]);
      assert s[1..][|s| - 1 - |r|..] == s[|s| - |r|..];
      assert forall i :: 1 <= i < |s| - |r| ==> s[i] == s[1..][i - 1];
      r
    else s
  }

  /** The longest prefix of s made of decimal digits. */
  function LeadingDigits(s: string): (r: string)
    ensures |r| <= |s| && r == s[..|r|] && AllDigits(r)
    ensures |r| == |s| || !IsDigit(s[|r|])
  {
    if s != [] && IsDigit(s[0]) then [s[0]] + LeadingDigits(s[1..]) else []
  }

  function DigitValue(c: char): (d: nat)
    requires IsDigit(c)
    ensures d < 10
  {
    c as int - '0' as int
  }

  function DigitChar(d: nat): (c: char)
    requires d < 10
    ensures IsDigit(c) && DigitValue(c) == d
  {
    ('0' as int + d) as char
  }

  /** The number a string of decimal digits denotes, most significant first. */
  function DigitsValue(ds: string): (n: nat)
    requires AllDigits(ds)
  {
    if ds == [] then 0 else 10 * DigitsValue(ds[..|ds| - 1]) + DigitValue(ds[|ds| - 1])
  }

  /** std::stoll(s) with base 10; None when it would throw. */
  function ParseLongLong(s: string): (r: Option<int>)
    ensures r.Some? ==> LLongMin <= r.value <= LLongMax
  {
    ParseSigned(SkipSpaces(s))
  }

  /** An optional sign and the digits after it; None when there is no digit. */
  function ParseSigned(t: string): (r: Option<int>)
    ensures r.Some? ==> LLongMin <= r.value <= LLongMax
  {
    var negative := t != [] && t[0] == '-';
    var unsigned := if t != [] && (t[0] == '-' || t[0] == '+') then t[1..] else t;
    match ParseMagnitude(unsigned)
    case None => None
    case Some(magnitude) => FitLongLong(if negative then -magnitude else magnitude)
  }

  /** The value of the leading digits of u; None when u does not start with a digit. */
  function ParseMagnitude(u: string): (r: Option<int>)
    ensures r.Some? ==> r.value >= 0
  {
    var ds := LeadingDigits(u);
    if ds == [] then None else Some(DigitsValue(ds))
  }

  /** The value when it fits in a signed 64-bit integer, None (out_of_range) otherwise. */
  function FitLongLong(v: int): (r: Option<int>)
    ensures r.Some? <==> LLongMin <= v <= LLongMax
    ensures r.Some? ==> r.value == v
  {
    if LLongMin <= v <= LLongMax then Some(v) else None
  }

  /** The shortest decimal spelling of n, without leading zeros. */
  function NatDigits(n: nat): (r: string)
    ensures r != [] && AllDigits(r)
  {
    if n < 10 then [DigitChar(n)] else NatDigits(n / 10) + [DigitChar(n % 10)]
  }

  /** The decimal spelling of n, with a leading minus sign when negative. */
  function Show(n: int): (s: string) {
    if n < 0 then "-" + NatDigits(-n) else NatDigits(n)
  }

  lemma {:induction false} NatDigitsValue(n: nat)
    ensures DigitsValue(NatDigits(n)) == n
  {
    if n >= 10 {
      var ds := NatDigits(n);
      assert ds[..|ds| - 1] == NatDigits(n / 10);
      NatDigitsValue(n / 10);
    }
  }

  lemma {:induction false} LeadingDigitsAppend(ds: string, rest: string)
    requires AllDigits(ds)
    requires rest == [] || !IsDigit(rest[0])
    ensures LeadingDigits(ds + rest) == ds
  {
    if ds != [] {
      assert (ds + rest)[1..] == ds[1..] + rest;
      LeadingDigitsAppend(ds[1..], rest);
    }
  }

  /**
   * Reading back a decimal spelling, whatever non-digit text follows it,
   * gives the number when it fits in 64 bits and fails otherwise.
   */
  lemma ParseShow(n: int, rest: string)
    requires rest == [] || !IsDigit(rest[0])
    ensures ParseLongLong(Show(n) + rest) == FitLongLong(n)
  {
    if n < 0 {
      ParseShowNegative(n, rest);
    } else {
      ParseShowNonNegative(n, rest);
    }
  }

  lemma ParseShowNegative(n: int, rest: string)
    requires n < 0
    requires rest == [] || !IsDigit(rest[0])
    ensures ParseLongLong(Show(n) + rest) == FitLongLong(n)
  {
    var ds := NatDigits(-n);
    var t := "-" + (ds + rest);
    NegativeSpelling(n, rest);
    assert DigitsValue(ds) == -n by {
      NatDigitsValue(-n);
    }
    BareNegDigits(t, ds, rest);
  }

  lemma NegativeSpelling(n: int, rest: string)
    requires n < 0
    ensures Show(n) + rest == "-" + (NatDigits(-n) + rest)
  {
  }

  lemma ParseShowNonNegative(n: int, rest: string)
    requires n >= 0
    requires rest == [] || !IsDigit(rest[0])
    ensures ParseLongLong(Show(n) + rest) == FitLongLong(n)
  {
    var ds := NatDigits(n);
    assert Show(n) + rest == ds + rest;
    assert DigitsValue(ds) == n by {
      NatDigitsValue(n);
    }
    BarePlainDigits(ds, rest);
  }

  lemma ParseMagnitudeDigits(ds: string, rest: string)
    requires ds != [] && AllDigits(ds)
    requires rest == [] || !IsDigit(rest[0])
    ensures ParseMagnitude(ds + rest) == Some(DigitsValue(ds))
  {
    LeadingDigitsAppend(ds, rest);
  }

  lemma ParseDigits(ds: string, rest: string)
    requires ds != [] && AllDigits(ds)
    requires rest == [] || !IsDigit(rest[0])
    ensures ParseSigned(ds + rest) == FitLongLong(DigitsValue(ds))
  {
    assert (ds + rest)[0] == ds[0];
    ParseMagnitudeDigits(ds, rest);
  }

  lemma ParseNegativeDigits(t: string, ds: string, rest: string)
    requires t != [] && t[0] == '-' && t[1..] == ds + rest
    requires ds != [] && AllDigits(ds)
    requires rest == [] || !IsDigit(rest[0])
    ensures ParseSigned(t) == FitLongLong(0 - DigitsValue(ds))
  {
    ParseMagnitudeDigits(ds, rest);
  }

  /** Leading white space does not change the result. */
  lemma {:induction false} ParseSkipsSpaces(ws: string, s: string)
    requires forall i :: 0 <= i < |ws| ==> IsSpace(ws[i])
    ensures ParseLongLong(ws + s) == ParseLongLong(s)
  {
    SkipSpacesAppend(ws, s);
  }

  lemma {:induction false} SkipSpacesAppend(ws: string, s: string)
    requires forall i :: 0 <= i < |ws| ==> IsSpace(ws[i])
    ensures SkipSpaces(ws + s) == SkipSpaces(s)
  {
    if ws == [] {
      assert ws + s == s;
    } else {
      assert (ws + s)[1..] == ws[1..] + s;
      SkipSpacesAppend(ws[1..], s);
    }
  }

  /** A sign with no digit right after it is rejected (invalid_argument), whatever follows. */
  lemma SignNoDigit(ws: string, sign: char, u: string)
    requires forall i :: 0 <= i < |ws| ==> IsSpace(ws[i])
    requires sign == '-' || sign == '+'
    requires u == [] || !IsDigit(u[0])
    ensures ParseLongLong(ws + [sign] + u) == None
  {
    assert ws + [sign] + u == ws + ([sign] + u);
    ParseSkipsSpaces(ws, [sign] + u);
    BareSignNoDigit(sign, u);
  }

  lemma BareSignNoDigit(sign: char, u: string)
    requires sign == '-' || sign == '+'
    requires u == [] || !IsDigit(u[0])
    ensures ParseLongLong([sign] + u) == None
  {
    var t := [sign] + u;
    assert t[0] == sign && t[1..] == u;
    StartsWithoutSpace(t);
    SignedWithoutMagnitude(t);
  }

  /** Parsing starts at the sign or digit when there is no white space to skip. */
  lemma StartsWithoutSpace(t: string)
    requires t == [] || !IsSpace(t[0])
    ensures ParseLongLong(t) == ParseSigned(t)
  {
  }

  lemma SignedWithoutMagnitude(t: string)
    requires t != [] && (t[0] == '-' || t[0] == '+')
    requires t[1..] == [] || !IsDigit(t[1..][0])
    ensures ParseSigned(t) == None
  {
    assert LeadingDigits(t[1..]) == [];
  }

  /** After white space, a character that is no sign, digit or space is rejected (invalid_argument). */
  lemma NoNumberStart(ws: string, u: string)
    requires forall i :: 0 <= i < |ws| ==> IsSpace(ws[i])
    requires u == [] || (!IsDigit(u[0]) && !IsSpace(u[0]) && u[0] != '-' && u[0] != '+')
    ensures ParseLongLong(ws + u) == None
  {
    ParseSkipsSpaces(ws, u);
    StartsWithoutSpace(u);
  }

  /** White space, then unsigned digits: the digits' value, when it fits in 64 bits ("007" gives 7). */
  lemma PlainDigits(ws: string, ds: string, rest: string)
    requires forall i :: 0 <= i < |ws| ==> IsSpace(ws[i])
    requires ds != [] && AllDigits(ds)
    requires rest == [] || !IsDigit(rest[0])
    ensures ParseLongLong(ws + ds + rest) == FitLongLong(DigitsValue(ds))
  {
    assert ws + ds + rest == ws + (ds + rest);
    ParseSkipsSpaces(ws, ds + rest);
    BarePlainDigits(ds, rest);
  }

  lemma BarePlainDigits(ds: string, rest: string)
    requires ds != [] && AllDigits(ds)
    requires rest == [] || !IsDigit(rest[0])
    ensures ParseLongLong(ds + rest) == FitLongLong(DigitsValue(ds))
  {
    var t := ds + rest;
    assert t[0] == ds[0];
    StartsWithoutSpace(t);
    ParseDigits(ds, rest);
  }

  /** White space, '-', then digits: minus the digits' value, when it fits in 64 bits ("-0" gives 0). */
  lemma NegDigits(ws: string, ds: string, rest: string)
    requires forall i :: 0 <= i < |ws| ==> IsSpace(ws[i])
    requires ds != [] && AllDigits(ds)
    requires rest == [] || !IsDigit(rest[0])
    ensures ParseLongLong(ws + "-" + ds + rest) == FitLongLong(0 - DigitsValue(ds))
  {
    var t := "-" + (ds + rest);
    assert ws + "-" + ds + rest == ws + t;
    ParseSkipsSpaces(ws, t);
    BareNegDigits(t, ds, rest);
  }

  lemma BareNegDigits(t: string, ds: string, rest: string)
    requires t == "-" + (ds + rest)
    requires ds != [] && AllDigits(ds)
    requires rest == [] || !IsDigit(rest[0])
    ensures ParseLongLong(t) == FitLongLong(0 - DigitsValue(ds))
  {
    assert t[0] == '-' && t[1..] == ds + rest;
    StartsWithoutSpace(t);
    ParseNegativeDigits(t, ds, rest);
  }

  /** A string holding no digit at all is rejected. */
  lemma ParseNeedsDigit(s: string)
    requires forall i :: 0 <= i < |s| ==> !IsDigit(s[i])
    ensures ParseLongLong(s) == None
  {
    var t := SkipSpaces(s);
    var unsigned := if t != [] && (t[0] == '-' || t[0] == '+') then t[1..] else t;
    assert ParseLongLong(s) == ParseSigned(t);
    assert unsigned != [] ==> unsigned[0] == s[|s| - |unsigned|];
  }
}
