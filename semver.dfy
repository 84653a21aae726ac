/**
 * Parsing of version strings as Semantic Versioning 2.0.0 versions: a normal
 * version MAJOR.MINOR.PATCH (item 2 of the specification: non-negative
 * integers without leading zeroes), an optional pre-release after '-'
 * (items 9: dot-separated identifiers of [0-9A-Za-z-], numeric ones without
 * leading zeroes) and optional build metadata after '+' (item 10: the same
 * identifiers, leading zeroes allowed). Each numeric component must fit in
 * an unsigned 64-bit integer, as the parser the source links against stores
 * them that way.
 */
module SemVer {
  import opened Wrappers

  const U64_MAX: nat := 0xFFFF_FFFF_FFFF_FFFF

  datatype Version = Version(major: nat, minor: nat, patch: nat, pre: string, build: string)

  predicate IsDigit(c: char) { '0' <= c <= '9' }

  predicate IsIdentChar(c: char)
  {
    IsDigit(c) || ('a' <= c <= 'z') || ('A' <= c <= 'Z') || c == '-'
  }

  predicate AllDigits(s: string)
  {
    forall k :: 0 <= k < |s| ==> IsDigit(s[k])
  }

  /** The end of the run of digits that starts at position i. */
  function DigitsEnd(s: string, i: nat): (e: nat)
    requires i <= |s|
    ensures i <= e <= |s|
    ensures AllDigits(s[i..e])
    ensures e < |s| ==> !IsDigit(s[e])
    decreases |s| - i
  {
    if i == |s| || !IsDigit(s[i]) then i
    else
      var e := DigitsEnd(s, i + 1);
      assert s[i..e] == [s[i]] + s[i + 1..e];
      e
  }

  function DigitValue(c: char): nat
    requires IsDigit(c)
  {
    c as int - '0' as int
  }

  /** The value of a string of decimal digits. */
  function DecimalValue(d: string): nat
    requires AllDigits(d)
  {
    if d == [] then 0 else DecimalValue(d[..|d| - 1]) * 10 + DigitValue(d[|d| - 1])
  }

  /** A normal-version component: digits, no leading zero, at most 64 bits. */
  predicate ValidNumber(d: string)
  {
    && |d| > 0
    && AllDigits(d)
    && (d[0] == '0' ==> |d| == 1)
    && DecimalValue(d) <= U64_MAX
  }

  /** The first '.' at or after position i, or the end of s. */
  function DotIndex(s: string, i: nat): (e: nat)
    requires i <= |s|
    ensures i <= e <= |s|
    ensures forall k :: i <= k < e ==> s[k] != '.'
    ensures e < |s| ==> s[e] == '.'
    decreases |s| - i
  {
    if i == |s| || s[i] == '.' then i else DotIndex(s, i + 1)
  }

  /** One identifier; `strict` forbids leading zeroes in an all-digit one (pre-release). */
  predicate ValidIdent(id: string, strict: bool)
  {
    && |id| > 0
    && (forall k :: 0 <= k < |id| ==> IsIdentChar(id[k]))
    && (strict && AllDigits(id) && id[0] == '0' ==> |id| == 1)
  }

  /** A non-empty dot-separated list of identifiers. */
  predicate ValidIdents(s: string, strict: bool)
    decreases |s|
  {
    var e := DotIndex(s, 0);
    ValidIdent(s[..e], strict) && (e == |s| || ValidIdents(s[e + 1..], strict))
  }

  /** The first '+' in s, or the end of s. */
  function PlusIndex(s: string, i: nat): (e: nat)
    requires i <= |s|
    ensures i <= e <= |s|
    ensures forall k :: i <= k < e ==> s[k] != '+'
    ensures e < |s| ==> s[e] == '+'
    decreases |s| - i
  {
    if i == |s| || s[i] == '+' then i else PlusIndex(s, i + 1)
  }

  /** What may follow the normal version: nothing, "-pre", "+build" or "-pre+build". */
  function ParseSuffix(t: string): (r: Option<(string, string)>)
  {
    if t == [] then Some(([], []))
    else if t[0] == '+' then
      if ValidIdents(t[1..], false) then Some(([], t[1..])) else None
    else if t[0] == '-' then
      var p := PlusIndex(t, 1);
      if !ValidIdents(t[1..p], true) then None
      else if p == |t| then Some((t[1..], []))
      else if ValidIdents(t[p + 1..], false) then Some((t[1..p], t[p + 1..]))
      else None
    else None
  }

  /**
   * The normal version at the start of s: its three components and the
   * position where what follows it begins.
   */
  function ParseNormalPart(s: string): (r: Option<(nat, nat, nat, nat)>)
    ensures r.Some? ==> r.value.0 <= U64_MAX && r.value.1 <= U64_MAX && r.value.2 <= U64_MAX && r.value.3 <= |s|
  {
    var e1 := DigitsEnd(s, 0);
    if !(ValidNumber(s[..e1]) && e1 < |s| && s[e1] == '.') then None
    else
      var e2 := DigitsEnd(s, e1 + 1);
      if !(ValidNumber(s[e1 + 1..e2]) && e2 < |s| && s[e2] == '.') then None
      else
        var e3 := DigitsEnd(s, e2 + 1);
        if !ValidNumber(s[e2 + 1..e3]) then None
        else Some((DecimalValue(s[..e1]), DecimalValue(s[e1 + 1..e2]), DecimalValue(s[e2 + 1..e3]), e3))
  }

  /** Version::parse: the whole string must be one version. */
  function Parse(s: string): (r: Option<Version>)
    ensures r.Some? ==> r.value.major <= U64_MAX && r.value.minor <= U64_MAX && r.value.patch <= U64_MAX
  {
    match ParseNormalPart(s)
    case None => None
    case Some((major, minor, patch, end)) =>
      match ParseSuffix(s[end..])
      case None => None
      case Some(suffix) => Some(Version(major, minor, patch, suffix.0, suffix.1))
  }

  /** The canonical decimal spelling of n. */
  function NatToDecimal(n: nat): (d: string)
    ensures ValidDecimal(d) && DecimalValue(d) == n
  {
    if n < 10 then [('0' as int + n) as char]
    else
      var x := NatToDecimal(n / 10);
      var d := x + [('0' as int + n % 10) as char];
      assert d[..|d| - 1] == x;
      d
  }

  /** Digits without a superfluous leading zero. */
  predicate ValidDecimal(d: string)
  {
    |d| > 0 && AllDigits(d) && (d[0] == '0' ==> |d| == 1)
  }

  /** A normal version MAJOR.MINOR.PATCH written out. */
  function Format(major: nat, minor: nat, patch: nat): string
  {
    NatToDecimal(major) + "." + NatToDecimal(minor) + "." + NatToDecimal(patch)
  }

  lemma {:induction false} DigitsEndAt(s: string, i: nat, j: nat)
    requires i <= j <= |s|
    requires AllDigits(s[i..j])
    requires j < |s| ==> !IsDigit(s[j])
    ensures DigitsEnd(s, i) == j
    decreases j - i
  {
    if i < j {
      assert s[i] == s[i..j][0];
      assert s[i + 1..j] == s[i..j][1..];
      DigitsEndAt(s, i + 1, j);
    }
  }

  /** Parse on a string that is exactly three valid numbers separated by dots. */
  lemma ParseNormal(s: string, e1: nat, e2: nat)
    requires e1 < e2 < |s| && s[e1] == '.' && s[e2] == '.'
    requires DigitsEnd(s, 0) == e1 && DigitsEnd(s, e1 + 1) == e2 && DigitsEnd(s, e2 + 1) == |s|
    requires ValidNumber(s[..e1]) && ValidNumber(s[e1 + 1..e2]) && ValidNumber(s[e2 + 1..|s|])
    ensures Parse(s) == Some(Version(DecimalValue(s[..e1]), DecimalValue(s[e1 + 1..e2]), DecimalValue(s[e2 + 1..|s|]), [], []))
  {
    NormalPartOf(s, e1, e2);
    assert s[|s|..] == [];
  }

  /** A string of three valid components separated by dots is all normal version. */
  lemma NormalPartOf(s: string, e1: nat, e2: nat)
    requires e1 < e2 < |s| && s[e1] == '.' && s[e2] == '.'
    requires DigitsEnd(s, 0) == e1 && DigitsEnd(s, e1 + 1) == e2 && DigitsEnd(s, e2 + 1) == |s|
    requires ValidNumber(s[..e1]) && ValidNumber(s[e1 + 1..e2]) && ValidNumber(s[e2 + 1..|s|])
    ensures ParseNormalPart(s) == Some((DecimalValue(s[..e1]), DecimalValue(s[e1 + 1..e2]), DecimalValue(s[e2 + 1..|s|]), |s|))
  {
  }

  /** Every normal version that fits in 64 bits parses back from its spelling. */
  lemma ParseFormat(major: nat, minor: nat, patch: nat)
    requires major <= U64_MAX && minor <= U64_MAX && patch <= U64_MAX
    ensures Parse(Format(major, minor, patch)) == Some(Version(major, minor, patch, [], []))
  {
    var a, b, c := NatToDecimal(major), NatToDecimal(minor), NatToDecimal(patch);
    var s := Format(major, minor, patch);
    assert s == a + ['.'] + b + ['.'] + c;
    var e1, e2 := |a|, |a| + 1 + |b|;
    assert s[..e1] == a;
    assert s[e1 + 1..e2] == b;
    assert s[e2 + 1..] == c;
    DigitsEndAt(s, 0, e1);
    DigitsEndAt(s, e1 + 1, e2);
    assert s[e2 + 1..|s|] == c;
    DigitsEndAt(s, e2 + 1, |s|);
    ParseNormal(s, e1, e2);
  }

  /** A digit string that does not start with '0' has a positive value. */
  lemma {:induction false} PositiveLead(x: string)
    requires |x| > 0 && AllDigits(x) && x[0] != '0'
    ensures DecimalValue(x) >= 1
    decreases |x|
  {
    if |x| > 1 {
      var y := x[..|x| - 1];
      assert y[0] == x[0];
      assert forall k :: 0 <= k < |y| ==> y[k] == x[k];
      PositiveLead(y);
    }
  }

  /** A decimal without a superfluous leading zero is the canonical spelling of its value. */
  lemma {:induction false} DecimalCanonical(d: string)
    requires ValidDecimal(d)
    ensures NatToDecimal(DecimalValue(d)) == d
    decreases |d|
  {
    var n := DecimalValue(d);
    var last := d[|d| - 1];
    var x := d[..|d| - 1];
    assert forall k :: 0 <= k < |x| ==> x[k] == d[k];
    if |d| == 1 {
      assert x == [];
      assert n == DigitValue(last);
    } else {
      assert x[0] == d[0];
      PositiveLead(x);
      assert n == DecimalValue(x) * 10 + DigitValue(last);
      assert n / 10 == DecimalValue(x) && n % 10 == DigitValue(last);
      DecimalCanonical(x);
      assert d == x + [last];
    }
  }

  /** A valid list of identifiers is never empty. */
  lemma IdentsNonEmpty(s: string, strict: bool)
    requires ValidIdents(s, strict)
    ensures |s| > 0
  {
    var e := DotIndex(s, 0);
    assert |s[..e]| > 0;
  }

  /** Whatever follows the normal version, if it is accepted, yields a pre-release or build. */
  lemma SuffixNonEmpty(t: string)
    requires t != [] && ParseSuffix(t).Some?
    ensures ParseSuffix(t).value != ([], [])
  {
    if t[0] == '+' {
      IdentsNonEmpty(t[1..], false);
    } else {
      var p := PlusIndex(t, 1);
      IdentsNonEmpty(t[1..p], true);
    }
  }

  /** Three canonical components spell the normal version of their values. */
  lemma FormatOf(a: string, b: string, c: string)
    requires ValidDecimal(a) && ValidDecimal(b) && ValidDecimal(c)
    ensures Format(DecimalValue(a), DecimalValue(b), DecimalValue(c)) == a + "." + b + "." + c
  {
    DecimalCanonical(a);
    DecimalCanonical(b);
    DecimalCanonical(c);
  }

  /** What an accepted normal-version prefix consists of: three valid components separated by dots. */
  lemma NormalParts(s: string) returns (e1: nat, e2: nat, e3: nat)
    requires ParseNormalPart(s).Some?
    ensures e1 < e2 < e3 <= |s| && s[e1] == '.' && s[e2] == '.'
    ensures ValidDecimal(s[..e1]) && ValidDecimal(s[e1 + 1..e2]) && ValidDecimal(s[e2 + 1..e3])
    ensures ParseNormalPart(s).value == (DecimalValue(s[..e1]), DecimalValue(s[e1 + 1..e2]), DecimalValue(s[e2 + 1..e3]), e3)
  {
    e1 := DigitsEnd(s, 0);
    e2 := DigitsEnd(s, e1 + 1);
    e3 := DigitsEnd(s, e2 + 1);
  }

  /** The normal version at the start of a string is spelled canonically there. */
  lemma NormalPrefix(s: string)
    requires ParseNormalPart(s).Some?
    ensures var r := ParseNormalPart(s).value;
      r.3 <= |s| && s[..r.3] == Format(r.0, r.1, r.2)
  {
    var e1, e2, e3 := NormalParts(s);
    var a, b, c := s[..e1], s[e1 + 1..e2], s[e2 + 1..e3];
    FormatOf(a, b, c);
    assert s[..e2] == a + [s[e1]] + b;
    assert s[..e3] == s[..e2] + [s[e2]] + c;
  }

  /**
   * The converse of ParseFormat: an accepted string starts with the
   * canonical spelling of its normal version, and it is exactly that
   * spelling when the version has no pre-release and no build.
   */
  lemma FormatPrefix(s: string)
    requires Parse(s).Some?
    ensures var v := Parse(s).value;
      var f := Format(v.major, v.minor, v.patch);
      |f| <= |s| && s[..|f|] == f && (v.pre == [] && v.build == [] <==> |s| == |f|)
  {
    var r := ParseNormalPart(s).value;
    NormalPrefix(s);
    var t := s[r.3..];
    assert Parse(s).value == Version(r.0, r.1, r.2, ParseSuffix(t).value.0, ParseSuffix(t).value.1);
    if t != [] {
      SuffixNonEmpty(t);
    }
  }

  /** A normal version with a leading zero in its major component is refused. */
  lemma LeadingZeroRejected(s: string)
    requires |s| >= 2 && s[0] == '0' && IsDigit(s[1])
    ensures Parse(s) == None
  {
    var e1 := DigitsEnd(s, 0);
    assert DigitsEnd(s, 1) >= 2;
    assert s[..e1][0] == '0' && |s[..e1]| >= 2;
  }

  /** Strings Semantic Versioning refuses: a missing component, an empty pre-release, trailing text. */
  lemma RejectionExamples()
    ensures Parse("1.0") == None
    ensures Parse("1.0.0-") == None
    ensures Parse("1.0.0x") == None
    ensures Parse("01.0.0") == None
  {
    LeadingZeroRejected("01.0.0");
    var s := "1.0";
    assert DigitsEnd(s, 2) == 3;
    var t := "1.0.0-";
    assert DigitsEnd(t, 4) == 5;
    assert t[5..] == "-";
    assert DotIndex(t[5..][1..1], 0) == 0;
    var u := "1.0.0x";
    assert DigitsEnd(u, 4) == 5;
    assert u[5..] == "x";
  }
}
