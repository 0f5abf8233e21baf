/** The part of semantic versions the release logic relies on: a numeric
    triple with lexicographic precedence (Semantic Versioning 2.0.0, item 11),
    its decimal display, and a parser that accepts exactly the displays. The
    pre-release/build part is carried verbatim, separator included, in `extra`. */
module SemVer {
  import opened Outcomes

  /** Each numeric field is a u64 in the semver crate. */
  const MaxField: nat := 0xFFFF_FFFF_FFFF_FFFF

  datatype Version = Version(major: nat, minor: nat, patch: nat, extra: string)

  predicate IsDigit(c: char) { '0' <= c <= '9' }

  predicate AllDigits(s: string) { forall i :: 0 <= i < |s| ==> IsDigit(s[i]) }

  /** A numeral as the parser accepts it: non-empty digits, no leading zero. */
  predicate Canonical(s: string) { |s| >= 1 && AllDigits(s) && (s[0] == '0' ==> |s| == 1) }

  /** The carried pre-release/build part: absent, or starting with its separator. */
  predicate IsExtra(s: string) { s == [] || s[0] == '-' || s[0] == '+' }

  predicate WellFormed(v: Version) {
    v.major <= MaxField && v.minor <= MaxField && v.patch <= MaxField && IsExtra(v.extra)
  }

  /** Precedence of the normal version: major, then minor, then patch. */
  predicate Less(a: Version, b: Version) {
    || a.major < b.major
    || (a.major == b.major && a.minor < b.minor)
    || (a.major == b.major && a.minor == b.minor && a.patch < b.patch)
  }

  predicate LessEq(a: Version, b: Version) { !Less(b, a) }

  function DigitChar(d: nat): (c: char)
    requires d < 10
    ensures IsDigit(c) && c as int - '0' as int == d
  {
    ('0' as int + d) as char
  }

  /** The value of a decimal digit (0 for any other character). */
  function DigitValue(c: char): nat
  {
    if IsDigit(c) then c as int - '0' as int else 0
  }

  /** Decimal display of a natural number. */
  function Digits(n: nat): (s: string)
    ensures Canonical(s)
    ensures |s| == 1 <==> n < 10
  {
    if n < 10 then [DigitChar(n)] else Digits(n / 10) + [DigitChar(n % 10)]
  }

  /** The value of a string of decimal digits. */
  function DigitsValue(s: string): nat
    decreases |s|
  {
    if s == [] then 0 else DigitsValue(s[..|s| - 1]) * 10 + DigitValue(s[|s| - 1])
  }

  lemma {:induction false} DigitsValueOfDigits(n: nat)
    ensures DigitsValue(Digits(n)) == n
  {
    if n >= 10 {
      var s := Digits(n);
      assert s[..|s| - 1] == Digits(n / 10);
      DigitsValueOfDigits(n / 10);
    }
  }

  lemma {:induction false} CanonicalValueBound(s: string)
    requires Canonical(s) && |s| >= 2
    ensures DigitsValue(s) >= 10
  {
    var p := s[..|s| - 1];
    assert p[0] == s[0];
    if |p| >= 2 {
      CanonicalValueBound(p);
    } else {
      assert DigitsValue(p) == DigitValue(p[0]) by {
        assert p[..0] == [];
      }
    }
  }

  lemma {:induction false} DigitsOfDigitsValue(s: string)
    requires Canonical(s)
    ensures Digits(DigitsValue(s)) == s
  {
    if |s| == 1 {
      assert s[..0] == [];
    } else {
      var p := s[..|s| - 1];
      assert p[0] == s[0];
      CanonicalValueBound(s);
      DigitsOfDigitsValue(p);
      assert s == p + [s[|s| - 1]];
    }
  }

  /** Length of the longest run of digits at the front of `s`. */
  function LeadingDigits(s: string): (k: nat)
    ensures k <= |s|
  {
    if s == [] || !IsDigit(s[0]) then 0 else 1 + LeadingDigits(s[1..])
  }

  /** The run is all digits and is not followed by a digit. */
  lemma {:induction false} LeadingDigitsShape(s: string)
    ensures var k := LeadingDigits(s);
      AllDigits(s[..k]) && (k < |s| ==> !IsDigit(s[k]))
  {
    if s != [] && IsDigit(s[0]) {
      LeadingDigitsShape(s[1..]);
      var k := LeadingDigits(s);
      assert forall i :: 1 <= i < k ==> s[..k][i] == s[1..][..k - 1][i - 1];
    }
  }

  lemma {:induction false} LeadingDigitsOfDigits(d: string, rest: string)
    requires AllDigits(d)
    requires rest == [] || !IsDigit(rest[0])
    ensures LeadingDigits(d + rest) == |d|
  {
    if d != [] {
      assert (d + rest)[1..] == d[1..] + rest;
      LeadingDigitsOfDigits(d[1..], rest);
    } else {
      assert d + rest == rest;
    }
  }

  /** Reads one numeric field from the front of `s`: the whole run of
      digits, which must be canonical and fit a u64. */
  function ReadField(s: string): Option<(nat, string)>
  {
    var k := LeadingDigits(s);
    if Canonical(s[..k]) && DigitsValue(s[..k]) <= MaxField
    then Some((DigitsValue(s[..k]), s[k..]))
    else None
  }

  lemma ReadFieldOfDigits(n: nat, rest: string)
    requires n <= MaxField
    requires rest == [] || !IsDigit(rest[0])
    ensures ReadField(Digits(n) + rest) == Some((n, rest))
  {
    var d := Digits(n);
    LeadingDigitsOfDigits(d, rest);
    assert (d + rest)[..|d|] == d;
    assert (d + rest)[|d|..] == rest;
    DigitsValueOfDigits(n);
  }

  lemma ReadFieldSplits(s: string, n: nat, rest: string)
    requires ReadField(s) == Some((n, rest))
    ensures s == Digits(n) + rest && n <= MaxField
    ensures rest == [] || !IsDigit(rest[0])
  {
    var k := LeadingDigits(s);
    LeadingDigitsShape(s);
    DigitsOfDigitsValue(s[..k]);
    assert s == s[..k] + s[k..];
  }

  /** Stand-in for `semver::Version::parse`: "major.minor.patch" followed by
      nothing or by a part starting with '-' or '+'. Leading zeros, numbers
      beyond u64 and any other trailing text are rejected. */
  function Parse(s: string): Option<Version>
  {
    match ReadField(s)
    case None => None
    case Some((major, rest)) => AfterMajor(major, rest)
  }

  /** What follows the major field: a dot, then minor and the rest. */
  function AfterMajor(major: nat, s: string): Option<Version>
  {
    if s == [] || s[0] != '.' then None
    else match ReadField(s[1..])
    case None => None
    case Some((minor, rest)) => AfterMinor(major, minor, rest)
  }

  /** What follows the minor field: a dot, then patch and the extra part. */
  function AfterMinor(major: nat, minor: nat, s: string): Option<Version>
  {
    if s == [] || s[0] != '.' then None
    else match ReadField(s[1..])
    case None => None
    case Some((patch, rest)) =>
      if IsExtra(rest) then Some(Version(major, minor, patch, rest)) else None
  }

  /** Display of a version, as `format!("{}", v)` writes it:
      "major.minor.patch" followed by the extra part. */
  function Display(v: Version): (s: string)
    ensures |s| >= 5 && IsDigit(s[0])
  {
    Digits(v.major) + DisplayFromMinor(v)
  }

  /** The display after the major field: ".minor.patch" and the extra part. */
  function DisplayFromMinor(v: Version): string
  {
    ['.'] + Digits(v.minor) + DisplayFromPatch(v)
  }

  /** The display after the minor field: ".patch" and the extra part. */
  function DisplayFromPatch(v: Version): string
  {
    ['.'] + Digits(v.patch) + v.extra
  }

  lemma PatchTailParses(v: Version)
    requires WellFormed(v)
    ensures AfterMinor(v.major, v.minor, DisplayFromPatch(v)) == Some(v)
  {
    var tail := DisplayFromPatch(v);
    assert tail[1..] == Digits(v.patch) + v.extra;
    ReadFieldOfDigits(v.patch, v.extra);
  }

  lemma MinorTailParses(v: Version)
    requires WellFormed(v)
    ensures AfterMajor(v.major, DisplayFromMinor(v)) == Some(v)
  {
    var tail := DisplayFromMinor(v);
    assert tail[1..] == Digits(v.minor) + DisplayFromPatch(v);
    ReadFieldOfDigits(v.minor, DisplayFromPatch(v));
    PatchTailParses(v);
  }

  /** Displaying a well-formed version and parsing it gives it back. */
  lemma ParseDisplay(v: Version)
    requires WellFormed(v)
    ensures Parse(Display(v)) == Some(v)
  {
    ReadFieldOfDigits(v.major, DisplayFromMinor(v));
    MinorTailParses(v);
  }

  lemma AfterMinorDisplays(major: nat, minor: nat, s: string, v: Version)
    requires AfterMinor(major, minor, s) == Some(v)
    ensures v.major == major && v.minor == minor
    ensures v.patch <= MaxField && IsExtra(v.extra)
    ensures s == DisplayFromPatch(v)
  {
    ReadFieldSplits(s[1..], v.patch, v.extra);
    assert s == ['.'] + s[1..];
  }

  lemma AfterMajorDisplays(major: nat, s: string, v: Version)
    requires AfterMajor(major, s) == Some(v)
    ensures v.major == major && v.minor <= MaxField && v.patch <= MaxField && IsExtra(v.extra)
    ensures s == DisplayFromMinor(v)
  {
    var Some((minor, rest)) := ReadField(s[1..]);
    ReadFieldSplits(s[1..], minor, rest);
    AfterMinorDisplays(major, minor, rest, v);
    assert s == ['.'] + s[1..];
  }

  /** Conversely, every string the parser accepts is the display of what it
      parses to: the parser accepts only canonical text. */
  lemma DisplayParse(s: string, v: Version)
    requires Parse(s) == Some(v)
    ensures WellFormed(v) && Display(v) == s
  {
    var Some((major, rest)) := ReadField(s);
    ReadFieldSplits(s, major, rest);
    AfterMajorDisplays(major, rest, v);
  }
}
