/** The "v"-prefixed rendering of a version used for tag names. */
module VString {
  import opened Outcomes
  import opened SemVer
  import opened Tags

  /** `to_v_string`: "v" followed by the display of the version. */
  function ToVString(v: Version): (s: string)
    ensures |s| == |Display(v)| + 1 && s[0] == 'v' && s[1] != 'v'
  {
    "v" + Display(v)
  }

  /** Tag-name parsing undoes `ToVString`: the trim removes exactly the one
      'v' because a display starts with a digit. */
  lemma VStringRoundTrip(v: Version)
    requires WellFormed(v)
    ensures TrimLeadingV(ToVString(v)) == Display(v)
    ensures ParseTagName(ToVString(v)) == Some(v)
  {
    var s := ToVString(v);
    assert s[1..] == Display(v);
    ParseDisplay(v);
  }

  /** A listed tag name written by `ToVString` is a candidate of the scan,
      carrying its version. */
  lemma VStringIsCandidate(v: Version)
    requires WellFormed(v)
    ensures Candidates([Some(ToVString(v))]) == [(v, ToVString(v))]
  {
    VStringRoundTrip(v);
    AcceptedSingle(ParseTagName, Some(ToVString(v)));
  }

  /** Distinct well-formed versions give distinct tag names. */
  lemma VStringInjective(a: Version, b: Version)
    requires WellFormed(a) && WellFormed(b)
    requires ToVString(a) == ToVString(b)
    ensures a == b
  {
    VStringRoundTrip(a);
    VStringRoundTrip(b);
  }
}
