/** Selection of the latest release tag: every tag name is stripped of its
    leading 'v's and parsed; the greatest version wins, the first name seen
    keeping a tie; the winner must then be an annotated tag. */
module Tags {
  import opened Outcomes
  import opened SemVer

  type Oid = string

  /** An annotated tag object: its own id and the commit it points at. */
  datatype TagObject = TagObject(id: Oid, target: Oid)

  /** What `refs/tags/<name>` resolves to. */
  datatype RefTarget = Annotated(tag: TagObject) | Lightweight(commit: Oid)

  /** The repository as the tag scan sees it: the result of listing tag names
      (each name `None` when it is not valid UTF-8) and what each name resolves
      to; a name missing from `refs` does not resolve. */
  datatype Repo = Repo(tagNames: Option<seq<Option<string>>>, refs: map<string, RefTarget>)

  /** `trim_start_matches('v')`: drops every leading 'v'. */
  function TrimLeadingV(s: string): string
  {
    if s != [] && s[0] == 'v' then TrimLeadingV(s[1..]) else s
  }

  /** The trimmed name is a suffix of the name, does not start with 'v', and
      everything cut off was a 'v': all leading 'v's go, and only they. */
  lemma {:induction false} TrimLeadingVShape(s: string)
    ensures var t := TrimLeadingV(s);
      && |t| <= |s| && t == s[|s| - |t|..]
      && (t == [] || t[0] != 'v')
      && (forall i :: 0 <= i < |s| - |t| ==> s[i] == 'v')
  {
    if s != [] && s[0] == 'v' {
      var s' := s[1..];
      var t := TrimLeadingV(s');
      assert TrimLeadingV(s) == t;
      TrimLeadingVShape(s');
      assert s'[|s'| - |t|..] == s[|s| - |t|..];
      forall i | 0 <= i < |s| - |t|
        ensures s[i] == 'v'
      {
        if i > 0 {
          assert s[i] == s'[i - 1];
        }
      }
    }
  }

  /** Prefixing 'v's to a name that does not start with one is undone by the
      trim; so "vv1.2.3" stands for the same version as "1.2.3". */
  lemma {:induction false} TrimLeadingVPrefix(n: nat, s: string)
    requires s == [] || s[0] != 'v'
    ensures TrimLeadingV(seq(n, _ => 'v') + s) == s
  {
    if n > 0 {
      assert (seq(n, _ => 'v') + s)[1..] == seq(n - 1, _ => 'v') + s;
      TrimLeadingVPrefix(n - 1, s);
    } else {
      assert seq(n, _ => 'v') + s == s;
    }
  }

  /** The version a tag name stands for, if any. */
  function ParseTagName(name: string): Option<Version>
  {
    Parse(TrimLeadingV(name))
  }

  /** The version a listed name stands for; `None` for a name that is not
      UTF-8 or does not parse. */
  function ParseItem(item: Option<string>): Option<Version>
  {
    match item
    case None => None
    case Some(name) => ParseTagName(name)
  }

  /** The listed names that `parse` accepts, each with the version it gives,
      in listing order. */
  function Accepted(parse: string -> Option<Version>, names: seq<Option<string>>): seq<(Version, string)>
    decreases |names|
  {
    if names == [] then []
    else
      var rest := Accepted(parse, names[..|names| - 1]);
      match names[|names| - 1]
      case None => rest
      case Some(name) =>
        match parse(name)
        case None => rest
        case Some(v) => rest + [(v, name)]
  }

  /** The listed names that parse as tag names, with their versions. */
  function Candidates(names: seq<Option<string>>): seq<(Version, string)>
  {
    Accepted(ParseTagName, names)
  }

  /** One step of the scan over a parsed name: it replaces the current best
      only when its version is strictly greater. */
  function Keep(latest: Option<(Version, string)>, c: (Version, string)): (Version, string)
  {
    if latest.Some? && LessEq(c.0, latest.value.0) then latest.value else c
  }

  /** The running best over candidates taken in order. */
  function Best(cs: seq<(Version, string)>): Option<(Version, string)>
    decreases |cs|
  {
    if cs == [] then None else Some(Keep(Best(cs[..|cs| - 1]), cs[|cs| - 1]))
  }

  /** The (version, name) the scan of `latest_tag` ends with. */
  function Scan(names: seq<Option<string>>): Option<(Version, string)>
  {
    Best(Candidates(names))
  }

  /** Reference definition of the winner among candidates: position k has a
      version at least every candidate's, and every candidate before it has a
      strictly smaller version. */
  predicate IsFirstMaximum(cs: seq<(Version, string)>, k: nat)
  {
    && k < |cs|
    && (forall i :: 0 <= i < |cs| ==> LessEq(cs[i].0, cs[k].0))
    && (forall j :: 0 <= j < k ==> Less(cs[j].0, cs[k].0))
  }

  /** The running best is the first maximum, and exists whenever there is a
      candidate. */
  lemma {:induction false} BestIsFirstMaximum(cs: seq<(Version, string)>)
    ensures Best(cs).None? <==> cs == []
    ensures cs != [] ==> exists k: nat :: IsFirstMaximum(cs, k) && Best(cs) == Some(cs[k])
  {
    if cs != [] {
      var n := |cs| - 1;
      var p := cs[..n];
      BestIsFirstMaximum(p);
      if p == [] {
        assert IsFirstMaximum(cs, 0);
      } else {
        var k: nat :| IsFirstMaximum(p, k) && Best(p) == Some(p[k]);
        assert forall i :: 0 <= i < n ==> cs[i] == p[i];
        if LessEq(cs[n].0, p[k].0) {
          assert IsFirstMaximum(cs, k);
        } else {
          assert IsFirstMaximum(cs, n);
        }
      }
    }
  }

  /** At most one position is the first maximum. */
  lemma FirstMaximumUnique(cs: seq<(Version, string)>, k1: nat, k2: nat)
    requires IsFirstMaximum(cs, k1) && IsFirstMaximum(cs, k2)
    ensures k1 == k2
  {
    assert LessEq(cs[k2].0, cs[k1].0) && LessEq(cs[k1].0, cs[k2].0);
  }

  /** The accepted names of consecutive lists follow each other. */
  lemma {:induction false} AcceptedAppend(parse: string -> Option<Version>, a: seq<Option<string>>, b: seq<Option<string>>)
    ensures Accepted(parse, a + b) == Accepted(parse, a) + Accepted(parse, b)
  {
    if b == [] {
      assert a + b == a;
    } else {
      var b' := b[..|b| - 1];
      AcceptedAppend(parse, a, b');
      assert (a + b)[..|a + b| - 1] == a + b';
    }
  }

  /** A pair is accepted exactly when its name is listed and `parse` gives
      its version. */
  lemma {:induction false} AcceptedMembers(parse: string -> Option<Version>, names: seq<Option<string>>)
    ensures forall c :: c in Accepted(parse, names) <==>
      exists i :: 0 <= i < |names| && names[i] == Some(c.1) && parse(c.1) == Some(c.0)
  {
    if names != [] {
      var p := names[..|names| - 1];
      AcceptedMembers(parse, p);
      assert forall i :: 0 <= i < |p| ==> names[i] == p[i];
    }
  }

  /** Each accepted pair comes from a listed name that `parse` gives its
      version for, and the pairs before it are those accepted from the names
      before that one. */
  lemma {:induction false} AcceptedOrigin(parse: string -> Option<Version>, names: seq<Option<string>>, k: nat)
    requires k < |Accepted(parse, names)|
    ensures var c := Accepted(parse, names)[k];
      exists i :: 0 <= i < |names| && names[i] == Some(c.1) && parse(c.1) == Some(c.0)
        && Accepted(parse, names[..i]) == Accepted(parse, names)[..k]
  {
    var cs := Accepted(parse, names);
    var p := names[..|names| - 1];
    var rest := Accepted(parse, p);
    if k < |rest| {
      AcceptedOrigin(parse, p, k);
      var i :| 0 <= i < |p| && p[i] == Some(rest[k].1) && parse(rest[k].1) == Some(rest[k].0)
        && Accepted(parse, p[..i]) == rest[..k];
      assert p[..i] == names[..i];
      assert cs[..|rest|] == rest;
      assert cs[..k] == rest[..k];
      assert names[i] == Some(cs[k].1);
    } else {
      var i := |names| - 1;
      assert names[..i] == p;
      assert cs[..k] == rest;
    }
  }

  /** A single listed name is accepted exactly when `parse` gives a version. */
  lemma AcceptedSingle(parse: string -> Option<Version>, x: Option<string>)
    ensures Accepted(parse, [x]) ==
      if x.Some? && parse(x.value).Some? then [(parse(x.value).value, x.value)] else []
  {
    assert [x][..0] == [];
  }

  /** A (version, name) pair is a candidate exactly when the name is listed
      and parses, after its leading 'v's are stripped, to that version. */
  lemma CandidatesMembers(names: seq<Option<string>>)
    ensures forall c :: c in Candidates(names) <==>
      exists i :: 0 <= i < |names| && names[i] == Some(c.1) && ParseTagName(c.1) == Some(c.0)
  {
    AcceptedMembers(ParseTagName, names);
  }

  /** The scanned version is at least that of every listed name that parses. */
  lemma ScanIsMaximum(names: seq<Option<string>>, i: nat)
    requires i < |names| && names[i].Some? && ParseTagName(names[i].value).Some?
    ensures Scan(names).Some?
    ensures LessEq(ParseTagName(names[i].value).value, Scan(names).value.0)
  {
    var cs := Candidates(names);
    CandidatesMembers(names);
    assert (ParseTagName(names[i].value).value, names[i].value) in cs;
    BestIsFirstMaximum(cs);
  }

  /** Among equal versions the first name listed wins: the winning name is
      listed, parses to the winning version, and every parsing name listed
      before it has a strictly smaller version. */
  lemma ScanFirstEncountered(names: seq<Option<string>>, v: Version, n: string)
    requires Scan(names) == Some((v, n))
    ensures exists i ::
              && 0 <= i < |names| && names[i] == Some(n) && ParseTagName(n) == Some(v)
              && (forall j :: 0 <= j < i && names[j].Some? && ParseTagName(names[j].value).Some? ==>
                    Less(ParseTagName(names[j].value).value, v))
  {
    var cs := Candidates(names);
    BestIsFirstMaximum(cs);
    var k: nat :| IsFirstMaximum(cs, k) && Best(cs) == Some(cs[k]);
    AcceptedOrigin(ParseTagName, names, k);
    var i :| 0 <= i < |names| && names[i] == Some(cs[k].1) && ParseTagName(cs[k].1) == Some(cs[k].0)
      && Candidates(names[..i]) == cs[..k];
    forall j | 0 <= j < i && names[j].Some? && ParseTagName(names[j].value).Some?
      ensures Less(ParseTagName(names[j].value).value, v)
    {
      var c := (ParseTagName(names[j].value).value, names[j].value);
      CandidatesMembers(names[..i]);
      assert names[..i][j] == names[j];
      assert c in cs[..k];
      var m :| 0 <= m < k && cs[m] == c;
    }
  }

  /** Names that do not parse take no part in the selection: removing one,
      wherever it stands, leaves the result unchanged. */
  lemma ScanIgnoresUnparsed(a: seq<Option<string>>, x: Option<string>, b: seq<Option<string>>)
    requires ParseItem(x).None?
    ensures Scan(a + [x] + b) == Scan(a + b)
  {
    AcceptedAppend(ParseTagName, a + [x], b);
    AcceptedAppend(ParseTagName, a, [x]);
    AcceptedAppend(ParseTagName, a, b);
    AcceptedSingle(ParseTagName, x);
  }

  /** The winner of the scan over the listed names, when listing succeeded. */
  function Winner(repo: Repo): Option<(Version, string)>
  {
    match repo.tagNames
    case None => None
    case Some(names) => Scan(names)
  }

  /** What `latest_tag` returns: the winner's annotated tag object and
      version, or nothing when there is no winner or the winner does not
      resolve to an annotated tag. There is no fallback to a lower version. */
  function Resolved(repo: Repo): Option<(TagObject, Version)>
  {
    match Winner(repo)
    case None => None
    case Some((version, name)) =>
      if name in repo.refs && repo.refs[name].Annotated?
      then Some((repo.refs[name].tag, version))
      else None
  }

  /** When `latest_tag` returns a tag, its version is at least the version of
      every listed name that parses, it is the annotated tag of a listed name
      carrying that version, and every parsing name listed before that one
      has a strictly smaller version. */
  lemma ResolvedIsLatest(repo: Repo, tag: TagObject, version: Version)
    requires Resolved(repo) == Some((tag, version))
    ensures repo.tagNames.Some?
    ensures var cs := Candidates(repo.tagNames.value);
      exists k: nat :: IsFirstMaximum(cs, k) && cs[k].0 == version
        && cs[k].1 in repo.refs && repo.refs[cs[k].1] == Annotated(tag)
    ensures forall c :: c in Candidates(repo.tagNames.value) ==> LessEq(c.0, version)
  {
    var cs := Candidates(repo.tagNames.value);
    BestIsFirstMaximum(cs);
    var k: nat :| IsFirstMaximum(cs, k) && Best(cs) == Some(cs[k]);
    assert Winner(repo) == Some(cs[k]);
    assert cs[k].1 in repo.refs && repo.refs[cs[k].1].Annotated?;
    assert repo.refs[cs[k].1] == Annotated(tag) && cs[k].0 == version;
    assert IsFirstMaximum(cs, k) && cs[k].0 == version
      && cs[k].1 in repo.refs && repo.refs[cs[k].1] == Annotated(tag);
  }

  /** The selection is `None` exactly when no name parses, the winner does
      not resolve, or the winner is not annotated: there is no fallback. */
  lemma ResolvedNoneIff(repo: Repo)
    ensures Resolved(repo).None? <==>
      || repo.tagNames.None?
      || Candidates(repo.tagNames.value) == []
      || Scan(repo.tagNames.value).value.1 !in repo.refs
      || repo.refs[Scan(repo.tagNames.value).value.1].Lightweight?
  {
    if repo.tagNames.Some? {
      BestIsFirstMaximum(Candidates(repo.tagNames.value));
    }
  }

  /** `latest_tag`: the scan loop over the listed names, then the lookup of
      the winner's annotated tag. */
  method LatestTag(repo: Repo) returns (r: Option<(TagObject, Version)>)
    ensures r == Resolved(repo)
  {
    if repo.tagNames.None? {
      return None;
    }
    var names := repo.tagNames.value;
    var latest: Option<(Version, string)> := None;
    for i := 0 to |names|
      invariant latest == Scan(names[..i])
    {
      assert names[..i + 1][..i] == names[..i];
      match names[i] {
        case None =>
        case Some(name) =>
          var tagStr := TrimLeadingV(name);
          match Parse(tagStr) {
            case None =>
            case Some(ver) =>
              if latest.Some? && LessEq(ver, latest.value.0) {
              } else {
                latest := Some((ver, name));
              }
          }
      }
    }
    assert names[..|names|] == names;
    if latest.None? {
      return None;
    }
    var (version, tagName) := latest.value;
    if tagName !in repo.refs {
      return None;
    }
    match repo.refs[tagName] {
      case Lightweight(_) => r := None;
      case Annotated(tag) => r := Some((tag, version));
    }
  }
}
