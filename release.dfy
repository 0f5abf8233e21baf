/** One release run, as `main` sequences it: resolve the repository path,
    check the branch and ask for confirmation, optionally fetch, select the
    latest tag, bump, collect the commits and render what is shown. The
    repository, the answers typed at the prompt and the outcome of the fetch
    are inputs. */
module Release {
  import opened Outcomes
  import opened SemVer
  import opened Args
  import opened Tags
  import opened VString
  import opened Bumping
  import opened Commits
  import opened Format
  import opened Confirm

  /** HEAD as `main` reads it: whether it is a branch, its short name when
      it has one, and the commit it points at when it is direct. */
  datatype HeadRef = HeadRef(isBranch: bool, shorthand: Option<string>, target: Option<Oid>)

  predicate IsReleaseBranch(name: string) { name == "main" || name == "master" }

  predicate OnNamedBranch(head: HeadRef) { head.isBranch && head.shorthand.Some? }

  /** Whether `main` asks before going on: on a named branch, not a dry run,
      and a bump given, whatever the branch is called. */
  predicate AsksConfirmation(head: HeadRef, args: CliArgs)
  {
    OnNamedBranch(head) && !args.dryRun && args.bump.Some?
  }

  /** `in_master`: cleared only on a named branch other than main/master. */
  predicate InMaster(head: HeadRef)
  {
    !(OnNamedBranch(head) && !IsReleaseBranch(head.shorthand.value))
  }

  /** The note printed, before the report, on a named branch other than
      main/master (without its terminal colouring). */
  function BranchNote(head: HeadRef): string
  {
    if InMaster(head) then ""
    else "Note: You are on branch '" + head.shorthand.value + "', not 'main' or 'master'!\n\n"
  }

  /** The block shown after the latest-tag header: the release block for a
      bump on main/master (or off any named branch), nothing for a bump on
      another branch, the commit listing without a bump. */
  function BlockText(newVersion: Option<Version>, inMaster: bool, lines: seq<string>): string
  {
    match newVersion
    case None => CommitListing(lines)
    case Some(nv) => if inMaster then ReleaseBlock(nv, lines) else ""
  }

  /** How a run ends. */
  datatype Run =
    | Failed(msg: string)
    | Aborted
    | NoTags
    | Reported(tag: TagObject, version: Version, newVersion: Option<Version>, lines: seq<string>, output: string)

  /** The repository path resolves and a repository opens there. */
  predicate Opened(args: CliArgs, curdir: string, existing: set<string>, repositories: set<string>)
  {
    var path := ResolvePath(args.path, curdir, existing);
    path.Ok? && path.value in repositories
  }

  /** The run gets past the branch check: HEAD is readable and, if asked,
      the user confirmed. */
  predicate PastBranchCheck(args: CliArgs, head: Result<HeadRef>, answers: seq<string>)
  {
    head.Ok? && (AsksConfirmation(head.value, args) ==> Confirmed(answers))
  }

  /** The run gets past the fetch step: skipped, or succeeded. */
  predicate PastFetch(args: CliArgs, fetch: Result<()>)
  {
    args.noFetch || fetch.Ok?
  }

  /** The run reaches the tag selection: the repository opened, the branch
      check and the fetch step were passed. */
  predicate ReachesSelection(args: CliArgs, curdir: string, existing: set<string>, repositories: set<string>,
                             head: Result<HeadRef>, answers: seq<string>, fetch: Result<()>)
  {
    Opened(args, curdir, existing, repositories) && PastBranchCheck(args, head, answers) && PastFetch(args, fetch)
  }

  /** The branch check of `main`: on a named branch, ask before a real bump.
      The run goes on unless the question was asked and declined. */
  method BranchCheck(args: CliArgs, head: HeadRef, answers: seq<string>) returns (proceed: bool, asked: bool)
    ensures asked <==> AsksConfirmation(head, args)
    ensures proceed <==> (asked ==> Confirmed(answers))
  {
    proceed, asked := true, false;
    if head.isBranch {
      if head.shorthand.Some? {
        if !args.dryRun && args.bump.Some? {
          asked := true;
          var used;
          proceed, used := ConfirmContinue(answers);
        }
      }
    }
  }

  /** What `main` reports once the fetch step is behind it: select the
      latest tag, bump it, collect the commits since it and render. */
  method Report(bump: Option<VersionBump>, head: HeadRef, repo: Repo, walk: Result<seq<WalkItem>>, store: CommitStore)
    returns (run: Run)
    ensures !run.Aborted?
    ensures run.NoTags? <==> Resolved(repo).None?
    ensures Resolved(repo).Some? && head.target.None? ==> run == Failed("Failed to get HEAD!")
    ensures Resolved(repo).Some? && head.target.Some? && walk.Err? ==> run == Failed(walk.msg)
    ensures run.Reported? <==> Resolved(repo).Some? && head.target.Some? && walk.Ok?
    ensures run.Reported? ==>
      && Resolved(repo) == Some((run.tag, run.version))
      && run.newVersion == (match bump case None => None case Some(b) => Some(Bumped(run.version, b)))
      && run.lines == CommitLines(Collected(walk.value, store))
      && run.output == BranchNote(head) + LatestHeader(run.tag.id, run.version)
                       + BlockText(run.newVersion, InMaster(head), run.lines)
  {
    var latest := LatestTag(repo);
    if latest.None? {
      return NoTags;
    }
    var (tag, version) := latest.value;
    var newVersion: Option<Version> := None;
    if bump.Some? {
      var nv := BumpVersion(version, bump.value);
      newVersion := Some(nv);
    }
    var commits := CommitsBetween(head.target, walk, store);
    if commits.Err? {
      return Failed(commits.msg);
    }
    var lines := CommitLines(commits.value);
    var inMaster := true;
    var output := "";
    if head.isBranch {
      if head.shorthand.Some? {
        if !IsReleaseBranch(head.shorthand.value) {
          output := "Note: You are on branch '" + head.shorthand.value + "', not 'main' or 'master'!\n\n";
          inMaster := false;
        }
      }
    }
    output := output + LatestHeader(tag.id, version);
    if newVersion.Some? {
      if inMaster {
        output := output + ReleaseBlock(newVersion.value, lines);
      }
    } else {
      output := output + CommitListing(lines);
    }
    return Reported(tag, version, newVersion, lines, output);
  }

  /** The run of `main`. `repositories` are the paths where a repository
      opens; `repo`, `walk` and `store` describe the repository as it is after
      the fetch step. `asked` tells whether the confirmation was asked. */
  method ReleaseRun(
    args: CliArgs, curdir: string, existing: set<string>, repositories: set<string>,
    head: Result<HeadRef>, answers: seq<string>, fetch: Result<()>,
    repo: Repo, walk: Result<seq<WalkItem>>, store: CommitStore)
    returns (run: Run, asked: bool)
    ensures var path := ResolvePath(args.path, curdir, existing);
      path.Err? ==> run == Failed(path.msg)
    ensures var path := ResolvePath(args.path, curdir, existing);
      path.Ok? && path.value !in repositories ==> run == Failed("Repository not found in: " + path.value)
    ensures Opened(args, curdir, existing, repositories) && head.Err? ==> run == Failed(head.msg)
    ensures asked <==> Opened(args, curdir, existing, repositories) && head.Ok? && AsksConfirmation(head.value, args)
    ensures run.Aborted? <==> asked && !Confirmed(answers)
    ensures Opened(args, curdir, existing, repositories) && PastBranchCheck(args, head, answers) && !PastFetch(args, fetch)
      ==> run == Failed(fetch.msg)
    ensures ReachesSelection(args, curdir, existing, repositories, head, answers, fetch)
      ==> (run.NoTags? <==> Resolved(repo).None?)
    ensures run.NoTags? ==> Resolved(repo).None?
    ensures ReachesSelection(args, curdir, existing, repositories, head, answers, fetch)
      && Resolved(repo).Some? && head.value.target.None?
      ==> run == Failed("Failed to get HEAD!")
    ensures ReachesSelection(args, curdir, existing, repositories, head, answers, fetch)
      && Resolved(repo).Some? && head.value.target.Some? && walk.Err?
      ==> run == Failed(walk.msg)
    ensures run.Reported? <==>
      ReachesSelection(args, curdir, existing, repositories, head, answers, fetch)
      && Resolved(repo).Some? && head.value.target.Some? && walk.Ok?
    ensures run.Reported? ==>
      && Resolved(repo) == Some((run.tag, run.version))
      && run.newVersion == (match args.bump case None => None case Some(b) => Some(Bumped(run.version, b)))
      && run.lines == CommitLines(Collected(walk.value, store))
      && run.output == BranchNote(head.value) + LatestHeader(run.tag.id, run.version)
                       + BlockText(run.newVersion, InMaster(head.value), run.lines)
  {
    asked := false;
    var path := ResolvePath(args.path, curdir, existing);
    if path.Err? {
      return Failed(path.msg), asked;
    }
    if path.value !in repositories {
      return Failed("Repository not found in: " + path.value), asked;
    }
    if head.Err? {
      return Failed(head.msg), asked;
    }
    var headRef := head.value;
    var proceed;
    proceed, asked := BranchCheck(args, headRef, answers);
    if !proceed {
      return Aborted, asked;
    }
    if !args.noFetch && fetch.Err? {
      return Failed(fetch.msg), asked;
    }
    run := Report(args.bump, headRef, repo, walk, store);
  }

  /** The gating between the two branch checks: a confirmed bump on a
      branch other than main/master shows no release block; on main/master
      the confirmation is still asked and the block is shown; the release
      block needs both a bump and `in_master`. */
  lemma GatingFacts(args: CliArgs, head: HeadRef, lines: seq<string>)
    ensures AsksConfirmation(head, args) && !IsReleaseBranch(head.shorthand.value) ==>
      forall nv :: BlockText(Some(nv), InMaster(head), lines) == ""
    ensures OnNamedBranch(head) && IsReleaseBranch(head.shorthand.value) && !args.dryRun && args.bump.Some? ==>
      AsksConfirmation(head, args) && InMaster(head)
    ensures !OnNamedBranch(head) ==> InMaster(head) && !AsksConfirmation(head, args)
    ensures forall nv: Version, inMaster: bool ::
      BlockText(Some(nv), inMaster, lines) != "" <==> inMaster
  {
    forall nv: Version, inMaster: bool
      ensures BlockText(Some(nv), inMaster, lines) != "" <==> inMaster
    {
      var b := ReleaseBlock(nv, lines);
      assert b[..13] == "New version: ";
    }
  }

  /** The tag names of single-digit versions, written out. */
  lemma SmallTagNames()
    ensures ToVString(Version(1, 0, 0, "")) == "v1.0.0"
    ensures ToVString(Version(2, 0, 0, "")) == "v2.0.0"
    ensures ToVString(Version(1, 2, 0, "")) == "v1.2.0"
    ensures ToVString(Version(1, 3, 0, "")) == "v1.3.0"
  {
  }

  lemma NightlyIsNoVersion()
    ensures ParseTagName("nightly-build") == None
  {
  }

  /** Two tags in ascending order followed by a name that is no version:
      the second tag wins. */
  lemma ScanPicksLater(v1: Version, v2: Version, other: string)
    requires WellFormed(v1) && WellFormed(v2) && Less(v1, v2)
    requires ParseTagName(other) == None
    ensures Scan([Some(ToVString(v1)), Some(ToVString(v2)), Some(other)]) == Some((v2, ToVString(v2)))
  {
    var n1, n2 := ToVString(v1), ToVString(v2);
    TwoCandidates(v1, v2);
    AcceptedSingle(ParseTagName, Some(other));
    AcceptedAppend(ParseTagName, [Some(n1), Some(n2)], [Some(other)]);
    assert [Some(n1), Some(n2)] + [Some(other)] == [Some(n1), Some(n2), Some(other)];
    var cs := [(v1, n1), (v2, n2)];
    assert cs + [] == cs;
    assert Best(cs[..1]) == Some((v1, n1)) by {
      assert cs[..1][..0] == [];
    }
  }

  /** The tag names of two well-formed versions are both candidates, in
      listing order. */
  lemma TwoCandidates(v1: Version, v2: Version)
    requires WellFormed(v1) && WellFormed(v2)
    ensures Candidates([Some(ToVString(v1)), Some(ToVString(v2))]) == [(v1, ToVString(v1)), (v2, ToVString(v2))]
  {
    var n1, n2 := ToVString(v1), ToVString(v2);
    VStringIsCandidate(v1);
    VStringIsCandidate(v2);
    AcceptedAppend(ParseTagName, [Some(n1)], [Some(n2)]);
    assert [Some(n1)] + [Some(n2)] == [Some(n1), Some(n2)];
  }

  /** Tags v1.2.0, v1.3.0 and nightly-build: the scan picks v1.3.0 and a
      minor bump gives 1.4.0. */
  lemma ScenarioMinorBump()
    ensures Scan([Some("v1.2.0"), Some("v1.3.0"), Some("nightly-build")]) == Some((Version(1, 3, 0, ""), "v1.3.0"))
    ensures Bumped(Version(1, 3, 0, ""), Minor) == Version(1, 4, 0, "")
  {
    NightlyIsNoVersion();
    ScanPicksLater(Version(1, 2, 0, ""), Version(1, 3, 0, ""), "nightly-build");
    SmallTagNames();
  }

  /** The higher of two tags is lightweight: nothing is returned, although
      the lower one is annotated. */
  lemma NoFallbackToLower(v1: Version, v2: Version, t: TagObject, c: Oid)
    requires WellFormed(v1) && WellFormed(v2) && Less(v1, v2)
    ensures Resolved(Repo(Some([Some(ToVString(v1)), Some(ToVString(v2))]),
                          map[ToVString(v1) := Annotated(t), ToVString(v2) := Lightweight(c)])) == None
  {
    var n1, n2 := ToVString(v1), ToVString(v2);
    TwoCandidates(v1, v2);
    var cs := [(v1, n1), (v2, n2)];
    assert Best(cs[..1]) == Some((v1, n1)) by {
      assert cs[..1][..0] == [];
    }
    assert Scan([Some(n1), Some(n2)]) == Some((v2, n2));
  }

  /** Annotated v1.0.0 and lightweight v2.0.0: no tag is selected. */
  lemma ScenarioNoFallback(t: TagObject, c: Oid)
    ensures Resolved(Repo(Some([Some("v1.0.0"), Some("v2.0.0")]),
                          map["v1.0.0" := Annotated(t), "v2.0.0" := Lightweight(c)])) == None
  {
    NoFallbackToLower(Version(1, 0, 0, ""), Version(2, 0, 0, ""), t, c);
    SmallTagNames();
  }

  /** A walk whose every item fails or names a commit that cannot be read
      (the empty walk among them) keeps no commit: there are no lines, the
      changelog of the release block is empty, and the listing is only its
      heading. */
  lemma ScenarioNoCommits(nv: Version, items: seq<WalkItem>, store: CommitStore)
    requires forall i :: 0 <= i < |items| ==> items[i].WalkFailed? || items[i].oid !in store
    ensures Collected(items, store) == []
    ensures CommitLines(Collected(items, store)) == []
    ensures var block := ReleaseBlock(nv, CommitLines(Collected(items, store)));
      block[|block| - 12..] == "Changelog:\"\n"
    ensures CommitListing(CommitLines(Collected(items, store))) == "Commits:\n"
  {
    var cs := Collected(items, store);
    CollectedMembers(items, store);
    assert forall c :: c !in cs;
    EmptyChangelog(nv, []);
  }
}
