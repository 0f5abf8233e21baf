/** The command-line arguments the release logic reads, the bump kinds, and
    the resolution of the repository path argument. Paths are Unix path
    strings; the current directory and the set of paths that exist on disk are
    parameters. */
module Args {
  import opened Outcomes

  /** The three bump kinds a release can ask for. */
  datatype VersionBump = Patch | Minor | Major

  /** The arguments the release flow reads: the optional bump, the dry-run
      switch, the repository path (default ".") and the no-fetch switch. */
  datatype CliArgs = CliArgs(bump: Option<VersionBump>, dryRun: bool, path: string, noFetch: bool)

  /** `Path::is_absolute` on Unix: the path starts at the root. */
  predicate IsAbsolute(p: string) { |p| > 0 && p[0] == '/' }

  /** `PathBuf::join` of a relative path: a separator is inserted unless the
      base already ends with one. */
  function Join(base: string, rel: string): (r: string)
    requires !IsAbsolute(rel)
  {
    if base != [] && base[|base| - 1] != '/' then base + "/" + rel else base + rel
  }

  /** The path `CliArgs::path` checks for existence. */
  function Candidate(arg: string, curdir: string): string
  {
    if IsAbsolute(arg) then arg else Join(curdir, arg)
  }

  /** `CliArgs::path`: "." is the current directory, unchecked; any other
      argument becomes a candidate that must exist. */
  function ResolvePath(arg: string, curdir: string, existing: set<string>): Result<string>
  {
    if arg == "." then Ok(curdir)
    else
      var candidate := Candidate(arg, curdir);
      if candidate !in existing then Err("Path " + candidate + " doesn't exist!")
      else Ok(candidate)
  }

  /** `c` is `rel` placed under `dir`: it starts with `dir` and ends with
      `rel`, with one '/' between them exactly when `dir` is non-empty and
      does not already end with one. */
  predicate JoinedUnder(c: string, dir: string, rel: string)
  {
    var sep := dir != [] && dir[|dir| - 1] != '/';
    && |c| == |dir| + |rel| + (if sep then 1 else 0)
    && c[..|dir|] == dir && c[|c| - |rel|..] == rel
    && (sep ==> c[|dir|] == '/')
  }

  /** The candidate is the argument itself when it is absolute; a relative
      argument is placed under the current directory: the candidate starts
      with the current directory and ends with the argument, with one '/'
      between them exactly when the directory is non-empty and does not
      already end with one. */
  lemma CandidateShape(arg: string, curdir: string)
    ensures IsAbsolute(arg) ==> Candidate(arg, curdir) == arg
    ensures !IsAbsolute(arg) ==> JoinedUnder(Candidate(arg, curdir), curdir, arg)
  {
    if !IsAbsolute(arg) {
      var c := Candidate(arg, curdir);
      var sep := if curdir != [] && curdir[|curdir| - 1] != '/' then "/" else "";
      assert c == curdir + sep + arg;
      assert c[..|curdir|] == curdir;
      assert c[|c| - |arg|..] == arg;
    }
  }

  /** The error message for a missing path names exactly that path between
      its fixed opening and closing words. */
  lemma NotFoundMessageNames(p: string)
    ensures var m := "Path " + p + " doesn't exist!";
      && |m| == |p| + 20
      && m[..5] == "Path " && m[|m| - 15..] == " doesn't exist!"
      && m[5..|m| - 15] == p
  {
    var m := "Path " + p + " doesn't exist!";
    assert m[5..|m| - 15] == p;
  }

  /** "." resolves to the current directory whether or not it exists. An
      absolute argument resolves to itself when it exists and otherwise fails
      with a message naming it. A relative argument resolves, when the joined
      path exists, to the argument joined under the current directory;
      otherwise the message names that joined path, which does not exist. Either way the outcome turns only on whether that one path
      exists. */
  lemma ResolvePathOutcome(arg: string, curdir: string, existing: set<string>)
    ensures arg == "." ==> ResolvePath(arg, curdir, existing) == Ok(curdir)
    ensures arg != "." && IsAbsolute(arg) ==>
      ResolvePath(arg, curdir, existing)
        == if arg in existing then Ok(arg) else Err("Path " + arg + " doesn't exist!")
    ensures arg != "." ==>
      (ResolvePath(arg, curdir, existing).Ok? <==> Candidate(arg, curdir) in existing)
    ensures var r := ResolvePath(arg, curdir, existing);
      arg != "." && !IsAbsolute(arg) && r.Ok? ==>
        && r.value in existing
        && JoinedUnder(r.value, curdir, arg)
    ensures var r := ResolvePath(arg, curdir, existing);
      arg != "." && !IsAbsolute(arg) && r.Err? ==>
        && |r.msg| >= 20 + |curdir| + |arg|
        && r.msg[..5] == "Path "
        && r.msg[|r.msg| - 15..] == " doesn't exist!"
        && var p := r.msg[5..|r.msg| - 15];
           p !in existing && JoinedUnder(p, curdir, arg)
  {
    if arg != "." && !IsAbsolute(arg) {
      var c := Candidate(arg, curdir);
      CandidateShape(arg, curdir);
      NotFoundMessageNames(c);
    }
  }

  /** Under an absolute current directory every resolved path is absolute,
      and feeding a resolved path that exists back in gives the same path. */
  lemma {:induction false} ResolvePathIdempotent(arg: string, curdir: string, existing: set<string>)
    requires IsAbsolute(curdir)
    requires ResolvePath(arg, curdir, existing).Ok?
    ensures IsAbsolute(ResolvePath(arg, curdir, existing).value)
    ensures var p := ResolvePath(arg, curdir, existing).value;
      p in existing || p == curdir
    ensures var p := ResolvePath(arg, curdir, existing).value;
      p in existing ==> ResolvePath(p, curdir, existing) == Ok(p)
  {
    if arg != "." && !IsAbsolute(arg) {
      var c := Candidate(arg, curdir);
      assert c[0] == curdir[0];
    }
  }
}
