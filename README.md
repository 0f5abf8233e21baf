# tagge_rs release resolution, modelled in Dafny

tagge_rs is a command-line helper that proposes the next release tag of a git
repository. It resolves the repository path, checks which branch HEAD is on,
and asks for confirmation before a real bump on a named branch. It optionally
fetches, then:

- takes the tag name with the highest version, once its leading `v`s are
  stripped, among the names that parse as a semantic version, and uses it
  only when that tag is annotated;
- bumps that version by the requested part;
- collects the commits between the tag and HEAD;
- prints the latest tag, followed by:
  - with no bump, the plain commit listing;
  - with a bump, on main/master or off any named branch, the release block
    (new version, `git tag` command, changelog);
  - with a bump on any other branch, dry run included, nothing more.

This project models that core:

| file | module | models |
|---|---|---|
| `outcomes.dfy` | `Outcomes` | `Option` and `Result` |
| `semver.dfy` | `SemVer` | the version value: a numeric triple with a carried pre-release/build part, its order, its display and a parser standing in for `semver::Version::parse` |
| `args.dfy` | `Args` | `VersionBump`, the parsed arguments and `CliArgs::path` |
| `tags.dfy` | `Tags` | `latest_tag`: the scan loop, the tie rule and the annotated-tag lookup |
| `version.dfy` | `VString` | `to_v_string` and its round trip with tag-name parsing |
| `bump.dfy` | `Bumping` | `bump_version` |
| `commits.dfy` | `Commits` | the collection loop of `commits_between_tag_and_head` |
| `format.dfy` | `Format` | the commit line and the printed blocks |
| `confirm.dfy` | `Confirm` | `confirm_continue` as a loop over the lines typed at the prompt |
| `release.dfy` | `Release` | `main`: gating, order of steps and what is reported |

The loops of the source are methods, each proved equal to a specification
function:

- `Tags.LatestTag` against `Tags.Resolved`;
- `Commits.CommitsBetween` against `Commits.Collected`;
- `Confirm.ConfirmContinue` against `Confirm.Confirmed`.

`bump_version`, which updates the fields of a clone, is a method proved
against `Bumping.Bumped`. The properties the code promises are lemmas about
those functions.

The model has no access to the outside world; these are inputs instead:

- the current directory and the set of existing paths;
- the paths where a repository opens;
- HEAD;
- the outcome of the fetch;
- the repository's tag names and what each `refs/tags/<name>` resolves to;
- the revision walk as a sequence of items;
- the commit lookup as a map;
- the answer lines typed at the prompt.

Behaviour worth noting:

- every leading `v` is stripped from a tag name (`trim_start_matches`), not
  just one;
- confirmation is asked on any named branch, main and master included, when
  the run is not a dry run and a bump is given;
- an empty changelog prints nothing between `Changelog:` and the closing
  quote;
- when the highest tag is lightweight or does not resolve, there is no
  fallback to a lower annotated tag.
- a bump asked for on a branch other than main/master prints no release
  block and no commit listing, even after the user confirmed it: only the
  branch note and the latest-tag header are shown.

## Model

| member | source | states |
|---|---|---|
| SemVer.ParseDisplay | src/version.rs:7-11 | parsing the display of a well-formed version gives that version back |
| SemVer.DisplayParse | src/main.rs:184 | a string the parser accepts is exactly the display of the version it yields, and that version is well-formed: fields within u64, extra part empty or starting with '-' or '+' |
| Args.CandidateShape | src/args.rs:59-64 | an absolute path is the candidate unchanged; a relative one is the current directory followed by the path, with one '/' between them exactly when the directory is non-empty and does not already end with '/' |
| Args.ResolvePathOutcome | src/args.rs:53-74 | "." gives the current directory without an existence check; an absolute path gives itself when it exists and otherwise the error "Path <path> doesn't exist!"; a relative path resolves, exactly when the joined path exists, to that path (the current directory, one '/' unless it is empty or already ends with one, then the argument); otherwise the error message names that joined path, which does not exist |
| Args.ResolvePathIdempotent | src/args.rs:53-74 | with an absolute current directory, a resolved path is absolute, exists or is the current directory, and an existing one resolves to itself |
| Tags.TrimLeadingVShape | src/main.rs:183 | the trimmed name is a suffix of the name, does not start with 'v', and everything cut off is 'v' |
| Tags.TrimLeadingVPrefix | src/main.rs:183 | any number of leading 'v's are all removed, so "vv1.2.3" stands for 1.2.3 |
| Tags.AcceptedAppend | src/main.rs:182-184 | the parsed names of two consecutive lists are those of the first followed by those of the second: listing order is kept |
| Tags.AcceptedMembers | src/main.rs:182-184 | a (version, name) pair is taken exactly when the name is listed and the parser gives that version |
| Tags.AcceptedOrigin | src/main.rs:182-184 | each taken pair comes from a listed name, and the pairs before it are exactly those taken from the names before that one |
| Tags.CandidatesMembers | src/main.rs:182-184 | a candidate of the scan is a listed name whose 'v'-stripped form parses, with that version |
| Tags.BestIsFirstMaximum | src/main.rs:180-190 | the running best is none exactly when there is no candidate, and otherwise is the first candidate whose version is at least every other and strictly above all earlier ones |
| Tags.FirstMaximumUnique | src/main.rs:185-187 | the tie rule admits exactly one winner |
| Tags.ScanIsMaximum | src/main.rs:182-190 | the scan finds a version whenever some listed name parses, and that version is at least every such name's version |
| Tags.ScanFirstEncountered | src/main.rs:185-187 | the winning name is listed, parses to the winning version, and every parsing name listed before it has a strictly smaller version: among equal versions the first name wins |
| Tags.ScanIgnoresUnparsed | src/main.rs:184 | a name that does not parse can be removed from anywhere in the list without changing the scan's result |
| Tags.ResolvedIsLatest | src/main.rs:191-198 | a returned tag is the annotated tag of the first maximal candidate, and its version is at least every candidate's |
| Tags.ResolvedNoneIff | src/main.rs:179-198 | nothing is returned exactly when listing fails, no name parses, the winner does not resolve, or the winner is lightweight: there is no fallback |
| Tags.LatestTag | src/main.rs:178-199 | the scan loop followed by the lookup returns exactly the resolved latest tag |
| VString.ToVString | src/version.rs:7-11 | the tag name is one character longer than the display, starts with 'v', and its second character is not 'v' |
| VString.VStringRoundTrip | src/version.rs:7-11 | stripping the leading 'v's of a tag name gives back the display, and parsing it as a tag name gives back the version |
| VString.VStringInjective | src/version.rs:7-11 | distinct well-formed versions give distinct tag names |
| VString.VStringIsCandidate | src/version.rs:7-11 | a tag name written from a version is a scan candidate carrying that version |
| Bumping.Bumped | src/main.rs:201-218 | the bumped version is strictly greater than the old one and keeps its pre-release/build part |
| Bumping.BumpIsLeast | src/main.rs:201-218 | the bumped version is the least version above the old one that changes the bumped part (major for Major; major or minor for Minor) |
| Bumping.BumpVersion | src/main.rs:201-218 | Major gives (M+1, 0, 0), Minor gives (M, m+1, 0), Patch gives (M, m, p+1); the result equals Bumped |
| Commits.CollectedAppend | src/main.rs:235-241 | the commits of a walk are those of its first part followed by those of the rest: walk order is kept |
| Commits.CollectedMembers | src/main.rs:235-241 | no more commits than walk items; a commit is collected exactly when some walk item finds it; each carries the summary the lookup gives |
| Commits.CollectedAllFound | src/main.rs:235-241 | when every item walks and is found, every item yields its commit in place |
| Commits.CommitsBetween | src/main.rs:220-243 | a HEAD without a target fails with "Failed to get HEAD!", a walk that cannot start fails with its error, otherwise the loop returns the collected commits |
| Format.CommitLineParts | src/main.rs:76-83 | a commit line is the first min(7, length) characters of the id, one space, then the summary or nothing |
| Format.CommitLineDetermines | src/main.rs:76-83 | for ids of seven or more characters, equal lines mean equal id prefixes and equal summaries |
| Format.CommitLinesAt | src/main.rs:76-83 | one line per commit, in commit order |
| Format.ChangelogEntriesAppend | src/main.rs:110-113 | changelog entries follow the order of the lines |
| Format.ListingEntriesAppend | src/main.rs:117-120 | listing entries follow the order of the lines |
| Format.EmptyChangelog | src/main.rs:106-115 | the changelog is empty exactly when there are no commits; the release block then ends with `Changelog:"` and a newline |
| Confirm.TrimStartShape | src/main.rs:254 | the start-trimmed text is a suffix with no leading whitespace; everything cut is whitespace |
| Confirm.TrimEndShape | src/main.rs:254 | the end-trimmed text is a prefix with no trailing whitespace; everything cut is whitespace |
| Confirm.TrimShape | src/main.rs:254 | the trimmed answer is a slice of the input with no whitespace at either end, and only whitespace is cut away |
| Confirm.TrimIgnoresPadding | src/main.rs:254 | whitespace added around an answer does not change its trim |
| Confirm.ClassifyIgnoresPadding | src/main.rs:254-262 | whitespace around an answer never changes whether it accepts, declines or asks again |
| Confirm.ClassifyExamples | src/main.rs:254-262 | "y" and " YES" accept; an empty line and "No" decline; "maybe" asks again |
| Confirm.ConfirmedIff | src/main.rs:247-264 | the exchange accepts exactly when some line accepts and every line before it asks again |
| Confirm.ConfirmContinue | src/main.rs:245-264 | the loop's answer equals Confirmed; the lines it consumed all asked again except the last, which decided, or the input ran out |
| Release.BranchCheck | src/main.rs:34-55 | confirmation is asked exactly on a named branch, without a dry run, with a bump given, main and master included; the run goes on unless it was asked and declined |
| Release.GatingFacts | src/main.rs:34-115 | a confirmed bump on a branch other than main/master prints no release block; on main/master the confirmation is asked and the block printed; off a named branch nothing is asked and `in_master` holds; a bump prints the block exactly when `in_master` holds |
| Release.Report | src/main.rs:61-121 | no tags found exactly when no tag resolves; otherwise HEAD and walk errors end the run; a report carries the resolved tag, the bumped version, the commit lines in order and the printed text |
| Release.ReleaseRun | src/main.rs:22-124 | each error ends the run with its message in the order path, repository, HEAD, fetch, HEAD target, walk; a declined confirmation aborts; otherwise the run reports as Report does |
| Release.SmallTagNames | src/version.rs:7-11 | the tag names of 1.0.0, 2.0.0, 1.2.0 and 1.3.0 are "v1.0.0", "v2.0.0", "v1.2.0" and "v1.3.0" |
| Release.NightlyIsNoVersion | src/main.rs:183-184 | "nightly-build" does not parse as a version |
| Release.TwoCandidates | src/main.rs:182-184 | the tag names of two versions, listed in order, are two candidates in that order |
| Release.ScanPicksLater | src/main.rs:182-190 | with a lower tag, a higher one and an unparsable name, the higher tag wins |
| Release.ScenarioMinorBump | src/main.rs:178-218 | with tags v1.2.0, v1.3.0 and nightly-build, v1.3.0 is picked and a minor bump gives 1.4.0 |
| Release.NoFallbackToLower | src/main.rs:191-198 | when the higher tag is lightweight and the lower one annotated, nothing is returned |
| Release.ScenarioNoFallback | src/main.rs:191-198 | annotated v1.0.0 and lightweight v2.0.0 give no tag |
| Release.ScenarioNoCommits | src/main.rs:106-120 | a walk whose items all fail or name unreadable commits (the empty walk among them) keeps no commit: no lines, an empty changelog in the release block, and a listing that is only its heading |

## Left out

- Network fetch and SSH credentials (`git_fetch`, `make_ssh_callbacks`): the fetch is an input `Result`, and the repository inputs describe the state after it.
- Opening the repository (`repository_from_path`): an input set of paths where a repository opens. Its `Err` message for a missing repository is modelled as "Repository not found in: <path>". Source line src/main.rs:30 passes the `Result` of `path()` where a path is expected; the model reads this as ending the run with the path error.
- HEAD is read twice in `main` (src/main.rs:33 and 85) and once more inside `commits_between_tag_and_head`. The model reads it once and uses the same value throughout; a HEAD that changes between reads is not modelled.
- The revision walk's reachability and order (push HEAD, hide the tag's target) belong to git2. The walk is a given sequence of items; a failure to set it up is an `Err` input.
- `Repository::tag_names`, `revparse_single` and `peel_to_tag` are a map from tag name to annotated or lightweight target. A name absent from the map does not resolve.
- Terminal I/O is not modelled:
  - the prompt text and the "Aborted!" and "No tags found!" messages;
  - the branch note printed before the prompt (the identical note printed before the report is part of the report's text);
  - terminal colours;
  - flushing and the panics of `expect`;
  - the `debug` switch and the `tracing` setup it enables.
- End of input at the prompt is read as an empty line, which declines.
- Argument parsing with clap; arguments that `main` never reads (`use_pr`, `use_sha`, `gh_token`, `tag`, `suffix`).
- `std::env::current_dir` and `Path::exists` are parameters. `PathBuf::join` is modelled as string joining, with one '/' inserted unless the directory is empty or already ends with one, and no normalisation of the result.
- `trim` and `to_lowercase` are modelled on ASCII: whitespace is space and tab through carriage return, and only 'A' to 'Z' are lowered. Unicode whitespace and case mapping are left out.
- The semver crate's full grammar and pre-release precedence are left out. The parser accepts three canonical decimal fields within u64, separated by '.', followed by an optional part starting with '-' or '+' that is carried unchecked. Versions are ordered by their numeric triple only, so two tags differing only in that part tie and the first listed wins.
- Bumping.Bumped: integers are unbounded, so the overflow of `+= 1` on a field equal to u64::MAX is not modelled.
- Bumping.BumpVersion: for the same reason, the overflow of `+= 1` on a field equal to u64::MAX is not modelled.
- Pull-request enrichment, tag signing and concurrent fetching do not appear in the modelled code.
