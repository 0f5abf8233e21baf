/** The text the release run writes: one line per commit, and the blocks
    built from those lines. */
module Format {
  import opened Outcomes
  import opened SemVer
  import opened VString
  import opened Tags
  import opened Commits

  /** The first seven characters of an id, or all of it when shorter. */
  function ShortId(id: Oid): string
  {
    if |id| <= 7 then id else id[..7]
  }

  /** `summary().unwrap_or_default()`. */
  function SummaryText(summary: Option<string>): string
  {
    match summary
    case None => ""
    case Some(s) => s
  }

  /** "<first 7 characters of the id> <summary>". */
  function CommitLine(c: Commit): string
  {
    ShortId(c.id) + " " + SummaryText(c.summary)
  }

  /** A commit line is the id prefix of length min(7, |id|), one space, and
      the summary (empty when there is none). */
  lemma CommitLineParts(c: Commit)
    ensures var k := if |c.id| <= 7 then |c.id| else 7;
      var line := CommitLine(c);
      && |line| == k + 1 + |SummaryText(c.summary)|
      && line[..k] == c.id[..k]
      && line[k] == ' '
      && line[k + 1..] == SummaryText(c.summary)
  {
  }

  /** For full-length ids the line determines the id's first seven
      characters and the summary text. */
  lemma CommitLineDetermines(c1: Commit, c2: Commit)
    requires |c1.id| >= 7 && |c2.id| >= 7
    requires CommitLine(c1) == CommitLine(c2)
    ensures c1.id[..7] == c2.id[..7]
    ensures SummaryText(c1.summary) == SummaryText(c2.summary)
  {
    CommitLineParts(c1);
    CommitLineParts(c2);
  }

  /** The lines of a commit list, in the list's order. */
  function CommitLines(commits: seq<Commit>): seq<string>
  {
    if commits == [] then [] else [CommitLine(commits[0])] + CommitLines(commits[1..])
  }

  lemma {:induction false} CommitLinesAt(commits: seq<Commit>)
    ensures |CommitLines(commits)| == |commits|
    ensures forall i :: 0 <= i < |commits| ==> CommitLines(commits)[i] == CommitLine(commits[i])
  {
    if commits != [] {
      CommitLinesAt(commits[1..]);
    }
  }

  /** The changelog entries: "\n- <line>" for each line. */
  function ChangelogEntries(lines: seq<string>): string
  {
    if lines == [] then "" else "\n- " + lines[0] + ChangelogEntries(lines[1..])
  }

  /** The listing shown when no bump is asked for: "  <line>\n" for each. */
  function ListingEntries(lines: seq<string>): string
  {
    if lines == [] then "" else "  " + lines[0] + "\n" + ListingEntries(lines[1..])
  }

  /** Entries of consecutive line lists follow each other: the text keeps
      the commit order. */
  lemma {:induction false} ChangelogEntriesAppend(a: seq<string>, b: seq<string>)
    ensures ChangelogEntries(a + b) == ChangelogEntries(a) + ChangelogEntries(b)
  {
    if a != [] {
      assert (a + b)[1..] == a[1..] + b;
      ChangelogEntriesAppend(a[1..], b);
    } else {
      assert a + b == b;
    }
  }

  lemma {:induction false} ListingEntriesAppend(a: seq<string>, b: seq<string>)
    ensures ListingEntries(a + b) == ListingEntries(a) + ListingEntries(b)
  {
    if a != [] {
      assert (a + b)[1..] == a[1..] + b;
      ListingEntriesAppend(a[1..], b);
    } else {
      assert a + b == b;
    }
  }

  /** The block shown for a bump: the new version, the tag command and the
      changelog. */
  function ReleaseBlock(newVersion: Version, lines: seq<string>): string
  {
    var tag := ToVString(newVersion);
    "New version: " + tag + "\n\n"
    + "Command: \ngit tag -a " + tag + " -s -m \"Release " + tag + "\n\n"
    + "Changelog:" + ChangelogEntries(lines) + "\"\n"
  }

  /** The block shown without a bump: the commit listing. */
  function CommitListing(lines: seq<string>): string
  {
    "Commits:\n" + ListingEntries(lines)
  }

  /** The header shown for the latest tag. */
  function LatestHeader(tagId: Oid, version: Version): string
  {
    "Latest tag:\n  SHA: " + tagId + "\n" + "  Version: " + ToVString(version) + "\n\n"
  }

  /** The changelog is empty exactly when there are no commits; the block
      then ends with "Changelog:" and the closing quote, with no placeholder. */
  lemma EmptyChangelog(newVersion: Version, lines: seq<string>)
    ensures lines == [] <==> ChangelogEntries(lines) == ""
    ensures var block := ReleaseBlock(newVersion, lines);
      lines == [] ==> block[|block| - 12..] == "Changelog:\"\n"
  {
  }
}
