/** Collection of the commits between the latest tag and HEAD. The revision
    walk itself (push HEAD, hide the tag's target) belongs to git and is an
    input here: the sequence of items it yields, each an id or a failure. */
module Commits {
  import opened Outcomes
  import opened Tags

  /** A commit as the changelog reads it: its id and its summary (the first
      line of the message; `None` when that is not valid UTF-8). */
  datatype Commit = Commit(id: Oid, summary: Option<string>)

  /** One item of the revision walk. */
  datatype WalkItem = Walked(oid: Oid) | WalkFailed

  /** The commits `find_commit` can read, by id, with their summary. */
  type CommitStore = map<Oid, Option<string>>

  /** The commit an item contributes: only a walked id that can be looked up. */
  function Found(item: WalkItem, store: CommitStore): Option<Commit>
  {
    match item
    case WalkFailed => None
    case Walked(oid) => if oid in store then Some(Commit(oid, store[oid])) else None
  }

  /** The commits kept from the walk, in walk order. */
  function Collected(items: seq<WalkItem>, store: CommitStore): seq<Commit>
    decreases |items|
  {
    if items == [] then []
    else
      var rest := Collected(items[..|items| - 1], store);
      match Found(items[|items| - 1], store)
      case None => rest
      case Some(c) => rest + [c]
  }

  /** Collecting distributes over concatenation of walks: the kept commits
      keep the order of the walk. */
  lemma {:induction false} CollectedAppend(a: seq<WalkItem>, b: seq<WalkItem>, store: CommitStore)
    ensures Collected(a + b, store) == Collected(a, store) + Collected(b, store)
  {
    if b == [] {
      assert a + b == a;
    } else {
      var b' := b[..|b| - 1];
      CollectedAppend(a, b', store);
      assert (a + b)[..|a + b| - 1] == a + b';
    }
  }

  /** A commit is kept exactly when some walk item is its id and the lookup
      succeeds; every kept commit has the id it was looked up by, and no more
      commits are kept than the walk yields. */
  lemma {:induction false} CollectedMembers(items: seq<WalkItem>, store: CommitStore)
    ensures |Collected(items, store)| <= |items|
    ensures forall c :: c in Collected(items, store) <==>
      exists i :: 0 <= i < |items| && Found(items[i], store) == Some(c)
    ensures forall c :: c in Collected(items, store) ==> c.id in store && c.summary == store[c.id]
  {
    if items != [] {
      var p := items[..|items| - 1];
      CollectedMembers(p, store);
      assert forall i :: 0 <= i < |p| ==> items[i] == p[i];
    }
  }

  /** A walk whose every item is a readable id is kept whole. */
  lemma {:induction false} CollectedAllFound(items: seq<WalkItem>, store: CommitStore)
    requires forall i :: 0 <= i < |items| ==> items[i].Walked? && items[i].oid in store
    ensures |Collected(items, store)| == |items|
    ensures forall i :: 0 <= i < |items| ==>
      Collected(items, store)[i] == Commit(items[i].oid, store[items[i].oid])
  {
    if items != [] {
      CollectedAllFound(items[..|items| - 1], store);
    }
  }

  /** `commits_between_tag_and_head`: fails when HEAD has no target, passes
      on a failure to set up the walk, and otherwise keeps every walked id
      that `find_commit` can read, skipping the rest. */
  method CommitsBetween(headTarget: Option<Oid>, walk: Result<seq<WalkItem>>, store: CommitStore)
    returns (r: Result<seq<Commit>>)
    ensures headTarget.None? ==> r == Err("Failed to get HEAD!")
    ensures headTarget.Some? && walk.Err? ==> r == Err(walk.msg)
    ensures headTarget.Some? && walk.Ok? ==> r == Ok(Collected(walk.value, store))
  {
    if headTarget.None? {
      return Err("Failed to get HEAD!");
    }
    if walk.Err? {
      return Err(walk.msg);
    }
    var items := walk.value;
    var commits: seq<Commit> := [];
    for i := 0 to |items|
      invariant commits == Collected(items[..i], store)
    {
      assert items[..i + 1][..i] == items[..i];
      match items[i] {
        case WalkFailed =>
          continue;
        case Walked(oid) =>
          if oid in store {
            commits := commits + [Commit(oid, store[oid])];
          }
      }
    }
    assert items[..|items|] == items;
    return Ok(commits);
  }
}
