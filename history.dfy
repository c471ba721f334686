/** Walking the stored commits: the first-parent history printed by `log`, the
    short-id lookup, and the search by message of `find`. */
module History {
  import opened Common
  import opened Commits

  /** Every commit is stored under its own id, its parent is stored too, and a
      ghost rank strictly decreases along parent links, so history is finite. */
  ghost predicate Linked(commits: map<string, Commit>, rank: map<string, nat>) {
    forall k :: k in commits ==>
      && commits[k].hash == k
      && k in rank
      && (commits[k].parent.Some? ==>
            && commits[k].parent.value in commits
            && commits[k].parent.value in rank
            && rank[commits[k].parent.value] < rank[k])
  }

  /** `log`: the commits from `from` back to the root, newest first, each entry
      the parent of the one before it. */
  method Log(commits: map<string, Commit>, ghost rank: map<string, nat>, from: string)
    returns (entries: seq<Commit>)
    requires Linked(commits, rank) && from in commits
    ensures |entries| > 0 && entries[0] == commits[from]
    ensures forall i :: 0 <= i < |entries| ==> entries[i].hash in commits && commits[entries[i].hash] == entries[i]
    ensures forall i :: 0 <= i < |entries| - 1 ==> entries[i].parent == Some(entries[i + 1].hash)
    ensures entries[|entries| - 1].parent == None
  {
    var c := commits[from];
    entries := [c];
    while c.parent.Some?
      invariant c.hash in commits && commits[c.hash] == c
      invariant |entries| > 0 && entries[0] == commits[from] && entries[|entries| - 1] == c
      invariant forall i :: 0 <= i < |entries| ==> entries[i].hash in commits && commits[entries[i].hash] == entries[i]
      invariant forall i :: 0 <= i < |entries| - 1 ==> entries[i].parent == Some(entries[i + 1].hash)
      decreases rank[c.hash]
    {
      c := commits[c.parent.value];
      entries := entries + [c];
    }
  }

  /** The listing of the commit directory: each stored id exactly once, in some order. */
  ghost predicate Lists(ids: seq<string>, commits: map<string, Commit>) {
    && (forall i :: 0 <= i < |ids| ==> ids[i] in commits)
    && (forall k :: k in commits ==> k in ids)
    && (forall i, j :: 0 <= i < j < |ids| ==> ids[i] != ids[j])
  }

  /** The first commit file name (an id followed by ".txt") in listing order
      that starts with prefix. */
  function FirstWithPrefix(prefix: string, ids: seq<string>): (r: Option<string>)
    ensures r.Some? ==>
      exists i :: 0 <= i < |ids| && r.value == ids[i] + FileSuffix && IsPrefix(prefix, r.value)
        && forall j :: 0 <= j < i ==> !IsPrefix(prefix, ids[j] + FileSuffix)
    ensures r.None? ==> forall i :: 0 <= i < |ids| ==> !IsPrefix(prefix, ids[i] + FileSuffix)
  {
    if ids == [] then None
    else if IsPrefix(prefix, ids[0] + FileSuffix) then Some(ids[0] + FileSuffix)
    else
      var r := FirstWithPrefix(prefix, ids[1..]);
      assert forall i :: 1 <= i < |ids| ==> ids[i] == ids[1..][i - 1];
      r
  }

  /** `getShortID`: scans the listing and returns the first file name that
      starts with the prefix, suffix included. */
  method GetShortId(prefix: string, ids: seq<string>) returns (r: Option<string>)
    ensures r == FirstWithPrefix(prefix, ids)
  {
    var i := 0;
    while i < |ids|
      invariant 0 <= i <= |ids|
      invariant FirstWithPrefix(prefix, ids[i..]) == FirstWithPrefix(prefix, ids)
    {
      var name := ids[i] + FileSuffix;
      if IsPrefix(prefix, name) {
        return Some(name);
      }
      assert ids[i..][1..] == ids[i + 1..];
      i := i + 1;
    }
    return None;
  }

  /** The ids in the listing whose commit carries the message, in listing order. */
  function Matching(commits: map<string, Commit>, ids: seq<string>, message: string): (r: seq<string>)
    ensures |r| <= |ids|
    ensures forall id :: id in r <==> id in ids && id in commits && commits[id].log == message
  {
    if ids == [] then []
    else
      var last := ids[|ids| - 1];
      var init := ids[..|ids| - 1];
      assert ids == init + [last];
      Matching(commits, init, message) + (if last in commits && commits[last].log == message then [last] else [])
  }

  /** One more listed id extends the matches by that id or by nothing. */
  lemma MatchingStep(commits: map<string, Commit>, ids: seq<string>, i: nat, message: string)
    requires i < |ids| && ids[i] in commits
    ensures Matching(commits, ids[..i + 1], message)
            == Matching(commits, ids[..i], message) + (if commits[ids[i]].log == message then [ids[i]] else [])
  {
    assert ids[..i + 1][..i] == ids[..i];
  }

  /** `find`: every commit, in listing order, whose message equals the one given;
      an empty result is the "Found no commit with that message." case. */
  method Find(commits: map<string, Commit>, ids: seq<string>, message: string) returns (found: seq<string>)
    requires forall i :: 0 <= i < |ids| ==> ids[i] in commits
    ensures found == Matching(commits, ids, message)
  {
    found := [];
    var i := 0;
    while i < |ids|
      invariant 0 <= i <= |ids|
      invariant found == Matching(commits, ids[..i], message)
    {
      MatchingStep(commits, ids, i, message);
      if commits[ids[i]].log == message {
        found := found + [ids[i]];
      }
      i := i + 1;
    }
    assert ids[..i] == ids;
  }
}
