/** What `merge` does: its chain of error checks (after which it stops), and the
    two per-file helpers written for the merge but never called by it. */
module MergeChecks {
  import opened Common
  import opened Commits
  import opened Trees

  /** A lookup in a TreeMap: null (None) when the key is absent. */
  function Get(m: map<string, string>, f: string): Option<string> {
    if f in m then Some(m[f]) else None
  }

  /** What `isModified` yields: it throws (the split has no entry for the file, so
      its digest is null and is dereferenced), returns null, or returns a commit. */
  datatype Pick = Throws | Null | Picked(commit: Commit)

  /** `isModified`: which side changed the file relative to the split point.
      Only the split's digest is dereferenced; comparing it with an absent digest
      in curr or other is "differs". The four comparisons are exhaustive, so the
      final null is returned only when neither side changed the file. */
  function IsModified(file: string, split: Commit, curr: Commit, other: Commit): (r: Pick)
    ensures r == Throws <==> file !in split.blobs
    ensures file in split.blobs ==>
      var s := Get(split.blobs, file);
      var sameOther := s == Get(other.blobs, file);
      var sameCurr := s == Get(curr.blobs, file);
      && (sameOther && sameCurr ==> r == Null)
      && (!sameOther && !sameCurr ==> r == Picked(split))
      && (!sameOther && sameCurr ==> r == Picked(other))
      && (sameOther && !sameCurr ==> r == Picked(curr))
      && (r == Null ==> sameOther && sameCurr)
  {
    if file !in split.blobs then Throws
    else
      var splitHash := split.blobs[file];
      var otherHash := Get(other.blobs, file);
      var currHash := Get(curr.blobs, file);
      if Some(splitHash) == otherHash && Some(splitHash) == currHash then Null
      else if Some(splitHash) != otherHash && Some(splitHash) != currHash then Picked(split)
      else if Some(splitHash) != otherHash && Some(splitHash) == currHash then Picked(other)
      else if Some(splitHash) == otherHash && Some(splitHash) != currHash then Picked(curr)
      else Null
  }

  /** One loop of `findAllFiles`: append every key of m. The source's guard
      `!allFiles.contains(blob)` asks a list of names whether it holds a map entry,
      which it never does, so every key is appended. */
  method AppendKeys(files: seq<string>, m: map<string, string>) returns (r: seq<string>)
    ensures |r| == |files| + |m|
    ensures r[..|files|] == files
    ensures multiset(r[|files|..]) == multiset(m.Keys)
  {
    r := files;
    ghost var added: seq<string> := [];
    var todo := m.Keys;
    while todo != {}
      invariant todo <= m.Keys
      invariant r == files + added
      invariant multiset(added) + multiset(todo) == multiset(m.Keys)
      decreases todo
    {
      var f :| f in todo;
      assert multiset(todo) == multiset(todo - {f}) + multiset{f};
      r := r + [f];
      added := added + [f];
      todo := todo - {f};
    }
    assert r[..|files|] == files && r[|files|..] == added;
    SameCount(added, m.Keys);
  }

  /** A sequence with the elements of a set, each once, is as long as the set is large. */
  lemma SameCount(s: seq<string>, keys: set<string>)
    requires multiset(s) == multiset(keys)
    ensures |s| == |keys|
  {
    assert |multiset(s)| == |multiset(keys)|;
  }

  /** `findAllFiles`: the split's file names, then curr's, then other's, with
      nothing dropped, so a file in several trees is listed several times. */
  method FindAllFiles(split: Commit, curr: Commit, other: Commit) returns (files: seq<string>)
    ensures |files| == |split.blobs| + |curr.blobs| + |other.blobs|
    ensures multiset(files[..|split.blobs|]) == multiset(split.blobs.Keys)
    ensures multiset(files[|split.blobs|..|split.blobs| + |curr.blobs|]) == multiset(curr.blobs.Keys)
    ensures multiset(files[|split.blobs| + |curr.blobs|..]) == multiset(other.blobs.Keys)
  {
    var a := AppendKeys([], split.blobs);
    var b := AppendKeys(a, curr.blobs);
    files := AppendKeys(b, other.blobs);
    assert files[..|a|] == b[..|a|] == a;
    assert files[|a|..|b|] == b[|a|..];
    assert a[0..] == a;
  }

  /** `mergeError` followed by `mergeUntracked`, in the source's order: uncommitted
      changes, an unknown branch, the current branch, and the untracked-file guard.
      The name of the head pointer file passes the existence test but is no branch. */
  function MergeError(add: map<string, string>, remove: seq<string>, branches: map<string, string>,
                      head: string, commits: map<string, Commit>, cwd: map<string, seq<byte>>,
                      other: string): (r: Outcome)
    requires head in branches && HeadFile !in branches
    requires forall b :: b in branches ==> branches[b] in commits
    ensures r == UncommittedChanges <==> add != map[] || remove != []
    ensures r == NoSuchBranch <==> add == map[] && remove == [] && other !in branches && other != HeadFile
    ensures r == MergeWithSelf <==> add == map[] && remove == [] && other == head
    ensures r == ReservedName <==> add == map[] && remove == [] && other == HeadFile
    ensures r == UntrackedInTheWay <==>
      add == map[] && remove == [] && other in branches && other != head &&
      BlockedByUntracked(cwd, commits[branches[head]].blobs, commits[branches[other]].blobs)
    ensures r == Ok <==>
      add == map[] && remove == [] && other in branches && other != head &&
      !BlockedByUntracked(cwd, commits[branches[head]].blobs, commits[branches[other]].blobs)
  {
    if add != map[] || remove != [] then UncommittedChanges
    else if other !in branches && other != HeadFile then NoSuchBranch
    else if other == head then MergeWithSelf
    else if other == HeadFile then ReservedName
    else if BlockedByUntracked(cwd, commits[branches[head]].blobs, commits[branches[other]].blobs) then UntrackedInTheWay
    else Ok
  }
}
