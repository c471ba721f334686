/** The repository and the commands that change it. The files under the
    repository directory and the working directory are held as maps: commits
    and blobs by id, branches by name, the working tree by file name. */
module Gitlet {
  import opened Common
  import opened Commits
  import opened StagingArea
  import opened History
  import opened Trees
  import WorkingTree
  import MergeChecks

  /** Everything a command can change, as one value. */
  datatype State = State(commits: map<string, Commit>, blobs: map<string, seq<byte>>,
                         branches: map<string, string>, head: string,
                         stageAdd: map<string, string>, stageRemove: seq<string>,
                         cwd: map<string, seq<byte>>)

  /** The name `reset` looks up: a short id is replaced by the file name that
      `getShortID` found, ".txt" suffix included, or by "null" when none matched.
      This is the specification; `ResetName` below is the code that computes it. */
  function ResetTarget(commitName: string, ids: seq<string>): (r: string)
    ensures |commitName| >= UidLength ==> r == commitName
    ensures |commitName| < UidLength ==>
      (r == "null" <==> forall i :: 0 <= i < |ids| ==> !IsPrefix(commitName, ids[i] + FileSuffix))
    ensures |commitName| < UidLength && r != "null" ==>
      exists i :: 0 <= i < |ids| && r == ids[i] + FileSuffix && IsPrefix(commitName, r)
        && forall j :: 0 <= j < i ==> !IsPrefix(commitName, ids[j] + FileSuffix)
  {
    if |commitName| < UidLength then
      match FirstWithPrefix(commitName, ids)
      case Some(f) =>
        assert f != "null" by {
          var i :| 0 <= i < |ids| && f == ids[i] + FileSuffix;
          assert f[|f| - 1] == 't';
        }
        f
      case None => "null"
    else commitName
  }

  /** The first step of `reset` (its call to `getShortID`), proved to compute `ResetTarget`. */
  method ResetName(commitName: string, ids: seq<string>) returns (name: string)
    ensures name == ResetTarget(commitName, ids)
  {
    name := commitName;
    if |commitName| < UidLength {
      var id := GetShortId(commitName, ids);
      name := if id.Some? then id.value else "null";
    }
  }

  /** With full-length ids, `reset` never finds a commit from a short id: the
      name it looks up is an id with ".txt" appended, or "null". */
  lemma {:induction false} ShortResetMisses(commits: map<string, Commit>, ids: seq<string>, commitName: string)
    requires Lists(ids, commits)
    requires forall k :: k in commits ==> |k| == UidLength
    requires |commitName| < UidLength
    ensures ResetTarget(commitName, ids) !in commits
  {
    var r := ResetTarget(commitName, ids);
    if r != "null" {
      var i :| 0 <= i < |ids| && r == ids[i] + FileSuffix && IsPrefix(commitName, r);
      assert ids[i] in commits;
      assert |r| == UidLength + |FileSuffix|;
    }
  }

  /** The id `checkoutCommit` looks up: a short id is resolved through `getShortID`
      and the four-character suffix cut off; no match is a null dereference (None). */
  function CheckoutTarget(commitHash: string, ids: seq<string>): (r: Option<string>)
    ensures |commitHash| >= UidLength ==> r == Some(commitHash)
    ensures |commitHash| < UidLength && r.Some? ==>
      exists i :: 0 <= i < |ids| && r.value == ids[i] && IsPrefix(commitHash, ids[i] + FileSuffix)
        && forall j :: 0 <= j < i ==> !IsPrefix(commitHash, ids[j] + FileSuffix)
    ensures |commitHash| < UidLength && r.None? ==>
      forall i :: 0 <= i < |ids| ==> !IsPrefix(commitHash, ids[i] + FileSuffix)
  {
    if |commitHash| < UidLength then
      match FirstWithPrefix(commitHash, ids)
      case Some(f) =>
        var id := f[..|f| - |FileSuffix|];
        var i :| 0 <= i < |ids| && f == ids[i] + FileSuffix && IsPrefix(commitHash, f)
          && forall j :: 0 <= j < i ==> !IsPrefix(commitHash, ids[j] + FileSuffix);
        assert id == ids[i];
        Some(id)
      case None => None
    else Some(commitHash)
  }

  /** What holds of the repository between commands: head names a branch that is
      not the head pointer file, branches name stored commits, commits are stored
      under their own well-formed ids with finite history, every digest a commit
      or the stage names is a stored blob stored under its own digest, and no file
      is staged both for addition and for removal. */
  ghost predicate Invariant(s: State, rank: map<string, nat>,
                            sha1: seq<byte> -> string, serialize: Fields -> seq<byte>)
  {
    && RefsOk(s.branches, s.head, s.commits)
    && HistoryOk(s.commits, rank, sha1, serialize)
    && StoreOk(s.commits, s.blobs, sha1)
    && StageOk(s.stageAdd, s.stageRemove, s.blobs)
  }

  ghost predicate RefsOk(branches: map<string, string>, head: string, commits: map<string, Commit>) {
    && head in branches && HeadFile !in branches
    && (forall b :: b in branches ==> branches[b] in commits)
  }

  ghost predicate HistoryOk(commits: map<string, Commit>, rank: map<string, nat>,
                            sha1: seq<byte> -> string, serialize: Fields -> seq<byte>) {
    && Linked(commits, rank)
    && (forall k :: k in commits ==> WellFormed(sha1, serialize, commits[k]))
  }

  ghost predicate StoreOk(commits: map<string, Commit>, blobs: map<string, seq<byte>>, sha1: seq<byte> -> string) {
    && (forall k :: k in commits ==> commits[k].blobs.Values <= blobs.Keys)
    && (forall h :: h in blobs ==> sha1(blobs[h]) == h)
  }

  ghost predicate StageOk(add: map<string, string>, remove: seq<string>, blobs: map<string, seq<byte>>) {
    && add.Values <= blobs.Keys
    && (forall f :: f in remove ==> f !in add)
  }

  /** The tree of a new commit only names stored blobs. */
  lemma CommitTreeInStore(cur: map<string, string>, add: map<string, string>, remove: seq<string>,
                          store: set<string>)
    requires cur.Values <= store && add.Values <= store
    ensures CommitTree(cur, add, remove).Values <= store
  {
    var t := CommitTree(cur, add, remove);
    forall h | h in t.Values
      ensures h in store
    {
      var f :| f in t && t[f] == h;
      if f in add {
        assert add[f] in add.Values;
      } else {
        assert cur[f] in cur.Values;
      }
    }
  }

  /** A staged file that survives the fold is written back with its staged
      content when the new commit is later checked out, from whatever tree. */
  lemma CheckoutRestoresStaged(cwd: map<string, seq<byte>>, from: map<string, string>,
                               cur: map<string, string>, add: map<string, string>, remove: seq<string>,
                               blobs: map<string, seq<byte>>, f: string)
    requires cur.Values <= blobs.Keys && add.Values <= blobs.Keys
    requires f in add && f !in remove
    ensures var t := CommitTree(cur, add, remove);
      && t.Values <= blobs.Keys
      && f in Materialized(cwd, from, t, blobs)
      && Materialized(cwd, from, t, blobs)[f] == blobs[add[f]]
  {
    CommitTreeInStore(cur, add, remove, blobs.Keys);
  }

  /** Storing a new commit whose parent is stored, one rank above it, keeps history finite. */
  lemma LinkedExtend(commits: map<string, Commit>, rank: map<string, nat>, c: Commit)
    requires Linked(commits, rank)
    requires c.hash !in commits && c.parent.Some? && c.parent.value in commits
    ensures Linked(commits[c.hash := c], rank[c.hash := rank[c.parent.value] + 1])
  {
  }

  /** A new commit's id is either fresh or already the id of that very commit. */
  ghost predicate NoClash(commits: map<string, Commit>, c: Commit) {
    c.hash in commits ==> commits[c.hash] == c
  }

  /** A collision-free digest never lets a new well-formed commit clash with a stored one. */
  lemma CollisionFreeNoClash(commits: map<string, Commit>, c: Commit,
                             sha1: seq<byte> -> string, serialize: Fields -> seq<byte>)
    requires CollisionFree(sha1, serialize) && WellFormed(sha1, serialize, c)
    requires forall k :: k in commits ==> commits[k].hash == k
    requires forall k :: k in commits ==> WellFormed(sha1, serialize, commits[k])
    ensures NoClash(commits, c)
  {
    if c.hash in commits {
      IdDeterminesCommit(sha1, serialize, commits[c.hash], c);
    }
  }

  /** The commit that `commitFiles` records in state s. */
  function NewCommit(s: State, message: string, now: int,
                     sha1: seq<byte> -> string, serialize: Fields -> seq<byte>): (c: Commit)
    requires s.head in s.branches && s.branches[s.head] in s.commits
    ensures c.log == message && c.parent == Some(s.commits[s.branches[s.head]].hash) && c.date == now
    ensures c.blobs == CommitTree(s.commits[s.branches[s.head]].blobs, s.stageAdd, s.stageRemove)
  {
    var cur := s.commits[s.branches[s.head]];
    Create(message, CommitTree(cur.blobs, s.stageAdd, s.stageRemove), Some(cur.hash), now, sha1, serialize)
  }

  /** The state after `commitFiles` records c: c stored under its id, the
      current branch moved to it, the stage emptied. */
  function Recorded(s: State, c: Commit): State {
    s.(commits := s.commits[c.hash := c], branches := s.branches[s.head := c.hash],
       stageAdd := map[], stageRemove := [])
  }

  /** The new commit ranks one above its parent, unless it was already stored. */
  ghost function RankAfter(commits: map<string, Commit>, rank: map<string, nat>, c: Commit): map<string, nat>
    requires c.parent.Some? && c.parent.value in rank
  {
    if c.hash in commits then rank else rank[c.hash := rank[c.parent.value] + 1]
  }

  /** Recording a commit, moving the current branch to it and emptying the stage
      keeps the invariant. */
  lemma CommitKeepsInvariant(s: State, rank: map<string, nat>, sha1: seq<byte> -> string,
                             serialize: Fields -> seq<byte>, message: string, now: int)
    requires Invariant(s, rank, sha1, serialize)
    requires NoClash(s.commits, NewCommit(s, message, now, sha1, serialize))
    ensures var c := NewCommit(s, message, now, sha1, serialize);
      && c.parent.Some? && c.parent.value in rank
      && Invariant(Recorded(s, c), RankAfter(s.commits, rank, c), sha1, serialize)
  {
    var c := NewCommit(s, message, now, sha1, serialize);
    var cur := s.commits[s.branches[s.head]];
    CommitTreeInStore(cur.blobs, s.stageAdd, s.stageRemove, s.blobs.Keys);
    HistoryExtend(s.commits, rank, sha1, serialize, c);
    StoreExtend(s.commits, s.blobs, sha1, c);
  }

  /** A new commit whose parent is stored keeps history well formed and finite. */
  lemma HistoryExtend(commits: map<string, Commit>, rank: map<string, nat>,
                      sha1: seq<byte> -> string, serialize: Fields -> seq<byte>, c: Commit)
    requires HistoryOk(commits, rank, sha1, serialize) && NoClash(commits, c)
    requires WellFormed(sha1, serialize, c) && c.parent.Some? && c.parent.value in commits
    ensures c.parent.value in rank
    ensures HistoryOk(commits[c.hash := c], RankAfter(commits, rank, c), sha1, serialize)
  {
    if c.hash in commits {
      assert commits[c.hash := c] == commits;
    } else {
      LinkedExtend(commits, rank, c);
    }
  }

  /** A new commit that only names stored blobs keeps the blob store closed. */
  lemma StoreExtend(commits: map<string, Commit>, blobs: map<string, seq<byte>>,
                    sha1: seq<byte> -> string, c: Commit)
    requires StoreOk(commits, blobs, sha1) && c.blobs.Values <= blobs.Keys
    ensures StoreOk(commits[c.hash := c], blobs, sha1)
  {
  }

  /** Pointing head or a branch at a stored commit, emptying the stage and
      rewriting the working directory keeps the invariant. */
  lemma CheckoutKeepsInvariant(s: State, rank: map<string, nat>, sha1: seq<byte> -> string,
                               serialize: Fields -> seq<byte>, cwd: map<string, seq<byte>>,
                               branches: map<string, string>, head: string)
    requires Invariant(s, rank, sha1, serialize) && RefsOk(branches, head, s.commits)
    ensures Invariant(s.(cwd := cwd, branches := branches, head := head, stageAdd := map[], stageRemove := []),
                      rank, sha1, serialize)
  {
  }

  /** Storing content under its own digest keeps the blob store closed. */
  lemma StoreBlob(commits: map<string, Commit>, blobs: map<string, seq<byte>>,
                  sha1: seq<byte> -> string, content: seq<byte>)
    requires StoreOk(commits, blobs, sha1)
    ensures StoreOk(commits, blobs[sha1(content) := content], sha1)
  {
  }

  /** Taking a file off the removal list, with the blob store grown or not,
      keeps the stage consistent. */
  lemma UnqueueKeepsStage(add: map<string, string>, remove: seq<string>, blobs: map<string, seq<byte>>,
                          blobs': map<string, seq<byte>>, f: string)
    requires StageOk(add, remove, blobs) && blobs.Keys <= blobs'.Keys
    ensures StageOk(add, RemoveFirst(remove, f), blobs')
  {
  }

  /** Staging a file that is not on the removal list, under a stored digest,
      keeps the stage consistent. */
  lemma StageKeepsStage(add: map<string, string>, remove: seq<string>, blobs: map<string, seq<byte>>,
                        f: string, h: string)
    requires StageOk(add, remove, blobs) && h in blobs && f !in remove
    ensures StageOk(add[f := h], remove, blobs)
  {
    forall v | v in add[f := h].Values
      ensures v in blobs
    {
      var k :| k in add[f := h] && add[f := h][k] == v;
      if k != f {
        assert add[k] in add.Values;
      }
    }
  }

  class Repo {
    /** The digest of file contents, and the serialization of a commit's fields. */
    const sha1: seq<byte> -> string
    const serialize: Fields -> seq<byte>

    var commits: map<string, Commit>
    var blobs: map<string, seq<byte>>
    var branches: map<string, string>
    var head: string
    const stage: Staging
    var cwd: map<string, seq<byte>>

    /** Distance-like rank of each commit; parents rank lower. */
    ghost var rank: map<string, nat>

    /** `Invariant(Snapshot(), rank, sha1, serialize)`, written out over the fields
        rather than through `Snapshot()`: the verifier then sees each field
        directly when a method assigns one, instead of unfolding the whole state. */
    ghost predicate Valid()
      reads this, stage
    {
      && RefsOk(branches, head, commits)
      && HistoryOk(commits, rank, sha1, serialize)
      && StoreOk(commits, blobs, sha1)
      && StageOk(stage.addFiles, stage.removeFiles, blobs)
    }

    function Snapshot(): State
      reads this, stage
    {
      State(commits, blobs, branches, head, stage.addFiles, stage.removeFiles, cwd)
    }

    /** `getCurCommit`: head names a branch, the branch names a commit. */
    function CurrentCommit(): (c: Commit)
      reads this, stage
      requires Valid()
      ensures c.hash == branches[head] && c == commits[c.hash]
    {
      commits[branches[head]]
    }

    /** `init`: one root commit, the branch master pointing at it and checked out,
        an empty stage and an empty blob store. */
    constructor Init(sha1: seq<byte> -> string, serialize: Fields -> seq<byte>, cwd: map<string, seq<byte>>)
      ensures Valid() && fresh(stage) && this.sha1 == sha1 && this.serialize == serialize
      ensures var root := Initial(sha1, serialize);
        && commits == map[root.hash := root]
        && branches == map["master" := root.hash] && head == "master"
        && blobs == map[] && stage.addFiles == map[] && stage.removeFiles == []
        && this.cwd == cwd
    {
      var root := Initial(sha1, serialize);
      this.sha1 := sha1;
      this.serialize := serialize;
      commits := map[root.hash := root];
      blobs := map[];
      branches := map["master" := root.hash];
      head := "master";
      stage := new Staging();
      this.cwd := cwd;
      rank := map[root.hash := 0];
    }
    /** `add`: a file whose content matches the current commit is only taken off
        the removal list; any other file has its content stored under its digest
        and is either taken off the removal list or, if it was not on it, staged.
        An earlier staged addition is never withdrawn. */
    method Add(fileName: string) returns (o: Outcome)
      requires Valid()
      modifies this, stage
      ensures Valid()
      ensures fileName !in old(cwd) ==> o == FileDoesNotExist && Snapshot() == old(Snapshot())
      ensures fileName in old(cwd) ==> o == Ok
      ensures fileName in old(cwd) ==> (
        var s := old(Snapshot());
        var content := s.cwd[fileName];
        var h := sha1(content);
        var tracked := old(CurrentCommit()).blobs;
        var remove := RemoveFirst(s.stageRemove, fileName);
        if fileName in tracked && tracked[fileName] == h then
          Snapshot() == s.(stageRemove := remove)
        else
          Snapshot() == s.(blobs := s.blobs[h := content], stageRemove := remove,
                           stageAdd := if fileName in s.stageRemove then s.stageAdd
                                       else s.stageAdd[fileName := h]))
    {
      if fileName !in cwd {
        return FileDoesNotExist;
      }
      var curContent := cwd[fileName];
      var curHash := sha1(curContent);
      var cur := CurrentCommit();
      if fileName in cur.blobs && cur.blobs[fileName] == curHash {
        if fileName in stage.removeFiles {
          UnqueueKeepsStage(stage.addFiles, stage.removeFiles, blobs, blobs, fileName);
          stage.removeFiles := RemoveFirst(stage.removeFiles, fileName);
        }
        return Ok;
      }
      StoreBlob(commits, blobs, sha1, curContent);
      if fileName in stage.removeFiles {
        UnqueueKeepsStage(stage.addFiles, stage.removeFiles, blobs, blobs[curHash := curContent], fileName);
        blobs := blobs[curHash := curContent];
        stage.removeFiles := RemoveFirst(stage.removeFiles, fileName);
      } else {
        StageKeepsStage(stage.addFiles, stage.removeFiles, blobs[curHash := curContent], fileName, curHash);
        blobs := blobs[curHash := curContent];
        stage.Add(fileName, curHash);
      }
      return Ok;
    }

    /** `commitFiles`: with something staged and a message, records a commit whose
        tree is the current one folded with the stage and whose parent is the
        current commit, empties the stage and moves the current branch to it.
        The new commit's id is assumed not to name a different stored commit. */
    method CommitFiles(message: string, now: int) returns (o: Outcome)
      requires Valid() && NoClash(commits, NewCommit(Snapshot(), message, now, sha1, serialize))
      modifies this, stage
      ensures Valid()
      ensures old(stage.addFiles) == map[] && old(stage.removeFiles) == [] ==>
        o == NoChanges && Snapshot() == old(Snapshot())
      ensures (old(stage.addFiles) != map[] || old(stage.removeFiles) != []) && message == "" ==>
        o == EmptyMessage && Snapshot() == old(Snapshot())
      ensures (old(stage.addFiles) != map[] || old(stage.removeFiles) != []) && message != "" ==> o == Ok
      ensures (old(stage.addFiles) != map[] || old(stage.removeFiles) != []) && message != "" ==>
        Snapshot() == Recorded(old(Snapshot()), NewCommit(old(Snapshot()), message, now, sha1, serialize))
    {
      if stage.addFiles == map[] && stage.removeFiles == [] {
        return NoChanges;
      }
      if message == "" {
        return EmptyMessage;
      }
      Record(message, now);
      return Ok;
    }

    /** The successful part of `commitFiles`. */
    method Record(message: string, now: int)
      requires Valid() && NoClash(commits, NewCommit(Snapshot(), message, now, sha1, serialize))
      modifies this, stage
      ensures Valid()
      ensures Snapshot() == Recorded(old(Snapshot()), NewCommit(old(Snapshot()), message, now, sha1, serialize))
    {
      ghost var s0, rank0 := Snapshot(), rank;
      CommitKeepsInvariant(s0, rank0, sha1, serialize, message, now);
      var cur := CurrentCommit();
      var toCommit := FoldStage(cur.blobs, stage.addFiles, stage.removeFiles);
      stage.addFiles := map[];
      stage.removeFiles := [];
      var c := Create(message, toCommit, Some(cur.hash), now, sha1, serialize);
      assert c == NewCommit(s0, message, now, sha1, serialize);
      rank := RankAfter(commits, rank, c);
      commits := commits[c.hash := c];
      branches := branches[head := c.hash];
      assert Snapshot() == Recorded(s0, c);
    }

    /** `rm`: unstages the file, and if the current commit tracks it, queues its
        removal and deletes it from the working directory; "no reason to remove"
        exactly when neither applies, and then nothing changes. */
    method Rm(fileName: string) returns (o: Outcome)
      requires Valid()
      modifies this, stage
      ensures Valid()
      ensures var s := old(Snapshot());
        var tracked := fileName in old(CurrentCommit()).blobs;
        && (o == Ok <==> fileName in s.stageAdd || tracked)
        && (o == NoReasonToRemove <==> fileName !in s.stageAdd && !tracked)
        && Snapshot() == s.(stageAdd := s.stageAdd - {fileName},
                            stageRemove := if tracked then s.stageRemove + [fileName] else s.stageRemove,
                            cwd := if tracked then s.cwd - {fileName} else s.cwd)
      ensures o == NoReasonToRemove ==> Snapshot() == old(Snapshot())
    {
      var cur := CurrentCommit();
      var error := true;
      if fileName in stage.addFiles {
        stage.addFiles := stage.addFiles - {fileName};
        error := false;
      }
      if fileName in cur.blobs {
        stage.AddRemove(fileName);
        cwd := cwd - {fileName};
        error := false;
      }
      o := if error then NoReasonToRemove else Ok;
    }
    /** `log`: the history of the current commit, newest first, down to the root. */
    method Log() returns (entries: seq<Commit>)
      requires Valid()
      ensures |entries| > 0 && entries[0] == CurrentCommit()
      ensures forall i :: 0 <= i < |entries| ==> entries[i].hash in commits && commits[entries[i].hash] == entries[i]
      ensures forall i :: 0 <= i < |entries| - 1 ==> entries[i].parent == Some(entries[i + 1].hash)
      ensures entries[|entries| - 1].parent == None
    {
      entries := History.Log(commits, rank, branches[head]);
    }

    /** `find`: the ids, in listing order, of the commits with the given message. */
    method Find(message: string, ids: seq<string>) returns (found: seq<string>)
      requires Valid() && Lists(ids, commits)
      ensures forall id :: id in found <==> id in commits && commits[id].log == message
      ensures found == Matching(commits, ids, message)
    {
      found := History.Find(commits, ids, message);
    }

    /** `status`, over the repository's own state; every staged file must be in the
        working directory (see `checkModCommit`). */
    method Status() returns (r: WorkingTree.Report)
      requires Valid() && stage.addFiles.Keys <= cwd.Keys
      ensures r.current == head && r.staged == stage.addFiles.Keys && r.removed == stage.removeFiles
      ensures forall b :: b in r.otherBranches <==> b in branches && b != head
      ensures WorkingTree.ReportsChanges(r.changes, CurrentCommit().blobs, stage.addFiles, stage.removeFiles, cwd, sha1)
      ensures forall f :: f in r.untracked <==> f in cwd && f !in stage.addFiles && f !in CurrentCommit().blobs
    {
      r := WorkingTree.Status(branches, head, CurrentCommit().blobs, stage.addFiles, stage.removeFiles, cwd, sha1);
    }

    /** `checkoutBranch`: refuses an unknown branch, the current branch, and an
        untracked file in the way, changing nothing; otherwise writes out the
        branch's tree, deletes files only the current commit tracks, empties the
        stage and makes the branch current. */
    method CheckoutBranch(branchName: string) returns (o: Outcome)
      requires Valid()
      modifies this, stage
      ensures Valid()
      ensures branchName !in old(branches) && branchName != HeadFile ==>
        o == NoSuchBranch && Snapshot() == old(Snapshot())
      ensures branchName == HeadFile ==> o == ReservedName && Snapshot() == old(Snapshot())
      ensures branchName == old(head) ==> o == NoNeedToCheckout && Snapshot() == old(Snapshot())
      ensures branchName in old(branches) && branchName != old(head) ==>
        var cur := old(CurrentCommit()).blobs;
        var target := old(commits[branches[branchName]]).blobs;
        if BlockedByUntracked(old(cwd), cur, target) then
          o == UntrackedInTheWay && Snapshot() == old(Snapshot())
        else
          o == Ok &&
          Snapshot() == old(Snapshot()).(cwd := Materialized(old(cwd), cur, target, old(blobs)),
                                         stageAdd := map[], stageRemove := [], head := branchName)
    {
      if branchName !in branches && branchName != HeadFile {
        return NoSuchBranch;
      }
      if branchName == HeadFile {
        return ReservedName;
      }
      var curCommit := CurrentCommit();
      var brCommit := commits[branches[branchName]];
      if head == branchName {
        return NoNeedToCheckout;
      }
      var blocked := CheckUntracked(cwd, curCommit.blobs, brCommit.blobs);
      if blocked {
        return UntrackedInTheWay;
      }
      SwitchTo(brCommit.blobs, branches, branchName);
      return Ok;
    }

    /** `checkoutFile`: the current commit's version of one file overwrites the
        working copy; nothing else changes. */
    method CheckoutFile(fileName: string) returns (o: Outcome)
      requires Valid()
      modifies this
      ensures Valid()
      ensures var tracked := old(CurrentCommit()).blobs;
        if fileName !in tracked then
          o == FileNotInCommit && Snapshot() == old(Snapshot())
        else
          o == Ok &&
          Snapshot() == old(Snapshot()).(cwd := old(cwd)[fileName := Content(tracked, fileName, old(blobs))])
    {
      var curCommit := CurrentCommit();
      if fileName !in curCommit.blobs {
        return FileNotInCommit;
      }
      cwd := cwd[fileName := Content(curCommit.blobs, fileName, blobs)];
      return Ok;
    }

    /** `checkoutCommit`: like `checkoutFile`, from the commit the id names; a
        short id is resolved through the listing, and a short id nothing matches
        fails on a null id. */
    method CheckoutCommit(commitHash: string, fileName: string, ids: seq<string>) returns (o: Outcome)
      requires Valid() && Lists(ids, commits)
      modifies this
      ensures Valid()
      ensures var t := CheckoutTarget(commitHash, ids);
        if t.None? then
          o == NullId && Snapshot() == old(Snapshot())
        else if t.value !in old(commits) then
          o == NoCommitWithId && Snapshot() == old(Snapshot())
        else if fileName !in old(commits)[t.value].blobs then
          o == FileNotInCommit && Snapshot() == old(Snapshot())
        else
          o == Ok &&
          Snapshot() == old(Snapshot()).(cwd := old(cwd)[fileName := Content(old(commits)[t.value].blobs, fileName, old(blobs))])
    {
      var target := commitHash;
      if |commitHash| < UidLength {
        var id := GetShortId(commitHash, ids);
        if id.None? {
          return NullId;
        }
        target := id.value[..|id.value| - |FileSuffix|];
      }
      if target !in commits {
        return NoCommitWithId;
      }
      var commit := commits[target];
      if fileName !in commit.blobs {
        return FileNotInCommit;
      }
      cwd := cwd[fileName := Content(commit.blobs, fileName, blobs)];
      return Ok;
    }

    /** `branch`: a new branch at the current commit, unless the name is taken
        (the head pointer file's name counts as taken). */
    method Branch(branchName: string) returns (o: Outcome)
      requires Valid()
      modifies this
      ensures Valid()
      ensures branchName in old(branches) || branchName == HeadFile ==>
        o == BranchExists && Snapshot() == old(Snapshot())
      ensures branchName !in old(branches) && branchName != HeadFile ==>
        o == Ok && Snapshot() == old(Snapshot()).(branches := old(branches)[branchName := old(branches)[old(head)]])
    {
      if branchName in branches || branchName == HeadFile {
        return BranchExists;
      }
      branches := branches[branchName := branches[head]];
      return Ok;
    }

    /** `rmBranch`: refuses the current branch, reports an unknown one, and
        otherwise deletes the branch pointer and nothing else. */
    method RmBranch(branchName: string) returns (o: Outcome)
      requires Valid()
      modifies this
      ensures Valid()
      ensures branchName == old(head) ==> o == CannotRemoveCurrent && Snapshot() == old(Snapshot())
      ensures branchName == HeadFile ==> o == ReservedName && Snapshot() == old(Snapshot())
      ensures branchName != old(head) && branchName != HeadFile && branchName !in old(branches) ==>
        o == NoSuchBranch && Snapshot() == old(Snapshot())
      ensures branchName != old(head) && branchName in old(branches) ==>
        o == Ok && Snapshot() == old(Snapshot()).(branches := old(branches) - {branchName})
    {
      if branchName == head {
        return CannotRemoveCurrent;
      }
      if branchName == HeadFile {
        return ReservedName;
      }
      if branchName !in branches {
        return NoSuchBranch;
      }
      branches := branches - {branchName};
      return Ok;
    }

    /** `reset`: like checking out a branch, but to any commit, and it moves the
        current branch instead of head. A short id is resolved to the file name
        the listing holds, suffix included. */
    method Reset(commitName: string, ids: seq<string>) returns (o: Outcome)
      requires Valid() && Lists(ids, commits)
      modifies this, stage
      ensures Valid()
      ensures var name := ResetTarget(commitName, ids);
        if name !in old(commits) then
          o == NoCommitWithId && Snapshot() == old(Snapshot())
        else
          var cur := old(CurrentCommit()).blobs;
          var target := old(commits)[name].blobs;
          if BlockedByUntracked(old(cwd), cur, target) then
            o == UntrackedInTheWay && Snapshot() == old(Snapshot())
          else
            o == Ok &&
            Snapshot() == old(Snapshot()).(cwd := Materialized(old(cwd), cur, target, old(blobs)),
                                           stageAdd := map[], stageRemove := [],
                                           branches := old(branches)[old(head) := name])
    {
      var name := ResetName(commitName, ids);
      if name !in commits {
        return NoCommitWithId;
      }
      var toCommit := commits[name];
      var curCommit := CurrentCommit();
      var blocked := CheckUntracked(cwd, curCommit.blobs, toCommit.blobs);
      if blocked {
        return UntrackedInTheWay;
      }
      assert RefsOk(branches[head := name], head, commits);
      SwitchTo(toCommit.blobs, branches[head := name], head);
      return Ok;
    }

    /** The successful end shared by `checkoutBranch` and `reset`: the target tree
        is written out over the current one, the stage is emptied, and head and
        the branches point where the caller says. */
    method SwitchTo(target: map<string, string>, newBranches: map<string, string>, newHead: string)
      requires Valid() && target.Values <= blobs.Keys && RefsOk(newBranches, newHead, commits)
      modifies this, stage
      ensures Valid()
      ensures Snapshot() == old(Snapshot()).(cwd := Materialized(old(cwd), old(CurrentCommit()).blobs, target, old(blobs)),
                                             stageAdd := map[], stageRemove := [],
                                             branches := newBranches, head := newHead)
    {
      ghost var s0 := Snapshot();
      var tree := WriteTree(cwd, CurrentCommit().blobs, target, blobs);
      CheckoutKeepsInvariant(s0, rank, sha1, serialize, tree, newBranches, newHead);
      cwd := tree;
      branches := newBranches;
      head := newHead;
      stage.Clear();
    }

    /** `merge`: runs the error checks and stops; it changes nothing whatever they say. */
    method Merge(other: string) returns (o: Outcome)
      requires Valid()
      ensures o == MergeChecks.MergeError(stage.addFiles, stage.removeFiles, branches, head, commits, cwd, other)
    {
      o := MergeChecks.MergeError(stage.addFiles, stage.removeFiles, branches, head, commits, cwd, other);
    }
  }
}
