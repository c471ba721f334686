/** The `status` report and its "Modifications Not Staged For Commit" part
    (`checkModCommit`), returned as values instead of printed. */
module WorkingTree {
  import opened Common

  datatype Change = Modified(file: string) | Deleted(file: string)

  /** A tracked file whose working copy differs from the commit, or a staged file
      whose working copy differs from what was staged, is modified; a tracked file
      missing from the working directory and not staged for removal is deleted. */
  ghost predicate ReportsChanges(changes: set<Change>, cur: map<string, string>, add: map<string, string>,
                                 remove: seq<string>, cwd: map<string, seq<byte>>, sha1: seq<byte> -> string)
    requires add.Keys <= cwd.Keys
  {
    && (forall f :: Modified(f) in changes <==>
          (f in cur && f in cwd && sha1(cwd[f]) != cur[f]) || (f in add && sha1(cwd[f]) != add[f]))
    && (forall f :: Deleted(f) in changes <==> f in cur && f !in cwd && f !in remove)
  }

  /** `checkModCommit`: one loop over the tracked files, one over the staged ones.
      Every staged file must be present in the working directory, since the source
      reads it before asking whether it exists. */
  method CheckModCommit(cur: map<string, string>, add: map<string, string>, remove: seq<string>,
                        cwd: map<string, seq<byte>>, sha1: seq<byte> -> string)
    returns (changes: set<Change>)
    requires add.Keys <= cwd.Keys
    ensures ReportsChanges(changes, cur, add, remove, cwd, sha1)
  {
    changes := {};
    var todo := cur.Keys;
    while todo != {}
      invariant todo <= cur.Keys
      invariant forall f :: Modified(f) in changes <==>
                  f in cur && f !in todo && f in cwd && sha1(cwd[f]) != cur[f]
      invariant forall f :: Deleted(f) in changes <==>
                  f in cur && f !in todo && f !in cwd && f !in remove
      decreases todo
    {
      var f :| f in todo;
      if f in cwd {
        if cur[f] != sha1(cwd[f]) {
          changes := changes + {Modified(f)};
        }
      } else if f !in remove {
        changes := changes + {Deleted(f)};
      }
      todo := todo - {f};
    }
    todo := add.Keys;
    while todo != {}
      invariant todo <= add.Keys
      invariant forall f :: Modified(f) in changes <==>
                  (f in cur && f in cwd && sha1(cwd[f]) != cur[f]) || (f in add && f !in todo && sha1(cwd[f]) != add[f])
      invariant forall f :: Deleted(f) in changes <==> f in cur && f !in cwd && f !in remove
      decreases todo
    {
      var f :| f in todo;
      var curHash := sha1(cwd[f]);
      if add[f] != curHash {
        changes := changes + {Modified(f)};
      }
      todo := todo - {f};
    }
  }

  datatype Report = Report(current: string, otherBranches: set<string>, staged: set<string>,
                           removed: seq<string>, changes: set<Change>, untracked: set<string>)

  /** `status`: the current branch, the other branches, the staged additions,
      the staged removals in order, the unstaged changes, and the files in the
      working directory that are neither staged nor tracked. */
  method Status(branches: map<string, string>, head: string, cur: map<string, string>,
                add: map<string, string>, remove: seq<string>, cwd: map<string, seq<byte>>,
                sha1: seq<byte> -> string)
    returns (r: Report)
    requires add.Keys <= cwd.Keys
    ensures r.current == head
    ensures forall b :: b in r.otherBranches <==> b in branches && b != head && b != HeadFile
    ensures r.staged == add.Keys && r.removed == remove
    ensures ReportsChanges(r.changes, cur, add, remove, cwd, sha1)
    ensures forall f :: f in r.untracked <==> f in cwd && f !in add && f !in cur
  {
    var others := branches.Keys - {HeadFile} - {head};
    var changes := CheckModCommit(cur, add, remove, cwd, sha1);
    var untracked := set f | f in cwd && f !in add && f !in cur;
    r := Report(head, others, add.Keys, remove, changes, untracked);
  }
}
