/** File trees: folding the stage into the current commit's tree, and writing a
    commit's tree out to the working directory. */
module Trees {
  import opened Common

  /** The tree a commit records: the current tree, overridden by every staged
      addition, with every staged removal taken out. */
  function CommitTree(cur: map<string, string>, add: map<string, string>, remove: seq<string>)
    : map<string, string>
  {
    map f | f in cur.Keys + add.Keys && f !in remove :: if f in add then add[f] else cur[f]
  }

  lemma CommitTreeSpec(cur: map<string, string>, add: map<string, string>, remove: seq<string>, f: string)
    ensures f in CommitTree(cur, add, remove) <==> (f in cur || f in add) && f !in remove
    ensures f in add && f !in remove ==> CommitTree(cur, add, remove)[f] == add[f]
    ensures f in cur && f !in add && f !in remove ==> CommitTree(cur, add, remove)[f] == cur[f]
  {
  }

  /** The two loops of `commitFiles`: put every staged addition into a copy of
      the current tree, then remove every staged removal from it. */
  method FoldStage(cur: map<string, string>, add: map<string, string>, remove: seq<string>)
    returns (toCommit: map<string, string>)
    ensures toCommit == CommitTree(cur, add, remove)
  {
    var put := PutAdditions(cur, add);
    toCommit := DropRemovals(put, remove);
    assert toCommit.Keys == CommitTree(cur, add, remove).Keys;
  }

  /** The first loop of `commitFiles`: each staged addition overrides the tree. */
  method PutAdditions(cur: map<string, string>, add: map<string, string>)
    returns (put: map<string, string>)
    ensures put.Keys == cur.Keys + add.Keys
    ensures forall f :: f in put ==> put[f] == if f in add then add[f] else cur[f]
  {
    put := cur;
    var todo := add.Keys;
    while todo != {}
      invariant todo <= add.Keys
      invariant put.Keys == cur.Keys + (add.Keys - todo)
      invariant forall f :: f in put ==> put[f] == if f in add && f !in todo then add[f] else cur[f]
      decreases todo
    {
      var f :| f in todo;
      put := put[f := add[f]];
      todo := todo - {f};
    }
  }

  /** The second loop of `commitFiles`: each staged removal leaves the tree. */
  method DropRemovals(put: map<string, string>, remove: seq<string>)
    returns (kept: map<string, string>)
    ensures forall f :: f in kept <==> f in put && f !in remove
    ensures forall f :: f in kept ==> kept[f] == put[f]
  {
    kept := put;
    var i := 0;
    while i < |remove|
      invariant 0 <= i <= |remove|
      invariant forall f :: f in kept <==> f in put && f !in remove[..i]
      invariant forall f :: f in kept ==> kept[f] == put[f]
    {
      assert remove[..i + 1] == remove[..i] + [remove[i]];
      kept := kept - {remove[i]};
      i := i + 1;
    }
    assert remove[..i] == remove;
  }

  /** The guard shared by checkout of a branch, reset and merge: some file in the
      working directory is untracked by the current commit but tracked by the target. */
  predicate BlockedByUntracked(cwd: map<string, seq<byte>>, cur: map<string, string>, target: map<string, string>) {
    exists f :: f in cwd && f !in cur && f in target
  }

  /** The stored content that a tree records for one of its files. */
  function Content(tree: map<string, string>, f: string, blobs: map<string, seq<byte>>): seq<byte>
    requires f in tree && tree.Values <= blobs.Keys
  {
    assert tree[f] in tree.Values;
    blobs[tree[f]]
  }

  /** The loop of the untracked-file guard: it walks the working directory and
      stops at the first file that the current tree does not track and the target
      does. */
  method CheckUntracked(cwd: map<string, seq<byte>>, cur: map<string, string>, target: map<string, string>)
    returns (blocked: bool)
    ensures blocked <==> BlockedByUntracked(cwd, cur, target)
  {
    var todo := cwd.Keys;
    while todo != {}
      invariant todo <= cwd.Keys
      invariant forall f :: f in cwd && f !in todo ==> f in cur || f !in target
      decreases todo
    {
      var f :| f in todo;
      if f !in cur && f in target {
        return true;
      }
      todo := todo - {f};
    }
    return false;
  }

  /** The working directory after the target tree is written out over it: files
      tracked by the current tree but not the target are gone, every target file
      holds its blob, and everything else is as it was. */
  function Materialized(cwd: map<string, seq<byte>>, cur: map<string, string>,
                        target: map<string, string>, blobs: map<string, seq<byte>>)
    : map<string, seq<byte>>
    requires target.Values <= blobs.Keys
  {
    map f | f in target.Keys + (cwd.Keys - (cur.Keys - target.Keys)) ::
      if f in target then blobs[target[f]] else cwd[f]
  }

  lemma MaterializedSpec(cwd: map<string, seq<byte>>, cur: map<string, string>,
                         target: map<string, string>, blobs: map<string, seq<byte>>, f: string)
    requires target.Values <= blobs.Keys
    ensures var w := Materialized(cwd, cur, target, blobs);
      && (f in target ==> f in w && w[f] == blobs[target[f]])
      && (f in cur && f !in target ==> f !in w)
      && (f !in cur && f !in target ==> (f in w <==> f in cwd) && (f in w ==> w[f] == cwd[f]))
  {
  }

  /** The two loops of checking out a tree: delete what only the current tree
      tracks, then write every file of the target from its blob. */
  method WriteTree(cwd: map<string, seq<byte>>, cur: map<string, string>,
                   target: map<string, string>, blobs: map<string, seq<byte>>)
    returns (tree: map<string, seq<byte>>)
    requires target.Values <= blobs.Keys
    ensures tree == Materialized(cwd, cur, target, blobs)
  {
    var kept := DeleteUntracked(cwd, cur, target);
    tree := WriteBlobs(kept, target, blobs);
    assert tree.Keys == Materialized(cwd, cur, target, blobs).Keys;
  }

  /** First loop: every file the current tree tracks and the target does not is deleted. */
  method DeleteUntracked(cwd: map<string, seq<byte>>, cur: map<string, string>, target: map<string, string>)
    returns (tree: map<string, seq<byte>>)
    ensures tree.Keys == cwd.Keys - (cur.Keys - target.Keys)
    ensures forall f :: f in tree ==> tree[f] == cwd[f]
  {
    tree := cwd;
    var todo := cur.Keys;
    while todo != {}
      invariant todo <= cur.Keys
      invariant tree.Keys == cwd.Keys - (cur.Keys - todo - target.Keys)
      invariant forall f :: f in tree ==> tree[f] == cwd[f]
      decreases todo
    {
      var f :| f in todo;
      if f !in target {
        tree := tree - {f};
      }
      todo := todo - {f};
    }
  }

  /** Second loop: every file of the target is (over)written with its blob. */
  method WriteBlobs(cwd: map<string, seq<byte>>, target: map<string, string>, blobs: map<string, seq<byte>>)
    returns (tree: map<string, seq<byte>>)
    requires target.Values <= blobs.Keys
    ensures tree.Keys == cwd.Keys + target.Keys
    ensures forall f :: f in tree ==> tree[f] == if f in target then blobs[target[f]] else cwd[f]
  {
    tree := cwd;
    var todo := target.Keys;
    while todo != {}
      invariant todo <= target.Keys
      invariant tree.Keys == cwd.Keys + (target.Keys - todo)
      invariant forall f :: f in tree ==>
                  tree[f] == if f in target && f !in todo then blobs[target[f]] else cwd[f]
      decreases todo
    {
      var f :| f in todo;
      assert target[f] in target.Values;
      tree := tree[f := blobs[target[f]]];
      todo := todo - {f};
    }
  }
}
