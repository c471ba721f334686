/** The staging area: files queued for addition (name to content digest) and
    files queued for removal (a list, in the order the removals were made). */
module StagingArea {

  /** The source's `getAdd` and `getRemove` hand out these two collections
      themselves, and their callers edit them in place; here those callers read
      and assign the fields directly. */
  class Staging {
    var addFiles: map<string, string>
    var removeFiles: seq<string>

    /** A fresh stage holds nothing. */
    constructor ()
      ensures addFiles == map[] && removeFiles == []
    {
      addFiles := map[];
      removeFiles := [];
    }

    method Clear()
      modifies this
      ensures addFiles == map[] && removeFiles == []
    {
      addFiles := map[];
      removeFiles := [];
    }

    /** Stages fileName with the given digest, replacing an earlier entry. */
    method Add(fileName: string, fileHash: string)
      modifies this
      ensures addFiles == old(addFiles)[fileName := fileHash]
      ensures fileName in addFiles && addFiles[fileName] == fileHash
      ensures forall f :: f != fileName ==> (f in addFiles <==> f in old(addFiles))
      ensures forall f :: f != fileName && f in addFiles ==> addFiles[f] == old(addFiles)[f]
      ensures removeFiles == old(removeFiles)
    {
      addFiles := addFiles[fileName := fileHash];
    }

    /** Queues fileName for removal; a name already queued is queued again. */
    method AddRemove(fileName: string)
      modifies this
      ensures removeFiles == old(removeFiles) + [fileName]
      ensures multiset(removeFiles)[fileName] == multiset(old(removeFiles))[fileName] + 1
      ensures addFiles == old(addFiles)
    {
      removeFiles := removeFiles + [fileName];
    }
  }

  /** Staging the same file with the same digest twice is the same as staging it once. */
  method AddTwice(s: Staging, fileName: string, fileHash: string)
    modifies s
    ensures s.addFiles == old(s.addFiles)[fileName := fileHash]
    ensures s.removeFiles == old(s.removeFiles)
  {
    s.Add(fileName, fileHash);
    ghost var once := s.addFiles;
    s.Add(fileName, fileHash);
    assert s.addFiles == once;
  }
}
