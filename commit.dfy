/** A commit record: immutable once built. Its id is the SHA-1 digest of its
    serialized fields, computed once when it is created. */
module Commits {
  import opened Common

  /** The time of the root commit: `new Date(0)`. Instants are milliseconds since then. */
  const Epoch: int := 0

  /** What is serialized to compute the id (the id field itself is still unset then). */
  datatype Fields = Fields(parent: Option<string>, log: string, blobs: map<string, string>, date: int)

  /** parent is None for the root commit; blobs maps file names to content digests. */
  datatype Commit = Commit(parent: Option<string>, hash: string, log: string,
                           blobs: map<string, string>, date: int)

  /** The digest of the serialized fields; both functions are supplied by the environment. */
  function CommitId(sha1: seq<byte> -> string, serialize: Fields -> seq<byte>, f: Fields): string {
    sha1(serialize(f))
  }

  function FieldsOf(c: Commit): Fields {
    Fields(c.parent, c.log, c.blobs, c.date)
  }

  /** The commit's id is the digest of its own fields. */
  ghost predicate WellFormed(sha1: seq<byte> -> string, serialize: Fields -> seq<byte>, c: Commit) {
    c.hash == CommitId(sha1, serialize, FieldsOf(c))
  }

  /** The digest never maps two different field sets to the same id. */
  ghost predicate CollisionFree(sha1: seq<byte> -> string, serialize: Fields -> seq<byte>) {
    forall x, y :: CommitId(sha1, serialize, x) == CommitId(sha1, serialize, y) ==> x == y
  }

  /** The constructor: message, blobs and parent are stored unchanged; a root
      commit is dated at the epoch, any other at `now`; the id is computed last. */
  function Create(log: string, inputBlobs: map<string, string>, parent: Option<string>, now: int,
                  sha1: seq<byte> -> string, serialize: Fields -> seq<byte>): (c: Commit)
    ensures c.log == log && c.blobs == inputBlobs && c.parent == parent
    ensures parent.None? ==> c.date == Epoch
    ensures parent.Some? ==> c.date == now
    ensures WellFormed(sha1, serialize, c)
  {
    var date := if parent.None? then Epoch else now;
    var f := Fields(parent, log, inputBlobs, date);
    Commit(parent, CommitId(sha1, serialize, f), log, inputBlobs, date)
  }

  /** The commit made by `init`. */
  function Initial(sha1: seq<byte> -> string, serialize: Fields -> seq<byte>): (c: Commit)
    ensures c.log == "initial commit" && c.blobs == map[] && c.parent == None
    ensures c.date == Epoch && WellFormed(sha1, serialize, c)
  {
    Create("initial commit", map[], None, Epoch, sha1, serialize)
  }

  /** A root commit, its date and its id do not depend on the clock. */
  lemma RootIgnoresClock(log: string, blobs: map<string, string>, now1: int, now2: int,
                         sha1: seq<byte> -> string, serialize: Fields -> seq<byte>)
    ensures Create(log, blobs, None, now1, sha1, serialize) == Create(log, blobs, None, now2, sha1, serialize)
  {
  }

  /** Under a collision-free digest, two well-formed commits with the same id are the same commit. */
  lemma IdDeterminesCommit(sha1: seq<byte> -> string, serialize: Fields -> seq<byte>, c1: Commit, c2: Commit)
    requires CollisionFree(sha1, serialize)
    requires WellFormed(sha1, serialize, c1) && WellFormed(sha1, serialize, c2)
    requires c1.hash == c2.hash
    ensures c1 == c2
  {
    assert CommitId(sha1, serialize, FieldsOf(c1)) == CommitId(sha1, serialize, FieldsOf(c2));
    assert FieldsOf(c1) == FieldsOf(c2);
  }
}
