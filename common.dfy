/** Small shared vocabulary: optional values, bytes, command outcomes and the
    list operations the repository borrows from java.util. */
module Common {

  datatype Option<+T> = None | Some(value: T)

  /** A byte of file content. */
  newtype byte = x: int | 0 <= x < 256

  /** Every command reports one of these; the console text of each is left to the shell. */
  datatype Outcome =
    | Ok
    | FileDoesNotExist          // add: the file is not in the working directory
    | NoChanges                 // commit: nothing staged
    | EmptyMessage              // commit: empty message
    | NoReasonToRemove          // rm: neither staged nor tracked
    | NoSuchBranch              // checkout, rm-branch, merge: unknown branch
    | NoNeedToCheckout          // checkout: the branch is the current one
    | UntrackedInTheWay         // checkout, reset, merge: an untracked file would be overwritten
    | FileNotInCommit           // checkout of one file: the commit does not track it
    | NoCommitWithId            // checkout of one file, reset: unknown commit id
    | NullId                    // checkout of one file: no commit id has the given prefix
    | BranchExists              // branch: the name is taken
    | CannotRemoveCurrent       // rm-branch: the branch is checked out
    | UncommittedChanges        // merge: the stage is not empty
    | MergeWithSelf             // merge: the branch is the current one
    | ReservedName              // the branch name is that of the head pointer file

  /** The name of the file holding the head pointer; it lives beside the branch files. */
  const HeadFile: string := "head"

  /** Suffix of every commit file name. */
  const FileSuffix: string := ".txt"

  /** Length of a full commit id (a SHA-1 digest in hexadecimal). */
  const UidLength: nat := 40

  predicate IsPrefix(p: string, s: string) {
    |p| <= |s| && s[..|p|] == p
  }

  /** ArrayList.remove(Object): drops the first occurrence of x, if any. */
  function RemoveFirst<T(==)>(s: seq<T>, x: T): (r: seq<T>)
    ensures x !in s ==> r == s
    ensures x in s ==> |r| == |s| - 1
    ensures multiset(r) == multiset(s) - multiset{x}
    ensures forall y :: y in r ==> y in s
  {
    if s == [] then []
    else
      assert s == [s[0]] + s[1..];
      if s[0] == x then s[1..]
      else [s[0]] + RemoveFirst(s[1..], x)
  }

  /** The first occurrence is the one removed: the elements before it stay in place. */
  lemma {:induction false} RemoveFirstKeepsPrefix<T>(s: seq<T>, x: T, i: nat)
    requires i < |s| && x == s[i] && x !in s[..i]
    ensures RemoveFirst(s, x) == s[..i] + s[i + 1..]
  {
    if i == 0 {
      assert s[..0] + s[1..] == s[1..];
    } else {
      assert s[0] == s[..i][0];
      assert s[1..][..i - 1] == s[1..i];
      RemoveFirstKeepsPrefix(s[1..], x, i - 1);
      RemoveFirstSkips(s, x);
      SplitAround(s, i);
    }
  }

  /** A head that is not x is kept in front. */
  lemma RemoveFirstSkips<T>(s: seq<T>, x: T)
    requires s != [] && s[0] != x
    ensures RemoveFirst(s, x) == [s[0]] + RemoveFirst(s[1..], x)
  {
  }

  lemma SplitAround<T>(s: seq<T>, i: nat)
    requires 0 < i < |s|
    ensures [s[0]] + (s[1..][..i - 1] + s[1..][i..]) == s[..i] + s[i + 1..]
  {
    assert [s[0]] + s[1..][..i - 1] == s[..i];
    assert s[1..][i..] == s[i + 1..];
  }
}
