# Gitlet in Dafny

A model of Gitlet, a small version-control system. Gitlet has these parts:

- **Commits** are immutable records. Each has a message, a date, an optional parent id and a tree. The tree maps file names to content digests. A commit's id is the SHA-1 digest of its serialized fields.
- **The blob store** holds file contents under their digests.
- **Branches** are named pointers to commit ids.
- **`head`** names the current branch.
- **The staging area** holds a map of files staged for addition and a list of files staged for removal.
- **The working directory** holds the user's files.

The repository keeps each of these as files under `.gitlet/`. Here they are in-memory maps:

- `Gitlet.Repo` is a class with the fields `commits`, `blobs`, `branches`, `head` and `cwd`, and a `Staging` object.
- Every modelled command of `Main` is a method on `Repo`. `globalLog` is not modelled.
  - The commands that change state, and `merge`, return an `Outcome`: `Ok`, or the error the command prints.
  - `log`, `find` and `status` return what they would print, as values.
- Each state-changing command's `ensures` gives its complete new state as an update of `Snapshot()`, the state before the call.
- Every command keeps `Valid()`. `Valid()` has four parts:
  - head names a branch, and every branch names a stored commit;
  - every commit is stored under its own well-formed id, and its parent links reach a root in finitely many steps;
  - every digest that a commit or the stage names is a stored blob, stored under its own digest;
  - no file is staged both for addition and for removal.

Most loops of the source are `while` loops with invariants.

These loops are proved against a function that gives their result in one step:

- `FoldStage` against `CommitTree`;
- `WriteTree` against `Materialized`;
- `GetShortId` against `FirstWithPrefix`;
- `Find` against `Matching`;
- `CheckUntracked` (the untracked-file guard of `checkoutBranch` and `reset`) against `BlockedByUntracked`.

These loops are proved against a postcondition instead:

- `Log`, against the chain of parent links;
- `CheckModCommit`, against the predicate `ReportsChanges`;
- `AppendKeys`, against a multiset equation.

These source loops are expressions in the model, not loops:

- the untracked-file guard inside `mergeUntracked` (gitlet/Main.java:653-662) is the predicate `BlockedByUntracked`, because `MergeError` is a function;
- the listing loops of `status` (gitlet/Main.java:451-454, 463-465, 470-472, 493-498) are set expressions in `WorkingTree.Status`.

The SHA-1 digest and Java serialization are parameters of the repository: `sha1: seq<byte> -> string` and `serialize: Fields -> seq<byte>`. The clock is a parameter `now` of `CommitFiles`. The directory listing of the commit store is a parameter `ids`. The predicate `Lists` ties `ids` to the stored commits: each stored id appears exactly once.

Modules:

- `Common`: outcomes, bytes, and `ArrayList.remove` as `RemoveFirst`.
- `StagingArea`: the `Staging` class.
- `Commits`: the commit record.
- `History`: `log`, `getShortID` and `find`.
- `Trees`: folding the stage into a tree, and writing a tree out.
- `WorkingTree`: `status` and `checkModCommit`.
- `MergeChecks`: the merge checks and helpers.
- `Gitlet`: the repository and its commands.

## Model

| member | source | states |
|---|---|---|
| StagingArea.Staging.constructor | gitlet/Staging.java:18-21 | A new stage has an empty add map and an empty remove list. |
| StagingArea.Staging.Clear | gitlet/Staging.java:23-26 | After clear, the add map and the remove list are both empty. |
| StagingArea.Staging.Add | gitlet/Staging.java:36-38 | The add map maps the file to the digest. Every other entry and the whole remove list are unchanged. |
| StagingArea.Staging.AddRemove | gitlet/Staging.java:40-42 | The name is appended to the remove list, even if it is already there, so its count rises by one. The add map is unchanged. |
| StagingArea.AddTwice | gitlet/Staging.java:36-38 | Staging the same file and digest twice leaves the same state as staging it once. |
| Commits.Create | gitlet/Commit.java:34-47 | Message, tree and parent are stored unchanged. A root commit is dated at the epoch and any other commit at the creation time. The id is the digest of the serialized fields. |
| Commits.Initial | gitlet/Main.java:118-120 | The root commit has the message "initial commit", an empty tree, no parent and the epoch date. |
| Commits.RootIgnoresClock | gitlet/Commit.java:39-46 | A root commit does not depend on the clock, so its id does not either. |
| Commits.IdDeterminesCommit | gitlet/Commit.java:46 | If the digest has no collisions, two well-formed commits with the same id are equal in every field. |
| Common.RemoveFirst | gitlet/Main.java:150-151 | Removing a name from the remove list drops exactly one occurrence if there is one (multiset difference), and adds no element. |
| Common.RemoveFirstKeepsPrefix | gitlet/Main.java:160-161 | The occurrence removed is the first one: the elements before it and after it keep their order. |
| History.Log | gitlet/Main.java:238-257 | The entries start at the current commit. Each entry is a stored commit whose parent is the next entry. The last entry is a root. The loop terminates because parents rank lower. |
| History.FirstWithPrefix | gitlet/Main.java:357-365 | The result is the first listed file name ("id.txt") that starts with the prefix, or none when no name does. |
| History.GetShortId | gitlet/Main.java:357-365 | The loop returns the first listed file name that starts with the short id, or null. |
| History.Matching | gitlet/Main.java:417-439 | An id is among the matches exactly when it is listed and its commit has the message. There are never more matches than listed ids. |
| History.MatchingStep | gitlet/Main.java:422-429 | One more listed id extends the matches by that id when its message matches, and by nothing otherwise. |
| History.Find | gitlet/Main.java:417-439 | The loop collects, in listing order, the ids whose commit has the message. |
| Trees.CommitTreeSpec | gitlet/Main.java:193-200 | A name is in the new tree exactly when it is in the current tree or staged, and not staged for removal. A staged name maps to its staged digest, and any other name keeps its digest. |
| Trees.FoldStage | gitlet/Main.java:193-200 | The two loops of commitFiles produce the current tree overridden by the staged additions, minus the staged removals. |
| Trees.PutAdditions | gitlet/Main.java:195-197 | Every staged addition overrides the tree, and the rest of the tree is kept. |
| Trees.DropRemovals | gitlet/Main.java:198-200 | Exactly the names on the remove list leave the tree, and the remaining names keep their digests. |
| Trees.CheckUntracked | gitlet/Main.java:300-310 | The guard loop reports a blocking file exactly when some working file is untracked by the current tree and tracked by the target, which is `BlockedByUntracked`. The same guard is at gitlet/Main.java:586-595 and, as a predicate in MergeError, at gitlet/Main.java:653-662. |
| Trees.MaterializedSpec | gitlet/Main.java:312-327 | After a checkout, every file of the target tree holds its blob. A file tracked only by the current tree is gone. Every other file is as it was. |
| Trees.WriteTree | gitlet/Main.java:312-327 | The delete loop and the write loop together produce the materialized working directory. |
| Trees.DeleteUntracked | gitlet/Main.java:312-317 | Exactly the files tracked by the current tree but not by the target are deleted. |
| Trees.WriteBlobs | gitlet/Main.java:319-326 | Every file of the target tree is written with its blob's content, and the other files are untouched. |
| WorkingTree.CheckModCommit | gitlet/Main.java:502-534 | A file is reported modified exactly when it is tracked and its working copy's digest differs, or it is staged and its working copy differs from the staged digest. A file is reported deleted exactly when it is tracked, missing, and not staged for removal. |
| WorkingTree.Status | gitlet/Main.java:441-500 | The report gives the current branch; every other branch except the head pointer; the staged names; the removal list in order; the unstaged changes; and the untracked files, meaning files present but neither staged nor tracked. |
| MergeChecks.IsModified | gitlet/Main.java:680-699 | With no split entry, the call throws. Otherwise it returns null if neither side changed the file, split if both did, other if only other did, and curr if only curr did. Null is returned only when neither changed, so the final return null is dead. |
| MergeChecks.AppendKeys | gitlet/Main.java:701-722 | One loop appends every key of the map, with no key skipped, because the contains test never matches. |
| MergeChecks.FindAllFiles | gitlet/Main.java:701-722 | The list holds split's names, then curr's, then other's. Its length is the sum of the three tree sizes, duplicates included. |
| MergeChecks.MergeError | gitlet/Main.java:630-664 | The checks run in order: uncommitted changes, then an unknown branch, then a merge with itself, then the untracked-file guard. Each outcome is stated as an if-and-only-if. |
| Gitlet.ResetTarget | gitlet/Main.java:572-575 | A full-length id is looked up as given. A short id becomes the first listed file name ("id.txt") that starts with it. It becomes the string "null" exactly when no listed name starts with it. |
| Gitlet.ResetName | gitlet/Main.java:573-575 | The resolution step of reset computes ResetTarget. |
| Gitlet.ShortResetMisses | gitlet/Main.java:572-579 | When commit ids have full length, reset with a short id never finds a commit. |
| Gitlet.CheckoutTarget | gitlet/Main.java:367-371 | A full-length id is looked up as given. A short id resolves to the first listed id whose file name ("id.txt") starts with it: stripping the four-character suffix recovers that id. There is no result exactly when no listed name starts with it. |
| Gitlet.CheckoutRestoresStaged | gitlet/Main.java:193-200 | A file staged for addition and not for removal is in the new commit's tree. When that commit is later checked out, from any current tree, the file is written back with its staged content (gitlet/Main.java:319-326). |
| Gitlet.CollisionFreeNoClash | gitlet/Commit.java:46 | If the digest has no collisions, a new commit's id is either fresh or already names that very commit, which is what `CommitFiles` assumes. |
| Gitlet.NewCommit | gitlet/Main.java:193-206 | The new commit has the given message and date, the current commit as parent, and the folded tree. |
| Gitlet.CommitKeepsInvariant | gitlet/Main.java:193-211 | Storing the new commit, moving the current branch to it and emptying the stage keeps the repository invariant. |
| Gitlet.HistoryExtend | gitlet/Main.java:206-208 | A new commit whose parent is stored keeps every commit well formed and every history finite. |
| Gitlet.StoreExtend | gitlet/Main.java:206-208 | A new commit whose tree names stored blobs keeps the store closed. |
| Gitlet.StoreBlob | gitlet/Main.java:157-158 | Storing content under its own digest keeps the store closed. |
| Gitlet.UnqueueKeepsStage | gitlet/Main.java:150-151 | Taking a name off the remove list keeps the stage consistent. |
| Gitlet.StageKeepsStage | gitlet/Main.java:162-163 | Staging a name that is not on the remove list, under a stored digest, keeps the stage consistent. |
| Gitlet.CheckoutKeepsInvariant | gitlet/Main.java:329-332 | Pointing head or a branch at a stored commit and emptying the stage keeps the invariant, whatever the working directory holds. |
| Gitlet.Repo.CurrentCommit | gitlet/Main.java:174-180 | The current commit is the stored commit that the current branch names. |
| Gitlet.Repo.Init | gitlet/Main.java:105-134 | The new repository has one root commit, the branch master pointing at it and checked out, an empty stage and an empty blob store. The repository uses the digest and serialization it is given. The invariant holds. |
| Gitlet.Repo.Add | gitlet/Main.java:141-171 | A missing file changes nothing. A file whose digest matches the current commit is only taken off the remove list. Any other file has its content stored under its digest; it is then taken off the remove list if it is on it, and otherwise staged. An earlier staged addition is never withdrawn. |
| Gitlet.Repo.CommitFiles | gitlet/Main.java:182-214 | An empty stage gives "no changes", which is checked before the empty message. Either error leaves the state unchanged. Otherwise the new commit is stored, the current branch moves to it and the stage is emptied. The invariant is kept. |
| Gitlet.Repo.Record | gitlet/Main.java:193-211 | The successful part of a commit: the state afterwards is exactly the old state with the new commit recorded. |
| Gitlet.Repo.Rm | gitlet/Main.java:216-236 | The file is unstaged. If it is tracked, it is queued for removal and deleted from the working directory. "No reason to remove" is returned exactly when neither applies, and then nothing changes. |
| Gitlet.Repo.Log | gitlet/Main.java:238-257 | The history runs from the current commit to a root, following parent links. |
| Gitlet.Repo.Find | gitlet/Main.java:417-439 | The result is exactly the stored ids whose message matches, in listing order. |
| Gitlet.Repo.Status | gitlet/Main.java:441-500 | The report on the repository's own state, as in WorkingTree.Status. |
| Gitlet.Repo.CheckoutBranch | gitlet/Main.java:276-334 | An unknown branch, the current branch, or an untracked file in the way each change nothing. Otherwise the branch's tree is written out, the stage is emptied and head names the branch. |
| Gitlet.Repo.CheckoutFile | gitlet/Main.java:336-355 | A file the current commit does not track is an error that changes nothing. Otherwise only that file's working copy changes, and it becomes the committed content. |
| Gitlet.Repo.CheckoutCommit | gitlet/Main.java:367-398 | A short id that matches nothing fails on a null id. Next come an unknown commit, then a file not in that commit. Each error changes nothing. Otherwise only that file's working copy changes. |
| Gitlet.Repo.Branch | gitlet/Main.java:546-557 | A taken name, including the head pointer file's name, changes nothing. Otherwise the new branch points at the current commit and nothing else changes. |
| Gitlet.Repo.RmBranch | gitlet/Main.java:559-569 | Removing the current branch is refused and an unknown branch is reported. Neither changes anything. Otherwise only that branch pointer is deleted. |
| Gitlet.Repo.Reset | gitlet/Main.java:572-619 | An unknown commit or an untracked file in the way changes nothing. Otherwise the commit's tree is written out, the stage is emptied and the current branch points at the commit. |
| Gitlet.Repo.SwitchTo | gitlet/Main.java:312-332 | The shared end of checkout and reset: the target tree is written out, the stage is emptied, head and the branches take their new values, and the invariant is kept. |
| Gitlet.Repo.Merge | gitlet/Main.java:620-628 | The result of merge is the outcome of its error checks. It changes no state. |

## Left out

- All file I/O through `Utils` is left out. This covers reading and writing contents and objects, deleting files, listing directories, and creating directories in `init`. `Utils.java` is not part of this model. The state is the in-memory maps instead.
- `init`'s refusal when `.gitlet` already exists is not modelled. `Init` always builds a fresh repository.
- SHA-1 and Java serialization are parameters. Nothing is proved about digests beyond what `NoClash` and `CollisionFree` state.
- Gitlet.Repo.CommitFiles: requires `NoClash`, that the new commit's id is fresh or already names that same commit. The source assumes this without checking it; on a clash it would overwrite the stored commit. `CollisionFreeNoClash` shows that a digest with no collisions at all always meets it.
- The identifier length `Utils.UID_LENGTH` is taken to be 40, the length of a SHA-1 hex digest.
- Date formatting and the system clock are left out. A date is an integer instant, `now` is a parameter, and the root commit is dated 0.
- Console text and command dispatch are left out. This covers `main`, the operand parsing of `checkout`, and the `ArrayIndexOutOfBoundsException` when a commit message is missing. Commands return an `Outcome` or a value instead of printing.
- `globalLog` is left out, because its output order is the order of the directory listing.
- `mergeFiles` is left out. It is never called, and it dereferences null whenever `isModified` returns null. `merge` itself stops after its checks.
- The head pointer is stored as `head.txt` in the branch directory, so every test for a branch file also sees a branch called "head". `Branch` faithfully refuses that name. The three commands below do not follow the source on "head".
- Gitlet.Repo.CheckoutBranch: on "head", the source reads the current branch's name as if it were a commit id, fails to read that commit, and crashes. The model returns `ReservedName` and changes nothing.
- MergeChecks.MergeError: on "head", the source's `mergeUntracked` makes the same wrong read and crashes. The model returns `ReservedName`.
- Gitlet.Repo.RmBranch: on "head", the source succeeds in deleting `head.txt` (gitlet/Main.java:565-566), so the repository loses its head pointer and later commands fail. The model refuses with `ReservedName` and changes nothing, because a repository without a head pointer breaks the invariant every command relies on.
- Gitlet.Repo.CheckoutCommit: the `NullPointerException` on a short id that matches nothing is the outcome `NullId`, with no state change.
- WorkingTree.CheckModCommit: the source reads every staged file before checking that it exists. The model requires every staged file to be in the working directory instead of modelling that exception, so the branch that reports a staged file as deleted is unreachable.
- WorkingTree.CheckModCommit and WorkingTree.Status report sets, not printed lines. The source prints branches, staged files and changes in `TreeMap` or listing order, and can print a name twice, once from each loop. The model keeps neither order nor duplicates. The removal list keeps its order.
- Java iterates a `TreeMap` in sorted key order. The model's loops take keys in any order, and their results do not depend on the order, except in FindAllFiles.
- MergeChecks.FindAllFiles: states each segment's contents as a multiset, not as a sorted order.
- `getAdd` and `getRemove` (gitlet/Staging.java:28-34) are not members of the model. They return the live collections, and `Main` edits those collections in place. The model writes each such edit as a direct assignment to the stage's fields, so aliasing of the collections is not modelled.
- Only commands on an initialized repository are modelled. The "Not in an initialized Gitlet directory" check of `status` is not.
