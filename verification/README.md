# Gitlet, Lines of Action and db61b tables in Dafny

This project models three small, sequential cores as pure state transitions and
proves properties of them.

- **Gitlet** is a miniature version-control system. The model covers:
  - commit nodes: their id hashing and the root node without files;
  - the commit tree: the commit index, branches, head and current branch;
  - the repository commands `add`, `rm`, `commit`, `checkout` (all three
    forms), `branch`, `rm-branch`, `reset` and `merge`.

  The working directory, the staging area and the blob store are maps from
  names (or blob locations) to contents. The removal list is a multiset,
  because the source keeps it in a list that can hold a name twice. A command
  that prints an error and returns is a `Failure` that changes nothing. An
  exception escaping a command is `Crash`, since the program saves its
  repository object only after a command completes. Files a crashing command
  has already written are not modelled (see Left out).
- **Lines of Action** covers the board rules:
  - square designators;
  - `initialize` and `clear`;
  - `set`, `makeMove` and `retract`;
  - the line-of-action piece count, the blocking rule and move legality;
  - piece counting, the recursive flood fill and the end-of-game test;
  - board equality and the 32-bit hash code.
- **db61b** covers the `Table` class: distinct column titles, column lookup
  and set-semantics row insertion with an arity check.

The files are:

- `wrappers.dfy`: Option and Result.
- `table.dfy`: module `Tables`.
- `loa_board.dfy`: module `Loa`.
- `loa_groups.dfy`: module `LoaGroups`.
- `loa_equality.dfy`: module `LoaEquality`.
- `commit_node.dfy`: module `CommitNodes`.
- `commit_tree.dfy`: module `CommitTrees`.
- `gitlet.dfy`: module `Gitlets`.
- `merge.dfy`: module `Merges`.

Modelling choices:

- **SHA-1.** Commit ids come from a parameter `hash: HashInput -> Id`. An
  `Id` is a 40-character string.
- **File contents** stand for their own SHA-1.
- **Commit time** is a parameter.
- **Parent links.** A commit holds its parent node itself, as the Java
  object does. The commit map indexes nodes by id.
- **`HashMap` iteration order** is a parameter `order` that lists the map's
  keys. `findByShortid` and `findBymessage` depend on it.
- **Merge.** Each name `merge` visits is decided from the split point, the
  current head and the given head. Each such step changes only its own
  name's files, which `ApplyAction` states, so the model applies every step
  to the state before the merge and assembles the results name by name. If
  any step throws, the whole merge is `Crashed`.

Where a natural description of the system and the code differ, the model
follows the code:

- The merge commit message is `Merged <current branch> with <given branch>.`
  (proj3/gitlet/Gitlet.java:593-594).
- Both sides changing a file to the same new content is still a conflict.
  `fileModified(given, curr, f)` is never consulted in that branch
  (proj3/gitlet/Gitlet.java:516-519).
- `add` of a file identical to the head's blob does not remove an existing
  staged copy of it (proj3/gitlet/Gitlet.java:47-51).
- `checkout <branch>` deletes every working file, untracked ones included,
  before writing the branch's files (proj3/gitlet/Gitlet.java:269-276).
- `CommitNode.equal` compares ids with `==` on Java strings
  (proj3/gitlet/CommitNode.java:86). Java ids are always fresh SHA-1 strings,
  so this is identity of the string objects. The model compares the text,
  which is what the callers evidently mean.
- `mergeDe` tests "untracked file in the way" before "branch exists" (see
  Findings).

## Model

| member | source | states |
|---|---|---|
| Tables.ElementsCountIffDistinct | proj1/db61b/Table.java:23-29 | The set of titles has as many members as the title array has entries exactly when no title repeats, which is the duplicate check the constructor relies on. |
| Tables.NewTable | proj1/db61b/Table.java:20-45 | Construction fails exactly when two column titles coincide. Otherwise the table has the given name, one column per title, titles in order, and no rows. |
| Tables.ColumnIndex | proj1/db61b/Table.java:65-72 | Returns -1 exactly when no column has the title; otherwise the first column whose title matches. |
| Tables.Add | proj1/db61b/Table.java:75-87 | A row of the wrong length fails. Otherwise the row joins the row set, the result is true exactly when the row was new, and the size grows by one exactly then. |
| Tables.AddKeepsArity | proj1/db61b/Table.java:81-87 | Insertion keeps every row as long as the number of columns. |
| Tables.AddIdempotent | proj1/db61b/Table.java:81-87 | Adding the same row a second time reports false and leaves the table unchanged. |
| Loa.Reverse | proj2/loa/Board.java:376-400 | The reverse direction negates both steps, as the second loop of the piece count walks. |
| Loa.SetSquare | proj2/loa/Board.java:112-123 | The new grid holds the value on the chosen square and agrees with the old grid everywhere else. |
| Loa.Set | proj2/loa/Board.java:112-123 | `set` writes one square, leaves the other squares and the history alone, and changes the side to move only when one is given. |
| Loa.GridExt | proj2/loa/Board.java:81-83 | Two grids that agree on every square are the same grid. |
| Loa.SquareAt | proj2/loa/Board.java:265-275 | The i-th square of the row-major walk is on the board and has index i. |
| Loa.IndexInjective | proj2/loa/Board.java:265-275 | Every on-board square has an index below 64, and the walk reaches it at exactly that index. |
| Loa.Col | proj2/loa/Board.java:94-99 | A column is produced exactly for designators "a1".."h8", and it lies in 1..8; anything else throws. |
| Loa.Row | proj2/loa/Board.java:103-108 | A row is produced exactly for designators "a1".."h8", and it lies in 1..8; anything else throws. |
| Loa.DesignatorRoundTrip | proj2/loa/Board.java:94-108 | Reading the designator of any on-board square gives back its column and row. |
| Loa.DesignatorOnto | proj2/loa/Board.java:94-108 | Every valid designator is the designator of the square it denotes. |
| Loa.Initialize | proj2/loa/Board.java:47-59 | After `initialize`, every square holds the corresponding entry of the contents, the given side moves, and no moves have been made. |
| Loa.InitializeIsContents | proj2/loa/Board.java:47-59 | A board that agrees with the contents on every square has exactly the contents as its grid. |
| Loa.Clear | proj2/loa/Board.java:62-64 | `clear` gives the standard starting position with black to move and an empty history. |
| Loa.MakeMove | proj2/loa/Board.java:126-138 | A move empties its source square, puts the moved piece on its target, and leaves every other square alone. It flips the side to move and adds one move to the history. |
| Loa.Retract | proj2/loa/Board.java:142-152 | Retracting throws exactly when no moves have been made. Otherwise it drops the last move from the history and flips the side to move back. The last move's source gets the moved piece back, and its target, if different, gets the replaced piece back. Every other square is unchanged. |
| Loa.OppositeInvolutive | proj2/loa/Board.java:151 | Taking the opposite side twice gives back the original side. |
| Loa.RetractUndoesMakeMove | proj2/loa/Board.java:126-152 | Given that the move records the source and target contents, retracting right after it restores the whole board: squares, side to move and history. |
| Loa.MoveDirectionSigns | proj2/loa/Board.java:346-372 | For a move that goes somewhere, its direction's column and row steps are the signs of the displacement. |
| Loa.PieceCountAlongIsLineCount | proj2/loa/Board.java:376-400 | `pieceCountAlong` is the number of pieces on the whole line through the square, the square itself counted once whether or not it is occupied. |
| Loa.LineMoveShape | proj2/loa/Board.java:346-372 | A move along one of the eight lines ends exactly its length times its direction away from its source. |
| Loa.BlockedIsRule | proj2/loa/Board.java:404-423 | For every line move, `blocked` holds exactly when an opposing piece lies strictly between source and target, or the target holds the mover's own piece. |
| Loa.IsLegalIsRule | proj2/loa/Board.java:165-182 | For every line move, `isLegal` is the LOA rule: the move is unblocked and its length equals the number of pieces on its line. A move off the eight lines is never reported legal. |
| Loa.IsLegalNull | proj2/loa/Board.java:165-168 | A null move is illegal. |
| LoaGroups.NbrSymmetric | proj2/loa/Board.java:241-260 | Stepping to a neighbour and back in the reverse direction returns to the square, so adjacency is symmetric. |
| LoaGroups.Pieces | proj2/loa/Board.java:265-275 | The set holds exactly the on-board squares occupied by the side. |
| LoaGroups.NumPiecesIsCard | proj2/loa/Board.java:265-275 | `numPieces` counts exactly the side's pieces. |
| LoaGroups.FirstPiece | proj2/loa/Board.java:206-233 | The search from position i finds the side's first piece in row-major order at or after i, and finds none exactly when no such piece exists. |
| LoaGroups.NoFirstPieceNoPieces | proj2/loa/Board.java:213-226 | When the search finds no piece, the side has no pieces. |
| LoaGroups.Mark | proj2/loa/Board.java:241-260 | The flood fill only grows the marked set. Its count is the number of squares it adds, and every added square holds a piece of the side. The start square and every added square have all their same-side neighbours marked. |
| LoaGroups.MarkDirs | proj2/loa/Board.java:245-259 | The direction loop keeps the same facts. Every same-side neighbour in the remaining directions ends up marked. |
| LoaGroups.MarkStaysInClosed | proj2/loa/Board.java:241-260 | Starting inside a set closed under adjacency between pieces, the flood fill never marks outside it. |
| LoaGroups.ComplementClosed | proj2/loa/Board.java:241-260 | The pieces outside a closed set form a closed set too. |
| LoaGroups.MarkedClosed | proj2/loa/Board.java:227-232 | The fill from a piece marks a closed set of the side's pieces containing that piece. |
| LoaGroups.AllMarkedContiguous | proj2/loa/Board.java:227-232 | When the fill from one piece marks all of the side's pieces, they form one connected group. |
| LoaGroups.PiecesContiguousIff | proj2/loa/Board.java:206-233 | `piecesContiguous` holds exactly when the side's pieces form one 8-connected group; a side with no pieces counts as contiguous. |
| LoaGroups.GameOver | proj2/loa/Board.java:201-203 | The game is over exactly when either side's pieces form one group. |
| LoaEquality.EqualsIff | proj2/loa/Board.java:285-298 | Two boards are `equals` exactly when all 64 squares and the side to move agree; the move history plays no part. |
| LoaEquality.Wrap32 | proj2/loa/Board.java:301-310 | Java `int` arithmetic: the result is in the signed 32-bit range and congruent to the input modulo 2^32. |
| LoaEquality.WrapCongruent | proj2/loa/Board.java:301-310 | Numbers congruent modulo 2^32 wrap to the same `int`. |
| LoaEquality.HashNum | proj2/loa/Board.java:315-322 | Each piece gets a distinct digit in 0..2: EMP is 0, BP is 1, WP is 2. |
| LoaEquality.HashCode | proj2/loa/Board.java:301-310 | The hash code is a signed 32-bit value. |
| LoaEquality.HashCodeIsBase3 | proj2/loa/Board.java:301-310 | The wrapping loop computes the board read as a base-3 number (each square a digit, then one trailing 0 digit) truncated to 32 bits. |
| LoaEquality.EqualsSameHash | proj2/loa/Board.java:285-310 | Boards that are `equals` have the same hash code. |
| CommitNodes.NewNode | proj3/gitlet/CommitNode.java:15-34 | A node keeps the given time, message and parent. Without a file map it tracks nothing and records no blobs. The id hashes the tracked names, the parent's id, the time and the message when both files and parent are given, and only the time and the message otherwise. |
| CommitNodes.IdIgnoresContents | proj3/gitlet/CommitNode.java:28-33 | Nodes with the same file names, the same parent id, time and message get the same id, whatever the file contents and blob locations. |
| CommitNodes.Equal | proj3/gitlet/CommitNode.java:81-87 | `equal(null)` is false; otherwise the result is whether the two ids agree. |
| CommitNodes.EqualOnlyIds | proj3/gitlet/CommitNode.java:81-87 | Nodes with equal ids are interchangeable as arguments of `equal`, and every node is `equal` to itself. |
| CommitNodes.UpdateFilepath | proj3/gitlet/CommitNode.java:99-101 | Only the blob locations change; time, message, id, tracked files and parent stay. |
| CommitTrees.EmptyTree | proj3/gitlet/CommitTree.java:12-16 | A new tree has no commits, no branches, no head and no current branch. |
| CommitTrees.Add | proj3/gitlet/CommitTree.java:20-27 | The child is stored under its id and becomes the head. The current branch, if there is one, moves to the child. |
| CommitTrees.AddKeepsHeadOnBranch | proj3/gitlet/CommitTree.java:20-27 | After `add`, the head is what the current branch names, no other branch moves, and no branch is created except the current one. |
| CommitTrees.FindById | proj3/gitlet/CommitTree.java:33-35 | Finds a node exactly when the id is stored, and then the node stored under it. |
| CommitTrees.FindByShortid | proj3/gitlet/CommitTree.java:41-48 | Finds a node exactly when some stored id starts with the prefix, and the node found is stored under such an id. |
| CommitTrees.FindByShortidUnique | proj3/gitlet/CommitTree.java:41-48 | When exactly one stored id has the prefix, that commit is found, whatever the iteration order. |
| CommitTrees.FindByShortidWholeId | proj3/gitlet/CommitTree.java:33-48 | A lookup by a full-length id agrees with `findByid`. |
| CommitTrees.FindBymessage | proj3/gitlet/CommitTree.java:54-62 | Every result has the message and is stored. Every stored commit listed in the order with that message is among the results. |
| CommitTrees.FindBymessageInOrder | proj3/gitlet/CommitTree.java:54-62 | The results follow the iteration order: searching a split order gives the first part's results followed by the second part's. |
| CommitTrees.FindBymessageExact | proj3/gitlet/CommitTree.java:54-62 | Over the full iteration order, the results are exactly the stored commits with the message. |
| CommitTrees.AddBranch | proj3/gitlet/CommitTree.java:69-75 | An existing name gives false and nothing changes. Otherwise the result is true and the name is added at the commit. |
| CommitTrees.UpdateBranch | proj3/gitlet/CommitTree.java:80-86 | An unknown name changes nothing. A known name is moved to the commit. Commits, head and current branch stay. |
| CommitTrees.SwitchBranch | proj3/gitlet/CommitTree.java:91-95 | The branch becomes current and the head is what it names (none for an unknown branch). Commits and branches stay. |
| CommitTrees.DeleteBranch | proj3/gitlet/CommitTree.java:123-125 | Exactly that name leaves the branches; every other branch, the commits, the head and the current branch stay. |
| CommitTrees.SwitchHead | proj3/gitlet/CommitTree.java:130-133 | The head becomes the commit and the current branch follows it, so the head stays on the current branch. |
| Gitlets.ReadyHeadIsBranch | proj3/gitlet/CommitTree.java:20-27 | In a repository between commands, the current branch exists and names the head commit. |
| Gitlets.Init | proj3/gitlet/Gitlet.java:20-32 | A new repository has exactly one commit, "initial commit" with no parent and no files, whose id hashes only the time and the message. `master` names it and is current. Nothing is staged or marked for removal. |
| Gitlets.SameAsHeadBlob | proj3/gitlet/Gitlet.java:374-387 | Throws exactly when the head records a blob for the file that is not stored. It is true exactly when that blob holds the working file's contents. |
| Gitlets.AddFile | proj3/gitlet/Gitlet.java:38-54 | A missing file fails. A file whose head blob is missing throws. Otherwise one removal mark of the file is dropped, and the file is staged with its contents unless they equal the head's blob. |
| Gitlets.Rm | proj3/gitlet/Gitlet.java:106-125 | Fails exactly when the file is neither staged nor tracked by the head. Otherwise the file is unstaged, and if tracked it is deleted from the working directory and marked once more for removal. |
| Gitlets.RmCorrected | proj3/gitlet/Gitlet.java:106-125 | As `rm`, except that a tracked name is marked for removal at most once. |
| Gitlets.AddUnmarks | proj3/gitlet/Gitlet.java:44-46 | While no name is marked twice, a successful `add` leaves the file unmarked and still no name marked twice. |
| Gitlets.RmCorrectedKeepsNoRepeats | proj3/gitlet/Gitlet.java:106-125 | The corrected `rm` never marks a name twice. |
| Gitlets.CommitFiles | proj3/gitlet/Gitlet.java:65-85 | A name is in the new snapshot exactly when the head tracks it or it is staged, and it is not marked for removal. A staged name takes its staged contents; any other takes the head's. |
| Gitlets.CommitNode | proj3/gitlet/Gitlet.java:65-99 | The new commit's parent is the head. It records the message, the time and the snapshot, and its id hashes the snapshot's names and the head's id. Staged files get blobs under the new id; unmarked head files keep their blobs. |
| Gitlets.CommitBlobs | proj3/gitlet/Gitlet.java:88-97 | The blob store gains exactly the staged files under the new commit's id, and nothing else changes. |
| Gitlets.Commit | proj3/gitlet/Gitlet.java:59-102 | An empty message fails, and so does a commit with nothing staged or marked; those are the only failures. A commit that succeeds adds the new node and moves the current branch and the head to it. It empties the staging area and the removal list and leaves the working directory alone. |
| Gitlets.CommitKeepsConsistent | proj3/gitlet/Gitlet.java:65-101 | When every blob the head records is stored and holds what the head tracks, the same holds for the new commit. |
| Gitlets.AddThenCommitTracks | proj3/gitlet/Gitlet.java:38-102 | Once a file is added, the next commit tracks it with the working contents (except when it was already staged with the head's contents). |
| Gitlets.RmTwiceThenAddDropsFile | proj3/gitlet/Gitlet.java:38-125 | As written: after two `rm`s, writing the file and adding it, one removal mark is left, and the next commit drops the file. |
| Gitlets.RmCorrectedTwiceThenAddTracksFile | proj3/gitlet/Gitlet.java:38-125 | With the corrected `rm`, the same steps leave the file unmarked, and a commit that follows tracks the contents written. |
| Gitlets.NotTracked | proj3/gitlet/Gitlet.java:293-308 | The untracked files are exactly the working files neither staged nor tracked by the head. |
| Gitlets.DeleteOrAddFirst | proj3/gitlet/Gitlet.java:353-368 | For a commit, true exactly when some untracked working file is tracked by it. For a missing commit, it throws exactly when there are untracked files, and is never true. |
| Gitlets.CheckoutHelper | proj3/gitlet/Gitlet.java:227-243 | Fails exactly when the commit records no stored blob for the file. Otherwise the working file gets the blob's contents and nothing else changes. |
| Gitlets.CheckoutRestores | proj3/gitlet/Gitlet.java:227-243 | For a commit whose blobs are stored, checking out a tracked file restores the contents the commit tracks. |
| Gitlets.CheckoutFile | proj3/gitlet/Gitlet.java:200-202 | `checkout -- f` copies the head commit's version. |
| Gitlets.Resolve | proj3/gitlet/Gitlet.java:210-222 | An id shorter than a full id is looked up as a prefix, and a full one exactly. The result is none exactly when no stored id starts with it, and a commit found is found again by its own id. |
| Gitlets.CheckoutCommitFile | proj3/gitlet/Gitlet.java:210-222 | An unknown commit fails; otherwise the file is copied from the commit the id names. |
| Gitlets.Snapshot | proj3/gitlet/Gitlet.java:269-276 | The working directory written holds exactly the commit's tracked files whose blobs are stored. When the commit is consistent, it holds its tracked contents. |
| Gitlets.CheckoutBranch | proj3/gitlet/Gitlet.java:253-289 | An unknown branch, an untracked file in the way, or the current branch fails, and nothing else does. On success the branch becomes current with its head, the working directory becomes the branch's snapshot, and the staging area is emptied. |
| Gitlets.Branch | proj3/gitlet/Gitlet.java:392-396 | An existing name fails. Otherwise a branch is added at the head, and nothing else changes. |
| Gitlets.RmBranch | proj3/gitlet/Gitlet.java:401-411 | An unknown name or the current branch fails, and nothing else does. On success that branch pointer is removed. Every other branch, the commits, the head, the staging area, the removal list, the working directory and the blobs stay as they were. |
| Gitlets.Reset | proj3/gitlet/Gitlet.java:417-450 | An unknown commit or an untracked file in the way fails, and nothing else does. On success, files the old head tracks that the commit does not are deleted, and the commit's files are written. The head and the current branch move to the commit, and the staging area is emptied. |
| Gitlets.UntrackedInTheWayAborts | proj3/gitlet/Gitlet.java:253-263 | When an untracked file would be overwritten, branch checkout and reset both refuse with that error and change nothing. |
| Merges.MergeDecision | proj3/gitlet/Gitlet.java:455-475 | The merge proceeds exactly when the branch exists, an untracked file is not in the way, nothing is staged or marked, and it is not the current branch; it proceeds with that branch's head. It throws exactly when the branch is missing and some file is untracked. |
| Merges.MergeDecisionCorrected | proj3/gitlet/Gitlet.java:455-475 | The same checks with the branch checked first: a missing branch always gives "does not exist", and nothing throws. |
| Merges.MissingBranchCrashes | proj3/gitlet/Gitlet.java:455-464 | As written: a missing branch with an untracked file present throws. The corrected order reports the missing branch instead. |
| Merges.DecisionsAgreeOnExistingBranch | proj3/gitlet/Gitlet.java:455-475 | Whenever the branch exists, both orders of the checks decide the same way. |
| Merges.Chain | proj3/gitlet/Gitlet.java:631-634 | A commit's chain starts at the commit, links each entry to the next through its parent, and ends at a commit without a parent. |
| Merges.History | proj3/gitlet/Gitlet.java:630-634 | The history holds exactly the ids on the current head's chain. |
| Merges.WalkBackNone | proj3/gitlet/Gitlet.java:640-643 | The walk runs off the root exactly when no commit on the given chain is in the history. |
| Merges.WalkBackFirst | proj3/gitlet/Gitlet.java:640-643 | When the walk stops, it stops at the first commit on the given chain whose id is in the history. |
| Merges.SplitPointSpec | proj3/gitlet/Gitlet.java:629-644 | `splitPoint` reports "given is an ancestor" exactly when the given id is on the current chain. Otherwise it returns the first commit on the given chain whose id is on the current chain, and throws exactly when there is none. |
| Merges.FileModified | proj3/gitlet/Gitlet.java:618-623 | A file counts as modified exactly when the second commit does not record the same content for it. |
| Merges.MergeTable | proj3/gitlet/Gitlet.java:513-585 | Per-name decision in the source's own terms: which commits track the name and which were modified since the split. It covers conflict, take-given, remove and keep. |
| Merges.ClassifyIsThreeWay | proj3/gitlet/Gitlet.java:513-585 | A name conflicts exactly when both sides changed since the split and they do not simply agree on a deletion (or on a name new to both). Otherwise the side that changed wins. |
| Merges.MergeText | proj3/gitlet/Gitlet.java:603-612 | The conflict text is "<<<<<<< HEAD\n", the working text, "=======\n", the given text, then ">>>>>>>\n". Its length is the two texts' lengths plus 29. |
| Merges.MergeTextReadsBack | proj3/gitlet/Gitlet.java:603-612 | Given the length of the working text, both texts can be read back from the conflict text. |
| Merges.CheckoutGiven | proj3/gitlet/Gitlet.java:522-525 | Checking out a given-branch file touches only that working file. For a consistent given commit it writes the given contents. |
| Merges.ConflictWrite | proj3/gitlet/Gitlet.java:603-612 | A conflict write throws unless the given blob exists and the file exists (or is created). Otherwise it replaces the working file with the conflict text. |
| Merges.ApplyAction | proj3/gitlet/Gitlet.java:513-585 | A merge step either throws or leaves every other name's working, staged and removal state unchanged, along with the tree and blob store. |
| Merges.Steps | proj3/gitlet/Gitlet.java:512-585 | The steps succeed exactly when every visited name's step succeeds, and then record one result per visited name. |
| Merges.Assemble | proj3/gitlet/Gitlet.java:512-585 | The merged state takes each visited name's files from its own step, and every other name from the state before the merge. |
| Merges.MergeFrom | proj3/gitlet/Gitlet.java:508-598 | The merge crashes exactly when some step throws. It stops as conflicting exactly when a flagged conflict occurs. Otherwise it commits with the message "Merged <current> with <given>." on top of the old head. |
| Merges.ActionEffect | proj3/gitlet/Gitlet.java:521-530 | A non-conflicting step stages the given version, marks the name for removal, or leaves the name alone, as its decision says. |
| Merges.AssembledFile | proj3/gitlet/Gitlet.java:512-585 | Each non-conflicting name enters the commit's snapshot with the version its decision resolves to. |
| Merges.MergeCommitFollowsThreeWay | proj3/gitlet/Gitlet.java:498-598 | A committed merge records, for every visited name without a conflict, the three-way result of the split, current and given versions. |
| Merges.ConflictTexts | proj3/gitlet/Gitlet.java:512-585 | After the steps, every conflicting name's working file holds the conflict text of its current and given versions. |
| Merges.UnflaggedConflictCommits | proj3/gitlet/Gitlet.java:563-598 | As written: a merge whose only conflicts are deleted-in-current and modified-in-given is never reported as conflicting. If it commits, that name is left out of the commit. |
| Merges.CorrectedFlagsEveryConflict | proj3/gitlet/Gitlet.java:498-598 | With every conflict flagged, a merge commits only when no visited name conflicts, and any conflict stops the commit. |
| Merges.Merge | proj3/gitlet/Gitlet.java:483-554 | As written: refusals come from the checks and the missing-branch crash passes through. The result is "ancestor" exactly when the given head is in the current history, and a crash when there is no common ancestor. A split point with the current head's id fast-forwards by `reset`. Any other split point runs the file steps and the commit against that split point, with the conflict flag as written. |
| Merges.MergeCommitsThreeWay | proj3/gitlet/Gitlet.java:498-598 | When `merge` commits, the split point exists, and every visited name without a conflict enters the commit with the three-way result of the split, current and given versions. |
| Merges.MergeCorrected | proj3/gitlet/Gitlet.java:483-554 | The corrected merge refuses with the corrected checks. Otherwise it takes the same ancestor, no-common-ancestor and fast-forward outcomes, and for any other split point runs the file steps and the commit with every conflict flagged. |

## Left out

- Printing commands (`log`, `global-log`, `find`, `status`, `printLog`) and the `modified()` listing: they only print. `find` is covered as `findBymessage`.
- Filesystem work (`copyFile`, `saveBlob`, the staging directory, temporary files): replaced by maps from names or blob locations to contents.
- The program's argument dispatcher and object serialization: only I/O. Crash semantics rely on state being saved after a command completes.
- `Utils.sha1` and `getTime`: these are the parameters `hash` and `time`. File contents stand for their own hashes, which assumes SHA-1 has no collisions.
- CommitNodes.NewNode, CommitNodes.IdIgnoresContents: the source hashes the string `keySet().toString()`; the model hashes the set of names instead. That string follows the map's internal order, so two maps with the same names can render differently and get different ids. Names containing ", " can also render alike for different sets ({"a, b"} and {"a", "b"} both give "[a, b]"). So the model's "same names, same id" is stated for the set, not for the rendered string.
- LoaEquality.Equals: the source takes any object and casts it without a check, so a null or non-board argument throws. The model compares two boards only, and LoaEquality.EqualsIff and LoaEquality.EqualsSameHash are stated for boards.
- Merges.MergeText: contents are modelled as text. `mergeFiles` decodes both files through the platform charset and encodes the result back (proj3/gitlet/Gitlet.java:606-611), so the conflict text is exact only for contents valid in that charset. A byte sequence that is not valid comes out changed; under UTF-8 a single byte FF becomes EF BF BD. Merges.MergeTextReadsBack is stated for text.
- CommitNodes.Equal: compares id text, not Java string identity. Two distinct string objects with the same text would compare unequal in the source.
- Partial effects of a crashed merge: the model reports only `Crashed` and keeps no state. Only the serialized repository object goes unsaved (the commit tree and the removal list). A merge that throws partway may already have changed working files, and it may have left files in the staging directory, which the next command reads. Neither effect is modelled.
- `HashMap` iteration order: it is the parameter `order`. The merge is modelled pointwise because its result does not depend on that order.
- CommitTrees.FindByShortid: requires a prefix of at most 40 characters. Every caller passes either a shorter prefix or a full id (which goes to `findByid`).
- CommitTrees.SwitchHead: a null current branch would store the head under a null key in the source. The model leaves the branches alone in that case; `Ready` states rule it out.
- Merges.MergeCommitFollowsThreeWay, Merges.MergeCommitsThreeWay, Merges.ActionEffect, Merges.AssembledFile: each assumes the following (`MergeReady`).
  - Nothing is staged or marked. `merge` checks this.
  - The head and the given head have every recorded blob stored with the recorded contents. The model does not prove that the commands keep this.
  - The given head is stored under its id. The model does not prove that the commands keep this either; it would need ids not to collide.
  - The head records blob locations only for names it tracks. Reachable states break this: after `rm f; rm f;`, rewriting `f`, `add f` and a commit, the new head drops `f` but keeps its blob location. A later merge whose given head has `f` with that stale blob's contents stages nothing for `f` (`add` compares against the head's blob location), so the merge commit drops `f` where the three-way result keeps it. These lemmas do not cover that state.
- Loa.Initialize: requires exactly 8x8 contents; the source needs at least 8x8 and ignores the rest.
- `Move`, `Piece` and `Direction` are not part of this model. A move is its two squares plus the moved and replaced pieces. Its length is the larger coordinate difference, and directions follow the compass order N, NE, E, SE, S, SW, W, NW. `Direction.NOWHERE` is never produced for a move that goes somewhere.
- `copyFrom`: it shares the piece array with its argument rather than copying it.
- `legalMoves`, `MoveIterator` and `isLegalMove`: the enumeration order of legal moves is not modelled.
- The AI player, the GUIs and the text interface: floating point, threads and I/O.
- Table `readTable`, `writeTable`, `print` and the command interpreter: file and console I/O, built on classes that are not part of this model.

## Findings

| source | as written | input that shows it | evidently intended | confidence | as-written member | corrected member |
|---|---|---|---|---|---|---|
| proj3/gitlet/Gitlet.java:106-125 | `rm` appends the name to the removal list every time; `add` removes one occurrence (44-46). | `rm f`; `rm f` (still tracked by the head); write `f`; `add f`; `commit m`. | `f` is tracked by the commit with the new contents. | not executed; the model shows the commit drops `f` | Gitlets.RmTwiceThenAddDropsFile | Gitlets.RmCorrectedTwiceThenAddTracksFile |
| proj3/gitlet/Gitlet.java:455-464 | `mergeDe` calls `deleteOrAddFirst` on the branch's commit before checking the branch exists. | `merge nosuch` with an untracked working file present: `deleteOrAddFirst(null)` dereferences null. | "A branch with that name does not exist." | not executed; the model shows the throw | Merges.MissingBranchCrashes | Merges.MergeDecisionCorrected |
| proj3/gitlet/Gitlet.java:572-582 | A conflict found in `mergeGiven` (deleted in current, modified in given) writes the conflict text but never sets the conflict flag (512, 553). | Split tracks `f`; the current branch removed `f`; the given branch changed `f`; no other conflicts. | "Encountered a merge conflict." and no commit. | not executed; the model shows the merge commits without `f` | Merges.UnflaggedConflictCommits | Merges.CorrectedFlagsEveryConflict |
