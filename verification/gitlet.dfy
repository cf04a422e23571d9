/** The Gitlet repository commands as state transitions. The working
    directory, the staging area and the blob store are maps from names (or
    blob locations) to contents; the removal list `untrackedFiles` is a
    multiset of names, since the source keeps it in an ArrayList that may hold
    a name twice. A command that prints an error message and stops returns a
    `Failure` and changes nothing; `Crash` stands for an exception escaping
    the command, after which the repository object is not saved (files the
    command already wrote are not modelled). */
module Gitlets {
  import opened Wrappers
  import opened CommitNodes
  import opened CommitTrees

  datatype Repo = Repo(
    tree: Tree,
    staged: map<string, Content>,
    removed: multiset<string>,
    wd: map<string, Content>,
    blobs: map<Loc, Content>)

  datatype GitError =
    | FileDoesNotExist
    | NoCommitMessage
    | NoChanges
    | NoReasonToRemove
    | FileNotInCommit
    | NoSuchCommit
    | NoSuchBranch
    | UntrackedInTheWay
    | AlreadyOnBranch
    | BranchExists
    | BranchDoesNotExist
    | CannotRemoveCurrent
    | UncommittedChanges
    | MergeWithSelf
    | Crash

  /** A repository between commands: a head commit and a current branch that
      names it. The constructor establishes this and every command keeps it. */
  predicate Ready(r: Repo) {
    r.tree.head.Some? && r.tree.current.Some? && HeadOnBranch(r.tree) && KeyedById(r.tree)
  }

  /** Every commit is stored under its own id, as `add` stores it. */
  predicate KeyedById(t: Tree) {
    forall k | k in t.commits :: t.commits[k].id == k
  }

  function Head(r: Repo): Node
    requires Ready(r)
  {
    r.tree.head.value
  }

  function Current(r: Repo): string
    requires Ready(r)
  {
    r.tree.current.value
  }

  lemma ReadyHeadIsBranch(r: Repo)
    requires Ready(r)
    ensures Current(r) in r.tree.branches && r.tree.branches[Current(r)] == Head(r)
  {
  }

  /** The names marked for removal. */
  function Names(m: multiset<string>): set<string> {
    set f | f in m
  }

  /** Every blob a node records for its tracked files is stored and holds the
      recorded content. */
  ghost predicate NodeConsistent(n: Node, blobs: map<Loc, Content>) {
    forall f | f in n.files ::
      f in n.filepath && n.filepath[f].name == f && n.filepath[f] in blobs && blobs[n.filepath[f]] == n.files[f]
  }

  const InitialMessage: string := "initial commit"
  const Master: string := "master"

  /** The `Gitlet` constructor: one commit, "initial commit", tracking nothing,
      on the current branch `master`. The working directory is left alone. */
  function Init(wd: map<string, Content>, time: string, hash: HashInput -> Id): (r: Repo)
    ensures Ready(r) && Current(r) == Master
    ensures var h := Head(r);
            h.message == InitialMessage && h.time == time && h.parent.None? &&
            h.files == map[] && h.filepath == map[] && h.id == hash(TimeMessage(time, InitialMessage))
    ensures r.tree.commits == map[Head(r).id := Head(r)] && r.tree.branches == map[Master := Head(r)]
    ensures r.staged == map[] && r.removed == multiset{} && r.wd == wd && r.blobs == map[]
  {
    var root := NewNode(time, InitialMessage, None, None, map[], hash);
    var t1 := Add(EmptyTree(), root);
    var t2 := AddBranch(t1, Master, root).1;
    Repo(SwitchBranch(t2, Master), map[], multiset{}, wd, map[])
  }

  // ------------------------------------------------------------ add, rm, commit

  /** `equalsFile(name, head's blob path)`: false without a recorded blob;
      None when the recorded blob is missing, which makes the read throw. */
  function SameAsHeadBlob(r: Repo, f: string): (e: Option<bool>)
    requires Ready(r) && f in r.wd
    ensures e.None? <==> f in Head(r).filepath && Head(r).filepath[f] !in r.blobs
    ensures e == Some(true) <==> (f in Head(r).filepath && Head(r).filepath[f] in r.blobs &&
                                  r.blobs[Head(r).filepath[f]] == r.wd[f])
  {
    var h := Head(r);
    if f !in h.filepath then Some(false)
    else if h.filepath[f] !in r.blobs then None
    else Some(r.blobs[h.filepath[f]] == r.wd[f])
  }

  /** `add(filename)`: unmark one removal of the file, then stage its working
      copy unless it matches the head commit's blob. A copy that matches does
      not unstage an earlier staged version. */
  function AddFile(r: Repo, f: string): (r': Result<Repo, GitError>)
    requires Ready(r)
    ensures f !in r.wd ==> r' == Failure(FileDoesNotExist)
    ensures f in r.wd ==> (r'.Failure? <==> SameAsHeadBlob(r, f).None?)
    ensures r'.Failure? && f in r.wd ==> r'.error == Crash
    ensures r'.Success? ==> var a := r'.value;
              f in r.wd && Ready(a) && a.tree == r.tree && a.wd == r.wd && a.blobs == r.blobs &&
              a.removed == r.removed - multiset{f} &&
              (SameAsHeadBlob(r, f) == Some(true) ==> a.staged == r.staged) &&
              (SameAsHeadBlob(r, f) == Some(false) ==> a.staged == r.staged[f := r.wd[f]])
  {
    if f !in r.wd then Failure(FileDoesNotExist)
    else
      var r1 := r.(removed := r.removed - multiset{f});
      match SameAsHeadBlob(r, f)
      case None => Failure(Crash)
      case Some(same) => if same then Success(r1) else Success(r1.(staged := r.staged[f := r.wd[f]]))
  }

  /** `rm(filename)`: unstage the file and, when the head commit tracks it,
      delete the working copy and mark it for removal (once more, even if it is
      already marked). */
  function Rm(r: Repo, f: string): (r': Result<Repo, GitError>)
    requires Ready(r)
    ensures r'.Failure? <==> f !in r.staged && f !in Head(r).files
    ensures r'.Failure? ==> r'.error == NoReasonToRemove
    ensures r'.Success? ==> var a := r'.value;
              Ready(a) && a.tree == r.tree && a.blobs == r.blobs && a.staged == r.staged - {f} &&
              (f in Head(r).files ==> a.wd == r.wd - {f} && a.removed == r.removed + multiset{f}) &&
              (f !in Head(r).files ==> a.wd == r.wd && a.removed == r.removed)
  {
    var tracked := f in Head(r).files;
    if f !in r.staged && !tracked then Failure(NoReasonToRemove)
    else
      var r1 := r.(staged := r.staged - {f});
      if tracked then Success(r1.(wd := r.wd - {f}, removed := r.removed + multiset{f}))
      else Success(r1)
  }

  /** `rm` with the removal list kept free of repeats: a name already marked
      is not marked again. */
  function RmCorrected(r: Repo, f: string): (r': Result<Repo, GitError>)
    requires Ready(r)
    ensures r'.Failure? <==> f !in r.staged && f !in Head(r).files
    ensures r'.Failure? ==> r'.error == NoReasonToRemove
    ensures r'.Success? ==> var a := r'.value;
              Ready(a) && a.tree == r.tree && a.blobs == r.blobs && a.staged == r.staged - {f} &&
              (f in Head(r).files ==> a.wd == r.wd - {f} && f in a.removed && a.removed[f] == 1) &&
              (forall g | g != f :: a.removed[g] == r.removed[g]) &&
              (f !in Head(r).files ==> a.wd == r.wd && a.removed == r.removed)
  {
    var tracked := f in Head(r).files;
    if f !in r.staged && !tracked then Failure(NoReasonToRemove)
    else
      var r1 := r.(staged := r.staged - {f});
      if tracked then
        var marks := if f in r.removed then r.removed else r.removed + multiset{f};
        Success(r1.(wd := r.wd - {f}, removed := marks[f := 1]))
      else Success(r1)
  }

  /** No name is marked for removal twice. */
  predicate NoRepeatedRemovals(r: Repo) {
    forall f | f in r.removed :: r.removed[f] == 1
  }

  /** Unmarking after a commit-free `rm`/`add` pair leaves the name unmarked
      when removals never repeat. */
  lemma AddUnmarks(r: Repo, f: string)
    requires Ready(r) && NoRepeatedRemovals(r) && AddFile(r, f).Success?
    ensures f !in AddFile(r, f).value.removed && NoRepeatedRemovals(AddFile(r, f).value)
  {
    var a := AddFile(r, f).value;
    forall g | g in a.removed ensures a.removed[g] == 1 {
      assert a.removed[g] <= r.removed[g];
    }
  }

  lemma RmCorrectedKeepsNoRepeats(r: Repo, f: string)
    requires Ready(r) && NoRepeatedRemovals(r) && RmCorrected(r, f).Success?
    ensures NoRepeatedRemovals(RmCorrected(r, f).value)
  {
  }

  /** The snapshot a commit records: the head's files overlaid with the staged
      versions, less every name marked for removal. */
  function CommitFiles(h: Node, staged: map<string, Content>, removed: multiset<string>): (files: map<string, Content>)
    ensures forall f :: f in files <==> (f in h.files || f in staged) && f !in removed
    ensures forall f | f in files :: files[f] == if f in staged then staged[f] else h.files[f]
  {
    (h.files + staged) - Names(removed)
  }

  /** The node `commit` builds: the snapshot above, blob locations of the
      parent less the removed names, and the staged files under the new id. */
  function CommitNode(r: Repo, message: string, time: string, hash: HashInput -> Id): (n: Node)
    requires Ready(r)
    ensures n.parent == Some(Head(r)) && n.message == message && n.time == time
    ensures n.files == CommitFiles(Head(r), r.staged, r.removed)
    ensures n.id == hash(NamesParentTimeMessage(n.files.Keys, Head(r).id, time, message))
    ensures forall f :: f in n.filepath <==> (f in Head(r).filepath && f !in r.removed) || f in r.staged
    ensures forall f | f in n.filepath :: n.filepath[f] == if f in r.staged then Loc(n.id, f) else Head(r).filepath[f]
  {
    var h := Head(r);
    var gone := Names(r.removed);
    var n0 := NewNode(time, message, Some(CommitFiles(h, r.staged, r.removed)), Some(h), h.filepath - gone, hash);
    UpdateFilepath(n0, (h.filepath - gone) + (map f | f in r.staged :: Loc(n0.id, f)))
  }

  /** The blob store after writing the staged files under commit `id`. */
  function CommitBlobs(r: Repo, id: Id): (blobs: map<Loc, Content>)
    ensures forall l :: l in blobs <==> l in r.blobs || (l.commit == id && l.name in r.staged)
    ensures forall l | l in blobs :: blobs[l] == if l.commit == id && l.name in r.staged then r.staged[l.name] else r.blobs[l]
  {
    r.blobs + (map f | f in r.staged :: Loc(id, f) := r.staged[f])
  }

  /** `commit(message)`: a new commit whose parent is the head, recording the
      staged files as blobs under the new id; the staging area and the removal
      list are emptied and head and current branch advance to it. */
  function Commit(r: Repo, message: string, time: string, hash: HashInput -> Id): (r': Result<Repo, GitError>)
    requires Ready(r)
    ensures message == "" ==> r' == Failure(NoCommitMessage)
    ensures message != "" && |r.staged| == 0 && |r.removed| == 0 ==> r' == Failure(NoChanges)
    ensures r'.Success? <==> message != "" && (|r.staged| != 0 || |r.removed| != 0)
    ensures r'.Success? ==> Ready(r'.value)
    ensures r'.Success? ==> var a := r'.value; var n := CommitNode(r, message, time, hash);
              a.tree.head == Some(n) && a.tree.current == r.tree.current &&
              a.tree.commits == r.tree.commits[n.id := n] &&
              a.tree.branches == r.tree.branches[Current(r) := n] &&
              a.staged == map[] && a.removed == multiset{} && a.wd == r.wd &&
              a.blobs == CommitBlobs(r, n.id)
  {
    if message == "" then Failure(NoCommitMessage)
    else if |r.staged| == 0 && |r.removed| == 0 then Failure(NoChanges)
    else
      var n := CommitNode(r, message, time, hash);
      Success(Repo(Add(r.tree, n), map[], multiset{}, r.wd, CommitBlobs(r, n.id)))
  }

  /** A commit records blobs that hold exactly what it tracks, given that its
      parent did. */
  lemma CommitKeepsConsistent(r: Repo, message: string, time: string, hash: HashInput -> Id)
    requires Ready(r) && NodeConsistent(Head(r), r.blobs)
    requires message != "" && (|r.staged| != 0 || |r.removed| != 0)
    ensures NodeConsistent(CommitNode(r, message, time, hash), CommitBlobs(r, CommitNode(r, message, time, hash).id))
  {
    var n := CommitNode(r, message, time, hash);
    var blobs := CommitBlobs(r, n.id);
    var h := Head(r);
    forall f | f in n.files
      ensures f in n.filepath && n.filepath[f].name == f && n.filepath[f] in blobs && blobs[n.filepath[f]] == n.files[f]
    {
      if f !in r.staged {
        assert f in h.files;
      }
    }
  }

  /** A file added (and so no longer marked) is tracked by the next commit
      with its working-copy contents, unless the copy matched the head's blob
      and an earlier version is still staged: `add` does not unstage. */
  lemma AddThenCommitTracks(r: Repo, f: string, message: string, time: string, hash: HashInput -> Id)
    requires Ready(r) && NoRepeatedRemovals(r) && AddFile(r, f).Success?
    requires NodeConsistent(Head(r), r.blobs) && (f in Head(r).filepath ==> f in Head(r).files)
    requires Commit(AddFile(r, f).value, message, time, hash).Success?
    ensures var n := CommitNode(AddFile(r, f).value, message, time, hash);
            f in n.files &&
            n.files[f] == if f in r.staged && SameAsHeadBlob(r, f) == Some(true) then r.staged[f] else r.wd[f]
  {
    AddUnmarks(r, f);
    var a := AddFile(r, f).value;
    var n := CommitNode(a, message, time, hash);
    assert f !in a.removed;
    if f !in a.staged {
      assert SameAsHeadBlob(r, f) == Some(true);
      assert f in Head(r).files && n.files[f] == Head(r).files[f];
    }
  }

  /** `rm` twice on a tracked file marks it twice; after the file is written
      again and added, one mark is left, so the next commit drops the file
      the user just added. */
  lemma RmTwiceThenAddDropsFile(r: Repo, f: string, c: Content, message: string, time: string, hash: HashInput -> Id)
    requires Ready(r) && f in Head(r).files && f !in r.removed
    requires f in Head(r).filepath && Head(r).filepath[f] in r.blobs
    ensures var r1 := Rm(r, f).value;
            var r2 := Rm(r1, f).value;
            var r3 := AddFile(r2.(wd := r2.wd[f := c]), f);
            r3.Success? && r3.value.removed[f] == 1 &&
            f !in CommitNode(r3.value, message, time, hash).files
  {
    var r1 := Rm(r, f).value;
    var r2 := Rm(r1, f).value;
    assert r2.removed[f] == 2;
  }

  /** The same steps with the corrected `rm` leave the file unmarked, and a
      commit that follows tracks the contents written. */
  lemma RmCorrectedTwiceThenAddTracksFile(r: Repo, f: string, c: Content, message: string, time: string, hash: HashInput -> Id)
    requires Ready(r) && NoRepeatedRemovals(r) && f in Head(r).files && f !in r.staged
    requires NodeConsistent(Head(r), r.blobs)
    ensures var r1 := RmCorrected(r, f).value;
            var r2 := RmCorrected(r1, f).value;
            var r3 := AddFile(r2.(wd := r2.wd[f := c]), f);
            r3.Success? && f !in r3.value.removed &&
            (Commit(r3.value, message, time, hash).Success? ==>
               (f in CommitNode(r3.value, message, time, hash).files &&
                CommitNode(r3.value, message, time, hash).files[f] == c))
  {
    var r1 := RmCorrected(r, f).value;
    RmCorrectedKeepsNoRepeats(r, f);
    var r2 := RmCorrected(r1, f).value;
    RmCorrectedKeepsNoRepeats(r1, f);
    var w := r2.(wd := r2.wd[f := c]);
    assert NoRepeatedRemovals(w);
    AddUnmarks(w, f);
    if Commit(AddFile(w, f).value, message, time, hash).Success? {
      AddThenCommitTracks(w, f, message, time, hash);
    }
  }

  // ------------------------------------------------------------ untracked files

  /** `notTracked()`: working files neither staged nor tracked by the head. */
  function NotTracked(r: Repo): (s: set<string>)
    requires Ready(r)
    ensures forall f :: f in s <==> f in r.wd && f !in r.staged && f !in Head(r).files
  {
    set f | f in r.wd && f !in r.staged && f !in Head(r).files
  }

  /** `deleteOrAddFirst(c)`: some untracked working file would be overwritten
      by c. With c null the source dereferences it as soon as it meets an
      untracked file (None). */
  function DeleteOrAddFirst(r: Repo, c: Option<Node>): (e: Option<bool>)
    requires Ready(r)
    ensures c.Some? ==> e == Some(exists f | f in NotTracked(r) :: f in c.value.files)
    ensures c.None? ==> (e.None? <==> NotTracked(r) != {}) && e != Some(true)
  {
    match c
    case None => if NotTracked(r) != {} then None else Some(false)
    case Some(n) => Some(exists f | f in NotTracked(r) :: f in n.files)
  }

  // ------------------------------------------------------------ checkout

  /** `checkoutHelper(cn, filename)`: copy the file's blob in commit cn into
      the working directory. */
  function CheckoutHelper(r: Repo, cn: Node, f: string): (r': Result<Repo, GitError>)
    ensures r'.Failure? <==> f !in cn.filepath || cn.filepath[f] !in r.blobs
    ensures r'.Failure? ==> r'.error == FileNotInCommit
    ensures r'.Success? ==> r'.value == r.(wd := r.wd[f := r.blobs[cn.filepath[f]]])
  {
    if f !in cn.filepath || cn.filepath[f] !in r.blobs then Failure(FileNotInCommit)
    else Success(r.(wd := r.wd[f := r.blobs[cn.filepath[f]]]))
  }

  /** For a commit whose blobs are stored, checking out a tracked file
      restores exactly the version the commit recorded. */
  lemma CheckoutRestores(r: Repo, cn: Node, f: string)
    requires NodeConsistent(cn, r.blobs) && f in cn.files
    ensures CheckoutHelper(r, cn, f).Success?
    ensures CheckoutHelper(r, cn, f).value.wd == r.wd[f := cn.files[f]]
  {
  }

  /** `checkout -- filename`. */
  function CheckoutFile(r: Repo, f: string): (r': Result<Repo, GitError>)
    requires Ready(r)
    ensures r' == CheckoutHelper(r, Head(r), f)
    ensures r'.Success? ==> Ready(r'.value)
  {
    CheckoutHelper(r, Head(r), f)
  }

  /** The commit an id names: ids shorter than a full id go through
      `findByShortid`, others through `findByid`. */
  function Resolve(r: Repo, id: string, order: seq<Id>): (c: Option<Node>)
    requires Enumerates(order, r.tree.commits.Keys)
    ensures c.Some? ==> exists k | k in r.tree.commits :: id <= k && r.tree.commits[k] == c.value
    ensures |id| >= IdLength ==> c == FindById(r.tree, id)
    ensures c.None? <==> forall k | k in r.tree.commits :: !(id <= k)
    ensures KeyedById(r.tree) && c.Some? ==> FindById(r.tree, c.value.id) == c
  {
    if |id| < IdLength then FindByShortid(r.tree, id, order)
    else
      forall k | k in r.tree.commits && id <= k ensures k == id { }
      FindById(r.tree, id)
  }

  /** `checkout commitid -- filename`. */
  function CheckoutCommitFile(r: Repo, id: string, f: string, order: seq<Id>): (r': Result<Repo, GitError>)
    requires Ready(r) && Enumerates(order, r.tree.commits.Keys)
    ensures Resolve(r, id, order).None? ==> r' == Failure(NoSuchCommit)
    ensures Resolve(r, id, order).Some? ==> r' == CheckoutHelper(r, Resolve(r, id, order).value, f)
    ensures r'.Success? ==> Ready(r'.value)
  {
    match Resolve(r, id, order)
    case None => Failure(NoSuchCommit)
    case Some(cm) => CheckoutHelper(r, cm, f)
  }

  /** The working directory holding exactly the stored blobs of a commit's
      tracked files. */
  function Snapshot(c: Node, blobs: map<Loc, Content>): (wd: map<string, Content>)
    ensures forall f :: f in wd <==> f in c.files && f in c.filepath && c.filepath[f] in blobs
    ensures NodeConsistent(c, blobs) ==> wd == c.files
  {
    map f | f in c.files && f in c.filepath && c.filepath[f] in blobs :: blobs[c.filepath[f]]
  }

  /** `checkout branch`: refuse when an untracked file is in the way or the
      branch is current; otherwise replace the whole working directory with
      the branch head's files, make the branch current and clear the staging
      area. The removal list is kept. */
  function CheckoutBranch(r: Repo, b: string): (r': Result<Repo, GitError>)
    requires Ready(r)
    ensures b !in r.tree.branches ==> r' == Failure(NoSuchBranch)
    ensures b in r.tree.branches && DeleteOrAddFirst(r, Some(r.tree.branches[b])) == Some(true) ==>
              r' == Failure(UntrackedInTheWay)
    ensures r'.Success? <==> b in r.tree.branches && b != Current(r) &&
                             DeleteOrAddFirst(r, Some(r.tree.branches[b])) == Some(false)
    ensures r'.Failure? ==> r'.error in {NoSuchBranch, UntrackedInTheWay, AlreadyOnBranch}
    ensures r'.Success? ==> var a := r'.value; var c := r.tree.branches[b];
              Ready(a) && Current(a) == b && Head(a) == c &&
              a.tree.commits == r.tree.commits && a.tree.branches == r.tree.branches &&
              a.wd == Snapshot(c, r.blobs) && a.staged == map[] && a.removed == r.removed && a.blobs == r.blobs
  {
    if b !in r.tree.branches then Failure(NoSuchBranch)
    else
      var c := r.tree.branches[b];
      if DeleteOrAddFirst(r, Some(c)) == Some(true) then Failure(UntrackedInTheWay)
      else if b == Current(r) then Failure(AlreadyOnBranch)
      else Success(Repo(SwitchBranch(r.tree, b), map[], r.removed, Snapshot(c, r.blobs), r.blobs))
  }

  // ------------------------------------------------------------ branches

  /** `branch(name)`: a new branch at the head commit. */
  function Branch(r: Repo, name: string): (r': Result<Repo, GitError>)
    requires Ready(r)
    ensures r'.Failure? <==> name in r.tree.branches
    ensures r'.Failure? ==> r'.error == BranchExists
    ensures r'.Success? ==> var a := r'.value;
              Ready(a) && a == r.(tree := r.tree.(branches := r.tree.branches[name := Head(r)]))
  {
    var (ok, t) := AddBranch(r.tree, name, Head(r));
    if !ok then Failure(BranchExists) else Success(r.(tree := t))
  }

  /** `rm-branch(name)`: delete the pointer, never the current branch. */
  function RmBranch(r: Repo, name: string): (r': Result<Repo, GitError>)
    requires Ready(r)
    ensures name !in r.tree.branches ==> r' == Failure(BranchDoesNotExist)
    ensures name in r.tree.branches && name == Current(r) ==> r' == Failure(CannotRemoveCurrent)
    ensures r'.Success? <==> name in r.tree.branches && name != Current(r)
    ensures r'.Success? ==> Ready(r'.value) && r'.value == r.(tree := r.tree.(branches := r.tree.branches - {name}))
  {
    if name !in r.tree.branches then Failure(BranchDoesNotExist)
    else if name == Current(r) then Failure(CannotRemoveCurrent)
    else Success(r.(tree := DeleteBranch(r.tree, name)))
  }

  // ------------------------------------------------------------ reset

  /** `reset(commitid)`: refuse when the commit is unknown or an untracked
      file is in the way. Otherwise delete the working copies (and staged
      versions) of head-tracked files the commit lacks, check out each of the
      commit's files by its full id, move the head and the current branch to
      it and clear the staging area. Each `rm` inside is undone on the removal
      list straight away, so the list ends as it began. */
  function Reset(r: Repo, id: string, order: seq<Id>): (r': Result<Repo, GitError>)
    requires Ready(r) && Enumerates(order, r.tree.commits.Keys)
    ensures Resolve(r, id, order).None? ==> r' == Failure(NoSuchCommit)
    ensures Resolve(r, id, order).Some? && DeleteOrAddFirst(r, Resolve(r, id, order)) == Some(true) ==>
              r' == Failure(UntrackedInTheWay)
    ensures r'.Success? <==> Resolve(r, id, order).Some? && DeleteOrAddFirst(r, Resolve(r, id, order)) == Some(false)
    ensures r'.Success? ==> var a := r'.value; var cm := Resolve(r, id, order).value;
              Ready(a) && Head(a) == cm && Current(a) == Current(r) &&
              a.tree.branches == r.tree.branches[Current(r) := cm] && a.tree.commits == r.tree.commits &&
              a.staged == map[] && a.removed == r.removed && a.blobs == r.blobs &&
              (forall f | f in Head(r).files && f !in cm.files :: f !in a.wd) &&
              (forall f | f in r.wd && f !in Head(r).files && f !in cm.files :: f in a.wd && a.wd[f] == r.wd[f]) &&
              (NodeConsistent(cm, r.blobs) ==>
                 forall f | f in cm.files :: f in a.wd && a.wd[f] == cm.files[f])
  {
    match Resolve(r, id, order)
    case None => Failure(NoSuchCommit)
    case Some(cm) =>
      if DeleteOrAddFirst(r, Some(cm)) == Some(true) then Failure(UntrackedInTheWay)
      else
        var h := Head(r);
        var gone := set f | f in h.files && f !in cm.files;
        var kept := r.wd - gone;
        var wd := match FindById(r.tree, cm.id)
                  case None => kept
                  case Some(c) => kept + Snapshot(c, r.blobs);
        Success(Repo(SwitchHead(r.tree, cm), map[], r.removed, wd, r.blobs))
  }

  /** Commands that refuse because of an untracked file change nothing, and
      every successful command leaves a ready repository. */
  lemma UntrackedInTheWayAborts(r: Repo, b: string, id: string, order: seq<Id>)
    requires Ready(r) && Enumerates(order, r.tree.commits.Keys)
    ensures b in r.tree.branches && DeleteOrAddFirst(r, Some(r.tree.branches[b])) == Some(true) ==>
              CheckoutBranch(r, b) == Failure(UntrackedInTheWay)
    ensures Resolve(r, id, order).Some? && DeleteOrAddFirst(r, Resolve(r, id, order)) == Some(true) ==>
              Reset(r, id, order) == Failure(UntrackedInTheWay)
  {
  }
}
