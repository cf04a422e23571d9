/** Gitlet's `merge`: the refusal checks, the split point of the two branch
    heads, the per-file three-way decision, the conflict text and the closing
    commit. Each visited name is decided from the split, current and given
    versions alone, and each step touches only its own name, so the merged
    state is assembled name by name from steps applied to the state before
    the merge; the iteration order of the source's maps plays no part. */
module Merges {
  import opened Wrappers
  import opened CommitNodes
  import opened CommitTrees
  import opened Gitlets

  // ------------------------------------------------------------ refusal checks

  /** `mergeDe(name)`: untracked file in the way, missing branch, uncommitted
      changes, merging with the current branch, in that order. The first
      check reads the branch before its existence is checked: with the branch
      missing and any untracked file present it dereferences null (`Crash`).
      On success the given branch head is returned. */
  function MergeDecision(r: Repo, name: string): (d: Result<Node, GitError>)
    requires Ready(r)
    ensures d.Success? <==> name in r.tree.branches && name != Current(r) &&
                            |r.staged| == 0 && |r.removed| == 0 &&
                            DeleteOrAddFirst(r, Some(r.tree.branches[name])) == Some(false)
    ensures d.Success? ==> d.value == r.tree.branches[name]
    ensures name in r.tree.branches && DeleteOrAddFirst(r, Some(r.tree.branches[name])) == Some(true) ==>
              d == Failure(UntrackedInTheWay)
    ensures d == Failure(Crash) <==> name !in r.tree.branches && NotTracked(r) != {}
    ensures name !in r.tree.branches && NotTracked(r) == {} ==> d == Failure(BranchDoesNotExist)
  {
    match DeleteOrAddFirst(r, Lookup(r.tree.branches, name))
    case None => Failure(Crash)
    case Some(inTheWay) =>
      if inTheWay then Failure(UntrackedInTheWay)
      else if name !in r.tree.branches then Failure(BranchDoesNotExist)
      else if |r.staged| != 0 || |r.removed| != 0 then Failure(UncommittedChanges)
      else if name == Current(r) then Failure(MergeWithSelf)
      else Success(r.tree.branches[name])
  }

  /** The same checks with the branch's existence checked first. */
  function MergeDecisionCorrected(r: Repo, name: string): (d: Result<Node, GitError>)
    requires Ready(r)
    ensures d.Success? <==> name in r.tree.branches && name != Current(r) &&
                            |r.staged| == 0 && |r.removed| == 0 &&
                            DeleteOrAddFirst(r, Some(r.tree.branches[name])) == Some(false)
    ensures d.Success? ==> d.value == r.tree.branches[name]
    ensures name !in r.tree.branches ==> d == Failure(BranchDoesNotExist)
    ensures d != Failure(Crash)
  {
    if name !in r.tree.branches then Failure(BranchDoesNotExist)
    else if DeleteOrAddFirst(r, Some(r.tree.branches[name])) == Some(true) then Failure(UntrackedInTheWay)
    else if |r.staged| != 0 || |r.removed| != 0 then Failure(UncommittedChanges)
    else if name == Current(r) then Failure(MergeWithSelf)
    else Success(r.tree.branches[name])
  }

  /** Merging a branch that does not exist, with an untracked file present,
      crashes instead of reporting the missing branch. */
  lemma MissingBranchCrashes(r: Repo, name: string, f: string)
    requires Ready(r) && name !in r.tree.branches
    requires f in r.wd && f !in r.staged && f !in Head(r).files
    ensures MergeDecision(r, name) == Failure(Crash)
    ensures MergeDecisionCorrected(r, name) == Failure(BranchDoesNotExist)
  {
    assert f in NotTracked(r);
  }

  /** Both orders of the checks agree whenever the branch exists. */
  lemma DecisionsAgreeOnExistingBranch(r: Repo, name: string)
    requires Ready(r) && name in r.tree.branches
    ensures MergeDecision(r, name) == MergeDecisionCorrected(r, name)
  {
  }

  // ------------------------------------------------------------ split point

  /** A commit and its ancestors, nearest first. */
  function Chain(a: Node): (c: seq<Node>)
    decreases a
    ensures |c| >= 1 && c[0] == a
    ensures forall i {:trigger c[i].parent} | 0 <= i < |c| - 1 :: c[i].parent == Some(c[i + 1])
    ensures c[|c| - 1].parent.None?
  {
    if a.parent.None? then [a] else [a] + Chain(a.parent.value)
  }

  /** The ids on a commit's chain: `history` in `splitPoint`. */
  function History(a: Node): (h: set<Id>)
    ensures forall id :: id in h <==> exists i | 0 <= i < |Chain(a)| :: Chain(a)[i].id == id
  {
    var c := Chain(a);
    var h := set i | 0 <= i < |c| :: c[i].id;
    forall id ensures id in h <==> exists i | 0 <= i < |c| :: c[i].id == id {
      if id in h {
        var i :| 0 <= i < |c| && c[i].id == id;
      }
      if exists i | 0 <= i < |c| :: c[i].id == id {
        var i :| 0 <= i < |c| && c[i].id == id;
        assert c[i].id in h;
      }
    }
    h
  }

  datatype Split =
    | GivenIsAncestor
    | SplitAt(n: Node)
    | NoCommonAncestor

  /** Walk back from b to the first commit whose id is in h; running off the
      root dereferences null in the source. */
  function WalkBack(b: Node, h: set<Id>): (s: Split)
    decreases b
    ensures !s.GivenIsAncestor?
  {
    if b.id in h then SplitAt(b)
    else if b.parent.None? then NoCommonAncestor
    else WalkBack(b.parent.value, h)
  }

  lemma ChainStep(b: Node)
    requires b.parent.Some?
    ensures Chain(b) == [b] + Chain(b.parent.value)
    ensures forall i | 0 <= i < |Chain(b.parent.value)| :: Chain(b)[i + 1] == Chain(b.parent.value)[i]
  {
  }

  lemma {:induction false} WalkBackNone(b: Node, h: set<Id>)
    ensures WalkBack(b, h).NoCommonAncestor? <==> forall i | 0 <= i < |Chain(b)| :: Chain(b)[i].id !in h
    decreases b
  {
    if b.id in h {
      assert Chain(b)[0] == b;
    } else if b.parent.Some? {
      var p := b.parent.value;
      WalkBackNone(p, h);
      ChainStep(b);
      if WalkBack(p, h).NoCommonAncestor? {
        forall i | 0 <= i < |Chain(b)| ensures Chain(b)[i].id !in h {
          if i > 0 {
            assert Chain(b)[i] == Chain(p)[i - 1];
          }
        }
      } else {
        var i :| 0 <= i < |Chain(p)| && Chain(p)[i].id in h;
        assert Chain(b)[i + 1].id in h;
      }
    }
  }

  /** Chain(b)[i] is the first commit on b's chain whose id is in h. */
  predicate FirstOnChain(b: Node, i: int, h: set<Id>) {
    0 <= i < |Chain(b)| && Chain(b)[i].id in h && forall j | 0 <= j < i :: Chain(b)[j].id !in h
  }

  lemma FirstOnChainStep(b: Node, i: int, h: set<Id>)
    requires b.parent.Some? && b.id !in h && FirstOnChain(b.parent.value, i, h)
    ensures FirstOnChain(b, i + 1, h) && Chain(b)[i + 1] == Chain(b.parent.value)[i]
  {
    var p := b.parent.value;
    ChainStep(b);
    var cb, cp := Chain(b), Chain(p);
    assert cb[i + 1] == cp[i];
    forall j | 0 <= j < i + 1 ensures cb[j].id !in h {
      if j == 0 {
        assert cb[0] == b;
      } else {
        assert cb[j] == cp[j - 1];
      }
    }
  }

  lemma {:induction false} WalkBackFirst(b: Node, h: set<Id>)
    ensures WalkBack(b, h).SplitAt? ==> exists i :: FirstOnChain(b, i, h) && Chain(b)[i] == WalkBack(b, h).n
    decreases b
  {
    if b.id in h {
      assert FirstOnChain(b, 0, h);
    } else if b.parent.Some? {
      var p := b.parent.value;
      WalkBackFirst(p, h);
      if WalkBack(p, h).SplitAt? {
        var i :| FirstOnChain(p, i, h) && Chain(p)[i] == WalkBack(p, h).n;
        FirstOnChainStep(b, i, h);
      }
    }
  }

  /** `splitPoint(a, b)`. */
  function SplitPoint(a: Node, b: Node): Split {
    var h := History(a);
    if b.id in h then GivenIsAncestor else WalkBack(b, h)
  }

  /** The split point is "given is an ancestor" exactly when b's id is on a's
      chain, and otherwise the first commit on b's chain whose id is on a's
      chain; there is none only when the chains share no id. */
  lemma SplitPointSpec(a: Node, b: Node)
    ensures SplitPoint(a, b).GivenIsAncestor? <==> b.id in History(a)
    ensures SplitPoint(a, b).SplitAt? ==>
              exists i :: FirstOnChain(b, i, History(a)) && Chain(b)[i] == SplitPoint(a, b).n
    ensures SplitPoint(a, b).NoCommonAncestor? <==> forall i | 0 <= i < |Chain(b)| :: Chain(b)[i].id !in History(a)
  {
    WalkBackNone(b, History(a));
    WalkBackFirst(b, History(a));
    if b.id in History(a) {
      assert Chain(b)[0].id in History(a);
    }
  }

  // ------------------------------------------------------------ one file

  /** What `merge` does with one name. */
  datatype Action =
    | Keep
    | TakeGiven
    | RemoveFile
    | ConflictBoth
    | ConflictDeletedInGiven
    | ConflictDeletedInCurrent

  predicate IsConflict(a: Action) {
    a.ConflictBoth? || a.ConflictDeletedInGiven? || a.ConflictDeletedInCurrent?
  }

  /** The decision of `merge` (names of the current head) and `mergeGiven`
      (other names of the given head) for a name recorded as s at the split
      point, c in the current head and g in the given head; None where the
      commit does not track it. `fileModified` compares recorded hashes. */
  function Classify(s: Option<Content>, c: Option<Content>, g: Option<Content>): Action {
    if c.Some? then
      if s.Some? then
        if g.Some? then
          if c.value != s.value then (if g.value != s.value then ConflictBoth else Keep)
          else if s.value != g.value then TakeGiven
          else Keep
        else if c.value == s.value then RemoveFile
        else ConflictDeletedInGiven
      else if g.Some? && g.value != c.value then ConflictBoth
      else Keep
    else if g.Some? then
      if s.None? then TakeGiven
      else if g.value != s.value then ConflictDeletedInCurrent
      else Keep
    else Keep
  }

  /** `fileModified(a, b, f)`: the hash a records for f differs from b's
      (b not tracking f counts as a difference). The source reads a's hash
      unguarded; every call has f tracked by a. */
  function FileModified(a: Node, b: Node, f: string): (m: bool)
    requires f in a.files
    ensures m <==> Lookup(b.files, f) != Some(a.files[f])
  {
    !(f in b.files && a.files[f] == b.files[f])
  }

  /** The decision in the source's own terms: which commits track the name
      and which `fileModified` tests hold. */
  lemma MergeTable(f: string, sp: Node, curr: Node, given: Node)
    ensures f in sp.files && f in curr.files && f in given.files ==>
              (ActionFor(f, sp, curr, given) == ConflictBoth <==> FileModified(sp, curr, f) && FileModified(given, sp, f)) &&
              (ActionFor(f, sp, curr, given) == TakeGiven <==> !FileModified(sp, curr, f) && FileModified(sp, given, f)) &&
              (ActionFor(f, sp, curr, given) == Keep <==> !FileModified(sp, given, f) || (FileModified(sp, curr, f) && !FileModified(given, sp, f)))
    ensures f in sp.files && f in curr.files && f !in given.files ==>
              ActionFor(f, sp, curr, given) == if FileModified(curr, sp, f) then ConflictDeletedInGiven else RemoveFile
    ensures f !in sp.files && f in curr.files && f in given.files ==>
              ActionFor(f, sp, curr, given) == if FileModified(given, curr, f) then ConflictBoth else Keep
    ensures f !in sp.files && f !in curr.files && f in given.files ==> ActionFor(f, sp, curr, given) == TakeGiven
    ensures f in sp.files && f !in curr.files && f in given.files ==>
              ActionFor(f, sp, curr, given) == if FileModified(given, sp, f) then ConflictDeletedInCurrent else Keep
    ensures f in curr.files && f !in given.files && f !in sp.files ==> ActionFor(f, sp, curr, given) == Keep
    ensures f !in curr.files && f !in given.files ==> ActionFor(f, sp, curr, given) == Keep
  {
  }

  /** The version a name ends up with when there is no conflict. */
  function Resolved(a: Action, c: Option<Content>, g: Option<Content>): Option<Content>
    requires !IsConflict(a)
  {
    match a
    case Keep => c
    case TakeGiven => g
    case RemoveFile => None
  }

  /** The decision is a three-way merge: a side unchanged since the split
      yields the other side, and a conflict arises exactly when both sides
      changed, differently or (both still tracking it) even identically. */
  lemma ClassifyIsThreeWay(s: Option<Content>, c: Option<Content>, g: Option<Content>)
    ensures IsConflict(Classify(s, c, g)) <==> c != s && g != s && (c != g || (s.Some? && c.Some?))
    ensures !IsConflict(Classify(s, c, g)) ==>
              (c == s ==> Resolved(Classify(s, c, g), c, g) == g) &&
              (g == s ==> Resolved(Classify(s, c, g), c, g) == c) &&
              (c == g ==> Resolved(Classify(s, c, g), c, g) == c)
    ensures Classify(s, c, g).ConflictDeletedInCurrent? <==> c.None? && s.Some? && g.Some? && g != s
    ensures Classify(s, c, g).ConflictDeletedInGiven? <==> g.None? && s.Some? && c.Some? && c != s
  {
  }

  const ConflictStart: string := "<<<<<<< HEAD\n"
  const ConflictMiddle: string := "=======\n"
  const ConflictEnd: string := ">>>>>>>\n"

  /** `mergeFiles`: the working file's text, then the given branch's text,
      between conflict markers. */
  function MergeText(current: Content, given: Content): (t: Content)
    ensures |t| == |current| + |given| + 29
    ensures t[..13] == ConflictStart && t[|t| - 8..] == ConflictEnd
    ensures t[13..13 + |current|] == current
    ensures t[13 + |current|..21 + |current|] == ConflictMiddle
    ensures t[21 + |current|..|t| - 8] == given
  {
    ConflictStart + current + ConflictMiddle + given + ConflictEnd
  }

  /** Knowing where the working text ends, both texts can be read back. */
  lemma MergeTextReadsBack(c1: Content, g1: Content, c2: Content, g2: Content)
    requires |c1| == |c2| && MergeText(c1, g1) == MergeText(c2, g2)
    ensures c1 == c2 && g1 == g2
  {
    var t := MergeText(c1, g1);
    assert c1 == t[13..13 + |c1|] == c2;
    assert g1 == t[21 + |c1|..|t| - 8] == g2;
  }

  /** `checkout(given id, f)` inside `merge`: errors are printed and ignored. */
  function CheckoutGiven(r: Repo, f: string, given: Node): (r': Repo)
    requires Ready(r)
    ensures Ready(r') && r'.tree == r.tree && r'.blobs == r.blobs && r'.staged == r.staged && r'.removed == r.removed
    ensures forall g | g != f :: Lookup(r'.wd, g) == Lookup(r.wd, g)
    ensures FindById(r.tree, given.id) == Some(given) && NodeConsistent(given, r.blobs) && f in given.files ==>
              r'.wd == r.wd[f := given.files[f]]
  {
    match FindById(r.tree, given.id)
    case None => r
    case Some(c) =>
      match CheckoutHelper(r, c, f)
      case Success(a) => a
      case Failure(_) => r
  }

  /** `mergeFiles(from, f)` with the given branch's blob location `from`:
      crashes without a location, a stored blob or (unless `create`, as in
      `mergeGiven`) a working file. */
  function ConflictWrite(r: Repo, f: string, from: Option<Loc>, create: bool): (r': Result<Repo, GitError>)
    ensures r'.Failure? ==> r'.error == Crash
    ensures r'.Success? <==> from.Some? && from.value in r.blobs && (f in r.wd || create)
    ensures r'.Success? ==> r'.value == r.(wd := r.wd[f := MergeText(Lookup(r.wd, f).GetOr(""), r.blobs[from.value])])
  {
    if from.None? || from.value !in r.blobs then Failure(Crash)
    else if f !in r.wd && !create then Failure(Crash)
    else Success(r.(wd := r.wd[f := MergeText(Lookup(r.wd, f).GetOr(""), r.blobs[from.value])]))
  }

  /** One name's step. `fixed` selects the corrected `rm`. */
  function ApplyAction(r: Repo, f: string, act: Action, given: Node, fixed: bool): (r': Result<Repo, GitError>)
    requires Ready(r)
    ensures r'.Failure? ==> r'.error == Crash
    ensures r'.Success? ==> Ready(r'.value) && r'.value.tree == r.tree && r'.value.blobs == r.blobs
    ensures r'.Success? ==> forall g | g != f :: Lookup(r'.value.wd, g) == Lookup(r.wd, g) &&
                                               Lookup(r'.value.staged, g) == Lookup(r.staged, g) &&
                                               r'.value.removed[g] == r.removed[g]
  {
    match act
    case Keep => Success(r)
    case TakeGiven =>
      var r1 := CheckoutGiven(r, f, given);
      (match AddFile(r1, f)
       case Success(a) => Success(a)
       case Failure(e) => if e == Crash then Failure(Crash) else Success(r1))
    case RemoveFile =>
      var removed := if fixed then RmCorrected(r, f) else Rm(r, f);
      if removed.Success? then Success(removed.value) else Success(r)
    case ConflictBoth => ConflictWrite(r, f, Lookup(given.filepath, f), false)
    case ConflictDeletedInGiven =>
      if f in r.wd then Success(r.(wd := r.wd[f := MergeText(r.wd[f], "")])) else Failure(Crash)
    case ConflictDeletedInCurrent => ConflictWrite(r, f, Lookup(given.filepath, f), true)
  }

  // ------------------------------------------------------------ all files

  /** The names `merge` visits: the current head's, then the given head's. */
  function Visited(curr: Node, given: Node): set<string> {
    curr.files.Keys + given.files.Keys
  }

  function ActionFor(f: string, sp: Node, curr: Node, given: Node): Action {
    Classify(Lookup(sp.files, f), Lookup(curr.files, f), Lookup(given.files, f))
  }

  /** Each visited name's step, applied to the state before the merge; None
      when some step crashes. */
  function Steps(r: Repo, sp: Node, given: Node, fixed: bool): (s: Option<map<string, Repo>>)
    requires Ready(r)
    ensures s.Some? <==> forall f | f in Visited(Head(r), given) ::
                           ApplyAction(r, f, ActionFor(f, sp, Head(r), given), given, fixed).Success?
    ensures s.Some? ==> (s.value.Keys == Visited(Head(r), given) &&
              forall f | f in s.value :: s.value[f] == ApplyAction(r, f, ActionFor(f, sp, Head(r), given), given, fixed).value)
  {
    var curr := Head(r);
    if exists f | f in Visited(curr, given) :: ApplyAction(r, f, ActionFor(f, sp, curr, given), given, fixed).Failure? then None
    else Some(map f | f in Visited(curr, given) :: ApplyAction(r, f, ActionFor(f, sp, curr, given), given, fixed).value)
  }

  /** The working directory after all steps: each visited name as its own
      step left it, every other name as before. */
  function AssembleWd(r: Repo, steps: map<string, Repo>): (wd: map<string, Content>)
    ensures forall g :: Lookup(wd, g) == if g in steps then Lookup(steps[g].wd, g) else Lookup(r.wd, g)
  {
    map g | g in (r.wd.Keys - steps.Keys) + (set h | h in steps && h in steps[h].wd) ::
      if g in steps then steps[g].wd[g] else r.wd[g]
  }

  function AssembleStaged(steps: map<string, Repo>): (staged: map<string, Content>)
    ensures forall g :: Lookup(staged, g) == if g in steps then Lookup(steps[g].staged, g) else None
  {
    map g | g in steps && g in steps[g].staged :: steps[g].staged[g]
  }

  function AssembleRemoved(steps: map<string, Repo>): (removed: multiset<string>)
    ensures forall g :: g in removed <==> g in steps && g in steps[g].removed
    ensures forall g | g in removed :: removed[g] == 1
  {
    multiset(set g | g in steps && g in steps[g].removed)
  }

  /** The state after all steps. The merge starts with nothing staged or
      marked, which the refusal checks guarantee. */
  function Assemble(r: Repo, steps: map<string, Repo>): (a: Repo)
    requires r.staged == map[] && r.removed == multiset{}
    ensures a.tree == r.tree && a.blobs == r.blobs
    ensures forall g :: Lookup(a.wd, g) == if g in steps then Lookup(steps[g].wd, g) else Lookup(r.wd, g)
    ensures forall g :: Lookup(a.staged, g) == if g in steps then Lookup(steps[g].staged, g) else None
    ensures forall g :: g in a.removed <==> g in steps && g in steps[g].removed
    ensures forall g | g in a.removed :: a.removed[g] == 1
  {
    Repo(r.tree, AssembleStaged(steps), AssembleRemoved(steps), AssembleWd(r, steps), r.blobs)
  }

  /** Conflicts that stop the merge before its commit: those the loop over
      the current head's names finds, and with `fixed` also those of
      `mergeGiven`. */
  predicate Flagged(a: Action, fixed: bool) {
    a.ConflictBoth? || a.ConflictDeletedInGiven? || (fixed && a.ConflictDeletedInCurrent?)
  }

  function MergeMessage(current: string, name: string): string {
    "Merged " + current + " with " + name + "."
  }

  datatype MergeOutcome =
    | Refused(err: GitError)
    | Crashed
    | AncestorOfCurrent
    | FastForwarded(result: Result<Repo, GitError>)
    | Conflicted(repo: Repo)
    | Committed(repo: Repo)
    | NotCommitted(repo: Repo, err: GitError)

  /** The part of `merge` after `mergeSplit`: the file steps, then
      `mergeconflits`. */
  function MergeFrom(r: Repo, name: string, sp: Node, given: Node, fixed: bool,
                     time: string, hash: HashInput -> Id): (o: MergeOutcome)
    requires Ready(r) && r.staged == map[] && r.removed == multiset{}
    ensures o.Crashed? || o.Conflicted? || o.Committed? || o.NotCommitted?
    ensures o.Crashed? <==> Steps(r, sp, given, fixed).None?
    ensures o.Conflicted? <==> (Steps(r, sp, given, fixed).Some? &&
                                exists f | f in Visited(Head(r), given) :: Flagged(ActionFor(f, sp, Head(r), given), fixed))
    ensures o.Conflicted? || o.NotCommitted? ==> o.repo == Assemble(r, Steps(r, sp, given, fixed).value)
    ensures o.Committed? ==> var m := Assemble(r, Steps(r, sp, given, fixed).value);
              Commit(m, MergeMessage(Current(r), name), time, hash) == Success(o.repo) &&
              Ready(o.repo) && Head(o.repo) == CommitNode(m, MergeMessage(Current(r), name), time, hash) &&
              Head(o.repo).parent == Some(Head(r)) && Head(o.repo).message == MergeMessage(Current(r), name)
  {
    match Steps(r, sp, given, fixed)
    case None => Crashed
    case Some(steps) =>
      var m := Assemble(r, steps);
      var curr := Head(r);
      if exists f | f in Visited(curr, given) :: Flagged(ActionFor(f, sp, curr, given), fixed) then Conflicted(m)
      else
        match Commit(m, MergeMessage(Current(r), name), time, hash)
        case Success(a) => Committed(a)
        case Failure(e) => NotCommitted(m, e)
  }

  /** What the merge lemmas assume of the state: nothing staged or marked
      (as the refusal checks ensure), the head's and the given head's blobs
      stored with their recorded contents, the head recording blob locations
      only for names it tracks, and the given head stored under its id. Only
      the first is checked by `merge`; the blob-location condition fails after
      `rm f; rm f; add f; commit`, where the commit keeps a blob location for
      the name it drops. */
  ghost predicate MergeReady(r: Repo, given: Node) {
    Ready(r) && r.staged == map[] && r.removed == multiset{} &&
    NodeConsistent(Head(r), r.blobs) && Head(r).filepath.Keys <= Head(r).files.Keys &&
    NodeConsistent(given, r.blobs) && FindById(r.tree, given.id) == Some(given)
  }

  /** A non-conflicting step stages the given version, marks the name for
      removal, or leaves it alone, as its action says. */
  lemma ActionEffect(r: Repo, f: string, sp: Node, given: Node, fixed: bool)
    requires MergeReady(r, given) && f in Visited(Head(r), given)
    requires !IsConflict(ActionFor(f, sp, Head(r), given))
    requires ApplyAction(r, f, ActionFor(f, sp, Head(r), given), given, fixed).Success?
    ensures var act := ActionFor(f, sp, Head(r), given);
            var x := ApplyAction(r, f, act, given, fixed).value;
            (act.RemoveFile? ==> f in x.removed) &&
            (act.TakeGiven? ==> f !in x.removed && Lookup(x.staged, f) == Lookup(given.files, f)) &&
            (act.Keep? ==> f !in x.removed && Lookup(x.staged, f).None?)
  {
    var act := ActionFor(f, sp, Head(r), given);
    if act.TakeGiven? {
      var r1 := CheckoutGiven(r, f, given);
      assert r1.wd == r.wd[f := given.files[f]];
      assert SameAsHeadBlob(r1, f) == Some(false);
    }
  }

  /** One name of the snapshot a commit records. */
  lemma CommitFilesAt(h: Node, staged: map<string, Content>, removed: multiset<string>, f: string)
    ensures Lookup(CommitFiles(h, staged, removed), f) ==
              if f in removed then None else if f in staged then Some(staged[f]) else Lookup(h.files, f)
  {
  }

  /** The step a name took, as `Steps` recorded it. */
  lemma StepAt(r: Repo, sp: Node, given: Node, fixed: bool, steps: map<string, Repo>, f: string)
    requires Ready(r) && Steps(r, sp, given, fixed) == Some(steps) && f in Visited(Head(r), given)
    ensures f in steps && ApplyAction(r, f, ActionFor(f, sp, Head(r), given), given, fixed) == Success(steps[f])
  {
  }

  /** One visited name of the assembled state, seen by the commit that
      follows: the snapshot holds the three-way result. */
  lemma AssembledFile(r: Repo, sp: Node, given: Node, fixed: bool, steps: map<string, Repo>, f: string)
    requires MergeReady(r, given)
    requires f in Visited(Head(r), given) && !IsConflict(ActionFor(f, sp, Head(r), given))
    requires f in steps && ApplyAction(r, f, ActionFor(f, sp, Head(r), given), given, fixed) == Success(steps[f])
    ensures var m := Assemble(r, steps);
            Lookup(CommitFiles(Head(r), m.staged, m.removed), f) ==
              Resolved(ActionFor(f, sp, Head(r), given), Lookup(Head(r).files, f), Lookup(given.files, f))
  {
    ActionEffect(r, f, sp, given, fixed);
    var m := Assemble(r, steps);
    CommitFilesAt(Head(r), m.staged, m.removed, f);
  }

  /** A merge that commits records, for every name it visited without a
      conflict, the three-way result, and tracks nothing it did not visit. */
  lemma MergeCommitFollowsThreeWay(r: Repo, name: string, sp: Node, given: Node, fixed: bool,
                                   time: string, hash: HashInput -> Id)
    requires MergeReady(r, given)
    ensures var o := MergeFrom(r, name, sp, given, fixed, time, hash);
            o.Committed? ==>
            (forall f | f in Visited(Head(r), given) && !IsConflict(ActionFor(f, sp, Head(r), given)) ::
               Lookup(Head(o.repo).files, f) == Resolved(ActionFor(f, sp, Head(r), given), Lookup(Head(r).files, f), Lookup(given.files, f))) &&
            (forall f | f !in Visited(Head(r), given) :: f !in Head(o.repo).files)
  {
    if MergeFrom(r, name, sp, given, fixed, time, hash).Committed? {
      var steps := Steps(r, sp, given, fixed).value;
      var m := Assemble(r, steps);
      var n := Head(MergeFrom(r, name, sp, given, fixed, time, hash).repo);
      assert n == CommitNode(m, MergeMessage(Current(r), name), time, hash);
      assert n.files == CommitFiles(Head(r), m.staged, m.removed);
      forall f | f in Visited(Head(r), given) && !IsConflict(ActionFor(f, sp, Head(r), given))
        ensures Lookup(n.files, f) == Resolved(ActionFor(f, sp, Head(r), given), Lookup(Head(r).files, f), Lookup(given.files, f))
      {
        StepAt(r, sp, given, fixed, steps, f);
        AssembledFile(r, sp, given, fixed, steps, f);
      }
      forall f | f !in Visited(Head(r), given) ensures f !in n.files {
        assert Lookup(m.staged, f).None? && f !in Head(r).files;
      }
    }
  }

  /** A conflicting name's working file holds the conflict text built from
      its working copy before the merge and the given head's version. */
  predicate ConflictTextAt(r: Repo, sp: Node, given: Node, wd: map<string, Content>, f: string)
    requires Ready(r)
  {
    var act := ActionFor(f, sp, Head(r), given);
    (act.ConflictBoth? ==> f in r.wd && f in given.files && Lookup(wd, f) == Some(MergeText(r.wd[f], given.files[f]))) &&
    (act.ConflictDeletedInGiven? ==> f in r.wd && Lookup(wd, f) == Some(MergeText(r.wd[f], ""))) &&
    (act.ConflictDeletedInCurrent? ==> f in given.files && Lookup(wd, f) == Some(MergeText(Lookup(r.wd, f).GetOr(""), given.files[f])))
  }

  /** One conflicting name's working file after its step. */
  lemma ConflictText(r: Repo, sp: Node, given: Node, fixed: bool, steps: map<string, Repo>, f: string)
    requires Ready(r) && r.staged == map[] && r.removed == multiset{}
    requires NodeConsistent(given, r.blobs) && f in Visited(Head(r), given)
    requires f in steps && ApplyAction(r, f, ActionFor(f, sp, Head(r), given), given, fixed) == Success(steps[f])
    ensures ConflictTextAt(r, sp, given, Assemble(r, steps).wd, f)
  {
    var act := ActionFor(f, sp, Head(r), given);
    if act.ConflictBoth? || act.ConflictDeletedInCurrent? {
      assert f in given.files;
    }
  }

  /** Every conflicting name's working file holds its conflict text. */
  lemma ConflictTexts(r: Repo, sp: Node, given: Node, fixed: bool)
    requires Ready(r) && r.staged == map[] && r.removed == multiset{}
    requires NodeConsistent(given, r.blobs) && Steps(r, sp, given, fixed).Some?
    ensures forall f | f in Visited(Head(r), given) ::
              ConflictTextAt(r, sp, given, Assemble(r, Steps(r, sp, given, fixed).value).wd, f)
  {
    var steps := Steps(r, sp, given, fixed).value;
    forall f | f in Visited(Head(r), given) ensures ConflictTextAt(r, sp, given, Assemble(r, steps).wd, f) {
      StepAt(r, sp, given, fixed, steps, f);
      ConflictText(r, sp, given, fixed, steps, f);
    }
  }

  /** A name the current branch deleted stays out of the next snapshot
      whatever its conflict step wrote. */
  lemma DeletedInCurrentUntracked(r: Repo, sp: Node, given: Node, fixed: bool, steps: map<string, Repo>, f: string)
    requires Ready(r) && r.staged == map[] && r.removed == multiset{}
    requires ActionFor(f, sp, Head(r), given).ConflictDeletedInCurrent?
    requires f in steps && ApplyAction(r, f, ActionFor(f, sp, Head(r), given), given, fixed) == Success(steps[f])
    ensures var m := Assemble(r, steps); f !in CommitFiles(Head(r), m.staged, m.removed)
  {
    var m := Assemble(r, steps);
    assert Lookup(m.staged, f).None?;
  }

  /** As written, a merge whose only conflicts are names the current branch
      deleted and the given branch changed is not reported as conflicting:
      it goes on to commit, the conflicting name untracked by that commit. */
  lemma UnflaggedConflictCommits(r: Repo, name: string, sp: Node, given: Node, f: string,
                                 time: string, hash: HashInput -> Id)
    requires Ready(r) && r.staged == map[] && r.removed == multiset{}
    requires f in Visited(Head(r), given) && ActionFor(f, sp, Head(r), given).ConflictDeletedInCurrent?
    requires forall g | g in Visited(Head(r), given) && IsConflict(ActionFor(g, sp, Head(r), given)) ::
               ActionFor(g, sp, Head(r), given).ConflictDeletedInCurrent?
    ensures var o := MergeFrom(r, name, sp, given, false, time, hash);
            !o.Conflicted? && (o.Committed? ==> f !in Head(o.repo).files)
  {
    var o := MergeFrom(r, name, sp, given, false, time, hash);
    assert forall g | g in Visited(Head(r), given) :: !Flagged(ActionFor(g, sp, Head(r), given), false);
    if o.Committed? {
      var steps := Steps(r, sp, given, false).value;
      var m := Assemble(r, steps);
      StepAt(r, sp, given, false, steps, f);
      DeletedInCurrentUntracked(r, sp, given, false, steps, f);
      assert Head(o.repo).files == CommitFiles(Head(r), m.staged, m.removed);
    }
  }

  /** With every conflict flagged, a merge commits only when no visited name
      conflicts, and the same inputs that commit unflagged above are reported
      as conflicting. */
  lemma CorrectedFlagsEveryConflict(r: Repo, name: string, sp: Node, given: Node,
                                    time: string, hash: HashInput -> Id)
    requires Ready(r) && r.staged == map[] && r.removed == multiset{}
    ensures var o := MergeFrom(r, name, sp, given, true, time, hash);
            (o.Committed? || o.NotCommitted? ==> forall f | f in Visited(Head(r), given) :: !IsConflict(ActionFor(f, sp, Head(r), given))) &&
            (Steps(r, sp, given, true).Some? && (exists f | f in Visited(Head(r), given) :: IsConflict(ActionFor(f, sp, Head(r), given))) ==>
               o.Conflicted?)
  {
  }

  /** `merge(name)` as written. `order` is the iteration order of the commit
      map, needed by `reset` (the full id it passes never uses it). */
  function Merge(r: Repo, name: string, time: string, hash: HashInput -> Id, order: seq<Id>): (o: MergeOutcome)
    requires Ready(r) && Enumerates(order, r.tree.commits.Keys)
    ensures MergeDecision(r, name) == Failure(Crash) ==> o == Crashed
    ensures MergeDecision(r, name).Failure? && MergeDecision(r, name) != Failure(Crash) ==>
              o == Refused(MergeDecision(r, name).error)
    ensures MergeDecision(r, name).Success? ==> var given := MergeDecision(r, name).value;
              (o == AncestorOfCurrent <==> given.id in History(Head(r))) &&
              (SplitPoint(Head(r), given).NoCommonAncestor? ==> o == Crashed) &&
              (SplitPoint(Head(r), given).SplitAt? && SplitPoint(Head(r), given).n.id == Head(r).id ==>
                 o == FastForwarded(Reset(r, given.id, order))) &&
              (SplitPoint(Head(r), given).SplitAt? && SplitPoint(Head(r), given).n.id != Head(r).id ==>
                 o == MergeFrom(r, name, SplitPoint(Head(r), given).n, given, false, time, hash))
  {
    match MergeDecision(r, name)
    case Failure(e) => if e == Crash then Crashed else Refused(e)
    case Success(given) =>
      var curr := Head(r);
      match SplitPoint(curr, given)
      case GivenIsAncestor => AncestorOfCurrent
      case NoCommonAncestor => Crashed
      case SplitAt(sp) =>
        if sp.id == curr.id then FastForwarded(Reset(r, given.id, order))
        else MergeFrom(r, name, sp, given, false, time, hash)
  }

  /** `merge(name)` with the branch checked first and every conflict
      stopping the commit. */
  function MergeCorrected(r: Repo, name: string, time: string, hash: HashInput -> Id, order: seq<Id>): (o: MergeOutcome)
    requires Ready(r) && Enumerates(order, r.tree.commits.Keys)
    ensures MergeDecisionCorrected(r, name).Failure? ==> o == Refused(MergeDecisionCorrected(r, name).error)
    ensures MergeDecisionCorrected(r, name).Success? ==> var given := MergeDecisionCorrected(r, name).value;
              (o == AncestorOfCurrent <==> given.id in History(Head(r))) &&
              (SplitPoint(Head(r), given).NoCommonAncestor? ==> o == Crashed) &&
              (SplitPoint(Head(r), given).SplitAt? && SplitPoint(Head(r), given).n.id == Head(r).id ==>
                 o == FastForwarded(Reset(r, given.id, order))) &&
              (SplitPoint(Head(r), given).SplitAt? && SplitPoint(Head(r), given).n.id != Head(r).id ==>
                 o == MergeFrom(r, name, SplitPoint(Head(r), given).n, given, true, time, hash))
  {
    match MergeDecisionCorrected(r, name)
    case Failure(e) => Refused(e)
    case Success(given) =>
      var curr := Head(r);
      match SplitPoint(curr, given)
      case GivenIsAncestor => AncestorOfCurrent
      case NoCommonAncestor => Crashed
      case SplitAt(sp) =>
        if sp.id == curr.id then FastForwarded(Reset(r, given.id, order))
        else MergeFrom(r, name, sp, given, true, time, hash)
  }

  /** A `merge` that commits records, for every name it visited without a
      conflict, the three-way result against the split point. */
  lemma MergeCommitsThreeWay(r: Repo, name: string, time: string, hash: HashInput -> Id, order: seq<Id>)
    requires Ready(r) && Enumerates(order, r.tree.commits.Keys)
    requires MergeDecision(r, name).Success? && MergeReady(r, MergeDecision(r, name).value)
    ensures var given := MergeDecision(r, name).value;
            var o := Merge(r, name, time, hash, order);
            o.Committed? ==>
              SplitPoint(Head(r), given).SplitAt? &&
              var sp := SplitPoint(Head(r), given).n;
              forall f | f in Visited(Head(r), given) && !IsConflict(ActionFor(f, sp, Head(r), given)) ::
                Lookup(Head(o.repo).files, f) == Resolved(ActionFor(f, sp, Head(r), given), Lookup(Head(r).files, f), Lookup(given.files, f))
  {
    var given := MergeDecision(r, name).value;
    if SplitPoint(Head(r), given).SplitAt? {
      MergeCommitFollowsThreeWay(r, name, SplitPoint(Head(r), given).n, given, false, time, hash);
    }
  }
}
