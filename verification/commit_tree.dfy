/** The Gitlet commit tree: every commit by id, the branch heads, the head
    commit and the current branch. Java's nulls become `None`. */
module CommitTrees {
  import opened Wrappers
  import opened CommitNodes

  datatype Tree = Tree(
    commits: map<Id, Node>,
    branches: map<string, Node>,
    head: Option<Node>,
    current: Option<string>)

  /** The `CommitTree` constructor: nothing stored, no head, no current branch. */
  function EmptyTree(): (t: Tree)
    ensures t.commits == map[] && t.branches == map[] && t.head.None? && t.current.None?
  {
    Tree(map[], map[], None, None)
  }

  /** Whenever a branch is current, the head is what that branch names
      (`branches.get(currentBranch)`, null when the branch is missing). */
  predicate HeadOnBranch(t: Tree) {
    t.current.Some? ==> t.head == Lookup(t.branches, t.current.value)
  }

  /** `add(child)`: store the child under its id, make it the head and move the
      current branch, if there is one, to it. */
  function Add(t: Tree, child: Node): (t': Tree)
    ensures t'.head == Some(child) && t'.current == t.current
    ensures t'.commits == t.commits[child.id := child]
    ensures t.current.Some? ==> t'.branches == t.branches[t.current.value := child]
    ensures t.current.None? ==> t'.branches == t.branches
  {
    var branches := if t.current.Some? then t.branches[t.current.value := child] else t.branches;
    Tree(t.commits[child.id := child], branches, Some(child), t.current)
  }

  /** Adding a commit keeps the head on the current branch and moves no other branch. */
  lemma AddKeepsHeadOnBranch(t: Tree, child: Node)
    ensures HeadOnBranch(Add(t, child))
    ensures forall b | b in t.branches && Some(b) != t.current :: b in Add(t, child).branches && Add(t, child).branches[b] == t.branches[b]
    ensures Add(t, child).branches.Keys == t.branches.Keys + (if t.current.Some? then {t.current.value} else {})
  {
  }

  /** `findByid(id)`. */
  function FindById(t: Tree, id: string): (r: Option<Node>)
    ensures r.Some? <==> id in t.commits
    ensures r.Some? ==> r.value == t.commits[id]
  {
    if id in t.commits then Some(t.commits[id]) else None
  }

  /** `order` lists exactly the keys of a map: the (unspecified) iteration order
      of a Java HashMap. */
  ghost predicate Enumerates(order: seq<Id>, keys: set<Id>) {
    forall k :: k in order <==> k in keys
  }

  /** `findByShortid(prefix)`: the first id in iteration order that starts
      with the prefix. */
  function FindByShortid(t: Tree, prefix: string, order: seq<Id>): (r: Option<Node>)
    requires |prefix| <= IdLength
    requires Enumerates(order, t.commits.Keys)
    ensures r.Some? <==> exists k | k in t.commits :: prefix <= k
    ensures r.Some? ==> exists k | k in t.commits :: prefix <= k && t.commits[k] == r.value
  {
    var r := ScanShort(t, prefix, order);
    assert (exists k | k in t.commits :: prefix <= k) ==> exists i | 0 <= i < |order| :: prefix <= order[i] by {
      if k :| k in t.commits && prefix <= k {
        var i :| 0 <= i < |order| && order[i] == k;
      }
    }
    assert r.Some? ==> exists k | k in t.commits :: prefix <= k by {
      if r.Some? {
        var i :| 0 <= i < |order| && prefix <= order[i];
        assert order[i] in t.commits;
      }
    }
    r
  }

  function ScanShort(t: Tree, prefix: string, order: seq<Id>): (r: Option<Node>)
    requires |prefix| <= IdLength
    requires forall k | k in order :: k in t.commits
    ensures r.Some? <==> exists i | 0 <= i < |order| :: prefix <= order[i]
    ensures r.Some? ==> exists i | 0 <= i < |order| :: prefix <= order[i] && t.commits[order[i]] == r.value
  {
    if order == [] then None
    else if prefix == order[0][..|prefix|] then Some(t.commits[order[0]])
    else
      var r := ScanShort(t, prefix, order[1..]);
      assert forall i | 1 <= i < |order| :: order[i] == order[1..][i - 1];
      r
  }

  /** When exactly one stored id starts with the prefix, `findByShortid`
      returns that commit, whatever the iteration order. */
  lemma FindByShortidUnique(t: Tree, prefix: string, order: seq<Id>, k: Id)
    requires |prefix| <= IdLength && Enumerates(order, t.commits.Keys)
    requires k in t.commits && prefix <= k
    requires forall k' | k' in t.commits && prefix <= k' :: k' == k
    ensures FindByShortid(t, prefix, order) == Some(t.commits[k])
  {
  }

  /** A full id is its own only prefix: short lookup with a whole id agrees
      with `findByid`. */
  lemma FindByShortidWholeId(t: Tree, id: Id, order: seq<Id>)
    requires Enumerates(order, t.commits.Keys)
    ensures FindByShortid(t, id, order) == FindById(t, id)
  {
    forall k' | k' in t.commits && id <= k' ensures k' == id {
    }
    if id in t.commits {
      FindByShortidUnique(t, id, order, id);
    }
  }

  /** `findBymessage(message)`: the stored commits with that message, in
      iteration order (see `FindBymessageInOrder`). */
  function FindBymessage(t: Tree, message: string, order: seq<Id>): (r: seq<Node>)
    requires forall k | k in order :: k in t.commits
    ensures forall n | n in r :: n.message == message && exists k | k in order :: t.commits[k] == n
    ensures forall k | k in order && t.commits[k].message == message :: t.commits[k] in r
    ensures |r| <= |order|
  {
    if order == [] then []
    else
      var rest := FindBymessage(t, message, order[1..]);
      var n := t.commits[order[0]];
      if n.message == message then [n] + rest else rest
  }

  /** One step of `findBymessage`: the first commit of the order, if it has
      the message, comes before the matches of the rest. */
  lemma FindBymessageCons(t: Tree, message: string, order: seq<Id>)
    requires order != [] && forall k | k in order :: k in t.commits
    ensures var n := t.commits[order[0]];
            FindBymessage(t, message, order) ==
              (if n.message == message then [n] else []) + FindBymessage(t, message, order[1..])
  {
  }

  /** The results keep the iteration order: the matches of a split order are
      the first part's matches followed by the second part's. */
  lemma {:induction false} FindBymessageInOrder(t: Tree, message: string, a: seq<Id>, b: seq<Id>)
    requires forall k | k in a + b :: k in t.commits
    ensures FindBymessage(t, message, a + b) == FindBymessage(t, message, a) + FindBymessage(t, message, b)
  {
    if a == [] {
      assert a + b == b;
    } else {
      var ab := a + b;
      assert ab[0] == a[0] && ab[1..] == a[1..] + b;
      FindBymessageInOrder(t, message, a[1..], b);
      FindBymessageCons(t, message, a);
      FindBymessageCons(t, message, ab);
      var n := t.commits[a[0]];
      var h: seq<Node> := if n.message == message then [n] else [];
      var rest, tail := FindBymessage(t, message, a[1..]), FindBymessage(t, message, b);
      ConcatAssoc(h, rest, tail);
    }
  }

  lemma ConcatAssoc<T>(x: seq<T>, y: seq<T>, z: seq<T>)
    ensures x + (y + z) == (x + y) + z
  {
  }

  /** Over a full iteration order, `findBymessage` finds exactly the stored
      commits with the message. */
  lemma FindBymessageExact(t: Tree, message: string, order: seq<Id>)
    requires Enumerates(order, t.commits.Keys)
    ensures forall n :: n in FindBymessage(t, message, order) <==>
                         n.message == message && exists k | k in t.commits :: t.commits[k] == n
  {
  }

  /** `addBranch(name, commit)`: false, and nothing changes, for an existing name. */
  function AddBranch(t: Tree, name: string, commit: Node): (r: (bool, Tree))
    ensures r.0 <==> name !in t.branches
    ensures !r.0 ==> r.1 == t
    ensures r.0 ==> r.1 == t.(branches := t.branches[name := commit])
  {
    if name in t.branches then (false, t) else (true, t.(branches := t.branches[name := commit]))
  }

  /** `updateBranch(name, commit)`: move an existing branch; unknown names are ignored. */
  function UpdateBranch(t: Tree, name: string, commit: Node): (t': Tree)
    ensures name !in t.branches ==> t' == t
    ensures name in t.branches ==> t'.branches == t.branches[name := commit]
    ensures t'.commits == t.commits && t'.head == t.head && t'.current == t.current
  {
    if name !in t.branches then t else t.(branches := t.branches[name := commit])
  }

  /** `switchBranch(branch)`: the branch becomes current and its commit (None
      for an unknown branch) the head. */
  function SwitchBranch(t: Tree, branch: string): (t': Tree)
    ensures t'.current == Some(branch) && HeadOnBranch(t')
    ensures t'.commits == t.commits && t'.branches == t.branches
  {
    t.(head := Lookup(t.branches, branch), current := Some(branch))
  }

  /** `deleteBranch(branch)`. */
  function DeleteBranch(t: Tree, branch: string): (t': Tree)
    ensures t'.branches.Keys == t.branches.Keys - {branch}
    ensures forall b | b in t'.branches :: t'.branches[b] == t.branches[b]
    ensures t'.commits == t.commits && t'.head == t.head && t'.current == t.current
  {
    t.(branches := t.branches - {branch})
  }

  /** `switchHead(cm)`: the head and the current branch move to cm. */
  function SwitchHead(t: Tree, cm: Node): (t': Tree)
    ensures t'.head == Some(cm) && t'.current == t.current && t'.commits == t.commits
    ensures t.current.Some? ==> t'.branches == t.branches[t.current.value := cm]
    ensures t.current.Some? ==> HeadOnBranch(t')
  {
    if t.current.Some? then t.(head := Some(cm), branches := t.branches[t.current.value := cm])
    else t.(head := Some(cm))
  }
}
