/** Gitlet commit nodes. A node records its time stamp, message, id, tracked
    files (name to content hash) and blob locations (name to blob file), and
    holds its parent node itself, as the Java object does. SHA-1 is a
    parameter `hash` from what is hashed to a 40-character id; file contents
    stand for their own hashes. */
module CommitNodes {
  import opened Wrappers

  const IdLength: nat := 40

  /** A commit id: 40 hexadecimal characters in the source. */
  type Id = s: string | |s| == IdLength witness seq(40, _ => '0')

  /** A file's contents, as text; it also stands for the content's SHA-1. */
  type Content = string

  /** A blob file `.gitlet/blob/<commit id>/<name>`. */
  datatype Loc = Loc(commit: Id, name: string)

  /** The arguments given to SHA-1 for a commit id: either the time and
      message, or also the tracked file names (`keySet().toString()`) and the
      parent's id. */
  datatype HashInput =
    | TimeMessage(time: string, message: string)
    | NamesParentTimeMessage(names: set<string>, parent: Id, time: string, message: string)

  datatype Node = Node(
    time: string,
    message: string,
    id: Id,
    files: map<string, Content>,
    filepath: map<string, Loc>,
    parent: Option<Node>)

  /** The `CommitNode` constructor. Without a file map (null) the node tracks
      nothing and has no blob locations; the id covers the file names and the
      parent only when both a file map and a parent are given. */
  function NewNode(time: string, m: string, files: Option<map<string, Content>>, parent: Option<Node>,
                   path: map<string, Loc>, hash: HashInput -> Id): (n: Node)
    ensures n.time == time && n.message == m && n.parent == parent
    ensures files.None? ==> n.files == map[] && n.filepath == map[]
    ensures files.Some? ==> n.files == files.value && n.filepath == path
    ensures parent.Some? && files.Some? ==>
              n.id == hash(NamesParentTimeMessage(files.value.Keys, parent.value.id, time, m))
    ensures parent.None? || files.None? ==> n.id == hash(TimeMessage(time, m))
  {
    var tracked := if files.None? then map[] else files.value;
    var fp := if files.None? then map[] else path;
    var id := if parent.Some? && files.Some? then hash(NamesParentTimeMessage(tracked.Keys, parent.value.id, time, m))
              else hash(TimeMessage(time, m));
    Node(time, m, id, tracked, fp, parent)
  }

  /** The id depends on the tracked file names, not on their contents or blob
      locations, and on the parent only through its id. */
  lemma IdIgnoresContents(time: string, m: string, f1: map<string, Content>, f2: map<string, Content>,
                          p1: Node, p2: Node, path1: map<string, Loc>, path2: map<string, Loc>,
                          hash: HashInput -> Id)
    requires f1.Keys == f2.Keys && p1.id == p2.id
    ensures NewNode(time, m, Some(f1), Some(p1), path1, hash).id == NewNode(time, m, Some(f2), Some(p2), path2, hash).id
  {
  }

  /** `equal(cn)`: false for null, otherwise a comparison of the two ids. */
  function Equal(n: Node, cn: Option<Node>): (r: bool)
    ensures cn.None? ==> !r
    ensures cn.Some? ==> (r <==> cn.value.id == n.id)
  {
    match cn
    case None => false
    case Some(c) => c.id == n.id
  }

  /** `equal` looks only at ids: nodes with equal ids are interchangeable as
      arguments, and a node is equal to itself. */
  lemma EqualOnlyIds(n: Node, a: Node, b: Node)
    requires a.id == b.id
    ensures Equal(n, Some(a)) == Equal(n, Some(b))
    ensures Equal(n, Some(n))
  {
  }

  /** `updateFilepath(path)`. */
  function UpdateFilepath(n: Node, path: map<string, Loc>): (n': Node)
    ensures n'.filepath == path
    ensures n'.time == n.time && n'.message == n.message && n'.id == n.id
    ensures n'.files == n.files && n'.parent == n.parent
  {
    n.(filepath := path)
  }
}
