/**
 * The part of the filesystem the file selection observes: a tree of named entries, each
 * with a modification time, and the pre-order listing a recursive directory iterator
 * produces when recursion is disabled below a depth limit.
 */
module FileSystem {
  import opened Wrappers
  import opened Paths

  datatype Node =
    | File(mtime: int)
    | Directory(mtime: int, children: seq<Entry>)

  datatype Entry = Entry(name: string, node: Node)

  /** The first child with the given name. */
  function Find(children: seq<Entry>, name: string): (r: Option<Node>)
    ensures r.Some? <==> exists i :: 0 <= i < |children| && children[i].name == name
    ensures r.Some? ==> exists i :: 0 <= i < |children| && children[i] == Entry(name, r.value)
  {
    if children == [] then None
    else if children[0].name == name then Some(children[0].node)
    else
      var r := Find(children[1..], name);
      assert forall i :: 1 <= i < |children| ==> children[i] == children[1..][i - 1];
      r
  }

  /** The node at a path below the root directory. */
  function Lookup(root: Node, p: Path): (r: Option<Node>)
    ensures p == [] ==> r == Some(root)
  {
    if p == [] then Some(root)
    else match Lookup(root, ParentPath(p))
      case Some(Directory(_, children)) => Find(children, FileName(p))
      case _ => None
  }

  /** fs::exists */
  predicate Exists(root: Node, p: Path)
  {
    Lookup(root, p).Some?
  }

  /** fs::is_directory */
  predicate IsDirectory(root: Node, p: Path)
  {
    Lookup(root, p).Some? && Lookup(root, p).value.Directory?
  }

  /** fs::is_regular_file */
  predicate IsRegularFile(root: Node, p: Path)
  {
    Lookup(root, p).Some? && Lookup(root, p).value.File?
  }

  /** fs::last_write_time of an existing path. */
  function LastWriteTime(root: Node, p: Path): (r: Option<int>)
    ensures r.Some? <==> Exists(root, p)
  {
    match Lookup(root, p)
    case Some(n) => Some(n.mtime)
    case None => None
  }

  /** One entry produced by the directory iterator, with its depth below the starting
    * directory (0 for the directory's own children). */
  datatype Visit = Visit(path: Path, node: Node, depth: nat)

  /**
   * The entries a recursive_directory_iterator over `children` (the contents of `dir`)
   * produces: every entry, followed by its own contents when it is a directory and its depth
   * is below the limit (recursion is disabled for entries at depth >= limit).
   */
  function Walk(dir: Path, children: seq<Entry>, depth: nat, limit: nat): (r: seq<Visit>)
    decreases children
  {
    if children == [] then []
    else
      var e := children[0];
      var here := dir + [e.name];
      var below := if e.node.Directory? && depth < limit then Walk(here, e.node.children, depth + 1, limit) else [];
      [Visit(here, e.node, depth)] + below + Walk(dir, children[1..], depth, limit)
  }

  /** The listing of a directory, empty for anything else. */
  function WalkFrom(root: Node, dir: Path, limit: nat): (r: seq<Visit>)
  {
    match Lookup(root, dir)
    case Some(Directory(_, children)) => Walk(dir, children, 0, limit)
    case _ => []
  }

  /** The iterator never descends below the depth limit, and every entry at depth d is
    * d + 1 components below the starting directory. */
  lemma {:induction false} WalkDepthBounded(dir: Path, children: seq<Entry>, depth: nat, limit: nat)
    requires depth <= limit
    ensures forall v :: v in Walk(dir, children, depth, limit) ==>
      depth <= v.depth <= limit && |v.path| == |dir| + 1 + (v.depth - depth) && v.path[..|dir|] == dir
    decreases children
  {
    if children != [] {
      var e := children[0];
      var here := dir + [e.name];
      if e.node.Directory? && depth < limit {
        WalkDepthBounded(here, e.node.children, depth + 1, limit);
        forall v | v in Walk(here, e.node.children, depth + 1, limit) ensures v.path[..|dir|] == dir {
          assert v.path[..|dir|] == v.path[..|here|][..|dir|];
        }
      }
      WalkDepthBounded(dir, children[1..], depth, limit);
    }
  }

  /** Every entry of the directory itself is listed, at depth 0. */
  lemma {:induction false} WalkListsChildren(dir: Path, children: seq<Entry>, depth: nat, limit: nat, i: nat)
    requires i < |children|
    ensures Visit(dir + [children[i].name], children[i].node, depth) in Walk(dir, children, depth, limit)
    decreases children
  {
    if i > 0 {
      WalkListsChildren(dir, children[1..], depth, limit, i - 1);
    }
  }
}
