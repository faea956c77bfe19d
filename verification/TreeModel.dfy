/**
 The inode tree as a value: the node table with its child maps, the flat
 path index kept beside it, and the next inode number. What it means for the
 two copies to agree, and the plain view of a tree that both of them encode.
 */
module TreeModel {
  import opened Common
  import opened Paths

  type Inode = nat
  const ROOT_INODE: Inode := 1

  datatype Node =
    | Directory(inode: Inode, parent: Inode, name: Name, children: map<Name, Inode>)
    | File(inode: Inode, name: Name, fileId: FileId, size: nat, mtime: int)

  datatype Tree = Tree(nodes: map<Inode, Node>, index: map<Path, Inode>, next: Inode)

  datatype FileMeta = FileMeta(id: FileId, virtualPath: Path, size: nat, mtime: int)

  const EMPTY_TREE := Tree(map[ROOT_INODE := Directory(ROOT_INODE, ROOT_INODE, "", map[])],
                           map["/" := ROOT_INODE], ROOT_INODE + 1)

  // ----- reading a tree -----

  predicate IsDirAt(t: Tree, p: Path) {
    p in t.index && t.index[p] in t.nodes && t.nodes[t.index[p]].Directory?
  }

  predicate IsFileAt(t: Tree, p: Path) {
    p in t.index && t.index[p] in t.nodes && t.nodes[t.index[p]].File?
  }

  function Children(nodes: map<Inode, Node>, i: Inode): map<Name, Inode> {
    if i in nodes && nodes[i].Directory? then nodes[i].children else map[]
  }

  function Lookup(t: Tree, dir: Inode, n: Name): Option<Inode> {
    if n in Children(t.nodes, dir) then Some(Children(t.nodes, dir)[n]) else None
  }

  function Find(t: Tree, p: Path): Option<Inode> {
    if p in t.index then Some(t.index[p]) else None
  }

  /** Following child maps from a node, one component at a time. */
  function Walk(t: Tree, from: Inode, cs: seq<Name>): Option<Inode>
    decreases |cs|
  {
    if cs == [] then Some(from)
    else match Lookup(t, from, cs[0])
      case None => None
      case Some(i) => Walk(t, i, cs[1..])
  }

  // ----- the plain view -----

  datatype Entry = DirEntry(inode: Inode) | FileEntry(inode: Inode, fileId: FileId, size: nat, mtime: int)

  function Describe(n: Node): Entry {
    match n
    case Directory(i, _, _, _) => DirEntry(i)
    case File(i, _, id, size, mtime) => FileEntry(i, id, size, mtime)
  }

  /** What is visible: every path with the file or directory found there. */
  ghost function View(t: Tree): map<Path, Entry> {
    map p | p in t.index && t.index[p] in t.nodes :: Describe(t.nodes[t.index[p]])
  }

  // ----- agreement of the two copies -----

  /** The node at p carries p's name and hangs in the child map of p's parent. */
  ghost predicate PathOk(t: Tree, p: Path)
    requires p in t.index
  {
    && ValidPath(p)
    && t.index[p] in t.nodes
    && var n := t.nodes[t.index[p]];
       && n.inode == t.index[p]
       && n.name == BaseName(p)
       && IsDirAt(t, Parent(p))
       && (n.Directory? ==> n.parent == t.index[Parent(p)])
       && (p != "/" ==> Lookup(t, t.index[Parent(p)], BaseName(p)) == Some(t.index[p]))
  }

  ghost predicate PathsOk(t: Tree) {
    forall p {:trigger PathOk(t, p)} :: p in t.index ==> PathOk(t, p)
  }

  /** Entry n of directory i is what the index has under that directory's path. */
  ghost predicate ChildOk(t: Tree, p: Path, n: Name)
    requires p in t.index && n in Children(t.nodes, t.index[p])
  {
    ValidName(n) && Child(p, n) in t.index && t.index[Child(p, n)] == Children(t.nodes, t.index[p])[n]
  }

  ghost predicate ChildrenOk(t: Tree) {
    forall p, n {:trigger ChildOk(t, p, n)} :: p in t.index && n in Children(t.nodes, t.index[p]) ==> ChildOk(t, p, n)
  }

  predicate SameNode(t: Tree, p: Path, q: Path) {
    p in t.index && q in t.index && t.index[p] == t.index[q]
  }

  ghost predicate Injective(t: Tree) {
    forall p, q :: SameNode(t, p, q) ==> p == q
  }

  lemma DistinctPaths(t: Tree, p: Path, q: Path)
    requires Injective(t) && p in t.index && q in t.index && p != q
    ensures t.index[p] != t.index[q]
  {
    assert SameNode(t, p, q) ==> p == q;
  }

  ghost predicate HasPath(t: Tree, i: Inode) {
    exists p :: p in t.index && t.index[p] == i
  }

  ghost predicate NoOrphans(t: Tree) {
    forall i :: i in t.nodes ==> HasPath(t, i)
  }

  ghost predicate Rooted(t: Tree) {
    "/" in t.index && t.index["/"] == ROOT_INODE
  }

  ghost predicate InodesBelowNext(t: Tree) {
    ROOT_INODE < t.next && forall i :: i in t.nodes ==> i < t.next
  }

  ghost predicate Consistent(t: Tree) {
    Rooted(t) && InodesBelowNext(t) && PathsOk(t) && ChildrenOk(t) && Injective(t) && NoOrphans(t)
  }

  lemma EmptyTreeConsistent()
    ensures Consistent(EMPTY_TREE)
  {
    var t := EMPTY_TREE;
    assert forall p :: p in t.index ==> p == "/";
    assert forall i :: i in t.nodes ==> i == ROOT_INODE;
    assert LastSlash("/") == 0 && BaseName("/") == "";
    assert Children(t.nodes, ROOT_INODE) == map[];
    assert PathsOk(t) by { assert PathOk(t, "/"); }
    assert NoOrphans(t) by { assert t.index["/"] == ROOT_INODE; }
  }

  // ----- index and child maps answer alike -----

  lemma {:induction false} WalkSnoc(t: Tree, from: Inode, cs: seq<Name>, c: Name)
    ensures Walk(t, from, cs + [c]) ==
            match Walk(t, from, cs) { case None => None case Some(i) => Lookup(t, i, c) }
    decreases |cs|
  {
    if cs == [] {
      assert Walk(t, from, [c]) == Lookup(t, from, c);
      assert cs + [c] == [c];
    } else {
      assert (cs + [c])[0] == cs[0] && (cs + [c])[1..] == cs[1..] + [c];
      match Lookup(t, from, cs[0]) {
        case None =>
        case Some(i) => WalkSnoc(t, i, cs[1..], c);
      }
    }
  }

  /** Main agreement: for every path, found or not, the flat index and the
      component-by-component walk from the root give the same answer. */
  lemma {:induction false} IndexIsWalk(t: Tree, p: Path)
    requires Consistent(t) && ValidPath(p)
    ensures Walk(t, ROOT_INODE, Components(p)) == Find(t, p)
    decreases |p|
  {
    JoinComponents(p);
    if p != "/" {
      ChildOfParent(p);
      var q, n := Parent(p), BaseName(p);
      IndexIsWalk(t, q);
      WalkSnoc(t, ROOT_INODE, Components(q), n);
      assert Components(p) == Components(q) + [n];
      assert p in t.index ==> PathOk(t, p);
      assert q in t.index && n in Children(t.nodes, t.index[q]) ==> ChildOk(t, q, n);
    }
  }

  // ----- ancestors -----

  /** Every proper ancestor of p that exists is a directory. */
  ghost predicate NoFileAbove(t: Tree, p: Path)
    requires ValidPath(p)
    decreases |p|
  {
    p == "/" || (ChildOfParent(p); !IsFileAt(t, Parent(p)) && NoFileAbove(t, Parent(p)))
  }

  /** In a consistent tree the ancestors of an existing path are directories. */
  lemma {:induction false} AncestorIndexed(t: Tree, p: Path, a: Path)
    requires PathsOk(t) && p in t.index
    requires a != "" && a != "/" && a + "/" <= p
    ensures IsDirAt(t, a)
    decreases |p|
  {
    assert PathOk(t, p);
    assert p[|a|] == '/';
    assert p != "/";
    ChildOfParent(p);
    assert p == a + "/" ==> LastSlash(p) == |a|;
    ParentBelow(p, a);
    if Parent(p) != a {
      AncestorIndexed(t, Parent(p), a);
    }
  }

  /** Nothing lies above an existing path but directories. */
  lemma {:induction false} NoFileAboveIndexed(t: Tree, p: Path)
    requires PathsOk(t) && p in t.index && ValidPath(p)
    ensures NoFileAbove(t, p)
    decreases |p|
  {
    if p != "/" {
      ChildOfParent(p);
      assert PathOk(t, p);
      NoFileAboveIndexed(t, Parent(p));
    }
  }
}
