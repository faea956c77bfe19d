/**
 rename_file and rename_directory. Both relink one node and move index entries;
 rename_directory moves every entry that starts with the old path as a string,
 in whatever order the hash map yields them.
 */
module TreeRename {
  import opened Common
  import opened Paths
  import opened TreeModel
  import opened TreeAttach
  import opened TreeGrow
  import opened TreePrune

  // ----- what the two operations do -----

  function SetName(nodes: map<Inode, Node>, i: Inode, n: Name, parent: Inode): map<Inode, Node> {
    if i !in nodes then nodes
    else match nodes[i]
      case Directory(inode, _, _, children) => nodes[i := Directory(inode, parent, n, children)]
      case File(inode, _, id, size, mtime) => nodes[i := File(inode, n, id, size, mtime)]
  }

  /** Unlink node i from src's parent (found through `index`), give it dst's
      name, and link it under the directory inode `parent`. */
  function Relink(nodes: map<Inode, Node>, index: map<Path, Inode>, i: Inode,
                  src: Path, dst: Path, parent: Inode): map<Inode, Node> {
    var unlinked := DropChildAt(nodes, index, Parent(src), BaseName(src));
    AddChild(SetName(unlinked, i, BaseName(dst), parent), parent, BaseName(dst), i)
  }

  function RenameFileCheck(t: Tree, src: Path, dst: Path): Result<(), RenameError> {
    if src !in t.index then Err(SourceNotFound)
    else if dst in t.index then Err(TargetExists)
    else if t.index[src] !in t.nodes then Err(SourceNotFound)
    else if t.nodes[t.index[src]].Directory? then Err(IsDirectory)
    else if !IsDirAt(t, Parent(dst)) then Err(ParentNotFound)
    else Ok(())
  }

  function RenameFile(t: Tree, src: Path, dst: Path): (Tree, Result<(), RenameError>) {
    match RenameFileCheck(t, src, dst)
    case Err(e) => (t, Err(e))
    case Ok(_) =>
      var i := t.index[src];
      var index := t.index - {src};
      (Tree(Relink(t.nodes, index, i, src, dst, t.index[Parent(dst)]), index[dst := i], t.next), Ok(()))
  }

  function RenameDirectoryCheck(t: Tree, src: Path, dst: Path): Result<(), RenameError> {
    if src !in t.index then Err(SourceNotFound)
    else if !IsDirAt(t, src) then Err(NotDirectory)
    else if dst in t.index then Err(TargetExists)
    else if !IsDirAt(t, Parent(dst)) then Err(ParentNotFound)
    else Ok(())
  }

  /** k got its entry from the collected path q. */
  predicate Image(index: map<Path, Inode>, index': map<Path, Inode>, src: Path, dst: Path, k: Path, q: Path) {
    q in index && src <= q && k in index' && k == Moved(q, src, dst) && index'[k] == index[q]
  }

  /** k kept its entry. */
  predicate Kept(index: map<Path, Inode>, index': map<Path, Inode>, src: Path, k: Path) {
    k in index && !(src <= k) && k in index' && index'[k] == index[k]
  }

  /** No rewritten path was in the index before. */
  ghost predicate ImagesFresh(index: map<Path, Inode>, src: Path, dst: Path) {
    forall q {:trigger Moved(q, src, dst)} :: q in index && src <= q ==> Moved(q, src, dst) !in index
  }

  /** What rewriting the collected entries one by one, in any order, leaves. */
  ghost predicate Rewritten(index: map<Path, Inode>, index': map<Path, Inode>, src: Path, dst: Path) {
    && (forall k {:trigger k in index'} :: k in index' ==>
          Kept(index, index', src, k) || exists q :: Image(index, index', src, dst, k, q))
    && (src in index ==> dst in index')
    && (ImagesFresh(index, src, dst) ==>
          && (forall k {:trigger Kept(index, index', src, k)} :: k in index && !(src <= k) ==>
            Kept(index, index', src, k))
          && (forall q {:trigger Moved(q, src, dst)} :: q in index && src <= q ==>
                Image(index, index', src, dst, Moved(q, src, dst), q)))
  }

  /** The index while the collected entries in `todo` are still to be rewritten
      and those in `done` have been. */
  ghost predicate HalfRewritten(index: map<Path, Inode>, index': map<Path, Inode>, todo: set<Path>, done: set<Path>,
                                src: Path, dst: Path)
  {
    && (forall k {:trigger k in index'} :: k in index' ==>
          || Kept(index, index', src, k)
          || (k in todo && k in index && index'[k] == index[k])
          || exists q :: q in done && Image(index, index', src, dst, k, q))
    && (src in done ==> dst in index')
    && (ImagesFresh(index, src, dst) ==>
          && (forall k {:trigger Kept(index, index', src, k)} :: k in index && !(src <= k) ==>
            Kept(index, index', src, k))
          && (forall q {:trigger q in done} :: q in done ==>
            src <= q && Image(index, index', src, dst, Moved(q, src, dst), q)))
  }

  /** Taking p's entry out and putting it back under its new path. */
  function RewriteOne(index': map<Path, Inode>, p: Path, i: Inode, src: Path, dst: Path): map<Path, Inode>
    requires src <= p
  {
    (index' - {p})[Moved(p, src, dst) := i]
  }

  lemma MovedDistinct(p: Path, q: Path, src: Path, dst: Path)
    requires src <= p && src <= q && Moved(p, src, dst) == Moved(q, src, dst)
    ensures p == q
  {
    assert p[|src|..] == Moved(p, src, dst)[|dst|..];
    assert q[|src|..] == Moved(q, src, dst)[|dst|..];
    assert p == src + p[|src|..] && q == src + q[|src|..];
  }

  lemma RewriteRound(index: map<Path, Inode>, index': map<Path, Inode>, todo: set<Path>, done: set<Path>,
                     p: Path, src: Path, dst: Path)
    requires HalfRewritten(index, index', todo, done, src, dst)
    requires p in todo && p in index && src <= p && p !in done && dst !in index && src <= src
    ensures HalfRewritten(index, RewriteOne(index', p, index[p], src, dst), todo - {p}, done + {p}, src, dst)
  {
    var m := Moved(p, src, dst);
    var next := RewriteOne(index', p, index[p], src, dst);
    MovedRoot(src, dst);
    forall k | k in next
      ensures Kept(index, next, src, k) || (k in todo - {p} && k in index && next[k] == index[k])
           || exists q :: q in done + {p} && Image(index, next, src, dst, k, q)
    {
      if k == m {
        assert Image(index, next, src, dst, k, p);
      } else {
        assert k in index' && next[k] == index'[k];
        if exists q :: q in done && Image(index, index', src, dst, k, q) {
          var q :| q in done && Image(index, index', src, dst, k, q);
          assert Image(index, next, src, dst, k, q);
        }
      }
    }
    assert dst in index' ==> dst in next;
    if ImagesFresh(index, src, dst) {
      assert m !in index;
      forall q | q in done + {p} ensures src <= q && Image(index, next, src, dst, Moved(q, src, dst), q) {
        if q != p {
          assert q in done;
          if Moved(q, src, dst) == m { MovedDistinct(p, q, src, dst); }
        }
      }
      forall k | k in index && !(src <= k) ensures Kept(index, next, src, k) {
        assert Kept(index, index', src, k);
      }
    }
    hide Moved;
  }

  /** t' is a possible outcome of rename_directory on t once its checks passed. */
  ghost predicate DirectoryRenamed(t: Tree, t': Tree, src: Path, dst: Path) {
    && RenameDirectoryCheck(t, src, dst).Ok?
    && Rewritten(t.index, t'.index, src, dst)
    && t'.nodes == Relink(t.nodes, t'.index, t.index[src], src, dst, t.index[Parent(dst)])
    && t'.next == t.next
  }

  // ----- moving the component-wise subtree -----

  ghost predicate MovePre(t: Tree, src: Path, dst: Path) {
    && Consistent(t) && src in t.index && src != "/" && ValidPath(dst)
    && dst !in t.index && IsDirAt(t, Parent(dst)) && !InSubtree(dst, src)
  }

  /** t' has every path of t at its relocated place, with the same inode. */
  ghost predicate IndexRelocated(t: Tree, t': Tree, src: Path, dst: Path) {
    && (forall q {:trigger Relocate(q, src, dst)} :: q in t.index ==>
          Relocate(q, src, dst) in t'.index && t'.index[Relocate(q, src, dst)] == t.index[q])
    && (forall k {:trigger k in t'.index} :: k in t'.index ==>
          exists q :: q in t.index && k == Relocate(q, src, dst))
  }

  ghost predicate NodeRelinked(t: Tree, t': Tree, q: Path, src: Path, dst: Path)
    requires q in t.index && src in t.index && Parent(dst) in t.index
  {
    var i := t.index[q];
    var cs := if q == Parent(src) then Children(t.nodes, i) - {BaseName(src)} else Children(t.nodes, i);
    && i in t.nodes && i in t'.nodes && i == t.nodes[i].inode
    && Describe(t'.nodes[i]) == Describe(t.nodes[i]) && t'.nodes[i].inode == i
    && t'.nodes[i].name == (if q == src then BaseName(dst) else t.nodes[i].name)
    && (t.nodes[i].Directory? ==>
          t'.nodes[i].parent == if q == src then t.index[Parent(dst)] else t.nodes[i].parent)
    && Children(t'.nodes, i) == if q == Parent(dst) then cs[BaseName(dst) := t.index[src]] else cs
  }

  /** Every node is as before, save for the three that a move touches. */
  ghost predicate NodesRelinked(t: Tree, t': Tree, src: Path, dst: Path)
    requires src in t.index && Parent(dst) in t.index
  {
    && t'.next == t.next && t'.nodes.Keys == t.nodes.Keys
    && forall q {:trigger NodeRelinked(t, t', q, src, dst)} :: q in t.index ==> NodeRelinked(t, t', q, src, dst)
  }

  /** The directory that receives dst lies outside the moved subtree, and so
      does src's own parent. */
  lemma ParentsOutside(t: Tree, src: Path, dst: Path)
    requires MovePre(t, src, dst)
    ensures dst != "/" && ValidPath(Parent(dst)) && ValidPath(src) && ValidPath(Parent(src))
    ensures !InSubtree(Parent(dst), src) && !InSubtree(Parent(src), src) && Parent(src) in t.index
    ensures Child(Parent(dst), BaseName(dst)) == dst && Child(Parent(src), BaseName(src)) == src
    ensures ValidName(BaseName(dst))
  {
    assert PathOk(t, src) && PathOk(t, "/");
    assert dst != "/" by { assert Rooted(t); }
    ChildOfParent(dst);
    ChildOfParent(src);
    RootNotBelow(src);
    SubtreeParent(dst, src);
  }

  /** Nothing existing lies in the target's subtree. */
  lemma TargetClear(t: Tree, src: Path, dst: Path, q: Path)
    requires MovePre(t, src, dst) && q in t.index
    ensures !InSubtree(q, dst)
  {
    ParentsOutside(t, src, dst);
    ValidStart(dst);
    if dst + "/" <= q { AncestorIndexed(t, q, dst); }
  }

  /** Relocation keeps names and commutes with taking the parent, except at src. */
  lemma RelocateParent(t: Tree, src: Path, dst: Path, q: Path)
    requires MovePre(t, src, dst) && q in t.index && q != src
    ensures ValidPath(Relocate(q, src, dst)) && (q == "/" <==> Relocate(q, src, dst) == "/")
    ensures Parent(Relocate(q, src, dst)) == Relocate(Parent(q), src, dst)
    ensures BaseName(Relocate(q, src, dst)) == BaseName(q)
  {
    assert PathOk(t, q);
    ParentsOutside(t, src, dst);
    RootNotBelow(src);
    if q == "/" {
      assert Parent("/") == "/";
    } else {
      SubtreeParent(q, src);
      if InSubtree(q, src) {
        MovedParent(q, src, dst);
        MovedValid(q, src, dst);
      }
    }
    hide LastSlash, Parent, BaseName, ValidPath, InSubtree, Moved, Consistent;
  }

  lemma RelocateSrc(t: Tree, src: Path, dst: Path)
    requires MovePre(t, src, dst)
    ensures Relocate(src, src, dst) == dst
    ensures Relocate(Parent(dst), src, dst) == Parent(dst) && Relocate(Parent(src), src, dst) == Parent(src)
  {
    ParentsOutside(t, src, dst);
    MovedRoot(src, dst);
    hide LastSlash, Parent, BaseName, ValidPath, InSubtree, Moved, Consistent;
  }

  lemma MovedSrcPath(t: Tree, t': Tree, src: Path, dst: Path)
    requires MovePre(t, src, dst) && IndexRelocated(t, t', src, dst) && NodesRelinked(t, t', src, dst)
    ensures dst in t'.index && PathOk(t', dst)
  {
    RelocateSrc(t, src, dst);
    ParentsOutside(t, src, dst);
    assert PathOk(t, src) && PathOk(t, Parent(dst));
    assert NodeRelinked(t, t', src, src, dst);
    assert NodeRelinked(t, t', Parent(dst), src, dst);
    hide LastSlash, Parent, BaseName, ValidPath, InSubtree, Consistent, Relocate, Child;
    assert t'.index[Relocate(src, src, dst)] == t.index[src];
    assert t'.index[Relocate(Parent(dst), src, dst)] == t.index[Parent(dst)];
  }

  /** A path other than src is fine at its new place k if its name survives in
      its parent's child map. */
  lemma RelinkedPathOk(t: Tree, t': Tree, src: Path, dst: Path, q: Path, k: Path)
    requires src in t.index && Parent(dst) in t.index
    requires q in t.index && q != src && PathOk(t, q) && Parent(q) in t.index
    requires NodeRelinked(t, t', q, src, dst) && NodeRelinked(t, t', Parent(q), src, dst)
    requires k in t'.index && t'.index[k] == t.index[q]
    requires Parent(k) in t'.index && t'.index[Parent(k)] == t.index[Parent(q)]
    requires ValidPath(k) && BaseName(k) == BaseName(q) && (k == "/" ==> q == "/")
    requires k != "/" && Parent(q) == Parent(src) ==> BaseName(q) != BaseName(src)
    requires k != "/" && Parent(q) == Parent(dst) ==> BaseName(q) != BaseName(dst)
    requires k != "/" ==> q != "/"
    ensures PathOk(t', k)
  {
    hide LastSlash, Parent, BaseName, ValidPath;
  }

  lemma MovedOtherPath(t: Tree, t': Tree, src: Path, dst: Path, q: Path)
    requires MovePre(t, src, dst) && IndexRelocated(t, t', src, dst) && NodesRelinked(t, t', src, dst)
    requires q in t.index && q != src
    ensures PathOk(t', Relocate(q, src, dst))
  {
    RelocateParent(t, src, dst, q);
    ParentsOutside(t, src, dst);
    assert PathOk(t, q);
    if q != "/" { ChildOfParent(q); }
    assert NodeRelinked(t, t', q, src, dst);
    assert NodeRelinked(t, t', Parent(q), src, dst);
    assert t'.index[Relocate(q, src, dst)] == t.index[q];
    assert t'.index[Relocate(Parent(q), src, dst)] == t.index[Parent(q)];
    hide LastSlash, Parent, BaseName, ValidPath, InSubtree, Relocate, PathOk, Consistent, NodeRelinked, Child;
    RelinkedPathOk(t, t', src, dst, q, Relocate(q, src, dst));
  }

  /** A child other than src stays its parent's child wherever that goes. */
  lemma ChildMoves(t: Tree, src: Path, dst: Path, q: Path, n: Name)
    requires MovePre(t, src, dst) && q in t.index && n in Children(t.nodes, t.index[q]) && Child(q, n) != src
    ensures ValidName(n) && Child(q, n) in t.index && t.index[Child(q, n)] == Children(t.nodes, t.index[q])[n]
    ensures Relocate(Child(q, n), src, dst) == Child(Relocate(q, src, dst), n)
  {
    assert PathOk(t, q) && ChildOk(t, q, n);
    var c := Child(q, n);
    ParentOfChild(q, n);
    RelocateParent(t, src, dst, c);
    ChildOfParent(Relocate(c, src, dst));
    hide LastSlash, Parent, BaseName, ValidPath, InSubtree, Consistent, Relocate, Child;
  }

  lemma MovedChild(t: Tree, t': Tree, src: Path, dst: Path, q: Path, n: Name)
    requires MovePre(t, src, dst) && IndexRelocated(t, t', src, dst) && NodesRelinked(t, t', src, dst)
    requires q in t.index && n in Children(t'.nodes, t.index[q])
    ensures ChildOk(t', Relocate(q, src, dst), n)
  {
    RelocateSrc(t, src, dst);
    ParentsOutside(t, src, dst);
    assert NodeRelinked(t, t', q, src, dst);
    var k := Relocate(q, src, dst);
    assert t'.index[k] == t.index[q];
    if q == Parent(dst) && n == BaseName(dst) {
      hide LastSlash, Parent, BaseName, ValidPath, InSubtree, Consistent, Relocate, Child;
      assert t'.index[Relocate(src, src, dst)] == t.index[src];
    } else {
      OtherChild(t, q, src, n);
      hide LastSlash, Parent, BaseName, ValidPath, InSubtree, Consistent, Relocate, Child;
      ChildMoves(t, src, dst, q, n);
      assert t'.index[Relocate(Child(q, n), src, dst)] == t.index[Child(q, n)];
    }
  }

  lemma OtherChild(t: Tree, q: Path, src: Path, n: Name)
    requires Consistent(t) && q in t.index && n in Children(t.nodes, t.index[q])
    ensures Child(q, n) == src ==> q == Parent(src) && n == BaseName(src)
  {
    assert PathOk(t, q) && ChildOk(t, q, n);
    ParentOfChild(q, n);
    hide LastSlash, Parent, BaseName, ValidPath;
  }

  lemma MovedInjective(t: Tree, t': Tree, src: Path, dst: Path)
    requires MovePre(t, src, dst) && IndexRelocated(t, t', src, dst) && NodesRelinked(t, t', src, dst)
    ensures Injective(t') && NoOrphans(t') && Rooted(t') && InodesBelowNext(t')
  {
    forall k, l | SameNode(t', k, l) ensures k == l {
      var q :| q in t.index && k == Relocate(q, src, dst);
      var r :| r in t.index && l == Relocate(r, src, dst);
      assert SameNode(t, q, r);
    }
    forall i | i in t'.nodes ensures HasPath(t', i) {
      assert HasPath(t, i);
      var q :| q in t.index && t.index[q] == i;
      assert t'.index[Relocate(q, src, dst)] == i;
    }
    RelocateParent(t, src, dst, "/");
    assert t'.index[Relocate("/", src, dst)] == ROOT_INODE;
    hide LastSlash, Parent, BaseName, ValidPath, InSubtree, Relocate;
  }

  /** The view with the subtree at src standing at dst instead. */
  ghost predicate SubtreeMoved(v: map<Path, Entry>, v': map<Path, Entry>, src: Path, dst: Path) {
    && (forall q {:trigger Relocate(q, src, dst)} :: q in v ==>
          Relocate(q, src, dst) in v' && v'[Relocate(q, src, dst)] == v[q])
    && (forall k {:trigger k in v'} :: k in v' ==> exists q :: q in v && k == Relocate(q, src, dst))
  }

  lemma MovedView(t: Tree, t': Tree, src: Path, dst: Path)
    requires MovePre(t, src, dst) && IndexRelocated(t, t', src, dst) && NodesRelinked(t, t', src, dst)
    ensures SubtreeMoved(View(t), View(t'), src, dst)
  {
    hide LastSlash, Parent, BaseName, ValidPath, InSubtree, Relocate, Consistent;
    forall q | q in t.index
      ensures q in View(t) && Relocate(q, src, dst) in View(t')
      ensures View(t')[Relocate(q, src, dst)] == View(t)[q]
    {
      assert NodeRelinked(t, t', q, src, dst);
      assert t'.index[Relocate(q, src, dst)] == t.index[q];
    }
    forall k | k in View(t') ensures exists q :: q in View(t) && k == Relocate(q, src, dst) {
      assert k in t'.index;
      var q :| q in t.index && k == Relocate(q, src, dst);
      assert q in View(t);
    }
  }

  /** Relocating the component-wise subtree keeps agreement, and moves that
      subtree and nothing else. */
  lemma MoveConsistent(t: Tree, t': Tree, src: Path, dst: Path)
    requires MovePre(t, src, dst) && IndexRelocated(t, t', src, dst) && NodesRelinked(t, t', src, dst)
    ensures Consistent(t')
    ensures SubtreeMoved(View(t), View(t'), src, dst)
  {
    MovedInjective(t, t', src, dst);
    MovedView(t, t', src, dst);
    RelocateSrc(t, src, dst);
    hide LastSlash, Parent, BaseName, ValidPath, InSubtree, Relocate, MovePre, NodesRelinked;
    assert PathsOk(t') by {
      forall k | k in t'.index ensures PathOk(t', k) {
        var q :| q in t.index && k == Relocate(q, src, dst);
        if q == src { MovedSrcPath(t, t', src, dst); } else { MovedOtherPath(t, t', src, dst, q); }
      }
    }
    assert ChildrenOk(t') by {
      forall k, n | k in t'.index && n in Children(t'.nodes, t'.index[k]) ensures ChildOk(t', k, n) {
        var q :| q in t.index && k == Relocate(q, src, dst);
        assert t'.index[Relocate(q, src, dst)] == t.index[q];
        MovedChild(t, t', src, dst, q, n);
      }
    }
  }

  // ----- rename_file -----

  /** The three node updates seen from one node j: a loses name n, i gets name
      m and parent b, b gains m. */
  lemma RelinkOneNode(nodes: map<Inode, Node>, a: Inode, b: Inode, i: Inode, n: Name, m: Name, j: Inode)
    requires j in nodes && i in nodes && i != a && i != b
    requires b in nodes && nodes[b].Directory?
    ensures var r := AddChild(SetName(DropChild(nodes, a, n), i, m, b), b, m, i);
      var cs := if j == a then Children(nodes, j) - {n} else Children(nodes, j);
      && j in r && Describe(r[j]) == Describe(nodes[j])
      && r[j].name == (if j == i then m else nodes[j].name)
      && (nodes[j].Directory? ==> r[j].parent == if j == i then b else nodes[j].parent)
      && Children(r, j) == if j == b then cs[m := i] else cs
  {
    var r1 := DropChild(nodes, a, n);
    var r2 := SetName(r1, i, m, b);
    assert Children(r1, j) == if j == a then Children(nodes, j) - {n} else Children(nodes, j);
    assert j != a ==> r1[j] == nodes[j];
    assert Children(r2, j) == Children(r1, j);
    assert j != i ==> r2[j] == r1[j];
    assert b in r2 && r2[b].Directory?;
  }

  /** Which of the three touched nodes a path stands for. */
  lemma TouchedInodes(t: Tree, src: Path, dst: Path, q: Path)
    requires MovePre(t, src, dst) && q in t.index
    ensures Parent(src) in t.index && Parent(src) != src && Parent(dst) != src
    ensures t.index[q] == t.index[src] <==> q == src
    ensures t.index[q] == t.index[Parent(src)] <==> q == Parent(src)
    ensures t.index[q] == t.index[Parent(dst)] <==> q == Parent(dst)
    ensures t.index[src] != t.index[Parent(src)] && t.index[src] != t.index[Parent(dst)]
    ensures t.index[q] in t.nodes && t.nodes[t.index[q]].inode == t.index[q] && t.index[src] in t.nodes
  {
    ParentsOutside(t, src, dst);
    assert PathOk(t, q) && PathOk(t, src);
    assert InSubtree(src, src);
    hide LastSlash, Parent, BaseName, ValidPath, InSubtree, PathOk;
    DistinctPaths(t, src, Parent(src));
    DistinctPaths(t, src, Parent(dst));
    if q != src { DistinctPaths(t, q, src); }
    if q != Parent(src) { DistinctPaths(t, q, Parent(src)); }
    if q != Parent(dst) { DistinctPaths(t, q, Parent(dst)); }
  }

  /** Relink touches src's node, its old parent and its new parent, no others. */
  lemma RelinkNode(t: Tree, t': Tree, index: map<Path, Inode>, src: Path, dst: Path, q: Path)
    requires MovePre(t, src, dst) && q in t.index
    requires t'.nodes == Relink(t.nodes, index, t.index[src], src, dst, t.index[Parent(dst)])
    requires Parent(src) in index && Find(t, Parent(src)) == Some(index[Parent(src)])
    ensures NodeRelinked(t, t', q, src, dst)
  {
    TouchedInodes(t, src, dst, q);
    assert t.nodes[t.index[Parent(dst)]].Directory?;
    RelinkOneNode(t.nodes, t.index[Parent(src)], t.index[Parent(dst)], t.index[src],
                  BaseName(src), BaseName(dst), t.index[q]);
    hide LastSlash, Parent, BaseName, ValidPath, InSubtree, MovePre, AddChild, SetName, DropChild;
  }

  lemma RelinkKeys(nodes: map<Inode, Node>, index: map<Path, Inode>, i: Inode, src: Path, dst: Path, parent: Inode)
    ensures Relink(nodes, index, i, src, dst, parent).Keys == nodes.Keys
  {
    hide LastSlash, Parent, BaseName;
    var unlinked := DropChildAt(nodes, index, Parent(src), BaseName(src));
    assert unlinked.Keys == nodes.Keys;
    assert SetName(unlinked, i, BaseName(dst), parent).Keys == nodes.Keys;
  }

  lemma RelinkNodes(t: Tree, t': Tree, index: map<Path, Inode>, src: Path, dst: Path)
    requires MovePre(t, src, dst) && t'.next == t.next
    requires t'.nodes == Relink(t.nodes, index, t.index[src], src, dst, t.index[Parent(dst)])
    requires Parent(src) in index && Find(t, Parent(src)) == Some(index[Parent(src)])
    ensures NodesRelinked(t, t', src, dst)
  {
    RelinkKeys(t.nodes, index, t.index[src], src, dst, t.index[Parent(dst)]);
    forall q | q in t.index ensures NodeRelinked(t, t', q, src, dst) {
      RelinkNode(t, t', index, src, dst, q);
    }
    hide *;
    hide Relink;
  }

  /** A file cannot move below itself: its own path would be a directory. */
  lemma FileMovePre(t: Tree, src: Path, dst: Path)
    requires Consistent(t) && ValidPath(dst) && IsFileAt(t, src)
    requires dst !in t.index && IsDirAt(t, Parent(dst))
    ensures MovePre(t, src, dst) && Subtree(t, src) == {src}
  {
    FileIsLeaf(t, src);
    assert PathOk(t, src) && PathOk(t, "/") && Rooted(t);
    assert dst != "/";
    ValidStart(src);
    SubtreeParent(dst, src);
    if InSubtree(dst, src) {
      AncestorIndexed(t, Parent(dst), src);
    }
  }

  lemma FileRelocated(t: Tree, t': Tree, src: Path, dst: Path)
    requires MovePre(t, src, dst) && Subtree(t, src) == {src}
    requires t'.index == (t.index - {src})[dst := t.index[src]]
    ensures IndexRelocated(t, t', src, dst)
    ensures forall q :: q in t.index ==> Relocate(q, src, dst) == if q == src then dst else q
  {
    RelocateSrc(t, src, dst);
    forall q | q in t.index && q != src ensures !InSubtree(q, src) {
      assert InSubtree(q, src) ==> q in Subtree(t, src);
    }
    hide LastSlash, Parent, BaseName, ValidPath, InSubtree, Consistent;
    forall k | k in t'.index ensures exists q :: q in t.index && k == Relocate(q, src, dst) {
      assert k == Relocate(if k == dst then src else k, src, dst);
    }
  }

  /** rename_file succeeds exactly when the source is a file, the target is free
      and its parent is a directory; it always keeps agreement, and moves that one
      file with its inode. */
  lemma RenameFileExact(t: Tree, src: Path, dst: Path)
    requires Consistent(t) && ValidPath(dst)
    ensures Consistent(RenameFile(t, src, dst).0)
    ensures RenameFile(t, src, dst).1.Ok? <==> IsFileAt(t, src) && dst !in t.index && IsDirAt(t, Parent(dst))
    ensures RenameFile(t, src, dst).1.Err? ==> RenameFile(t, src, dst).0 == t
    ensures RenameFile(t, src, dst).1.Ok? ==>
      src in View(t) && View(RenameFile(t, src, dst).0) == (View(t) - {src})[dst := View(t)[src]]
  {
    assert src in t.index ==> PathOk(t, src);
    if RenameFile(t, src, dst).1.Ok? {
      var t' := RenameFile(t, src, dst).0;
      FileMovePre(t, src, dst);
      FileRelocated(t, t', src, dst);
      TouchedInodes(t, src, dst, src);
      RelinkNodes(t, t', t.index - {src}, src, dst);
      MoveConsistent(t, t', src, dst);
      FileMoveView(t, t', src, dst);
    }
  }

  lemma FileMoveView(t: Tree, t': Tree, src: Path, dst: Path)
    requires Consistent(t) && src in t.index && dst !in t.index && SubtreeMoved(View(t), View(t'), src, dst)
    requires forall q :: q in t.index ==> Relocate(q, src, dst) == if q == src then dst else q
    ensures src in View(t) && View(t') == (View(t) - {src})[dst := View(t)[src]]
  {
    forall q ensures q in View(t) <==> q in t.index { ViewKinds(t, q); }
    hide View, Consistent, Relocate;
    var v, v' := View(t), View(t');
    forall q | q in v ensures (if q == src then dst else q) in v' && v'[if q == src then dst else q] == v[q] {
      assert Relocate(q, src, dst) in v';
    }
    OneEntryMoved(v, v', src, dst);
  }

  lemma OneEntryMoved(v: map<Path, Entry>, v': map<Path, Entry>, src: Path, dst: Path)
    requires src in v && dst !in v && SubtreeMoved(v, v', src, dst)
    requires forall q :: q in v ==> Relocate(q, src, dst) == if q == src then dst else q
    ensures v' == (v - {src})[dst := v[src]]
  {
    hide Relocate;
    assert Relocate(src, src, dst) == dst;
    forall q | q in v && q != src ensures q in v' && v'[q] == v[q] { assert Relocate(q, src, dst) == q; }
    assert v'.Keys == v.Keys - {src} + {dst};
  }

  // ----- rename_directory -----

  /** No path outside src's subtree starts with src as a string, src is not the
      root, and dst is not below src. */
  ghost predicate GoodMove(t: Tree, src: Path, dst: Path) {
    src != "/" && !(src + "/" <= dst) && NoClash(t, src)
  }

  lemma GoodIndex(t: Tree, t': Tree, src: Path, dst: Path)
    requires Consistent(t) && ValidPath(dst) && DirectoryRenamed(t, t', src, dst) && GoodMove(t, src, dst)
    ensures MovePre(t, src, dst) && IndexRelocated(t, t', src, dst)
  {
    assert MovePre(t, src, dst);
    forall q | q in t.index
      ensures src <= q <==> InSubtree(q, src)
      ensures src <= q ==> Relocate(q, src, dst) == Moved(q, src, dst) && Moved(q, src, dst) !in t.index
      ensures !(src <= q) ==> Relocate(q, src, dst) == q
    {
      if InSubtree(q, src) {
        MovedInSubtree(q, src, dst);
        if Moved(q, src, dst) in t.index { TargetClear(t, src, dst, Moved(q, src, dst)); }
      }
    }
    RelocatedFromRewritten(t, t', src, dst);
  }

  lemma RelocatedFromRewritten(t: Tree, t': Tree, src: Path, dst: Path)
    requires Rewritten(t.index, t'.index, src, dst)
    requires forall q :: q in t.index && src <= q ==>
               Relocate(q, src, dst) == Moved(q, src, dst) && Moved(q, src, dst) !in t.index
    requires forall q :: q in t.index && !(src <= q) ==> Relocate(q, src, dst) == q
    ensures IndexRelocated(t, t', src, dst)
  {
    assert ImagesFresh(t.index, src, dst);
    hide Moved, Relocate;
    forall q | q in t.index
      ensures Relocate(q, src, dst) in t'.index && t'.index[Relocate(q, src, dst)] == t.index[q]
    {
      if src <= q {
        assert Image(t.index, t'.index, src, dst, Moved(q, src, dst), q);
      } else {
        assert Kept(t.index, t'.index, src, q);
      }
    }
    forall k | k in t'.index ensures exists q :: q in t.index && k == Relocate(q, src, dst) {
      if Kept(t.index, t'.index, src, k) {
        assert k == Relocate(k, src, dst);
      } else {
        var q :| Image(t.index, t'.index, src, dst, k, q);
        assert k == Relocate(q, src, dst);
      }
    }
  }

  lemma GoodMoveConsistent(t: Tree, t': Tree, src: Path, dst: Path)
    requires Consistent(t) && ValidPath(dst) && DirectoryRenamed(t, t', src, dst) && GoodMove(t, src, dst)
    ensures Consistent(t') && SubtreeMoved(View(t), View(t'), src, dst)
  {
    GoodIndex(t, t', src, dst);
    RelocateSrc(t, src, dst);
    ParentsOutside(t, src, dst);
    assert t'.index[Relocate(Parent(src), src, dst)] == t.index[Parent(src)];
    hide LastSlash, Parent, BaseName, ValidPath, InSubtree, Consistent, Relocate, Rewritten, Relink, MovePre;
    RelinkNodes(t, t', t'.index, src, dst);
    MoveConsistent(t, t', src, dst);
  }

  /** Moving the root loses the root's own entry. */
  lemma RootMoveBreaks(t: Tree, t': Tree, dst: Path)
    requires Consistent(t) && ValidPath(dst) && DirectoryRenamed(t, t', "/", dst)
    ensures !Consistent(t')
  {
    assert dst != "/" by { assert Rooted(t); }
    ValidStart(dst);
    ChildOfParent(dst);
    assert |dst| > 1;
    forall q ensures !Image(t.index, t'.index, "/", dst, "/", q) {
      assert "/" <= q ==> |Moved(q, "/", dst)| >= |dst|;
    }
    assert !Kept(t.index, t'.index, "/", "/");
    assert "/" !in t'.index;
  }

  /** Moving a directory below itself cuts its new place off from the root. */
  lemma MoveBelowItselfBreaks(t: Tree, t': Tree, src: Path, dst: Path)
    requires Consistent(t) && src != "/" && src + "/" <= dst && DirectoryRenamed(t, t', src, dst)
    ensures !Consistent(t')
  {
    assert PathOk(t, src);
    ValidStart(src);
    forall q ensures !Image(t.index, t'.index, src, dst, src, q) {
      assert src <= q ==> |Moved(q, src, dst)| >= |dst| > |src|;
    }
    assert !Kept(t.index, t'.index, src, src);
    assert src !in t'.index;
    if PathsOk(t') {
      AncestorIndexed(t', dst, src);
    }
  }

  /** A child entry under another name than the two being relinked survives. */
  lemma RelinkKeepsChild(nodes: map<Inode, Node>, index: map<Path, Inode>, i: Inode, src: Path, dst: Path,
                         parent: Inode, d: Inode, n: Name)
    requires n in Children(nodes, d) && n != BaseName(src) && (d == parent ==> n != BaseName(dst))
    ensures d in Relink(nodes, index, i, src, dst, parent)
    ensures n in Children(Relink(nodes, index, i, src, dst, parent), d)
    ensures Children(Relink(nodes, index, i, src, dst, parent), d)[n] == Children(nodes, d)[n]
  {
    hide LastSlash, Parent, BaseName;
    var r1 := DropChildAt(nodes, index, Parent(src), BaseName(src));
    assert n in Children(r1, d) && Children(r1, d)[n] == Children(nodes, d)[n];
    var r2 := SetName(r1, i, BaseName(dst), parent);
    assert Children(r2, d) == Children(r1, d);
  }

  /** A sibling with a longer name has its entry rewritten while its parent still
      lists it under the old name. Whatever the order of rewriting, no path can
      then stand for that parent. */
  lemma ClashMoveBreaks(t: Tree, t': Tree, src: Path, dst: Path)
    requires Consistent(t) && ValidPath(dst) && src != "/" && DirectoryRenamed(t, t', src, dst) && !NoClash(t, src)
    ensures !Consistent(t')
  {
    var s := ClashWitness(t, src);
    assert PathOk(t, src) && PathOk(t, s) && PathOk(t, "/");
    assert dst != "/";
    ChildOfParent(src);
    ChildOfParent(dst);
    MovedSibling(s, src, dst);
    var d, n := t.index[Parent(src)], BaseName(s);
    if d == t.index[Parent(dst)] { assert SameNode(t, Parent(src), Parent(dst)); }
    hide LastSlash, ValidName, InSubtree, NoClash;
    RelinkKeepsChild(t.nodes, t'.index, t.index[src], src, dst, t.index[Parent(dst)], d, n);
    if Consistent(t') {
      assert HasPath(t', d);
      var k :| k in t'.index && t'.index[k] == d;
      ClashEntry(t, t', src, dst, s, k);
    }
  }

  /** The parent's path k and its entry for s can only have come from the
      source's own parent, which did not move: source and target coincide. */
  lemma ClashEntry(t: Tree, t': Tree, src: Path, dst: Path, s: Path, k: Path)
    requires Consistent(t) && Consistent(t') && ValidPath(dst) && ValidPath(src) && src != "/" && dst != "/"
    requires Rewritten(t.index, t'.index, src, dst)
    requires s in t.index && src <= s && Parent(src) in t.index && !(src <= Parent(src))
    requires k in t'.index && t'.index[k] == t.index[Parent(src)]
    requires BaseName(s) in Children(t'.nodes, t'.index[k])
    requires Children(t'.nodes, t'.index[k])[BaseName(s)] == t.index[s]
    requires BaseName(s) == BaseName(src) + s[|src|..]
    requires Parent(Moved(s, src, dst)) == Parent(dst)
    requires BaseName(Moved(s, src, dst)) == BaseName(dst) + s[|src|..]
    ensures src == dst
  {
    var n := BaseName(s);
    assert PathOk(t', k);
    assert ChildOk(t', k, n);
    ParentOfChild(k, n);
    ChildOfParent(src);
    ChildOfParent(dst);
    var c := Child(k, n);
    CameFrom(t, t', src, dst, c, s);
    CameFrom(t, t', src, dst, k, Parent(src));
    assert c == Moved(s, src, dst);
    assert BaseName(src) + s[|src|..] == BaseName(dst) + s[|src|..];
    SameSuffix(BaseName(src), BaseName(dst), s[|src|..]);
  }

  lemma SameSuffix(a: string, b: string, c: string)
    requires a + c == b + c
    ensures a == b
  {
    assert |a| == |b|;
    assert a == (a + c)[..|a|];
    assert b == (b + c)[..|b|];
  }

  /** An entry's inode tells which old path it came from. */
  lemma CameFrom(t: Tree, t': Tree, src: Path, dst: Path, k: Path, p: Path)
    requires Injective(t) && Rewritten(t.index, t'.index, src, dst)
    requires k in t'.index && p in t.index && t'.index[k] == t.index[p]
    ensures src <= p ==> k == Moved(p, src, dst)
    ensures !(src <= p) ==> k == p
  {
    if Kept(t.index, t'.index, src, k) {
      assert SameNode(t, k, p);
    } else {
      var q :| Image(t.index, t'.index, src, dst, k, q);
      assert SameNode(t, q, p);
    }
  }

  /** Main result on rename_directory: whatever order the collected entries are
      rewritten in, it keeps agreement exactly when the move is good, and then it
      moves the subtree and nothing else. */
  lemma RenameDirectoryExact(t: Tree, t': Tree, src: Path, dst: Path)
    requires Consistent(t) && ValidPath(dst) && DirectoryRenamed(t, t', src, dst)
    ensures Consistent(t') <==> GoodMove(t, src, dst)
    ensures GoodMove(t, src, dst) ==> SubtreeMoved(View(t), View(t'), src, dst)
  {
    if GoodMove(t, src, dst) {
      GoodMoveConsistent(t, t', src, dst);
    } else if src == "/" {
      RootMoveBreaks(t, t', dst);
    } else if src + "/" <= dst {
      MoveBelowItselfBreaks(t, t', src, dst);
    } else {
      ClashMoveBreaks(t, t', src, dst);
    }
  }

  /** A good move has one outcome: the rewriting order does not show. */
  lemma RenameDirectoryDeterministic(t: Tree, t1: Tree, t2: Tree, src: Path, dst: Path)
    requires Consistent(t) && ValidPath(dst) && GoodMove(t, src, dst)
    requires DirectoryRenamed(t, t1, src, dst) && DirectoryRenamed(t, t2, src, dst)
    ensures t1 == t2
  {
    GoodIndex(t, t1, src, dst);
    GoodIndex(t, t2, src, dst);
    SameRelocation(t, t1, t2, src, dst);
  }

  lemma SameRelocation(t: Tree, t1: Tree, t2: Tree, src: Path, dst: Path)
    requires IndexRelocated(t, t1, src, dst) && IndexRelocated(t, t2, src, dst)
    ensures t1.index == t2.index
  {
    hide Relocate;
    forall k ensures k in t1.index <==> k in t2.index {
      if k in t1.index { var q :| q in t.index && k == Relocate(q, src, dst); }
      if k in t2.index { var q :| q in t.index && k == Relocate(q, src, dst); }
    }
    forall k | k in t1.index ensures t1.index[k] == t2.index[k] {
      var q :| q in t.index && k == Relocate(q, src, dst);
    }
    assert t1.index == t2.index;
  }
}
