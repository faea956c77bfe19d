/**
 Taking nodes away: remove_file, remove_directory, remove_directory_recursive
 and force_refresh, and when each keeps index and child maps in agreement.
 */
module TreePrune {
  import opened Common
  import opened Paths
  import opened TreeModel
  import opened TreeGrow

  function DropChild(nodes: map<Inode, Node>, dir: Inode, n: Name): map<Inode, Node> {
    if dir in nodes && nodes[dir].Directory?
    then nodes[dir := nodes[dir].(children := nodes[dir].children - {n})]
    else nodes
  }

  /** Drop a name from the directory at p, if the index has one there. */
  function DropChildAt(nodes: map<Inode, Node>, index: map<Path, Inode>, p: Path, n: Name): map<Inode, Node> {
    if p in index then DropChild(nodes, index[p], n) else nodes
  }

  function RemoveFile(t: Tree, p: Path): (Tree, Option<FileId>) {
    if p !in t.index then (t, None)
    else
      var i := t.index[p];
      var index := t.index - {p};
      if IsFileAt(t, p) then
        (Tree(DropChildAt(t.nodes - {i}, index, Parent(p), t.nodes[i].name), index, t.next), Some(t.nodes[i].fileId))
      else
        (Tree(t.nodes - {i}, index, t.next), None)
  }

  function RemoveDirectory(t: Tree, p: Path): (Tree, Result<(), RemoveError>) {
    if p !in t.index || t.index[p] !in t.nodes then (t, Err(NotFound))
    else
      var i := t.index[p];
      if t.nodes[i].File? then (t, Err(RemoveNotDirectory))
      else if t.nodes[i].children != map[] then (t, Err(NotEmpty))
      else (Tree(DropChildAt(t.nodes, t.index, Parent(p), BaseName(p)) - {i}, t.index - {p}, t.next), Ok(()))
  }

  /** The index entries remove_directory_recursive and rename_directory collect:
      everything whose path starts with p as a string. */
  function Collected(t: Tree, p: Path): set<Path> {
    set q | q in t.index && p <= q
  }

  function InodesAt(t: Tree, ps: set<Path>): set<Inode> {
    set q | q in ps && q in t.index :: t.index[q]
  }

  /** Remove the given paths with their nodes, then p's name from its parent. */
  function Cut(t: Tree, p: Path, gone: set<Path>): Tree {
    var index := t.index - gone;
    Tree(DropChildAt(t.nodes - InodesAt(t, gone), index, Parent(p), BaseName(p)), index, t.next)
  }

  function Subtree(t: Tree, p: Path): set<Path> {
    set q | q in t.index && InSubtree(q, p)
  }

  ghost predicate CutPre(t: Tree, p: Path) {
    Consistent(t) && p in t.index && p != "/"
  }

  lemma CutKeepsNode(t: Tree, p: Path, q: Path)
    requires CutPre(t, p) && q in t.index && !InSubtree(q, p)
    ensures var t' := Cut(t, p, Subtree(t, p));
      && q in t'.index && t'.index[q] == t.index[q] && t.index[q] in t'.nodes
      && Describe(t'.nodes[t.index[q]]) == Describe(t.nodes[t.index[q]])
      && (t.nodes[t.index[q]].Directory? ==> t'.nodes[t.index[q]].parent == t.nodes[t.index[q]].parent)
      && t'.nodes[t.index[q]].name == t.nodes[t.index[q]].name
      && Children(t'.nodes, t.index[q]) ==
           if q == Parent(p) then Children(t.nodes, t.index[q]) - {BaseName(p)} else Children(t.nodes, t.index[q])
  {
    assert PathOk(t, q) && PathOk(t, p);
    RootNotBelow(p);
    hide LastSlash, Parent, BaseName, ValidPath, InSubtree;
    var t' := Cut(t, p, Subtree(t, p));
    forall r | r in Subtree(t, p) ensures t.index[r] != t.index[q] { DistinctPaths(t, r, q); }
    assert t.index[q] == t.index[Parent(p)] ==> SameNode(t, q, Parent(p));
  }

  /** t' has lost the paths in `gone`; every other node shows the same, and has
      the same children except that `hole` has lost one name. */
  ghost predicate NodesKept(t: Tree, t': Tree, gone: set<Path>, hole: Path, n: Name) {
    && t'.index == t.index - gone
    && t'.next == t.next
    && (forall i :: i in t'.nodes ==> i in t.nodes)
    && (forall q {:trigger NodeKept(t, t', q, hole, n)} :: q in t.index && q !in gone ==> NodeKept(t, t', q, hole, n))
  }

  ghost predicate NodeKept(t: Tree, t': Tree, q: Path, hole: Path, n: Name)
    requires q in t.index
  {
    var i := t.index[q];
    && i in t.nodes && i in t'.nodes && i == t.nodes[i].inode == t'.nodes[i].inode
    && Describe(t'.nodes[i]) == Describe(t.nodes[i])
    && t'.nodes[i].name == t.nodes[i].name
    && (t.nodes[i].Directory? ==> t'.nodes[i].parent == t.nodes[i].parent)
    && Children(t'.nodes, i) == if q == hole then Children(t.nodes, i) - {n} else Children(t.nodes, i)
  }

  lemma CutKeepsNodes(t: Tree, p: Path)
    requires CutPre(t, p)
    ensures NodesKept(t, Cut(t, p, Subtree(t, p)), Subtree(t, p), Parent(p), BaseName(p))
  {
    var t' := Cut(t, p, Subtree(t, p));
    forall q | q in t.index && q !in Subtree(t, p) ensures NodeKept(t, t', q, Parent(p), BaseName(p)) {
      CutKeepsNode(t, p, q);
      assert PathOk(t, q);
    }
    hide LastSlash, Parent, BaseName, ValidPath, InSubtree, Consistent;
  }

  /** A path survives intact if neither it nor its parent goes, and its name is
      not the one that is dropped. */
  lemma KeptPathOk(t: Tree, t': Tree, gone: set<Path>, hole: Path, n: Name, q: Path)
    requires NodesKept(t, t', gone, hole, n)
    requires q in t.index && PathOk(t, q) && q !in gone && Parent(q) !in gone
    requires q != "/" && Parent(q) == hole ==> BaseName(q) != n
    ensures PathOk(t', q)
  {
    hide LastSlash, Parent, BaseName, ValidPath;
    assert NodeKept(t, t', q, hole, n);
    assert NodeKept(t, t', Parent(q), hole, n);
  }

  lemma CutPath(t: Tree, t': Tree, p: Path, q: Path)
    requires CutPre(t, p) && NodesKept(t, t', Subtree(t, p), Parent(p), BaseName(p))
    requires q in t'.index
    ensures PathOk(t', q)
  {
    assert PathOk(t, q) && PathOk(t, p);
    RootNotBelow(p);
    ChildOfParent(p);
    assert Parent("/") == "/";
    if q != "/" {
      SubtreeParent(q, p);
      ChildOfParent(q);
    }
    hide LastSlash, Parent, BaseName, ValidPath, InSubtree, CutPre, PathOk, Child;
    KeptPathOk(t, t', Subtree(t, p), Parent(p), BaseName(p), q);
  }

  lemma CutChild(t: Tree, t': Tree, p: Path, q: Path, n: Name)
    requires CutPre(t, p) && NodesKept(t, t', Subtree(t, p), Parent(p), BaseName(p))
    requires q in t'.index && n in Children(t'.nodes, t'.index[q])
    ensures ChildOk(t', q, n)
  {
    assert PathOk(t, q) && PathOk(t, p);
    assert NodeKept(t, t', q, Parent(p), BaseName(p));
    assert ChildOk(t, q, n);
    ParentOfChild(q, n);
    SubtreeParent(Child(q, n), p);
    hide LastSlash, Parent, BaseName, ValidPath, InSubtree, NodesKept, Consistent, Child;
  }

  lemma CutInjective(t: Tree, p: Path)
    requires CutPre(t, p)
    ensures Injective(Cut(t, p, Subtree(t, p))) && NoOrphans(Cut(t, p, Subtree(t, p)))
  {
    hide LastSlash, Parent, BaseName, ValidPath, InSubtree;
    var t' := Cut(t, p, Subtree(t, p));
    forall q, r | SameNode(t', q, r) ensures q == r { assert SameNode(t, q, r); }
    forall i | i in t'.nodes ensures HasPath(t', i) {
      assert HasPath(t, i);
      var q :| q in t.index && t.index[q] == i;
      assert q !in Subtree(t, p);
      assert t'.index[q] == i;
    }
  }

  /** The view without the subtree at p. */
  ghost function Without(v: map<Path, Entry>, p: Path): map<Path, Entry> {
    map q | q in v && !InSubtree(q, p) :: v[q]
  }

  lemma CutView(t: Tree, t': Tree, p: Path)
    requires NodesKept(t, t', Subtree(t, p), Parent(p), BaseName(p))
    ensures View(t') == Without(View(t), p)
  {
    hide LastSlash, Parent, BaseName, ValidPath, InSubtree;
    var v, v' := Without(View(t), p), View(t');
    forall q ensures q in v' <==> q in v {
      assert q in t.index && !InSubtree(q, p) ==> NodeKept(t, t', q, Parent(p), BaseName(p));
    }
    forall q | q in v ensures v'[q] == v[q] {
      assert NodeKept(t, t', q, Parent(p), BaseName(p));
    }
  }

  /** Cutting the component-wise subtree at p keeps agreement and takes away
      just that subtree. */
  lemma CutConsistent(t: Tree, p: Path)
    requires CutPre(t, p)
    ensures Consistent(Cut(t, p, Subtree(t, p)))
    ensures View(Cut(t, p, Subtree(t, p))) == Without(View(t), p)
  {
    var t' := Cut(t, p, Subtree(t, p));
    assert PathOk(t, p);
    CutKeepsNodes(t, p);
    RootNotBelow(p);
    CutView(t, t', p);
    CutInjective(t, p);
    hide LastSlash, Parent, BaseName, ValidPath, InSubtree, Cut;
    assert PathsOk(t') by {
      forall q | q in t'.index ensures PathOk(t', q) { CutPath(t, t', p, q); }
    }
    assert ChildrenOk(t') by {
      forall q, n | q in t'.index && n in Children(t'.nodes, t'.index[q]) ensures ChildOk(t', q, n) {
        CutChild(t, t', p, q, n);
      }
    }
  }

  /** A directory that still lists a name the index has lost breaks agreement. */
  lemma DanglingChildBreaks(t: Tree, q: Path, n: Name)
    requires q in t.index && n in Children(t.nodes, t.index[q]) && Child(q, n) !in t.index
    ensures !Consistent(t)
  {
    assert ChildrenOk(t) ==> ChildOk(t, q, n);
  }

  // ----- remove_file -----

  lemma FileIsLeaf(t: Tree, p: Path)
    requires Consistent(t) && IsFileAt(t, p)
    ensures p != "/" && Subtree(t, p) == {p}
  {
    assert PathOk(t, p) && PathOk(t, "/");
    assert IsDirAt(t, "/");
    ValidStart(p);
    forall q | q in t.index && p + "/" <= q ensures false { AncestorIndexed(t, q, p); }
    hide LastSlash, Parent, BaseName, ValidPath;
  }

  lemma RemoveFileIsCut(t: Tree, p: Path)
    requires Consistent(t) && IsFileAt(t, p)
    ensures RemoveFile(t, p).0 == Cut(t, p, {p})
  {
    assert PathOk(t, p);
    hide LastSlash, Parent, BaseName, ValidPath, Consistent;
    assert InodesAt(t, {p}) == {t.index[p]};
  }

  /** remove_file keeps agreement exactly when it is not aimed at a directory. */
  lemma RemoveFileExact(t: Tree, p: Path)
    requires Consistent(t)
    ensures Consistent(RemoveFile(t, p).0) <==> !IsDirAt(t, p)
    ensures RemoveFile(t, p).1 == if IsFileAt(t, p) then Some(View(t)[p].fileId) else None
    ensures !IsDirAt(t, p) ==> View(RemoveFile(t, p).0) == View(t) - {p}
  {
    var t' := RemoveFile(t, p).0;
    ViewKinds(t, p);
    if IsFileAt(t, p) {
      RemoveFileIsCut(t, p);
      FileIsLeaf(t, p);
      CutConsistent(t, p);
      assert View(t).Keys == t.index.Keys by {
        forall q ensures q in View(t) <==> q in t.index { ViewKinds(t, q); }
      }
      assert Without(View(t), p) == View(t) - {p} by {
        hide *;
        assert forall q :: q in View(t) && InSubtree(q, p) ==> q in Subtree(t, p);
      }
    } else if p in t.index {
      assert PathOk(t, p);
      if p != "/" {
        ChildOfParent(p);
        assert t.index[p] != t.index[Parent(p)] by { DistinctPaths(t, p, Parent(p)); }
        DanglingChildBreaks(t', Parent(p), BaseName(p));
      }
    }
  }

  // ----- remove_directory -----

  ghost predicate HasDescendant(t: Tree, p: Path) {
    exists q :: q in t.index && q != p && InSubtree(q, p)
  }

  lemma EmptyDirIsLeaf(t: Tree, p: Path)
    requires Consistent(t) && IsDirAt(t, p) && p != "/"
    ensures Children(t.nodes, t.index[p]) == map[] <==> Subtree(t, p) == {p}
  {
    assert PathOk(t, p);
    var cs := Children(t.nodes, t.index[p]);
    if cs == map[] {
      forall q | q in Subtree(t, p) ensures q == p {
        if q != p { ChildOnTheWay(t, p, q); }
      }
    } else {
      var n :| n in cs;
      assert ChildOk(t, p, n);
      ParentOfChild(p, n);
      SubtreeParent(Child(p, n), p);
      assert Child(p, n) in Subtree(t, p);
      assert Parent(Child(p, n)) == p && Parent(p) != p by { ChildOfParent(p); }
    }
    assert p in Subtree(t, p);
    hide LastSlash, Parent, BaseName, ValidPath, InSubtree;
  }

  /** A strict descendant shows that the directory has a child. */
  lemma {:induction false} ChildOnTheWay(t: Tree, p: Path, q: Path)
    requires Consistent(t) && p in t.index && p != "/" && q in t.index && q != p && InSubtree(q, p)
    ensures Children(t.nodes, t.index[p]) != map[]
    decreases |q|
  {
    assert PathOk(t, p) && PathOk(t, q);
    RootNotBelow(p);
    SubtreeParent(q, p);
    ChildOfParent(q);
    if Parent(q) != p {
      ChildOnTheWay(t, p, Parent(q));
    }
  }

  lemma RemoveDirectoryIsCut(t: Tree, p: Path)
    requires Consistent(t) && RemoveDirectory(t, p).1.Ok? && p != "/"
    ensures RemoveDirectory(t, p).0 == Cut(t, p, {p})
  {
    assert PathOk(t, p);
    ChildOfParent(p);
    DistinctPaths(t, p, Parent(p));
    hide LastSlash, Parent, BaseName, ValidPath, Consistent;
    assert InodesAt(t, {p}) == {t.index[p]};
  }

  /** remove_directory succeeds exactly on directories with nothing below them,
      and then keeps agreement exactly when the directory is not the root. */
  lemma RemoveDirectoryExact(t: Tree, p: Path)
    requires Consistent(t)
    ensures p != "/" ==> (RemoveDirectory(t, p).1.Ok? <==> IsDirAt(t, p) && !HasDescendant(t, p))
    ensures RemoveDirectory(t, p).1 == Err(NotFound) <==> p !in t.index
    ensures RemoveDirectory(t, p).1 == Err(RemoveNotDirectory) <==> IsFileAt(t, p)
    ensures RemoveDirectory(t, p).1.Err? ==> RemoveDirectory(t, p).0 == t
    ensures RemoveDirectory(t, p).1.Ok? ==> (Consistent(RemoveDirectory(t, p).0) <==> p != "/")
    ensures RemoveDirectory(t, p).1.Ok? && p != "/" ==> View(RemoveDirectory(t, p).0) == View(t) - {p}
  {
    assert p in t.index ==> PathOk(t, p);
    if p != "/" && IsDirAt(t, p) {
      EmptyDirIsLeaf(t, p);
      assert HasDescendant(t, p) <==> Subtree(t, p) != {p} by {
        hide Consistent, PathOk;
        assert p in Subtree(t, p);
        if HasDescendant(t, p) {
          var q :| q in t.index && q != p && InSubtree(q, p);
          assert q in Subtree(t, p);
        } else {
          assert forall q :: q in Subtree(t, p) ==> q == p;
        }
      }
      if RemoveDirectory(t, p).1.Ok? {
        RemoveDirectoryIsCut(t, p);
        CutConsistent(t, p);
        WithoutLeaf(t, p);
      }
    }
  }

  lemma WithoutLeaf(t: Tree, p: Path)
    requires Consistent(t) && Subtree(t, p) == {p}
    ensures Without(View(t), p) == View(t) - {p}
  {
    forall q ensures q in View(t) <==> q in t.index { ViewKinds(t, q); }
    hide *;
    assert forall q :: q in View(t) && InSubtree(q, p) ==> q in Subtree(t, p);
    assert InSubtree(p, p);
  }

  // ----- remove_directory_recursive -----

  function RemoveRecursive(t: Tree, p: Path): (Tree, Result<set<Path>, RemoveError>) {
    if p !in t.index then (t, Err(NotFound))
    else if !IsDirAt(t, p) then (t, Err(RemoveNotDirectory))
    else (Cut(t, p, Collected(t, p)), Ok(Collected(t, p)))
  }

  /** Every indexed path that starts with p as a string lies in p's subtree. */
  ghost predicate NoClash(t: Tree, p: Path) {
    forall q :: q in t.index && p <= q ==> InSubtree(q, p)
  }

  lemma CollectedIsSubtree(t: Tree, p: Path)
    requires NoClash(t, p)
    ensures Collected(t, p) == Subtree(t, p)
  {
    forall q | q in t.index && InSubtree(q, p) ensures p <= q {
      if p + "/" <= q { assert q[..|p|] == p; }
    }
  }

  lemma RootRemovedBreaks(t: Tree)
    ensures !Consistent(Cut(t, "/", Collected(t, "/")))
  {
    assert "/" !in Cut(t, "/", Collected(t, "/")).index;
  }

  /** Where string prefixes and subtrees part, p has a sibling with a longer
      name, listed by their common parent. */
  lemma ClashWitness(t: Tree, p: Path) returns (s: Path)
    requires Consistent(t) && p in t.index && p != "/" && !NoClash(t, p)
    ensures s in t.index && s != "/" && p <= s && s != p
    ensures Parent(s) == Parent(p) && BaseName(s) != BaseName(p)
    ensures Parent(p) in t.index && !(p <= Parent(p))
    ensures Child(Parent(p), BaseName(s)) == s
    ensures Lookup(t, t.index[Parent(p)], BaseName(s)) == Some(t.index[s])
  {
    var q :| q in t.index && p <= q && !InSubtree(q, p);
    assert PathOk(t, q) && PathOk(t, p);
    s := ClashingSibling(q, p);
    if s != q { AncestorIndexed(t, q, s); }
    assert PathOk(t, s);
    ChildOfParent(s);
    ChildOfParent(p);
    assert |Parent(p)| < |p|;
    hide LastSlash, Parent, BaseName, ValidPath, InSubtree, NoClash;
  }

  /** That sibling is swept along, while its entry stays in the parent's map. */
  lemma ClashRemovedBreaks(t: Tree, p: Path)
    requires Consistent(t) && IsDirAt(t, p) && p != "/" && !NoClash(t, p)
    ensures !Consistent(Cut(t, p, Collected(t, p)))
  {
    var s := ClashWitness(t, p);
    var d, n := Parent(p), BaseName(s);
    assert PathOk(t, d);
    hide LastSlash, Parent, BaseName, ValidPath, InSubtree, NoClash;
    var t' := Cut(t, p, Collected(t, p));
    forall r | r in Collected(t, p) ensures t.index[r] != t.index[d] { DistinctPaths(t, r, d); }
    hide Consistent;
    assert t.index[d] !in InodesAt(t, Collected(t, p));
    assert n in Children(t'.nodes, t'.index[d]);
    DanglingChildBreaks(t', d, n);
  }

  /** remove_directory_recursive keeps agreement exactly when it is not aimed at
      the root and no path outside the subtree starts with the directory's path
      as a string; it then removes the subtree and nothing else. */
  lemma RemoveRecursiveExact(t: Tree, p: Path)
    requires Consistent(t)
    ensures RemoveRecursive(t, p).1.Ok? <==> IsDirAt(t, p)
    ensures RemoveRecursive(t, p).1 == Err(NotFound) <==> p !in t.index
    ensures RemoveRecursive(t, p).1 == Err(RemoveNotDirectory) <==> IsFileAt(t, p)
    ensures !IsDirAt(t, p) ==> RemoveRecursive(t, p).0 == t
    ensures IsDirAt(t, p) ==> (Consistent(RemoveRecursive(t, p).0) <==> p != "/" && NoClash(t, p))
    ensures IsDirAt(t, p) && p != "/" && NoClash(t, p) ==>
      View(RemoveRecursive(t, p).0) == Without(View(t), p) && RemoveRecursive(t, p).1 == Ok(Subtree(t, p))
  {
    assert p in t.index ==> PathOk(t, p);
    if IsDirAt(t, p) {
      if p == "/" {
        RootRemovedBreaks(t);
      } else if NoClash(t, p) {
        CollectedIsSubtree(t, p);
        CutConsistent(t, p);
      } else {
        ClashRemovedBreaks(t, p);
      }
    }
  }

  // ----- force_refresh -----

  function ForceRefresh(t: Tree): Tree {
    var nodes := map i | i in t.nodes && i == ROOT_INODE :: t.nodes[i];
    var cleared := if ROOT_INODE in nodes && nodes[ROOT_INODE].Directory?
                   then nodes[ROOT_INODE := nodes[ROOT_INODE].(children := map[])] else nodes;
    Tree(cleared, map p | p in t.index && p == "/" :: t.index[p], t.next)
  }

  lemma ForceRefreshExact(t: Tree)
    requires Consistent(t)
    ensures Consistent(ForceRefresh(t))
    ensures View(ForceRefresh(t)) == map["/" := DirEntry(ROOT_INODE)]
    ensures ForceRefresh(t).next == t.next
  {
    var t' := ForceRefresh(t);
    assert PathOk(t, "/");
    assert LastSlash("/") == 0 && BaseName("/") == "" && Parent("/") == "/";
    hide LastSlash, Parent, BaseName;
    assert forall p :: p in t'.index ==> p == "/";
    assert forall i :: i in t'.nodes ==> i == ROOT_INODE;
    assert Children(t'.nodes, ROOT_INODE) == map[];
    assert PathsOk(t') by { assert PathOk(t', "/"); }
    assert NoOrphans(t') by { assert t'.index["/"] == ROOT_INODE; }
    assert View(t')["/"] == DirEntry(ROOT_INODE);
  }
}
