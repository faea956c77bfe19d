/**
 Adding nodes: the step shared by insert_file, mkdir, mkdir_p, ensure_parents
 and ensure_trash_dir, and exactly when it keeps index and child maps in
 agreement.
 */
module TreeAttach {
  import opened Common
  import opened Paths
  import opened TreeModel

  function AddChild(nodes: map<Inode, Node>, dir: Inode, n: Name, i: Inode): map<Inode, Node> {
    if dir in nodes && nodes[dir].Directory?
    then nodes[dir := nodes[dir].(children := nodes[dir].children[n := i])]
    else nodes
  }

  /** Give a node the next inode number and enter it at p. */
  function Attach(t: Tree, p: Path, parent: Inode, node: Node): Tree {
    Tree(AddChild(t.nodes[t.next := node], parent, BaseName(p), t.next),
         t.index[p := t.next], t.next + 1)
  }

  function NewDir(t: Tree, p: Path, parent: Inode): Node {
    Directory(t.next, parent, BaseName(p), map[])
  }

  function NewFile(t: Tree, meta: FileMeta): Node {
    File(t.next, BaseName(meta.virtualPath), meta.id, meta.size, meta.mtime)
  }

  /** A node that may be attached at p under directory inode `parent`. */
  ghost predicate Attachable(t: Tree, p: Path, parent: Inode, node: Node) {
    && node.inode == t.next
    && node.name == BaseName(p)
    && (node.Directory? ==> node.parent == parent && node.children == map[])
  }

  ghost predicate AttachPre(t: Tree, p: Path, parent: Inode, node: Node) {
    && Consistent(t) && ValidPath(p) && p != "/" && p !in t.index
    && IsDirAt(t, Parent(p)) && parent == t.index[Parent(p)]
    && Attachable(t, p, parent, node)
  }

  lemma AttachPath(t: Tree, p: Path, parent: Inode, node: Node, q: Path)
    requires AttachPre(t, p, parent, node)
    requires q in t.index || q == p
    ensures PathOk(Attach(t, p, parent, node), q)
  {
    hide LastSlash, Parent, BaseName, ValidPath;
    var t' := Attach(t, p, parent, node);
    assert PathOk(t, Parent(p));
    ChildOfParent(p);
    if q == p {
      assert Lookup(t', parent, BaseName(p)) == Some(t.next);
    } else {
      assert PathOk(t, q) && PathOk(t, Parent(q));
      var d := t.index[Parent(q)];
      assert d == parent ==> SameNode(t, Parent(p), Parent(q));
      if q != "/" {
        ChildOfParent(q);
        assert d == parent ==> BaseName(q) != BaseName(p);
        assert Lookup(t', d, BaseName(q)) == Lookup(t, d, BaseName(q));
      }
    }
  }

  lemma AttachChild(t: Tree, p: Path, parent: Inode, node: Node, q: Path, n: Name)
    requires AttachPre(t, p, parent, node)
    requires var t' := Attach(t, p, parent, node); q in t'.index && n in Children(t'.nodes, t'.index[q])
    ensures ChildOk(Attach(t, p, parent, node), q, n)
  {
    hide LastSlash, Parent, BaseName, ValidPath;
    var t' := Attach(t, p, parent, node);
    assert q != p && t.index[q] < t.next by {
      assert q in t.index ==> PathOk(t, q);
      assert Children(t'.nodes, t.next) == map[];
    }
    ChildOfParent(p);
    assert t.index[q] == parent ==> SameNode(t, q, Parent(p));
    if q == Parent(p) && n == BaseName(p) {
    } else {
      assert n in Children(t.nodes, t.index[q]);
      assert ChildOk(t, q, n);
    }
  }

  lemma AttachInjective(t: Tree, p: Path, parent: Inode, node: Node)
    requires AttachPre(t, p, parent, node)
    ensures Injective(Attach(t, p, parent, node))
    ensures NoOrphans(Attach(t, p, parent, node))
  {
    hide LastSlash, Parent, BaseName, ValidPath;
    var t' := Attach(t, p, parent, node);
    forall q, r | SameNode(t', q, r) ensures q == r {
      assert q in t.index ==> PathOk(t, q);
      assert r in t.index ==> PathOk(t, r);
      assert q != p && r != p ==> SameNode(t, q, r);
    }
    forall i | i in t'.nodes ensures HasPath(t', i) {
      if i == t.next {
        assert t'.index[p] == i;
      } else {
        assert HasPath(t, i);
        var q :| q in t.index && t.index[q] == i;
        assert t'.index[q] == i;
      }
    }
  }

  /** No node that was there before changes what it shows. */
  lemma AttachEntries(t: Tree, p: Path, parent: Inode, node: Node, i: Inode)
    requires i in t.nodes && i != t.next
    ensures i in Attach(t, p, parent, node).nodes
    ensures Describe(Attach(t, p, parent, node).nodes[i]) == Describe(t.nodes[i])
  {
    hide LastSlash, Parent, BaseName, ValidPath;
  }

  lemma AttachView(t: Tree, p: Path, parent: Inode, node: Node)
    requires AttachPre(t, p, parent, node)
    ensures View(Attach(t, p, parent, node)) == View(t)[p := Describe(node)]
  {
    hide LastSlash, Parent, BaseName, ValidPath;
    var t' := Attach(t, p, parent, node);
    forall q | q in t.index
      ensures t.index[q] in t.nodes && t.index[q] in t'.nodes
      ensures Describe(t'.nodes[t.index[q]]) == Describe(t.nodes[t.index[q]])
    {
      assert PathOk(t, q);
      AttachEntries(t, p, parent, node, t.index[q]);
    }
    assert parent != t.next by { assert PathOk(t, Parent(p)); }
    assert t'.nodes[t.next] == node;
    hide Attach, Describe, PathsOk, ChildrenOk, Injective, NoOrphans;
  }

  /** Attaching below an existing directory, at a fresh path, keeps the
      agreement and changes the view at that one path. */
  lemma AttachConsistent(t: Tree, p: Path, parent: Inode, node: Node)
    requires AttachPre(t, p, parent, node)
    ensures Consistent(Attach(t, p, parent, node))
    ensures View(Attach(t, p, parent, node)) == View(t)[p := Describe(node)]
  {
    hide LastSlash, Parent, BaseName, ValidPath;
    var t' := Attach(t, p, parent, node);
    assert PathsOk(t') by {
      forall q | q in t'.index ensures PathOk(t', q) { AttachPath(t, p, parent, node, q); }
    }
    assert ChildrenOk(t') by {
      forall q, n | q in t'.index && n in Children(t'.nodes, t'.index[q]) ensures ChildOk(t', q, n) {
        AttachChild(t, p, parent, node, q, n);
      }
    }
    AttachInjective(t, p, parent, node);
    AttachView(t, p, parent, node);
    assert Rooted(t') && InodesBelowNext(t') by { assert PathOk(t, Parent(p)); }
  }
}
