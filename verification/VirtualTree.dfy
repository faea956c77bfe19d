/**
 The tree as the source keeps it: two hash maps changed in place. Each method
 is tied to what the tree model says it does; the model's lemmas then say when
 index and child maps still agree.
 */
module VirtualTrees {
  import opened Common
  import opened Paths
  import opened TreeModel
  import opened TreeAttach
  import opened TreeGrow
  import opened TreePrune
  import opened TreeRename

  /** The ids of the files among the paths ps. */
  ghost function FileIds(t: Tree, ps: set<Path>): multiset<FileId> {
    if ps == {} then multiset{}
    else var p :| p in ps; FileIdAt(t, p) + FileIds(t, ps - {p})
  }

  function FileIdAt(t: Tree, p: Path): multiset<FileId> {
    if IsFileAt(t, p) then multiset{t.nodes[t.index[p]].fileId} else multiset{}
  }

  lemma {:induction false} FileIdsRemove(t: Tree, ps: set<Path>, p: Path)
    requires p in ps
    ensures FileIds(t, ps) == FileIdAt(t, p) + FileIds(t, ps - {p})
    decreases ps
  {
    var q :| q in ps && FileIds(t, ps) == FileIdAt(t, q) + FileIds(t, ps - {q});
    if q != p {
      FileIdsRemove(t, ps - {q}, p);
      FileIdsRemove(t, ps - {p}, q);
      assert ps - {q} - {p} == ps - {p} - {q};
    }
  }

  /** Every id as often as there are visible files with it. */
  lemma {:induction false} FileIdsCount(t: Tree, ps: set<Path>, id: FileId)
    requires Consistent(t)
    ensures FileIds(t, ps)[id] == |FilesWith(View(t), ps, id)|
    decreases ps
  {
    hide Consistent, View;
    if ps == {} {
      assert FilesWith(View(t), ps, id) == {};
    } else {
      var p :| p in ps;
      FileIdsRemove(t, ps, p);
      FileIdsCount(t, ps - {p}, id);
      FileIdAtCount(t, p, id);
      hide FileIds, FileIdAt, FilesWith;
      FilesWithRemove(View(t), ps, p, id);
    }
  }

  lemma FileIdAtCount(t: Tree, p: Path, id: FileId)
    requires Consistent(t)
    ensures FileIdAt(t, p)[id] == |FilesWith(View(t), {p}, id)|
  {
    ViewKinds(t, p);
    hide Consistent, View;
    assert FilesWith(View(t), {p}, id) == {p} || FilesWith(View(t), {p}, id) == {};
  }

  lemma FilesWithRemove(v: map<Path, Entry>, ps: set<Path>, p: Path, id: FileId)
    requires p in ps
    ensures |FilesWith(v, ps, id)| == |FilesWith(v, {p}, id)| + |FilesWith(v, ps - {p}, id)|
  {
    assert FilesWith(v, ps, id) == FilesWith(v, {p}, id) + FilesWith(v, ps - {p}, id);
  }

  function FilesWith(v: map<Path, Entry>, ps: set<Path>, id: FileId): set<Path> {
    set p | p in ps && p in v && v[p].FileEntry? && v[p].fileId == id
  }

  /** The path after k components, as the directory-creating loops spell it. */
  function Prefix(path: Path, k: nat): Path
    requires k <= |Components(path)|
  {
    Join(Components(path)[..k])
  }

  /** How the loops spell the next prefix. */
  lemma NextPrefix(path: Path, k: nat)
    requires ValidPath(path) && k < |Components(path)|
    ensures ValidPath(Prefix(path, k)) && ValidName(Components(path)[k])
    ensures Prefix(path, k + 1) == Child(Prefix(path, k), Components(path)[k])
    ensures (Prefix(path, k) == "/" <==> k == 0) && |Prefix(path, k)| > 0
    ensures k > 0 ==> Prefix(path, k)[|Prefix(path, k)| - 1] != '/'
  {
    var cs := Components(path);
    ComponentsPrefix(path, k);
    if k == 0 {
      assert cs[..0] == [];
    } else {
      ComponentsPrefix(path, k - 1);
      ParentOfChild(Prefix(path, k - 1), cs[k - 1]);
      hide LastSlash, Parent, BaseName, ValidPath, Components, Join, Child;
      ChildEnd(Prefix(path, k - 1), cs[k - 1]);
    }
  }

  lemma ChildEnd(dir: Path, n: Name)
    requires ValidName(n)
    ensures |Child(dir, n)| > 0 && Child(dir, n)[|Child(dir, n)| - 1] != '/'
  {
    assert Child(dir, n)[|Child(dir, n)| - 1] == n[|n| - 1];
  }

  /** The path so far, ready for another component. */
  function Slashed(p: string): string {
    if p != "" && p[|p| - 1] == '/' then p else p + "/"
  }

  /** One round takes MakeDirs from k components to k + 1. */
  lemma MakeDirsRound(t: Tree, path: Path, k: nat)
    requires ValidPath(path) && k < |Components(path)|
    ensures ValidPath(Prefix(path, k)) && ValidPath(Prefix(path, k + 1))
    ensures Slashed(Prefix(path, k)) + Components(path)[k] == Prefix(path, k + 1)
    ensures Prefix(path, k + 1) + "/" == Slashed(Prefix(path, k + 1))
    ensures var (t1, d) := MakeDirs(t, Prefix(path, k));
      MakeDirs(t, Prefix(path, k + 1)) == EnterDir(t1, d, Prefix(path, k + 1))
  {
    NextPrefix(path, k);
    ParentOfChild(Prefix(path, k), Components(path)[k]);
    ChildEnd(Prefix(path, k), Components(path)[k]);
    hide LastSlash, Parent, BaseName, ValidPath, Components, Join, Prefix, EnterDir;
  }

  lemma AllComponents(path: Path)
    requires ValidPath(path)
    ensures Prefix(path, |Components(path)|) == path
    ensures path != "/" ==> |Components(path)| > 0 && Prefix(path, |Components(path)| - 1) == Parent(path)
    ensures path == "/" ==> |Components(path)| == 0
  {
    var cs := Components(path);
    JoinComponents(path);
    assert cs[..|cs|] == cs;
    if path != "/" {
      ChildOfParent(path);
      JoinComponents(Parent(path));
    }
  }

  lemma FirstPrefix(t: Tree, path: Path)
    requires ValidPath(path)
    ensures Prefix(path, 0) == "/" && Slashed("/") == "/" && MakeDirs(t, Prefix(path, 0)) == (t, ROOT_INODE)
  {
    assert Components(path)[..0] == [];
  }

  /** ensure_parents creates all but the last component. */
  lemma ParentsToMake(t: Tree, path: Path)
    requires ValidPath(path)
    ensures var n := |Components(path)|;
      if n <= 1 then TreeGrow.EnsureParents(t, path) == (t, ROOT_INODE)
      else ValidPath(Prefix(path, n - 1)) && TreeGrow.EnsureParents(t, path) == MakeDirs(t, Prefix(path, n - 1))
  {
    AllComponents(path);
    FirstPrefix(t, path);
    if path != "/" { ChildOfParent(path); }
    hide LastSlash, Parent, BaseName, ValidPath, Components, Join, Prefix;
  }

  class VirtualTree {
    var nodes: map<Inode, Node>
    var pathToInode: map<Path, Inode>
    var nextInode: Inode

    ghost function State(): Tree
      reads this
    {
      Tree(nodes, pathToInode, nextInode)
    }

    constructor ()
      ensures State() == EMPTY_TREE
    {
      nodes := map[ROOT_INODE := Directory(ROOT_INODE, ROOT_INODE, "", map[])];
      pathToInode := map["/" := ROOT_INODE];
      nextInode := ROOT_INODE + 1;
    }

    /** A directory knows its parent; a file's is found by scanning the index for
        the file's path and looking up the parent of that path. */
    method GetParent(inode: Inode) returns (parent: Option<Inode>)
      requires Consistent(State())
      ensures inode !in nodes ==> parent == None
      ensures forall p :: p in pathToInode && pathToInode[p] == inode ==> parent == Find(State(), Parent(p))
    {
      hide LastSlash, Parent, BaseName, ValidPath;
      if inode !in nodes {
        assert forall p :: p in pathToInode ==> PathOk(State(), p);
        return None;
      }
      if nodes[inode].Directory? {
        forall p | p in pathToInode && pathToInode[p] == inode
          ensures Find(State(), Parent(p)) == Some(nodes[inode].parent)
        {
          assert PathOk(State(), p);
        }
        return Some(nodes[inode].parent);
      }
      parent := FindParentByPathLookup(inode);
    }

    method FindParentByPathLookup(inode: Inode) returns (parent: Option<Inode>)
      requires Injective(State())
      ensures forall p :: p in pathToInode && pathToInode[p] == inode ==> parent == Find(State(), Parent(p))
    {
      hide LastSlash, Parent, BaseName;
      var todo := pathToInode.Keys;
      while todo != {}
        invariant todo <= pathToInode.Keys
        invariant forall p :: p in pathToInode && p !in todo ==> pathToInode[p] != inode
        decreases |todo|
      {
        var p :| p in todo;
        if pathToInode[p] == inode {
          assert forall q :: SameNode(State(), q, p) ==> q == p;
          assert forall q :: q in pathToInode && pathToInode[q] == inode ==> SameNode(State(), q, p);
          return if Parent(p) in pathToInode then Some(pathToInode[Parent(p)]) else None;
        }
        todo := todo - {p};
      }
      return None;
    }

    /** Allocate an inode for a new directory and link it under `parent`. */
    method AddDirectory(path: Path, parent: Inode) returns (inode: Inode)
      modifies this
      ensures State() == Attach(old(State()), path, parent, NewDir(old(State()), path, parent))
      ensures inode == old(nextInode)
    {
      inode := nextInode;
      nextInode := nextInode + 1;
      nodes := nodes[inode := Directory(inode, parent, BaseName(path), map[])];
      pathToInode := pathToInode[path := inode];
      LinkChild(parent, BaseName(path), inode);
    }

    method LinkChild(dir: Inode, n: Name, child: Inode)
      modifies this`nodes
      ensures nodes == AddChild(old(nodes), dir, n, child)
    {
      if dir in nodes && nodes[dir].Directory? {
        nodes := nodes[dir := nodes[dir].(children := nodes[dir].children[n := child])];
      }
    }

    method UnlinkChild(dirPath: Path, n: Name)
      modifies this`nodes
      ensures nodes == DropChildAt(old(nodes), pathToInode, dirPath, n)
    {
      if dirPath in pathToInode {
        var dir := pathToInode[dirPath];
        if dir in nodes && nodes[dir].Directory? {
          nodes := nodes[dir := nodes[dir].(children := nodes[dir].children - {n})];
        }
      }
    }

    method EnsureParents(path: Path) returns (parent: Inode)
      requires ValidPath(path)
      modifies this
      ensures (State(), parent) == TreeGrow.EnsureParents(old(State()), path)
    {
      ghost var t := State();
      ParentsToMake(t, path);
      FirstPrefix(t, path);
      var components := Components(path);
      hide LastSlash, ValidPath, Components, Prefix, MakeDirs, TreeGrow.EnsureParents, EnterDir, Slashed;
      parent := ROOT_INODE;
      if |components| <= 1 {
        return;
      }
      var currentPath := "/";
      for k := 0 to |components| - 1
        invariant ValidPath(Prefix(path, k))
        invariant (State(), parent) == MakeDirs(t, Prefix(path, k))
        invariant currentPath == Slashed(Prefix(path, k))
      {
        MakeDirsRound(t, path, k);
        currentPath := currentPath + components[k];
        parent := EnterDirectory(currentPath, parent);
        currentPath := currentPath + "/";
      }
    }

    /** One round of the directory-creating loops. */
    method EnterDirectory(path: Path, parent: Inode) returns (inode: Inode)
      modifies this
      ensures (State(), inode) == EnterDir(old(State()), parent, path)
    {
      if path in pathToInode {
        inode := pathToInode[path];
      } else {
        inode := AddDirectory(path, parent);
      }
    }

    method InsertFile(meta: FileMeta) returns (inode: Inode)
      requires ValidPath(meta.virtualPath)
      modifies this
      ensures (State(), inode) == TreeGrow.InsertFile(old(State()), meta)
      ensures old(Consistent(State())) ==>
        var p := meta.virtualPath;
        (Consistent(State()) <==> p != "/" && p !in old(pathToInode) && NoFileAbove(old(State()), p))
    {
      var path := meta.virtualPath;
      var parent := EnsureParents(path);
      inode := nextInode;
      nextInode := nextInode + 1;
      nodes := nodes[inode := File(inode, BaseName(path), meta.id, meta.size, meta.mtime)];
      pathToInode := pathToInode[path := inode];
      LinkChild(parent, BaseName(path), inode);
      if old(Consistent(State())) { InsertFileExact(old(State()), meta); }
    }

    method Mkdir(path: Path) returns (r: Result<Inode, RenameError>)
      requires ValidPath(path)
      modifies this
      ensures (State(), r) == TreeGrow.Mkdir(old(State()), path)
      ensures r == Err(TargetExists) <==> path in old(pathToInode)
      ensures old(Consistent(State())) ==>
        && Consistent(State())
        && (r.Ok? ==> Find(State(), path) == Some(r.value) && r.value !in old(nodes))
    {
      if old(Consistent(State())) { MkdirConsistent(State(), path); }
      if path in pathToInode {
        return Err(TargetExists);
      }
      if !(Parent(path) in pathToInode && pathToInode[Parent(path)] in nodes &&
           nodes[pathToInode[Parent(path)]].Directory?) {
        return Err(ParentNotFound);
      }
      var inode := AddDirectory(path, pathToInode[Parent(path)]);
      return Ok(inode);
    }

    method EnsureTrashDir() returns (inode: Inode)
      modifies this
      ensures (State(), inode) == TreeGrow.EnsureTrashDir(old(State()))
      ensures old(Consistent(State())) ==> Consistent(State())
    {
      if old(Consistent(State())) { EnsureTrashDirExact(State()); }
      inode := EnterDirectory(TRASH, ROOT_INODE);
    }

    method MkdirP(path: Path) returns (r: Result<Inode, RenameError>)
      requires ValidPath(path)
      modifies this
      ensures (State(), r) == TreeGrow.MkdirP(old(State()), path)
      ensures old(Consistent(State())) ==> (Consistent(State()) <==> NoFileAbove(old(State()), path))
    {
      if old(Consistent(State())) { MkdirPExact(State(), path); }
      if path in pathToInode {
        var existing := pathToInode[path];
        return if existing in nodes && nodes[existing].Directory? then Ok(existing) else Err(TargetExists);
      }
      var components := Components(path);
      AllComponents(path);
      FirstPrefix(State(), path);
      hide LastSlash, ValidPath, Components, Prefix, MakeDirs, EnterDir, Slashed;
      var current, currentPath := ROOT_INODE, "/";
      for k := 0 to |components|
        invariant ValidPath(Prefix(path, k))
        invariant (State(), current) == MakeDirs(old(State()), Prefix(path, k))
        invariant currentPath == Prefix(path, k)
      {
        MakeDirsRound(old(State()), path, k);
        currentPath := Slashed(currentPath) + components[k];
        current := EnterDirectory(currentPath, current);
      }
      return Ok(current);
    }

    method RemoveFile(path: Path) returns (id: Option<FileId>)
      modifies this
      ensures (State(), id) == TreePrune.RemoveFile(old(State()), path)
      ensures old(Consistent(State())) ==> (Consistent(State()) <==> !IsDirAt(old(State()), path))
    {
      if old(Consistent(State())) { RemoveFileExact(State(), path); }
      hide LastSlash, Parent, BaseName, Consistent;
      if path !in pathToInode {
        return None;
      }
      var inode := pathToInode[path];
      pathToInode := pathToInode - {path};
      if inode in nodes && nodes[inode].File? {
        var file := nodes[inode];
        nodes := nodes - {inode};
        UnlinkChild(Parent(path), file.name);
        return Some(file.fileId);
      }
      nodes := nodes - {inode};
      return None;
    }

    method RemoveDirectory(path: Path) returns (r: Result<(), RemoveError>)
      modifies this
      ensures (State(), r) == TreePrune.RemoveDirectory(old(State()), path)
      ensures old(Consistent(State())) && r.Ok? ==> (Consistent(State()) <==> path != "/")
    {
      if old(Consistent(State())) { RemoveDirectoryExact(State(), path); }
      hide LastSlash, Parent, BaseName, Consistent;
      if path !in pathToInode || pathToInode[path] !in nodes {
        return Err(NotFound);
      }
      var inode := pathToInode[path];
      match nodes[inode] {
        case File(_, _, _, _, _) => return Err(RemoveNotDirectory);
        case Directory(_, _, _, children) =>
          if children != map[] {
            return Err(NotEmpty);
          }
      }
      UnlinkChild(Parent(path), BaseName(path));
      pathToInode := pathToInode - {path};
      nodes := nodes - {inode};
      return Ok(());
    }

    /** Removes every collected entry, in any order, gathering the file ids. */
    method RemoveDirectoryRecursive(path: Path) returns (r: Result<seq<FileId>, RemoveError>)
      modifies this
      ensures State() == RemoveRecursive(old(State()), path).0
      ensures r.Err? <==> RemoveRecursive(old(State()), path).1.Err?
      ensures r.Err? ==> RemoveRecursive(old(State()), path).1 == Err(r.error)
      ensures r.Ok? && old(Consistent(State())) ==>
        && (Consistent(State()) <==> path != "/" && NoClash(old(State()), path))
        && multiset(r.value) == FileIds(old(State()), Collected(old(State()), path))
        && (NoClash(old(State()), path) ==> multiset(r.value) == FileIds(old(State()), Subtree(old(State()), path)))
    {
      ghost var t := State();
      if NoClash(t, path) { CollectedIsSubtree(t, path); }
      if Consistent(t) { RemoveRecursiveExact(t, path); }
      if path !in pathToInode {
        return Err(NotFound);
      }
      if !(pathToInode[path] in nodes && nodes[pathToInode[path]].Directory?) {
        return Err(RemoveNotDirectory);
      }
      var collected := set p | p in pathToInode && path <= p;
      var removed := RemoveEntries(collected);
      UnlinkChild(Parent(path), BaseName(path));
      return Ok(removed);
    }

    method RemoveEntries(collected: set<Path>) returns (removed: seq<FileId>)
      requires collected <= pathToInode.Keys
      modifies this`nodes, this`pathToInode
      ensures pathToInode == old(pathToInode) - collected
      ensures nodes == old(nodes) - InodesAt(old(State()), collected)
      ensures old(Injective(State())) ==> multiset(removed) == FileIds(old(State()), collected)
    {
      ghost var t := State();
      ghost var gone: set<Path> := {};
      removed := [];
      var todo := collected;
      NothingRemoved(t);
      hide Injective, InodesAt, FileIds, FileIdAt;
      while todo != {}
        invariant gone !! todo && gone + todo == collected
        invariant pathToInode == t.index - gone
        invariant nodes == t.nodes - InodesAt(t, gone)
        invariant Injective(t) ==> multiset(removed) == FileIds(t, gone)
        decreases |todo|
      {
        var p :| p in todo;
        var inode := pathToInode[p];
        RemoveRound(t, gone, p);
        if inode in nodes && nodes[inode].File? {
          removed := removed + [nodes[inode].fileId];
        }
        pathToInode := pathToInode - {p};
        nodes := nodes - {inode};
        todo, gone := todo - {p}, gone + {p};
      }
      assert gone == collected;
    }

    method RenameFile(src: Path, dst: Path) returns (r: Result<(), RenameError>)
      requires ValidPath(dst)
      modifies this
      ensures (State(), r) == TreeRename.RenameFile(old(State()), src, dst)
      ensures old(Consistent(State())) ==> Consistent(State())
    {
      ghost var t := State();
      if Consistent(t) { RenameFileExact(t, src, dst); }
      hide LastSlash, Parent, BaseName, ValidPath, Consistent;
      if src !in pathToInode { return Err(SourceNotFound); }
      var inode := pathToInode[src];
      if dst in pathToInode { return Err(TargetExists); }
      if inode !in nodes { return Err(SourceNotFound); }
      if nodes[inode].Directory? { return Err(IsDirectory); }
      if !(Parent(dst) in pathToInode && pathToInode[Parent(dst)] in nodes &&
           nodes[pathToInode[Parent(dst)]].Directory?) {
        return Err(ParentNotFound);
      }
      var newParent := pathToInode[Parent(dst)];
      pathToInode := pathToInode - {src};
      UnlinkChild(Parent(src), BaseName(src));
      NameNode(inode, BaseName(dst), newParent);
      LinkChild(newParent, BaseName(dst), inode);
      pathToInode := pathToInode[dst := inode];
      return Ok(());
    }

    /** Set a node's name, and a directory's parent. */
    method NameNode(inode: Inode, n: Name, parent: Inode)
      modifies this`nodes
      ensures nodes == SetName(old(nodes), inode, n, parent)
    {
      if inode in nodes {
        match nodes[inode] {
          case Directory(i, _, _, children) => nodes := nodes[inode := Directory(i, parent, n, children)];
          case File(i, _, id, size, mtime) => nodes := nodes[inode := File(i, n, id, size, mtime)];
        }
      }
    }

    method RenameDirectory(src: Path, dst: Path) returns (r: Result<nat, RenameError>)
      requires ValidPath(dst)
      modifies this
      ensures match r
        case Ok(count) =>
          && DirectoryRenamed(old(State()), State(), src, dst)
          && count == |Collected(old(State()), src)|
          && (GoodMove(old(State()), src, dst) ==> count == |Subtree(old(State()), src)|)
          && (old(Consistent(State())) ==> (Consistent(State()) <==> GoodMove(old(State()), src, dst)))
        case Err(e) => RenameDirectoryCheck(old(State()), src, dst) == Err(e) && State() == old(State())
    {
      ghost var t := State();
      if src !in pathToInode { return Err(SourceNotFound); }
      var inode := pathToInode[src];
      if !(inode in nodes && nodes[inode].Directory?) { return Err(NotDirectory); }
      if dst in pathToInode { return Err(TargetExists); }
      if !(Parent(dst) in pathToInode && pathToInode[Parent(dst)] in nodes &&
           nodes[pathToInode[Parent(dst)]].Directory?) {
        return Err(ParentNotFound);
      }
      var newParent := pathToInode[Parent(dst)];
      var collected := map p | p in pathToInode && src <= p :: pathToInode[p];
      assert collected.Keys == Collected(t, src);
      assert GoodMove(t, src, dst) ==> |collected| == |Subtree(t, src)| by {
        if NoClash(t, src) { CollectedIsSubtree(t, src); }
      }
      hide LastSlash, Parent, BaseName, ValidPath, Consistent, Rewritten, GoodMove;
      RewriteEntries(collected, src, dst);
      UnlinkChild(Parent(src), BaseName(src));
      NameNode(inode, BaseName(dst), newParent);
      LinkChild(newParent, BaseName(dst), inode);
      assert DirectoryRenamed(t, State(), src, dst);
      if Consistent(t) { RenameDirectoryExact(t, State(), src, dst); }
      return Ok(|collected|);
    }

    method RewriteEntries(collected: map<Path, Inode>, src: Path, dst: Path)
      requires collected == map p | p in pathToInode && src <= p :: pathToInode[p]
      requires dst !in pathToInode
      modifies this`pathToInode
      ensures Rewritten(old(pathToInode), pathToInode, src, dst)
    {
      ghost var index := pathToInode;
      var todo := collected.Keys;
      ghost var done: set<Path> := {};
      RewriteStart(index, src, dst);
      hide HalfRewritten, Rewritten, Moved;
      while todo != {}
        invariant todo <= collected.Keys && done == collected.Keys - todo
        invariant HalfRewritten(index, pathToInode, todo, done, src, dst)
        decreases |todo|
      {
        var p :| p in todo;
        RewriteRound(index, pathToInode, todo, done, p, src, dst);
        pathToInode := pathToInode - {p};
        pathToInode := pathToInode[Moved(p, src, dst) := collected[p]];
        todo, done := todo - {p}, done + {p};
      }
      RewriteEnd(index, pathToInode, done, src, dst);
    }

    /** Drops everything but the root; the inode counter is left alone. */
    method ForceRefresh()
      modifies this
      ensures State() == TreePrune.ForceRefresh(old(State()))
      ensures old(Consistent(State())) ==> Consistent(State()) && nextInode == old(nextInode)
    {
      if Consistent(State()) { ForceRefreshExact(State()); }
      nodes := map i | i in nodes && i == ROOT_INODE :: nodes[i];
      pathToInode := map p | p in pathToInode && p == "/" :: pathToInode[p];
      if ROOT_INODE in nodes && nodes[ROOT_INODE].Directory? {
        nodes := nodes[ROOT_INODE := nodes[ROOT_INODE].(children := map[])];
      }
    }
  }

  lemma RewriteStart(index: map<Path, Inode>, src: Path, dst: Path)
    ensures HalfRewritten(index, index, set p | p in index && src <= p, {}, src, dst)
  {
  }

  lemma RewriteEnd(index: map<Path, Inode>, index': map<Path, Inode>, done: set<Path>, src: Path, dst: Path)
    requires HalfRewritten(index, index', {}, done, src, dst)
    requires done == set p | p in index && src <= p
    ensures Rewritten(index, index', src, dst)
  {
    hide Moved;
    forall k | k in index' && !Kept(index, index', src, k) ensures exists q :: Image(index, index', src, dst, k, q) {
      var q :| q in done && Image(index, index', src, dst, k, q);
    }
    assert src in index ==> src in done;
    forall q | q in index && src <= q && ImagesFresh(index, src, dst)
      ensures Image(index, index', src, dst, Moved(q, src, dst), q)
    {
      assert q in done;
    }
  }

  lemma NothingRemoved(t: Tree)
    ensures t.nodes == t.nodes - InodesAt(t, {}) && t.index == t.index - {} && FileIds(t, {}) == multiset{}
  {
    assert InodesAt(t, {}) == {};
  }

  /** Removing one more entry after `gone`; in an injective index its node is
      still there to give its file id. */
  lemma RemoveRound(t: Tree, gone: set<Path>, p: Path)
    requires gone <= t.index.Keys && p in t.index && p !in gone
    ensures (t.index - gone) - {p} == t.index - (gone + {p})
    ensures (t.nodes - InodesAt(t, gone)) - {t.index[p]} == t.nodes - InodesAt(t, gone + {p})
    ensures var i, nodes := t.index[p], t.nodes - InodesAt(t, gone);
      Injective(t) ==>
        FileIds(t, gone + {p}) ==
          FileIds(t, gone) + if i in nodes && nodes[i].File? then multiset{nodes[i].fileId} else multiset{}
  {
    hide FileIds, Injective;
    assert InodesAt(t, gone + {p}) == InodesAt(t, gone) + {t.index[p]};
    if Injective(t) {
      forall q | q in gone ensures t.index[q] != t.index[p] { DistinctPaths(t, q, p); }
    }
    FileIdsRemove(t, gone + {p}, p);
    assert gone + {p} - {p} == gone;
  }
}
