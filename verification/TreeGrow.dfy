/**
 What insert_file, mkdir, mkdir_p and ensure_trash_dir do to a tree, and the
 exact condition under which each keeps index and child maps in agreement.
 */
module TreeGrow {
  import opened Common
  import opened Paths
  import opened TreeModel
  import opened TreeAttach

  datatype RenameError = SourceNotFound | TargetExists | ParentNotFound | IsDirectory | NotDirectory
  datatype RemoveError = NotFound | NotEmpty | RemoveNotDirectory

  const TRASH: Path := "/.trash"

  /** p and all its ancestors. */
  ghost function Ancestry(p: Path): set<Path>
    requires ValidPath(p)
    decreases |p|
  {
    if p == "/" then {p} else (ChildOfParent(p); Ancestry(Parent(p)) + {p})
  }

  /** Create p and every missing ancestor as directories; what is there already
      is stepped through whatever its kind. */
  ghost function MakeDirs(t: Tree, p: Path): (Tree, Inode)
    requires ValidPath(p)
    decreases |p|
  {
    if p == "/" then (t, ROOT_INODE)
    else
      ChildOfParent(p);
      var (t1, d) := MakeDirs(t, Parent(p));
      EnterDir(t1, d, p)
  }

  /** One round of the directory-creating loops. */
  function EnterDir(t: Tree, d: Inode, p: Path): (Tree, Inode) {
    if p in t.index then (t, t.index[p]) else (Attach(t, p, d, NewDir(t, p, d)), t.next)
  }

  ghost function EnsureParents(t: Tree, p: Path): (Tree, Inode)
    requires ValidPath(p)
  {
    if p == "/" then (t, ROOT_INODE) else (ChildOfParent(p); MakeDirs(t, Parent(p)))
  }

  ghost function InsertFile(t: Tree, meta: FileMeta): (Tree, Inode)
    requires ValidPath(meta.virtualPath)
  {
    var (t1, d) := EnsureParents(t, meta.virtualPath);
    (Attach(t1, meta.virtualPath, d, NewFile(t1, meta)), t1.next)
  }

  ghost function MkdirP(t: Tree, p: Path): (Tree, Result<Inode, RenameError>)
    requires ValidPath(p)
  {
    if p in t.index then (t, if IsDirAt(t, p) then Ok(t.index[p]) else Err(TargetExists))
    else var (t', i) := MakeDirs(t, p); (t', Ok(i))
  }

  function Mkdir(t: Tree, p: Path): (Tree, Result<Inode, RenameError>) {
    if p in t.index then (t, Err(TargetExists))
    else if !IsDirAt(t, Parent(p)) then (t, Err(ParentNotFound))
    else (Attach(t, p, t.index[Parent(p)], NewDir(t, p, t.index[Parent(p)])), Ok(t.next))
  }

  function EnsureTrashDir(t: Tree): (Tree, Inode) {
    EnterDir(t, ROOT_INODE, TRASH)
  }

  // ----- keeping agreement -----

  /** v' is v with the paths in `dirs` that were missing added as directories. */
  ghost predicate DirsAdded(v: map<Path, Entry>, v': map<Path, Entry>, dirs: set<Path>) {
    && v'.Keys == v.Keys + dirs
    && (forall q :: q in v ==> v'[q] == v[q])
    && (forall q :: q in dirs && q !in v ==> v'[q].DirEntry?)
  }

  /** mkdir always keeps agreement; it succeeds exactly at a free path below a
      directory, with the inode that the path then leads to and that no node had,
      and otherwise says which of the two was not so and changes nothing. */
  lemma MkdirConsistent(t: Tree, p: Path)
    requires Consistent(t) && ValidPath(p)
    ensures Consistent(Mkdir(t, p).0)
    ensures Mkdir(t, p).1.Ok? <==> p !in t.index && IsDirAt(t, Parent(p))
    ensures Mkdir(t, p).1 == Err(TargetExists) <==> p in t.index
    ensures Mkdir(t, p).1 == Err(ParentNotFound) <==> p !in t.index && !IsDirAt(t, Parent(p))
    ensures var (t', r) := Mkdir(t, p);
      if r.Ok? then
        && Find(t', p) == Some(r.value) && r.value !in t.nodes
        && View(t') == View(t)[p := DirEntry(r.value)]
      else t' == t
  {
    hide LastSlash, Parent, BaseName, ValidPath;
    if p !in t.index && IsDirAt(t, Parent(p)) {
      var d := t.index[Parent(p)];
      AttachConsistent(t, p, d, NewDir(t, p, d));
    }
  }

  /** In a consistent tree the view and the index have the same paths, and the
      view tells files from directories. */
  lemma ViewKinds(t: Tree, p: Path)
    requires Consistent(t)
    ensures p in View(t) <==> p in t.index
    ensures p in View(t) ==> View(t)[p] == Describe(t.nodes[t.index[p]]) && View(t)[p].inode == t.index[p]
    ensures IsDirAt(t, p) <==> p in View(t) && View(t)[p].DirEntry?
    ensures IsFileAt(t, p) <==> p in View(t) && View(t)[p].FileEntry?
  {
    hide LastSlash, Parent, BaseName, ValidPath;
    assert p in t.index ==> PathOk(t, p);
  }

  lemma {:induction false} MakeDirsConsistent(t: Tree, p: Path)
    requires Consistent(t) && ValidPath(p) && NoFileAbove(t, p) && !IsFileAt(t, p)
    ensures var (t', i) := MakeDirs(t, p);
      Consistent(t') && DirsAdded(View(t), View(t'), Ancestry(p)) && IsDirAt(t', p) && t'.index[p] == i
    decreases |p|
  {
    if p == "/" {
      assert PathOk(t, "/");
      ViewKinds(t, "/");
    } else {
      ChildOfParent(p);
      MakeDirsConsistent(t, Parent(p));
      var (t1, d) := MakeDirs(t, Parent(p));
      ViewKinds(t, p);
      EnterDirAdds(View(t), Ancestry(Parent(p)), t1, p);
    }
  }

  lemma DirsAddedStep(v: map<Path, Entry>, w: map<Path, Entry>, dirs: set<Path>, p: Path, i: Inode)
    requires DirsAdded(v, w, dirs)
    ensures DirsAdded(v, if p in w then w else w[p := DirEntry(i)], dirs + {p})
  {
    var w' := if p in w then w else w[p := DirEntry(i)];
    if p in w {
      assert dirs + {p} == dirs || p in v;
    }
    assert w'.Keys == v.Keys + (dirs + {p});
    forall q | q in dirs + {p} && q !in v ensures w'[q].DirEntry? {
      assert q in dirs || q == p;
    }
  }

  lemma EnterDirAdds(v: map<Path, Entry>, dirs: set<Path>, t: Tree, p: Path)
    requires Consistent(t) && ValidPath(p) && p != "/"
    requires IsDirAt(t, Parent(p)) && DirsAdded(v, View(t), dirs)
    requires p in v ==> v[p].DirEntry?
    ensures var (t', i) := EnterDir(t, t.index[Parent(p)], p);
      Consistent(t') && DirsAdded(v, View(t'), dirs + {p}) && IsDirAt(t', p) && t'.index[p] == i
  {
    hide LastSlash, Parent, BaseName, ValidPath;
    var d := t.index[Parent(p)];
    ViewKinds(t, p);
    DirsAddedStep(v, View(t), dirs, p, t.next);
    if p in t.index {
      assert View(t)[p].DirEntry? by { hide View, Consistent; }
    } else {
      AttachConsistent(t, p, d, NewDir(t, p, d));
      ViewKinds(Attach(t, p, d, NewDir(t, p, d)), p);
      hide Consistent, View, DirsAdded;
    }
  }

  // ----- losing agreement -----

  /** An indexed path, not among the known ones, whose parent is a file: no child
      map can hold it. */
  ghost predicate BelowFile(t: Tree, known: set<Path>) {
    exists p :: p in t.index && p !in known && p != "/" && IsFileAt(t, Parent(p))
  }

  lemma BelowFileBreaks(t: Tree, known: set<Path>)
    requires BelowFile(t, known)
    ensures !Consistent(t)
  {
    hide LastSlash, Parent, BaseName, ValidPath;
    var p :| p in t.index && p !in known && p != "/" && IsFileAt(t, Parent(p));
    assert !IsDirAt(t, Parent(p));
    assert !PathOk(t, p);
  }

  /** Attaching anything never repairs a path below a file. */
  lemma AttachKeepsBelowFile(t: Tree, known: set<Path>, p: Path, parent: Inode, node: Node)
    requires InodesBelowNext(t) && BelowFile(t, known)
    requires p in t.index ==> node.File?
    ensures BelowFile(Attach(t, p, parent, node), known)
  {
    hide LastSlash, Parent, BaseName, ValidPath;
    var t' := Attach(t, p, parent, node);
    var r :| r in t.index && r !in known && r != "/" && IsFileAt(t, Parent(r));
    assert IsFileAt(t', Parent(r));
    assert r in t'.index && r !in known;
  }

  lemma AttachBelowFile(t: Tree, known: set<Path>, p: Path, node: Node)
    requires InodesBelowNext(t) && p != "/" && IsFileAt(t, Parent(p)) && p != Parent(p) && p !in known
    ensures BelowFile(Attach(t, p, t.index[Parent(p)], node), known)
  {
    hide LastSlash, Parent, BaseName, ValidPath;
    var t' := Attach(t, p, t.index[Parent(p)], node);
    assert p in t'.index && IsFileAt(t', Parent(p));
  }

  /** What exists already is walked through untouched. */
  lemma {:induction false} MakeDirsNoop(t: Tree, p: Path)
    requires Consistent(t) && ValidPath(p) && p in t.index
    ensures MakeDirs(t, p) == (t, t.index[p])
    decreases |p|
  {
    if p != "/" {
      ChildOfParent(p);
      assert PathOk(t, p);
      MakeDirsNoop(t, Parent(p));
    }
  }

  lemma {:induction false} MakeDirsInodes(t: Tree, p: Path)
    requires InodesBelowNext(t) && ValidPath(p)
    ensures InodesBelowNext(MakeDirs(t, p).0)
    decreases |p|
  {
    if p != "/" {
      ChildOfParent(p);
      MakeDirsInodes(t, Parent(p));
    }
  }

  /** Stepping through a file leaves a path below that file. */
  lemma {:induction false} MakeDirsBreaks(t: Tree, p: Path)
    requires Consistent(t) && ValidPath(p) && !NoFileAbove(t, p)
    ensures BelowFile(MakeDirs(t, p).0, t.index.Keys)
    decreases |p|
  {
    ChildOfParent(p);
    var q := Parent(p);
    MakeDirsInodes(t, q);
    var (t1, d) := MakeDirs(t, q);
    if NoFileAbove(t, q) {
      MakeDirsNoop(t, q);
      assert p in t.index ==> PathOk(t, p);
      AttachBelowFile(t, t.index.Keys, p, NewDir(t, p, d));
    } else {
      MakeDirsBreaks(t, q);
      if p !in t1.index {
        AttachKeepsBelowFile(t1, t.index.Keys, p, d, NewDir(t1, p, d));
      }
    }
  }

  /** mkdir_p keeps agreement exactly when it succeeds without having to step
      through a file, or fails without touching anything. */
  lemma MkdirPExact(t: Tree, p: Path)
    requires Consistent(t) && ValidPath(p)
    ensures Consistent(MkdirP(t, p).0) <==> NoFileAbove(t, p)
    ensures MkdirP(t, p).1 == Err(TargetExists) <==> IsFileAt(t, p)
    ensures IsFileAt(t, p) ==> MkdirP(t, p).0 == t
    ensures NoFileAbove(t, p) && !IsFileAt(t, p) ==>
      var (t', r) := MkdirP(t, p);
      IsDirAt(t', p) && r == Ok(t'.index[p]) && DirsAdded(View(t), View(t'), Ancestry(p))
  {
    assert p in t.index ==> PathOk(t, p);
    if p in t.index {
      NoFileAboveIndexed(t, p);
      MakeDirsNoop(t, p);
    }
    if !NoFileAbove(t, p) {
      MakeDirsBreaks(t, p);
      BelowFileBreaks(MakeDirs(t, p).0, t.index.Keys);
    } else if !IsFileAt(t, p) {
      MakeDirsConsistent(t, p);
    }
  }

  /** insert_file keeps agreement exactly at a fresh path other than "/" with no
      file above it; it then adds that file and its missing ancestors. */
  lemma InsertFileExact(t: Tree, meta: FileMeta)
    requires Consistent(t) && ValidPath(meta.virtualPath)
    ensures var p := meta.virtualPath;
      Consistent(InsertFile(t, meta).0) <==> p != "/" && p !in t.index && NoFileAbove(t, p)
    ensures var p, (t', i) := meta.virtualPath, InsertFile(t, meta);
      p != "/" && p !in t.index && NoFileAbove(t, p) ==>
        && ValidPath(Parent(p)) && p !in Ancestry(Parent(p))
        && p in View(t') && View(t')[p] == FileEntry(i, meta.id, meta.size, meta.mtime)
        && DirsAdded(View(t), View(t') - {p}, Ancestry(Parent(p)))
  {
    var p := meta.virtualPath;
    if p == "/" {
      RootTakenBreaks(t, meta);
    } else {
      ChildOfParent(p);
      if !NoFileAbove(t, p) {
        InsertBelowFileBreaks(t, meta);
      } else if p in t.index {
        OverwriteBreaks(t, meta);
      } else {
        InsertFresh(t, meta);
      }
    }
  }

  lemma RootTakenBreaks(t: Tree, meta: FileMeta)
    requires Consistent(t) && meta.virtualPath == "/"
    ensures !Consistent(InsertFile(t, meta).0)
  {
    assert InsertFile(t, meta).0.index["/"] == t.next;
  }

  lemma InsertBelowFileBreaks(t: Tree, meta: FileMeta)
    requires var p := meta.virtualPath; Consistent(t) && ValidPath(p) && p != "/" && !NoFileAbove(t, p)
    ensures !Consistent(InsertFile(t, meta).0)
  {
    var p := meta.virtualPath;
    ChildOfParent(p);
    var q := Parent(p);
    MakeDirsInodes(t, q);
    var (t1, d) := MakeDirs(t, q);
    assert p in t.index ==> PathOk(t, p);
    if p in t.index { NoFileAboveIndexed(t, p); }
    if NoFileAbove(t, q) {
      MakeDirsNoop(t, q);
      AttachBelowFile(t, t.index.Keys, p, NewFile(t, meta));
    } else {
      MakeDirsBreaks(t, q);
      AttachKeepsBelowFile(t1, t.index.Keys, p, d, NewFile(t1, meta));
    }
    BelowFileBreaks(InsertFile(t, meta).0, t.index.Keys);
  }

  /** The node that an insertion displaces stays in the node table unreachable. */
  lemma OverwriteBreaks(t: Tree, meta: FileMeta)
    requires var p := meta.virtualPath; Consistent(t) && ValidPath(p) && p != "/" && p in t.index
    ensures !HasPath(InsertFile(t, meta).0, t.index[meta.virtualPath])
    ensures !Consistent(InsertFile(t, meta).0)
  {
    var p := meta.virtualPath;
    assert PathOk(t, p);
    ChildOfParent(p);
    MakeDirsNoop(t, Parent(p));
    var t' := InsertFile(t, meta).0;
    hide LastSlash, Parent, BaseName, ValidPath;
    forall q | q in t'.index ensures t'.index[q] != t.index[p] {
      if q != p { DistinctPaths(t, p, q); }
    }
    assert t.index[p] in t'.nodes;
  }

  lemma {:induction false} AncestryShorter(p: Path, q: Path)
    requires ValidPath(p) && q in Ancestry(p)
    ensures |q| <= |p|
    decreases |p|
  {
    if p != "/" && q != p {
      ChildOfParent(p);
      AncestryShorter(Parent(p), q);
    }
  }

  lemma {:induction false} InsertFresh(t: Tree, meta: FileMeta)
    requires var p := meta.virtualPath;
      Consistent(t) && ValidPath(p) && p != "/" && p !in t.index && NoFileAbove(t, p)
    ensures var p, (t', i) := meta.virtualPath, InsertFile(t, meta);
      && Consistent(t') && ValidPath(Parent(p)) && p !in Ancestry(Parent(p))
      && p in View(t') && View(t')[p] == FileEntry(i, meta.id, meta.size, meta.mtime)
      && DirsAdded(View(t), View(t') - {p}, Ancestry(Parent(p)))
  {
    var p := meta.virtualPath;
    ChildOfParent(p);
    if p in Ancestry(Parent(p)) { AncestryShorter(Parent(p), p); }
    MakeDirsConsistent(t, Parent(p));
    var (t1, d) := MakeDirs(t, Parent(p));
    ViewKinds(t, p);
    ViewKinds(t1, p);
    AttachConsistent(t1, p, d, NewFile(t1, meta));
    hide LastSlash, Parent, BaseName, ValidPath, Ancestry, MakeDirs, Consistent, NoFileAbove, View;
    InsertedLast(View(t), View(t1), Ancestry(Parent(p)), p, Describe(NewFile(t1, meta)));
  }

  lemma InsertedLast(v: map<Path, Entry>, w: map<Path, Entry>, dirs: set<Path>, p: Path, e: Entry)
    requires DirsAdded(v, w, dirs) && p !in v && p !in dirs
    ensures w[p := e] - {p} == w
  {
  }

  /** ensure_trash_dir always keeps agreement: it adds "/.trash" if it is missing
      and otherwise returns whatever node bears that name. */
  lemma EnsureTrashDirExact(t: Tree)
    requires Consistent(t)
    ensures Consistent(EnsureTrashDir(t).0)
    ensures View(EnsureTrashDir(t).0) == if TRASH in View(t) then View(t) else View(t)[TRASH := DirEntry(t.next)]
    ensures Find(EnsureTrashDir(t).0, TRASH) == Some(EnsureTrashDir(t).1)
  {
    ParentOfChild("/", ".trash");
    assert Child("/", ".trash") == TRASH;
    assert PathOk(t, "/");
    ViewKinds(t, TRASH);
    hide LastSlash, Parent, BaseName, ValidPath, ValidName;
    if TRASH !in t.index {
      AttachConsistent(t, TRASH, ROOT_INODE, NewDir(t, TRASH, ROOT_INODE));
    }
  }
}
