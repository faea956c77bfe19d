/**
 Whole runs of tree operations: a run keeps index and child maps in agreement
 exactly when every operation's guard holds, and no inode number ever comes
 back for something else.
 */
module TreeRuns {
  import opened Common
  import opened Paths
  import opened TreeModel
  import opened TreeAttach
  import opened TreeGrow
  import opened TreePrune
  import opened TreeRename

  datatype Op =
    | OpInsert(meta: FileMeta)
    | OpMkdir(path: Path)
    | OpMkdirP(path: Path)
    | OpEnsureTrash
    | OpRenameFile(src: Path, dst: Path)
    | OpRenameDirectory(src: Path, dst: Path)
    | OpRemoveFile(path: Path)
    | OpRemoveDirectory(path: Path)
    | OpRemoveRecursive(path: Path)
    | OpForceRefresh

  ghost predicate ValidOp(op: Op) {
    match op
    case OpInsert(meta) => ValidPath(meta.virtualPath)
    case OpMkdir(p) => ValidPath(p)
    case OpMkdirP(p) => ValidPath(p)
    case OpRenameFile(_, dst) => ValidPath(dst)
    case OpRenameDirectory(_, dst) => ValidPath(dst)
    case _ => true
  }

  /** What one call may turn t into. */
  ghost predicate Step(t: Tree, op: Op, t': Tree)
    requires ValidOp(op)
  {
    match op
    case OpInsert(meta) => t' == InsertFile(t, meta).0
    case OpMkdir(p) => t' == Mkdir(t, p).0
    case OpMkdirP(p) => t' == MkdirP(t, p).0
    case OpEnsureTrash => t' == EnsureTrashDir(t).0
    case OpRenameFile(src, dst) => t' == RenameFile(t, src, dst).0
    case OpRenameDirectory(src, dst) =>
      if RenameDirectoryCheck(t, src, dst).Ok? then DirectoryRenamed(t, t', src, dst) else t' == t
    case OpRemoveFile(p) => t' == RemoveFile(t, p).0
    case OpRemoveDirectory(p) => t' == RemoveDirectory(t, p).0
    case OpRemoveRecursive(p) => t' == RemoveRecursive(t, p).0
    case OpForceRefresh => t' == ForceRefresh(t)
  }

  /** What a caller can check before the call. */
  ghost predicate Guard(t: Tree, op: Op)
    requires ValidOp(op)
  {
    match op
    case OpInsert(meta) => meta.virtualPath != "/" && meta.virtualPath !in t.index && NoFileAbove(t, meta.virtualPath)
    case OpMkdirP(p) => NoFileAbove(t, p)
    case OpRenameDirectory(src, dst) => RenameDirectoryCheck(t, src, dst).Ok? ==> GoodMove(t, src, dst)
    case OpRemoveFile(p) => !IsDirAt(t, p)
    case OpRemoveDirectory(p) => !(p == "/" && RemoveDirectory(t, p).1.Ok?)
    case OpRemoveRecursive(p) => IsDirAt(t, p) ==> p != "/" && NoClash(t, p)
    case _ => true
  }

  /** One call keeps agreement exactly when its guard holds. */
  lemma StepExact(t: Tree, op: Op, t': Tree)
    requires Consistent(t) && ValidOp(op) && Step(t, op, t')
    ensures Consistent(t') <==> Guard(t, op)
  {
    match op
    case OpInsert(meta) => InsertFileExact(t, meta);
    case OpMkdir(p) => MkdirConsistent(t, p);
    case OpMkdirP(p) => MkdirPExact(t, p);
    case OpEnsureTrash => EnsureTrashDirExact(t);
    case OpRenameFile(src, dst) => RenameFileExact(t, src, dst);
    case OpRenameDirectory(src, dst) =>
      if RenameDirectoryCheck(t, src, dst).Ok? { RenameDirectoryExact(t, t', src, dst); }
    case OpRemoveFile(p) => RemoveFileExact(t, p);
    case OpRemoveDirectory(p) => RemoveDirectoryExact(t, p);
    case OpRemoveRecursive(p) => RemoveRecursiveExact(t, p);
    case OpForceRefresh => ForceRefreshExact(t);
  }

  /** A run: the trees before and after each call, from a freshly made tree. */
  ghost predicate IsRun(ops: seq<Op>, ts: seq<Tree>) {
    && |ts| == |ops| + 1 && ts[0] == EMPTY_TREE
    && forall k :: 0 <= k < |ops| ==> ValidOp(ops[k]) && Step(ts[k], ops[k], ts[k + 1])
  }

  ghost predicate ConsistentUpTo(ts: seq<Tree>, n: nat)
    requires n < |ts|
  {
    forall k :: 0 <= k <= n ==> Consistent(ts[k])
  }

  ghost predicate GuardedUpTo(ops: seq<Op>, ts: seq<Tree>, n: nat)
    requires n <= |ops| && n <= |ts|
  {
    forall k :: 0 <= k < n ==> ValidOp(ops[k]) && Guard(ts[k], ops[k])
  }

  lemma OneMoreStep(ops: seq<Op>, ts: seq<Tree>, k: nat)
    requires IsRun(ops, ts) && k < |ops|
    ensures ValidOp(ops[k]) && Step(ts[k], ops[k], ts[k + 1])
    ensures ConsistentUpTo(ts, k + 1) <==> ConsistentUpTo(ts, k) && Consistent(ts[k + 1])
    ensures ConsistentUpTo(ts, k) ==> Consistent(ts[k])
    ensures GuardedUpTo(ops, ts, k + 1) <==> GuardedUpTo(ops, ts, k) && Guard(ts[k], ops[k])
  {
    hide Consistent, Step, Guard, ValidOp;
  }

  lemma {:induction false} PrefixConsistentExactly(ops: seq<Op>, ts: seq<Tree>, n: nat)
    requires IsRun(ops, ts) && n <= |ops|
    ensures ConsistentUpTo(ts, n) <==> GuardedUpTo(ops, ts, n)
    decreases n
  {
    EmptyTreeConsistent();
    hide Consistent, Step, Guard, ValidOp;
    if n > 0 {
      PrefixConsistentExactly(ops, ts, n - 1);
      OneMoreStep(ops, ts, n - 1);
      hide ConsistentUpTo, GuardedUpTo;
      if Consistent(ts[n - 1]) { StepExact(ts[n - 1], ops[n - 1], ts[n]); }
    }
  }

  /** Main result over whole runs: index and walk agree in every state of a run
      exactly when every call was made under its guard. */
  lemma RunConsistentExactly(ops: seq<Op>, ts: seq<Tree>)
    requires IsRun(ops, ts)
    ensures (forall k :: 0 <= k < |ts| ==> Consistent(ts[k])) <==>
            (forall k :: 0 <= k < |ops| ==> ValidOp(ops[k]) && Guard(ts[k], ops[k]))
  {
    PrefixConsistentExactly(ops, ts, |ops|);
    hide Consistent, Step, Guard, ValidOp;
  }

  // ----- inode numbers are never reused -----

  predicate SameIdentity(m: Node, n: Node) {
    m.Directory? == n.Directory? && (m.File? ==> m.fileId == n.fileId)
  }

  /** Every node of t' is a node of t with the same identity, or newer than t. */
  ghost predicate Evolves(t: Tree, t': Tree) {
    && t.next <= t'.next
    && forall i :: i in t'.nodes ==>
         i >= t.next || (i in t.nodes && SameIdentity(t.nodes[i], t'.nodes[i]))
  }

  lemma EvolvesTransitive(a: Tree, b: Tree, c: Tree)
    requires Evolves(a, b) && Evolves(b, c)
    ensures Evolves(a, c)
  {
  }

  lemma AttachEvolves(t: Tree, p: Path, parent: Inode, node: Node)
    ensures Evolves(t, Attach(t, p, parent, node))
  {
    hide LastSlash, Parent, BaseName;
  }

  lemma {:induction false} MakeDirsEvolves(t: Tree, p: Path)
    requires ValidPath(p)
    ensures Evolves(t, MakeDirs(t, p).0)
    decreases |p|
  {
    if p != "/" {
      ChildOfParent(p);
      MakeDirsEvolves(t, Parent(p));
      var (t1, d) := MakeDirs(t, Parent(p));
      EnterDirEvolves(t1, d, p);
      EvolvesTransitive(t, t1, EnterDir(t1, d, p).0);
      hide LastSlash, Parent, BaseName, Evolves, EnterDir;
    }
  }

  lemma EnterDirEvolves(t: Tree, d: Inode, p: Path)
    ensures Evolves(t, EnterDir(t, d, p).0)
  {
    AttachEvolves(t, p, d, NewDir(t, p, d));
    hide Attach, NewDir;
  }

  lemma InsertEvolves(t: Tree, meta: FileMeta)
    requires ValidPath(meta.virtualPath)
    ensures Evolves(t, InsertFile(t, meta).0)
  {
    var p := meta.virtualPath;
    var (t1, d) := EnsureParents(t, p);
    if p != "/" {
      ChildOfParent(p);
      MakeDirsEvolves(t, Parent(p));
    }
    AttachEvolves(t1, p, d, NewFile(t1, meta));
    EvolvesTransitive(t, t1, Attach(t1, p, d, NewFile(t1, meta)));
    hide LastSlash, Parent, BaseName, Attach, Evolves, MakeDirs;
  }

  lemma CutEvolves(t: Tree, p: Path, gone: set<Path>)
    ensures Evolves(t, Cut(t, p, gone))
  {
    hide LastSlash, Parent, BaseName;
  }

  lemma RelinkEvolves(t: Tree, t': Tree, index: map<Path, Inode>, i: Inode, src: Path, dst: Path, parent: Inode)
    requires t'.nodes == Relink(t.nodes, index, i, src, dst, parent) && t'.next == t.next
    ensures Evolves(t, t')
  {
    hide LastSlash, Parent, BaseName;
    var r1 := DropChildAt(t.nodes, index, Parent(src), BaseName(src));
    assert r1.Keys == t.nodes.Keys && forall j :: j in r1 ==> SameIdentity(t.nodes[j], r1[j]);
    var r2 := SetName(r1, i, BaseName(dst), parent);
    assert r2.Keys == t.nodes.Keys && forall j :: j in r2 ==> SameIdentity(t.nodes[j], r2[j]);
  }

  lemma RemovalsEvolve(t: Tree, p: Path)
    ensures Evolves(t, RemoveFile(t, p).0) && Evolves(t, RemoveDirectory(t, p).0) && Evolves(t, ForceRefresh(t))
  {
    hide LastSlash, Parent, BaseName;
  }

  lemma RenamesEvolve(t: Tree, src: Path, dst: Path, t': Tree)
    requires t' == RenameFile(t, src, dst).0 || DirectoryRenamed(t, t', src, dst)
    ensures Evolves(t, t')
  {
    hide LastSlash, Parent, BaseName, Relink, Rewritten;
    if DirectoryRenamed(t, t', src, dst) {
      RelinkEvolves(t, t', t'.index, t.index[src], src, dst, t.index[Parent(dst)]);
    } else if RenameFileCheck(t, src, dst).Ok? {
      RelinkEvolves(t, t', t.index - {src}, t.index[src], src, dst, t.index[Parent(dst)]);
    }
  }

  lemma AdditionsEvolve(t: Tree, p: Path)
    requires ValidPath(p)
    ensures Evolves(t, Mkdir(t, p).0) && Evolves(t, MkdirP(t, p).0) && Evolves(t, EnsureTrashDir(t).0)
  {
    MakeDirsEvolves(t, p);
    EnterDirEvolves(t, ROOT_INODE, TRASH);
    assert Evolves(t, t);
    hide LastSlash, BaseName, ValidPath, Attach, Evolves, MakeDirs;
    if p !in t.index && IsDirAt(t, Parent(p)) {
      AttachEvolves(t, p, t.index[Parent(p)], NewDir(t, p, t.index[Parent(p)]));
    }
  }

  lemma StepEvolves(t: Tree, op: Op, t': Tree)
    requires ValidOp(op) && Step(t, op, t')
    ensures Evolves(t, t')
  {
    assert Evolves(t, t);
    assert ValidPath("/");
    hide LastSlash, Parent, BaseName, ValidPath, DirectoryRenamed, Cut, Evolves, InsertFile, Mkdir, MkdirP,
      EnsureTrashDir, RenameFile, RemoveFile, RemoveDirectory, ForceRefresh, IsDirAt;
    match op
    case OpInsert(meta) => InsertEvolves(t, meta);
    case OpMkdir(p) => AdditionsEvolve(t, p);
    case OpMkdirP(p) => AdditionsEvolve(t, p);
    case OpEnsureTrash => AdditionsEvolve(t, "/");
    case OpRenameFile(src, dst) => RenamesEvolve(t, src, dst, t');
    case OpRenameDirectory(src, dst) =>
      if RenameDirectoryCheck(t, src, dst).Ok? { RenamesEvolve(t, src, dst, t'); }
    case OpRemoveFile(p) => RemovalsEvolve(t, p);
    case OpRemoveDirectory(p) => RemovalsEvolve(t, p);
    case OpRemoveRecursive(p) => CutEvolves(t, p, Collected(t, p));
    case OpForceRefresh => RemovalsEvolve(t, "/");
  }

  /** Over any stretch of any run, guarded or not: an inode number seen earlier
      still means the same file or directory if it is present later, and one that
      has been handed out and removed never comes back, also across refreshes. */
  lemma NoInodeReuse(ops: seq<Op>, ts: seq<Tree>, j: nat, k: nat, i: Inode)
    requires IsRun(ops, ts) && j <= k < |ts| && i in ts[k].nodes && i < ts[j].next
    ensures i in ts[j].nodes && SameIdentity(ts[j].nodes[i], ts[k].nodes[i])
  {
    RunEvolves(ops, ts, j, k);
  }

  lemma {:induction false} RunEvolves(ops: seq<Op>, ts: seq<Tree>, j: nat, k: nat)
    requires IsRun(ops, ts) && j <= k < |ts|
    ensures Evolves(ts[j], ts[k])
    decreases k
  {
    assert Evolves(ts[j], ts[j]);
    hide Evolves, Step, ValidOp;
    if j < k {
      RunEvolves(ops, ts, j, k - 1);
      StepEvolves(ts[k - 1], ops[k - 1], ts[k]);
      EvolvesTransitive(ts[j], ts[k - 1], ts[k]);
    }
  }

  // ----- the guards are needed: concrete runs -----

  /** A directory "/Art" next to "/Artist". */
  function ArtAndArtist(): Tree {
    Mkdir(Mkdir(EMPTY_TREE, "/Art").0, "/Artist").0
  }

  lemma ArtPaths()
    ensures ValidPath("/Art") && ValidPath("/Artist") && ValidPath("/New")
    ensures Parent("/New") == "/" && Parent("/Art") == "/" && Parent("/Artist") == "/"
    ensures !InSubtree("/Artist", "/Art") && "/Art" <= "/Artist"
  {
    assert Child("/", "Art") == "/Art" && Child("/", "Artist") == "/Artist" && Child("/", "New") == "/New";
    assert "/Artist"[4] != "/Art/"[4];
    hide LastSlash, Parent, BaseName, ValidPath, Child;
    ParentOfChild("/", "Art");
    ParentOfChild("/", "Artist");
    ParentOfChild("/", "New");
  }

  /** Making a directory right under the root. */
  lemma MkdirUnderRoot(t: Tree, p: Path)
    requires Consistent(t) && ValidPath(p) && Parent(p) == "/" && p !in t.index
    ensures Consistent(Mkdir(t, p).0) && View(Mkdir(t, p).0) == View(t)[p := DirEntry(t.next)]
  {
    assert PathOk(t, "/");
    MkdirConsistent(t, p);
  }

  lemma ArtAndArtistState()
    ensures var t := ArtAndArtist();
      Consistent(t) && IsDirAt(t, "/Art") && IsDirAt(t, "/Artist") && IsDirAt(t, "/") && "/New" !in t.index
  {
    ArtPaths();
    EmptyTreeConsistent();
    hide LastSlash, Parent, BaseName, ValidPath, Consistent, InSubtree;
    var t0 := EMPTY_TREE;
    assert t0.index.Keys == {"/"} && View(t0).Keys == {"/"} && View(t0)["/"].DirEntry?;
    MkdirUnderRoot(t0, "/Art");
    var t1 := Mkdir(t0, "/Art").0;
    ViewKinds(t1, "/Artist");
    hide View, Mkdir;
    assert t1 == Mkdir(t0, "/Art").0;
    MkdirUnderRoot(t1, "/Artist");
    var t2 := Mkdir(t1, "/Artist").0;
    assert View(t2).Keys == {"/", "/Art", "/Artist"};
    ViewKinds(t2, "/");
    ViewKinds(t2, "/Art");
    ViewKinds(t2, "/Artist");
    ViewKinds(t2, "/New");
  }

  /** Renaming "/Art" beside "/Artist" breaks agreement in every outcome, and
      removing it recursively does too. */
  lemma PrefixClashIsReal(t': Tree)
    ensures ValidOp(OpRenameDirectory("/Art", "/New"))
    ensures Step(ArtAndArtist(), OpRenameDirectory("/Art", "/New"), t') ==> !Consistent(t')
    ensures !Consistent(RemoveRecursive(ArtAndArtist(), "/Art").0)
  {
    ArtPaths();
    ArtAndArtistState();
    var t := ArtAndArtist();
    hide LastSlash, Parent, BaseName, ValidPath, Consistent, InSubtree;
    assert !NoClash(t, "/Art");
    RemoveRecursiveExact(t, "/Art");
    if Step(t, OpRenameDirectory("/Art", "/New"), t') {
      RenameDirectoryExact(t, t', "/Art", "/New");
    }
  }
}
