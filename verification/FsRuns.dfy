/**
 Whole runs of filesystem calls on tree and database together.
 */
module FsRuns {
  import opened Common
  import opened Paths
  import opened TreeModel
  import opened TreeGrow
  import opened TreePrune
  import opened TreeRename
  import opened FsModel
  import opened FsRestore

  datatype Call =
    | CallUnlink(path: Path)
    | CallRename(src: Path, dst: Path)
    | CallMkdir(path: Path)
    | CallRmdir(path: Path)
    | CallRestore(file: TrashedFile)

  /** Paths that resolve_path can produce: valid and not the root. */
  ghost predicate Resolved(p: Path) {
    ValidPath(p) && p != "/"
  }

  ghost predicate ValidCall(c: Call) {
    match c
    case CallUnlink(p) => Resolved(p)
    case CallRename(src, dst) => Resolved(src) && Resolved(dst)
    case CallMkdir(p) => Resolved(p)
    case CallRmdir(p) => Resolved(p)
    case CallRestore(f) => Resolved(f.originalPath)
  }

  function MkdirReply(r: Result<Inode, RenameError>): Reply {
    match r
    case Ok(inode) => Entry(inode)
    case Err(TargetExists) => EEXIST
    case Err(ParentNotFound) => ENOENT
    case Err(_) => EIO
  }

  function RmdirReply(r: Result<(), RemoveError>): Reply {
    match r
    case Ok(_) => Done
    case Err(NotFound) => ENOENT
    case Err(NotEmpty) => ENOTEMPTY
    case Err(RemoveNotDirectory) => ENOTDIR
  }

  function MkdirCall(fs: Fs, p: Path): (Fs, Reply) {
    var (t', r) := Mkdir(fs.tree, p);
    (Fs(t', fs.rows), MkdirReply(r))
  }

  function RmdirCall(fs: Fs, p: Path): (Fs, Reply) {
    if IsTrashPath(p) then (fs, EPERM)
    else var (t', r) := RemoveDirectory(fs.tree, p); (Fs(t', fs.rows), RmdirReply(r))
  }

  /** One call; a restore is only asked for files that a listing tracked. */
  ghost predicate CallStep(fs: Fs, c: Call, fs': Fs)
    requires ValidCall(c)
  {
    match c
    case CallUnlink(p) => fs' == Unlink(fs, p).0
    case CallRename(src, dst) => exists reply :: Renamed(fs, fs', reply, src, dst)
    case CallMkdir(p) => fs' == MkdirCall(fs, p).0
    case CallRmdir(p) => fs' == RmdirCall(fs, p).0
    case CallRestore(f) => Tracked(fs.rows, f) && fs' == RestoreOne(fs, f).0
  }

  /** What can be checked before the call. */
  ghost predicate CallGuard(fs: Fs, c: Call)
    requires ValidCall(c)
  {
    match c
    case CallUnlink(p) => UnlinkGuard(fs.tree, p)
    case CallRename(src, dst) =>
      src != dst && RenameDirectoryCheck(fs.tree, src, dst).Ok? ==> GoodMove(fs.tree, src, dst)
    case CallRestore(f) => RestoreGuard(fs.tree, f)
    case _ => true
  }

  lemma RenamedExact(fs: Fs, fs': Fs, reply: Reply, src: Path, dst: Path)
    requires FsOk(fs) && ValidPath(dst) && Renamed(fs, fs', reply, src, dst)
    ensures var good := src != dst && RenameDirectoryCheck(fs.tree, src, dst).Ok? ==> GoodMove(fs.tree, src, dst);
      && (Consistent(fs'.tree) <==> good)
      && (good ==> FsOk(fs') && KeepsFiles(View(fs.tree), fs.rows, View(fs'.tree), fs'.rows))
  {
    GrownSelf(View(fs.tree));
    GrownOk(View(fs.tree), View(fs.tree), fs.rows);
    if src != dst {
      if IsDirAt(fs.tree, src) {
        RenamedDirectoryExact(fs, fs', reply, src, dst);
      } else {
        RenameOneOk(fs, src, dst);
      }
    }
    hide LastSlash, Parent, ValidPath, Consistent, View, KeepsFiles, Mirrored, RenamedDirectory, RenameOne, GoodMove;
  }

  lemma MkdirOk(fs: Fs, p: Path)
    requires FsOk(fs) && Resolved(p)
    ensures var fs' := MkdirCall(fs, p).0;
      FsOk(fs') && KeepsFiles(View(fs.tree), fs.rows, View(fs'.tree), fs'.rows)
  {
    MkdirConsistent(fs.tree, p);
    hide LastSlash, Parent, ValidPath, Consistent, View, KeepsFiles, Mirrored, Mkdir;
    ViewKinds(fs.tree, p);
    MkdirGrows(View(fs.tree), p, fs.tree.next);
    GrownOk(View(fs.tree), View(MkdirCall(fs, p).0.tree), fs.rows);
  }

  lemma MkdirGrows(v: map<Path, Entry>, p: Path, i: Inode)
    ensures Grown(v, v) && (p !in v ==> Grown(v, v[p := DirEntry(i)]))
  {
  }

  lemma RmdirOk(fs: Fs, p: Path)
    requires FsOk(fs) && Resolved(p)
    ensures var fs' := RmdirCall(fs, p).0;
      FsOk(fs') && KeepsFiles(View(fs.tree), fs.rows, View(fs'.tree), fs'.rows)
  {
    GrownSelf(View(fs.tree));
    GrownOk(View(fs.tree), View(fs.tree), fs.rows);
    RemoveDirectoryExact(fs.tree, p);
    ViewKinds(fs.tree, p);
    hide LastSlash, Parent, ValidPath, Consistent, View;
    if !IsTrashPath(p) && RemoveDirectory(fs.tree, p).1.Ok? {
      assert IsDirAt(fs.tree, p);
      hide RemoveDirectory, KeepsFiles, Mirrored;
      DropDirOk(View(fs.tree), fs.rows, p);
    }
  }

  lemma DropDirOk(v: map<Path, Entry>, rows: Rows, p: Path)
    requires Mirrored(v, rows) && p in v && v[p].DirEntry?
    ensures Mirrored(v - {p}, rows) && KeepsFiles(v, rows, v - {p}, rows)
  {
    forall id | id in rows ensures RowMirrored(v - {p}, rows, id) { assert RowMirrored(v, rows, id); }
    forall q | q in v - {p} && (v - {p})[q].FileEntry? ensures FileMirrored(v - {p}, rows, q) {
      assert FileMirrored(v, rows, q);
    }
    forall id | id in rows ensures rows[id].path in v && rows[id].path != p { assert RowMirrored(v, rows, id); }
  }

  /** One call keeps agreement exactly when its guard holds, and then it keeps
      tree and rows mirrored and every file what it was. */
  lemma CallExact(fs: Fs, c: Call, fs': Fs)
    requires FsOk(fs) && ValidCall(c) && CallStep(fs, c, fs')
    ensures Consistent(fs'.tree) <==> CallGuard(fs, c)
    ensures CallGuard(fs, c) ==> FsOk(fs') && KeepsFiles(View(fs.tree), fs.rows, View(fs'.tree), fs'.rows)
  {
    hide LastSlash, Parent, ValidPath, Consistent, View, KeepsFiles, Mirrored, OriginalsValid, Unlink, Renamed,
      MkdirCall, RmdirCall, RestoreOne, UnlinkGuard, RestoreGuard, GoodMove;
    match c
    case CallUnlink(p) =>
      UnlinkExact(fs, p);
      if UnlinkGuard(fs.tree, p) { UnlinkOk(fs, p); }
    case CallRename(src, dst) =>
      var reply :| Renamed(fs, fs', reply, src, dst);
      RenamedExact(fs, fs', reply, src, dst);
    case CallMkdir(p) => MkdirOk(fs, p);
    case CallRmdir(p) => RmdirOk(fs, p);
    case CallRestore(f) =>
      RestoreOneExact(fs, f);
      if RestoreGuard(fs.tree, f) { RestoreOneOk(fs, f); }
  }

  ghost predicate IsFsRun(calls: seq<Call>, fss: seq<Fs>) {
    && |fss| == |calls| + 1
    && forall k :: 0 <= k < |calls| ==> ValidCall(calls[k]) && CallStep(fss[k], calls[k], fss[k + 1])
  }

  ghost predicate CallsGuarded(calls: seq<Call>, fss: seq<Fs>, n: nat)
    requires n <= |calls| && n <= |fss|
  {
    forall k :: 0 <= k < n ==> ValidCall(calls[k]) && CallGuard(fss[k], calls[k])
  }

  ghost predicate AgreeUpTo(fss: seq<Fs>, n: nat)
    requires n < |fss|
  {
    forall k :: 0 <= k <= n ==> Consistent(fss[k].tree)
  }

  lemma {:induction false} RunPrefix(calls: seq<Call>, fss: seq<Fs>, n: nat)
    requires IsFsRun(calls, fss) && FsOk(fss[0]) && n <= |calls|
    ensures AgreeUpTo(fss, n) <==> CallsGuarded(calls, fss, n)
    ensures CallsGuarded(calls, fss, n) ==>
      FsOk(fss[n]) && KeepsFiles(View(fss[0].tree), fss[0].rows, View(fss[n].tree), fss[n].rows)
    decreases n
  {
    if n == 0 {
      GrownSelf(View(fss[0].tree));
      GrownOk(View(fss[0].tree), View(fss[0].tree), fss[0].rows);
    } else {
      RunPrefix(calls, fss, n - 1);
      assert FsOk(fss[n - 1]) ==> Consistent(fss[n - 1].tree);
      hide FsOk, Consistent, View, KeepsFiles, CallStep, CallGuard, ValidCall;
      if CallsGuarded(calls, fss, n - 1) {
        var a, b, c := fss[0], fss[n - 1], fss[n];
        CallExact(b, calls[n - 1], c);
        if CallsGuarded(calls, fss, n) {
          KeepsFilesTransitive(View(a.tree), a.rows, View(b.tree), b.rows, View(c.tree), c.rows);
        }
      }
    }
  }

  /** Main result on the filesystem: over every run, index and tree agree in all
      states exactly when every call was made under its guard; then tree and rows
      are mirrored at the end, and every file has kept its inode, id, size and
      time through all unlinks, renames and restores. */
  lemma FsRunExactly(calls: seq<Call>, fss: seq<Fs>)
    requires IsFsRun(calls, fss) && FsOk(fss[0])
    ensures (forall k :: 0 <= k < |fss| ==> Consistent(fss[k].tree)) <==> CallsGuarded(calls, fss, |calls|)
    ensures CallsGuarded(calls, fss, |calls|) ==>
      var last := fss[|calls|];
      FsOk(last) && KeepsFiles(View(fss[0].tree), fss[0].rows, View(last.tree), last.rows)
  {
    RunPrefix(calls, fss, |calls|);
    hide FsOk, Consistent, View, KeepsFiles, CallStep, CallGuard, ValidCall;
  }
}
