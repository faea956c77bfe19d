/**
 Restoring trashed files, the unlink/restore round trip, and whole runs of
 filesystem operations.
 */
module FsRestore {
  import opened Common
  import opened Paths
  import opened TreeModel
  import opened TreeGrow
  import opened TreeRename
  import opened FsModel

  // ----- one file -----

  /** f's row says that its file is where the listing saw it, or already back. */
  ghost predicate Tracked(rows: Rows, f: TrashedFile) {
    && f.fileId in rows && ValidPath(f.originalPath) && f.originalPath != "/"
    && (rows[f.fileId].path == f.currentPath || rows[f.fileId].path == f.originalPath)
  }

  /** No file stands above the directory to be recreated. */
  ghost predicate RestoreGuard(t: Tree, f: TrashedFile)
    requires ValidPath(f.originalPath) && f.originalPath != "/"
  {
    ChildOfParent(f.originalPath);
    NoFileAbove(t, Parent(f.originalPath))
  }

  /** restoring keeps agreement exactly under its guard. */
  lemma RestoreOneExact(fs: Fs, f: TrashedFile)
    requires FsOk(fs) && Tracked(fs.rows, f)
    ensures Consistent(RestoreOne(fs, f).0.tree) <==> RestoreGuard(fs.tree, f)
  {
    var t, p := fs.tree, f.originalPath;
    ChildOfParent(p);
    var q := Parent(p);
    var t1 := MkdirP(t, q).0;
    MkdirPExact(t, q);
    if p in t.index { IndexedNoFileAbove(t, p); }
    if q in t.index { IndexedNoFileAbove(t, q); }
    if RestoreGuard(t, f) {
      RenameFileExact(t1, f.currentPath, p);
    } else {
      assert RowMirrored(View(fs.tree), fs.rows, f.fileId);
      ViewKinds(t, fs.rows[f.fileId].path);
      MakeDirsBreaks(t, q);
      hide LastSlash, Parent, ValidPath, Consistent, View;
      RenameKeepsBelowFile(t1, t.index.Keys, f.currentPath, p);
    }
  }

  /** What a guarded restore does: at most it moves f's file back to its original
      path and clears the trashed flag; f stays tracked. */
  lemma RestoreOneMoves(fs: Fs, f: TrashedFile)
    requires FsOk(fs) && Tracked(fs.rows, f) && RestoreGuard(fs.tree, f)
    ensures var (fs', restored) := RestoreOne(fs, f);
      var t1 := MkdirP(fs.tree, Parent(f.originalPath)).0;
      var v, w := View(fs.tree), View(t1);
      && Consistent(fs'.tree) && Grown(v, w)
      && (restored <==> f.originalPath !in w && IsDirAt(t1, Parent(f.originalPath)))
      && (restored ==>
            && f.currentPath in v && v[f.currentPath].FileEntry? && v[f.currentPath].fileId == f.fileId
            && View(fs'.tree) == (w - {f.currentPath})[f.originalPath := v[f.currentPath]]
            && fs'.rows == fs.rows[f.fileId := Row(f.originalPath, false, None)])
      && (!restored ==> fs'.tree == t1 && fs'.rows == fs.rows)
  {
    var t, p := fs.tree, f.originalPath;
    ChildOfParent(p);
    var t1 := MkdirP(t, Parent(p)).0;
    MkdirPGrows(t, Parent(p));
    GrownTree(t, t1);
    assert RowMirrored(View(t), fs.rows, f.fileId);
    ViewKinds(t, f.currentPath);
    ViewKinds(t1, p);
    ViewKinds(t1, f.currentPath);
    hide LastSlash, Parent, ValidPath, Consistent, View, MkdirP, NoFileAbove, OriginalsValid, Mirrored;
    RenameFileExact(t1, f.currentPath, p);
    RestoredRow(fs.rows, f.fileId, p);
    hide RenameFile, UpdateVirtualPath, UnmarkTrashed;
  }

  lemma RestoredRow(rows: Rows, id: FileId, p: Path)
    requires id in rows
    ensures UnmarkTrashed(UpdateVirtualPath(rows, id, p), id) == rows[id := Row(p, false, None)]
  {
  }

  /** A guarded restore keeps tree and rows mirrored and every file what it was. */
  lemma RestoreOneOk(fs: Fs, f: TrashedFile)
    requires FsOk(fs) && Tracked(fs.rows, f) && RestoreGuard(fs.tree, f)
    ensures var fs' := RestoreOne(fs, f).0;
      && FsOk(fs') && KeepsFiles(View(fs.tree), fs.rows, View(fs'.tree), fs'.rows)
      && (fs'.rows == fs.rows || fs'.rows == fs.rows[f.fileId := Row(f.originalPath, false, None)])
  {
    RestoreOneMoves(fs, f);
    var (fs', restored) := RestoreOne(fs, f);
    var v, w := View(fs.tree), View(MkdirP(fs.tree, Parent(f.originalPath)).0);
    hide LastSlash, Parent, ValidPath, Consistent, View, MkdirP, NoFileAbove, Mirrored, KeepsFiles, Grown, RestoreOne;
    if restored {
      OriginalsAfter(fs.rows, f.fileId, Row(f.originalPath, false, None));
      MovedOk(v, w, fs.rows, f.currentPath, f.originalPath, Row(f.originalPath, false, None));
    } else {
      GrownOk(v, w, fs.rows);
    }
  }

  // ----- a whole restore list -----

  ghost predicate Restorable(todo: seq<TrashedFile>) {
    forall f :: f in todo ==> ValidPath(f.originalPath) && f.originalPath != "/"
  }

  /** After the first k files of the list. */
  ghost function RestoreTo(fs: Fs, todo: seq<TrashedFile>, k: nat): Fs
    requires k <= |todo| && Restorable(todo)
  {
    if k == 0 then fs else RestoreOne(RestoreTo(fs, todo, k - 1), todo[k - 1]).0
  }

  ghost function RestoreAll(fs: Fs, todo: seq<TrashedFile>): Fs
    requires Restorable(todo)
  {
    RestoreTo(fs, todo, |todo|)
  }

  /** Restoring two lists one after the other is restoring their concatenation. */
  lemma {:induction false} RestoreAppend(fs: Fs, a: seq<TrashedFile>, b: seq<TrashedFile>, k: nat)
    requires Restorable(a) && Restorable(b) && Restorable(a + b) && k <= |b|
    ensures RestoreTo(fs, a + b, |a| + k) == RestoreTo(RestoreAll(fs, a), b, k)
    decreases k
  {
    hide Restorable, RestoreOne;
    if k == 0 {
      RestoreSame(fs, a, a + b, |a|);
    } else {
      RestoreAppend(fs, a, b, k - 1);
      assert (a + b)[|a| + k - 1] == b[k - 1];
    }
  }

  lemma RestoreMore(fs: Fs, a: seq<TrashedFile>, b: seq<TrashedFile>)
    requires Restorable(a) && Restorable(b)
    ensures Restorable(a + b) && RestoreAll(fs, a + b) == RestoreAll(RestoreAll(fs, a), b)
  {
    hide ValidPath, RestoreTo;
    assert Restorable(a + b);
    RestoreAppend(fs, a, b, |b|);
  }

  lemma {:induction false} RestoreSame(fs: Fs, a: seq<TrashedFile>, c: seq<TrashedFile>, k: nat)
    requires Restorable(a) && Restorable(c) && k <= |a| && a <= c
    ensures RestoreTo(fs, a, k) == RestoreTo(fs, c, k)
    decreases k
  {
    hide Restorable, RestoreOne;
    if k > 0 {
      RestoreSame(fs, a, c, k - 1);
      assert c[k - 1] == a[k - 1];
    }
  }

  /** The list comes from one listing: all tracked, one record per file. It may
      name a file many times, and its paths may overlap. */
  ghost predicate Snapshot(rows: Rows, todo: seq<TrashedFile>) {
    && Restorable(todo)
    && (forall f :: f in todo ==> Tracked(rows, f))
    && (forall f, g :: f in todo && g in todo && f.fileId == g.fileId ==> f == g)
  }

  ghost predicate GuardAt(fs: Fs, todo: seq<TrashedFile>, j: nat)
    requires j < |todo| && Restorable(todo)
  {
    RestoreGuard(RestoreTo(fs, todo, j).tree, todo[j])
  }

  ghost predicate RestoreGuardedTo(fs: Fs, todo: seq<TrashedFile>, k: nat)
    requires k <= |todo| && Restorable(todo)
  {
    forall j :: 0 <= j < k ==> GuardAt(fs, todo, j)
  }

  /** Rows may only change to the restored row of a listed file. */
  ghost predicate OnlyRestored(rows: Rows, rows': Rows, todo: seq<TrashedFile>) {
    && rows'.Keys == rows.Keys
    && forall id :: id in rows && rows'[id] != rows[id] ==>
         exists f :: f in todo && f.fileId == id && rows'[id] == Row(f.originalPath, false, None)
  }

  lemma StillSnapshot(rows: Rows, rows': Rows, todo: seq<TrashedFile>)
    requires Snapshot(rows, todo) && OnlyRestored(rows, rows', todo)
    ensures Snapshot(rows', todo)
  {
    hide ValidPath;
    forall f | f in todo ensures Tracked(rows', f) { assert Tracked(rows, f); }
  }

  lemma OneMoreRestored(rows: Rows, rows': Rows, rows'': Rows, todo: seq<TrashedFile>, f: TrashedFile)
    requires OnlyRestored(rows, rows', todo) && f in todo && f.fileId in rows
    requires rows'' == rows' || rows'' == rows'[f.fileId := Row(f.originalPath, false, None)]
    ensures OnlyRestored(rows, rows'', todo)
  {
  }

  lemma KeepsFilesTransitive(u: map<Path, Entry>, a: Rows, v: map<Path, Entry>, b: Rows, w: map<Path, Entry>, c: Rows)
    requires KeepsFiles(u, a, v, b) && KeepsFiles(v, b, w, c)
    ensures KeepsFiles(u, a, w, c)
  {
  }

  lemma {:induction false} RestoreToOk(fs: Fs, todo: seq<TrashedFile>, k: nat)
    requires FsOk(fs) && Snapshot(fs.rows, todo) && k <= |todo| && RestoreGuardedTo(fs, todo, k)
    ensures var fs' := RestoreTo(fs, todo, k);
      && FsOk(fs') && OnlyRestored(fs.rows, fs'.rows, todo) && Snapshot(fs'.rows, todo)
      && KeepsFiles(View(fs.tree), fs.rows, View(fs'.tree), fs'.rows)
    decreases k
  {
    if k == 0 {
      GrownSelf(View(fs.tree));
      GrownOk(View(fs.tree), View(fs.tree), fs.rows);
      hide FsOk, Snapshot;
    } else {
      RestoreToOk(fs, todo, k - 1);
      var fs1, f := RestoreTo(fs, todo, k - 1), todo[k - 1];
      assert GuardAt(fs, todo, k - 1);
      assert f in todo && Tracked(fs1.rows, f);
      hide FsOk, RestoreGuard, OnlyRestored, KeepsFiles, RestoreOne, View;
      RestoreOneOk(fs1, f);
      var fs2 := RestoreOne(fs1, f).0;
      assert f.fileId in fs.rows by { assert Tracked(fs.rows, f); }
      hide Tracked, Snapshot;
      OneMoreRestored(fs.rows, fs1.rows, fs2.rows, todo, f);
      StillSnapshot(fs.rows, fs2.rows, todo);
      KeepsFilesTransitive(View(fs.tree), fs.rows, View(fs1.tree), fs1.rows, View(fs2.tree), fs2.rows);
    }
  }

  lemma UnguardedStep(fs: Fs, todo: seq<TrashedFile>, k: nat)
    requires FsOk(fs) && Snapshot(fs.rows, todo) && k < |todo| && RestoreGuardedTo(fs, todo, k)
    requires !GuardAt(fs, todo, k)
    ensures !Consistent(RestoreTo(fs, todo, k + 1).tree)
  {
    RestoreToOk(fs, todo, k);
    assert todo[k] in todo;
    hide RestoreGuard, Consistent, FsOk, RestoreGuardedTo, Tracked, RestoreOne, OnlyRestored, KeepsFiles;
    RestoreOneExact(RestoreTo(fs, todo, k), todo[k]);
  }

  lemma OneMoreGuard(fs: Fs, todo: seq<TrashedFile>, k: nat)
    requires k < |todo| && Restorable(todo)
    ensures RestoreGuardedTo(fs, todo, 0)
    ensures RestoreGuardedTo(fs, todo, k + 1) <==> RestoreGuardedTo(fs, todo, k) && GuardAt(fs, todo, k)
  {
    hide GuardAt, Restorable;
  }

  /** Where the agreement is first lost. */
  lemma {:induction false} FirstUnguarded(fs: Fs, todo: seq<TrashedFile>, n: nat) returns (k: nat)
    requires FsOk(fs) && Snapshot(fs.rows, todo) && n <= |todo| && !RestoreGuardedTo(fs, todo, n)
    ensures k <= |todo| && !Consistent(RestoreTo(fs, todo, k).tree)
    decreases n
  {
    assert Restorable(todo) && n > 0;
    OneMoreGuard(fs, todo, n - 1);
    hide GuardAt, Consistent, FsOk, Snapshot, RestoreTo, Restorable, RestoreGuardedTo;
    if RestoreGuardedTo(fs, todo, n - 1) {
      UnguardedStep(fs, todo, n - 1);
      k := n;
    } else {
      k := FirstUnguarded(fs, todo, n - 1);
    }
  }

  // ----- what comes back -----

  /** Neither path is the other, nor lies above it. */
  predicate Apart(p: Path, q: Path) {
    p != q && !(p + "/" <= q) && !(q + "/" <= p)
  }

  /** The way back is clear for f: its row is where the listing saw it, its original
      path is free, no file stands where its directory goes, and no other listed
      file goes back to that path, above it or below it. */
  ghost predicate Clear(fs: Fs, todo: seq<TrashedFile>, f: TrashedFile)
    requires ValidPath(f.originalPath) && f.originalPath != "/"
  {
    && f.fileId in fs.rows && fs.rows[f.fileId].path == f.currentPath
    && f.originalPath !in View(fs.tree) && !IsFileAt(fs.tree, Parent(f.originalPath))
    && forall g :: g in todo && g != f ==> Apart(f.originalPath, g.originalPath)
  }

  /** f is back: its row says so. */
  ghost predicate Back(rows: Rows, f: TrashedFile) {
    f.fileId in rows && rows[f.fileId] == Row(f.originalPath, false, None)
  }

  lemma {:induction false} AncestryAbove(p: Path, q: Path)
    requires ValidPath(p) && q in Ancestry(p) && q != "/"
    ensures q == p || q + "/" <= p
    decreases |p|
  {
    if q != p {
      ChildOfParent(p);
      AncestryAbove(Parent(p), q);
      ParentPrefix(p);
      hide LastSlash, Parent, BaseName, ValidPath, Ancestry;
    }
  }

  lemma ParentPrefix(p: Path)
    requires ValidPath(p) && p != "/"
    ensures Parent(p) != "/" ==> Parent(p) + "/" <= p
  {
    ChildOfParent(p);
    hide LastSlash, ValidPath;
  }

  /** With the way clear, trying f brings it back. */
  lemma ClearRestores(fs: Fs, todo: seq<TrashedFile>, f: TrashedFile)
    requires FsOk(fs) && Tracked(fs.rows, f) && RestoreGuard(fs.tree, f) && Clear(fs, todo, f)
    ensures Back(RestoreOne(fs, f).0.rows, f)
  {
    var p := f.originalPath;
    ChildOfParent(p);
    MkdirPExact(fs.tree, Parent(p));
    if p in Ancestry(Parent(p)) { AncestryShorter(Parent(p), p); }
    RestoreOneMoves(fs, f);
    hide LastSlash, Parent, ValidPath, Consistent, View, MkdirP, RestoreOne, NoFileAbove, Mirrored, Ancestry;
  }

  /** Making q's parents leaves p free, unless q lies below p. */
  lemma ParentsLeaveFree(t: Tree, p: Path, q: Path)
    requires Consistent(t) && ValidPath(p) && p != "/" && ValidPath(q) && q != "/"
    requires ValidPath(Parent(q)) && NoFileAbove(t, Parent(q)) && p !in View(t) && !(p + "/" <= q)
    ensures p !in View(MkdirP(t, Parent(q)).0)
  {
    var d := Parent(q);
    MkdirPExact(t, d);
    assert p !in Ancestry(d) by {
      if p in Ancestry(d) {
        AncestryAbove(d, p);
        ParentPrefix(q);
      }
    }
    hide LastSlash, Parent, ValidPath, Consistent, View, MkdirP, NoFileAbove, Ancestry;
  }

  /** Moving a file to q adds no other file, and only q and the directories of w. */
  lemma MoveAddsOnly(v: map<Path, Entry>, w: map<Path, Entry>, v': map<Path, Entry>, cur: Path, q: Path, p: Path)
    requires Grown(v, w) && p != q
    requires v' == w || (cur in v && v' == (w - {cur})[q := v[cur]])
    ensures p !in w ==> p !in v'
    ensures p in v' && v'[p].FileEntry? ==> p in v && v[p].FileEntry?
  {
  }

  /** Trying another file leaves the way clear. */
  lemma StaysClear(fs: Fs, todo: seq<TrashedFile>, f: TrashedFile, g: TrashedFile)
    requires FsOk(fs) && Tracked(fs.rows, g) && RestoreGuard(fs.tree, g)
    requires ValidPath(f.originalPath) && f.originalPath != "/" && Clear(fs, todo, f)
    requires g in todo && g != f && g.fileId != f.fileId
    ensures Clear(RestoreOne(fs, g).0, todo, f)
  {
    var p, q := f.originalPath, g.originalPath;
    var fs' := RestoreOne(fs, g).0;
    ChildOfParent(q);
    RestoreOneMoves(fs, g);
    ParentsLeaveFree(fs.tree, p, q);
    ParentPrefix(p);
    ViewKinds(fs.tree, Parent(p));
    ViewKinds(fs'.tree, Parent(p));
    hide LastSlash, Parent, ValidPath, Consistent, View, MkdirP, RestoreOne, NoFileAbove, Mirrored, IsFileAt, Grown;
    var v, w, v' := View(fs.tree), View(MkdirP(fs.tree, Parent(q)).0), View(fs'.tree);
    assert v' == w || (g.currentPath in v && v' == (w - {g.currentPath})[q := v[g.currentPath]]);
    MoveAddsOnly(v, w, v', g.currentPath, q, p);
    assert Apart(p, q);
    MoveAddsOnly(v, w, v', g.currentPath, q, Parent(p));
  }

  lemma {:induction false} ReturnTo(fs: Fs, todo: seq<TrashedFile>, f: TrashedFile, k: nat)
    requires FsOk(fs) && Snapshot(fs.rows, todo) && RestoreGuardedTo(fs, todo, |todo|) && k <= |todo|
    requires f in todo && ValidPath(f.originalPath) && f.originalPath != "/" && Clear(fs, todo, f)
    ensures if f in todo[..k] then Back(RestoreTo(fs, todo, k).rows, f) else Clear(RestoreTo(fs, todo, k), todo, f)
    decreases k
  {
    hide FsOk, RestoreGuard, Clear, Back, OnlyRestored, KeepsFiles, RestoreOne, View, ValidPath, Tracked;
    if k > 0 {
      ReturnTo(fs, todo, f, k - 1);
      RestoreToOk(fs, todo, k - 1);
      var fs1, g := RestoreTo(fs, todo, k - 1), todo[k - 1];
      assert todo[..k] == todo[..k - 1] + [g] && g in todo;
      assert GuardAt(fs, todo, k - 1) && Tracked(fs1.rows, g);
      if f in todo[..k - 1] {
        RestoreOneOk(fs1, g);
        StaysBack(fs1.rows, RestoreOne(fs1, g).0.rows, f, g);
      } else if g == f {
        ClearRestores(fs1, todo, f);
      } else {
        StaysClear(fs1, todo, f, g);
      }
    }
  }

  lemma StaysBack(rows: Rows, rows': Rows, f: TrashedFile, g: TrashedFile)
    requires Back(rows, f) && (rows' == rows || rows' == rows[g.fileId := Row(g.originalPath, false, None)])
    requires g.fileId == f.fileId ==> g == f
    ensures Back(rows', f)
  {
  }

  /** Main result on restoring: whatever the list repeats or overlaps, tree and
      index agree after every file of it exactly when every guard holds; then
      tree and rows are mirrored at the end, every file is the one it was, only
      listed rows changed, each to its untrashed original place, and every listed
      file whose way back was clear is back there. */
  lemma RestoreAllExact(fs: Fs, todo: seq<TrashedFile>)
    requires FsOk(fs) && Snapshot(fs.rows, todo)
    ensures (forall k :: 0 <= k <= |todo| ==> Consistent(RestoreTo(fs, todo, k).tree)) <==>
            RestoreGuardedTo(fs, todo, |todo|)
    ensures RestoreGuardedTo(fs, todo, |todo|) ==>
      var fs' := RestoreAll(fs, todo);
      && FsOk(fs') && OnlyRestored(fs.rows, fs'.rows, todo)
      && KeepsFiles(View(fs.tree), fs.rows, View(fs'.tree), fs'.rows)
      && forall f :: f in todo && Clear(fs, todo, f) ==>
           && Back(fs'.rows, f)
           && f.currentPath in View(fs.tree) && f.originalPath in View(fs'.tree)
           && View(fs'.tree)[f.originalPath] == View(fs.tree)[f.currentPath]
  {
    if RestoreGuardedTo(fs, todo, |todo|) {
      RestoreToOk(fs, todo, |todo|);
      forall k | 0 <= k <= |todo| ensures Consistent(RestoreTo(fs, todo, k).tree) {
        assert RestoreGuardedTo(fs, todo, k);
        RestoreToOk(fs, todo, k);
      }
      forall f | f in todo && Clear(fs, todo, f) ensures Back(RestoreAll(fs, todo).rows, f) {
        assert todo[..|todo|] == todo;
        ReturnTo(fs, todo, f, |todo|);
      }
      hide Consistent, Mirrored, View, RestoreTo, RestoreGuardedTo, Snapshot, OnlyRestored;
    } else {
      var k := FirstUnguarded(fs, todo, |todo|);
    }
  }

  // ----- guards that can be checked before the restore -----

  /** Files are where they were, or back at a listed original path. */
  lemma FilesAfter(fs: Fs, fs': Fs, todo: seq<TrashedFile>, q: Path)
    requires FsOk(fs) && FsOk(fs') && OnlyRestored(fs.rows, fs'.rows, todo) && IsFileAt(fs'.tree, q)
    ensures IsFileAt(fs.tree, q) || exists f :: f in todo && f.originalPath == q
  {
    ViewKinds(fs'.tree, q);
    ViewKinds(fs.tree, q);
    hide Consistent, View, IsFileAt, OriginalsValid;
    var id := View(fs'.tree)[q].fileId;
    assert FileMirrored(View(fs'.tree), fs'.rows, q);
    assert RowMirrored(View(fs.tree), fs.rows, id);
  }

  lemma {:induction false} NoFileAboveAfter(fs: Fs, fs': Fs, todo: seq<TrashedFile>, p: Path)
    requires FsOk(fs) && FsOk(fs') && OnlyRestored(fs.rows, fs'.rows, todo)
    requires ValidPath(p) && NoFileAbove(fs.tree, p)
    requires forall f :: f in todo ==> f.originalPath != "/" && !(f.originalPath + "/" <= p)
    ensures NoFileAbove(fs'.tree, p)
    decreases |p|
  {
    if p != "/" {
      ChildOfParent(p);
      ParentPrefix(p);
      if IsFileAt(fs'.tree, Parent(p)) { FilesAfter(fs, fs', todo, Parent(p)); }
      assert forall f :: f in todo && f.originalPath + "/" <= Parent(p) ==> f.originalPath + "/" <= p;
      hide FsOk, OnlyRestored, LastSlash, Parent, ValidPath, IsFileAt;
      NoFileAboveAfter(fs, fs', todo, Parent(p));
    }
  }

  /** If no file stands above a directory to be recreated, and none will, because no
      listed file goes back to a place above another's directory, then every guard
      holds, whatever the order of the list. */
  lemma {:induction false} GuardsFromStart(fs: Fs, todo: seq<TrashedFile>, k: nat)
    requires FsOk(fs) && Snapshot(fs.rows, todo) && k <= |todo|
    requires forall f :: f in todo ==> RestoreGuard(fs.tree, f)
    requires forall f, g :: f in todo && g in todo ==> !(f.originalPath + "/" <= Parent(g.originalPath))
    ensures RestoreGuardedTo(fs, todo, k)
    decreases k
  {
    hide FsOk, NoFileAbove, LastSlash, Parent, OnlyRestored, KeepsFiles, View, RestoreOne;
    if k > 0 {
      GuardsFromStart(fs, todo, k - 1);
      RestoreToOk(fs, todo, k - 1);
      var fs1, g := RestoreTo(fs, todo, k - 1), todo[k - 1];
      assert g in todo && RestoreGuard(fs.tree, g);
      ChildOfParent(g.originalPath);
      NoFileAboveAfter(fs, fs1, todo, Parent(g.originalPath));
      assert GuardAt(fs, todo, k - 1);
    }
  }

  // ----- which files a restore list names -----

  predicate Matches(f: TrashedFile, path: Path) {
    f.originalPath == path || path + "/" <= f.originalPath
  }

  /** The listed files that one restore path names, in listing order. */
  function Matching(trashed: seq<TrashedFile>, path: Path): seq<TrashedFile> {
    if trashed == [] then []
    else
      var last := trashed[|trashed| - 1];
      Matching(trashed[..|trashed| - 1], path) + if Matches(last, path) then [last] else []
  }

  /** All files to try, path by path. */
  function Schedule(trashed: seq<TrashedFile>, paths: seq<Path>): seq<TrashedFile> {
    if paths == [] then []
    else Schedule(trashed, paths[..|paths| - 1]) + Matching(trashed, paths[|paths| - 1])
  }

  /** list_trashed: every trashed row once, in some order. */
  ghost predicate IsListing(trashed: seq<TrashedFile>, rows: Rows) {
    && (forall f :: f in trashed ==>
      f.fileId in rows && rows[f.fileId] == Row(f.currentPath, true, Some(f.originalPath)))
    && (forall id :: id in rows && rows[id].trashed && rows[id].originalPath.Some? ==>
          TrashedFile(id, rows[id].path, rows[id].originalPath.value) in trashed)
    && (forall i, j :: 0 <= i < j < |trashed| ==> trashed[i] != trashed[j])
  }

  lemma {:induction false} MatchingIn(trashed: seq<TrashedFile>, path: Path)
    ensures forall f :: f in Matching(trashed, path) <==> f in trashed && Matches(f, path)
    decreases |trashed|
  {
    if trashed != [] {
      var init, last := trashed[..|trashed| - 1], trashed[|trashed| - 1];
      MatchingIn(init, path);
      assert trashed == init + [last];
    }
  }

  lemma {:induction false} ScheduleIn(trashed: seq<TrashedFile>, paths: seq<Path>)
    ensures forall f :: f in Schedule(trashed, paths) ==> f in trashed
    decreases |paths|
  {
    if paths != [] {
      ScheduleIn(trashed, paths[..|paths| - 1]);
      MatchingIn(trashed, paths[|paths| - 1]);
    }
  }

  /** Restored are exactly the listed files that some path names: their own, or one of
      a directory above. */
  lemma {:induction false} ScheduleExact(trashed: seq<TrashedFile>, paths: seq<Path>, f: TrashedFile)
    ensures f in Schedule(trashed, paths) <==>
      f in trashed && exists path :: path in paths && (f.originalPath == path || path + "/" <= f.originalPath)
    decreases |paths|
  {
    if paths != [] {
      var init, last := paths[..|paths| - 1], paths[|paths| - 1];
      assert paths == init + [last];
      ScheduleExact(trashed, init, f);
      MatchingIn(trashed, last);
      assert last in paths && forall path :: path in paths <==> path in init || path == last;
    }
  }

  /** Whatever paths are asked for, the schedule is a snapshot of the listing. */
  lemma ScheduleIsSnapshot(rows: Rows, trashed: seq<TrashedFile>, paths: seq<Path>)
    requires OriginalsValid(rows) && IsListing(trashed, rows)
    ensures Snapshot(rows, Schedule(trashed, paths))
  {
    ScheduleIn(trashed, paths);
    hide ValidPath, Schedule;
    forall f | f in Schedule(trashed, paths) ensures Tracked(rows, f) && ValidPath(f.originalPath) {
      assert f in trashed && rows[f.fileId].trashed;
    }
  }

  lemma {:induction false} OnlyMatch(trashed: seq<TrashedFile>, path: Path, f: TrashedFile)
    requires f in trashed && Matches(f, path)
    requires forall g :: g in trashed && Matches(g, path) ==> g == f
    requires forall i, j :: 0 <= i < j < |trashed| ==> trashed[i] != trashed[j]
    ensures Matching(trashed, path) == [f]
    decreases |trashed|
  {
    var init, last := trashed[..|trashed| - 1], trashed[|trashed| - 1];
    assert trashed == init + [last];
    if last == f {
      assert f !in init;
      NoMatch(init, path);
    } else {
      OnlyMatch(init, path, f);
    }
    hide Matches;
  }

  lemma {:induction false} NoMatch(trashed: seq<TrashedFile>, path: Path)
    requires forall g :: g in trashed ==> !Matches(g, path)
    ensures Matching(trashed, path) == []
    decreases |trashed|
  {
    if trashed != [] {
      NoMatch(trashed[..|trashed| - 1], path);
      assert trashed[|trashed| - 1] in trashed;
    }
  }

  // ----- unlink, then restore -----

  /** No other row remembers p, or a path below p, as its original place. */
  ghost predicate SoleOriginal(rows: Rows, p: Path, id: FileId) {
    forall j :: j in rows && j != id && rows[j].trashed && rows[j].originalPath.Some? ==>
      rows[j].originalPath.value != p && !(p + "/" <= rows[j].originalPath.value)
  }

  lemma SoleMatch(rows: Rows, trashed: seq<TrashedFile>, p: Path, id: FileId)
    requires id in rows && SoleOriginal(rows, p, id)
    requires IsListing(trashed, rows[id := Row(TRASH + p, true, Some(p))])
    ensures Schedule(trashed, [p]) == [TrashedFile(id, TRASH + p, p)]
  {
    var rows1 := rows[id := Row(TRASH + p, true, Some(p))];
    var f := TrashedFile(id, TRASH + p, p);
    assert f in trashed by { assert rows1[id].trashed; }
    forall g | g in trashed && Matches(g, p) ensures g == f {
      assert rows1[g.fileId] == Row(g.currentPath, true, Some(g.originalPath));
    }
    OnlyMatch(trashed, p, f);
    assert Schedule(trashed, []) == [];
    assert [p][..0] == [];
  }

  /** Restored by its own path alone, the file is back and nothing else has changed:
      every other path and row is as before, and only directories in the trash are
      new. */
  lemma UnlinkRestoreAlone(fs: Fs, p: Path, trashed: seq<TrashedFile>)
    requires FsOk(fs) && ValidPath(p) && p != "/" && UnlinkGuard(fs.tree, p)
    requires Unlink(fs, p).1 == Done
    requires IsListing(trashed, Unlink(fs, p).0.rows)
    requires p in View(fs.tree) && View(fs.tree)[p].FileEntry? ==> SoleOriginal(fs.rows, p, View(fs.tree)[p].fileId)
    ensures p in View(fs.tree) && View(fs.tree)[p].FileEntry?
    ensures Schedule(trashed, [p]) == [TrashedFile(View(fs.tree)[p].fileId, TRASH + p, p)]
    ensures var fs' := RestoreOne(Unlink(fs, p).0, TrashedFile(View(fs.tree)[p].fileId, TRASH + p, p)).0;
      && FsOk(fs') && Grown(View(fs.tree), View(fs'.tree))
      && fs'.rows == fs.rows[View(fs.tree)[p].fileId := Row(p, false, None)]
  {
    ViewKinds(fs.tree, p);
    var v := View(fs.tree);
    assert IsFileAt(fs.tree, p);
    UnlinkFileMoves(fs, p);
    UnlinkOk(fs, p);
    var id := v[p].fileId;
    SoleMatch(fs.rows, trashed, p, id);
    BackInPlace(fs, p);
  }

  /** After unlinking, p's parent is still there and p is free, so the restore
      goes through and creates nothing. */
  lemma BackInPlace(fs: Fs, p: Path)
    requires FsOk(fs) && ValidPath(p) && p != "/" && UnlinkGuard(fs.tree, p)
    requires Unlink(fs, p).1 == Done && IsFileAt(fs.tree, p)
    ensures p in View(fs.tree) && View(fs.tree)[p].FileEntry?
    ensures var fs' := RestoreOne(Unlink(fs, p).0, TrashedFile(View(fs.tree)[p].fileId, TRASH + p, p)).0;
      && FsOk(fs') && Grown(View(fs.tree), View(fs'.tree))
      && fs'.rows == fs.rows[View(fs.tree)[p].fileId := Row(p, false, None)]
  {
    ViewKinds(fs.tree, p);
    UnlinkFileMoves(fs, p);
    UnlinkOk(fs, p);
    var fs1 := Unlink(fs, p).0;
    ParentStays(fs, fs1.tree, p);
    hide LastSlash, Parent, ValidPath, Consistent, View, Unlink, PrepareTrash, UnlinkGuard, FsOk, RestoreOne, MkdirP,
      NoFileAbove, KeepsFiles, Grown;
    RestoreInto(fs1, TrashedFile(View(fs.tree)[p].fileId, TRASH + p, p),
                View(fs.tree), View(PrepareTrash(fs.tree, p)), fs.rows);
  }

  /** Restoring a file to the free place it was moved from. */
  lemma RestoreInto(fs1: Fs, f: TrashedFile, v: map<Path, Entry>, w: map<Path, Entry>, rows: Rows)
    requires FsOk(fs1) && ValidPath(f.originalPath) && f.originalPath != "/" && ValidPath(Parent(f.originalPath))
    requires MkdirP(fs1.tree, Parent(f.originalPath)).0 == fs1.tree && IsDirAt(fs1.tree, Parent(f.originalPath))
    requires NoFileAbove(fs1.tree, Parent(f.originalPath)) && f.originalPath !in View(fs1.tree)
    requires Grown(v, w) && f.originalPath in v && f.currentPath !in w
    requires View(fs1.tree) == (w - {f.originalPath})[f.currentPath := v[f.originalPath]]
    requires fs1.rows == rows[f.fileId := Row(f.currentPath, true, Some(f.originalPath))]
    ensures var fs' := RestoreOne(fs1, f).0;
      FsOk(fs') && Grown(v, View(fs'.tree)) && fs'.rows == rows[f.fileId := Row(f.originalPath, false, None)]
  {
    assert Tracked(fs1.rows, f);
    hide LastSlash, ValidPath, Consistent, View, OriginalsValid, Mirrored, NoFileAbove;
    assert RestoreGuard(fs1.tree, f);
    hide RestoreOne, KeepsFiles, MkdirP, Parent, Tracked, Grown, IsDirAt, RestoreGuard, FsOk;
    RestoreOneMoves(fs1, f);
    RestoreOneOk(fs1, f);
    var p, q, v1 := f.originalPath, f.currentPath, View(fs1.tree);
    ThereAndBack(v, w, v1, p, q);
    RowTwice(rows, f.fileId, fs1.rows[f.fileId], Row(p, false, None));
    assert RestoreOne(fs1, f).1;
    assert View(RestoreOne(fs1, f).0.tree) == (v1 - {q})[p := v1[q]];
  }

  lemma RowTwice(rows: Rows, id: FileId, a: Row, b: Row)
    ensures rows[id := a][id := b] == rows[id := b]
  {
  }

  lemma ParentStays(fs: Fs, t1: Tree, p: Path)
    requires Consistent(fs.tree) && ValidPath(p) && p != "/" && IsFileAt(fs.tree, p) && Consistent(t1)
    requires p in View(fs.tree) && TRASH + p !in View(PrepareTrash(fs.tree, p))
    requires var v, w := View(fs.tree), View(PrepareTrash(fs.tree, p));
      Grown(v, w) && View(t1) == (w - {p})[TRASH + p := v[p]]
    ensures ValidPath(Parent(p)) && NoFileAbove(t1, Parent(p))
    ensures MkdirP(t1, Parent(p)).0 == t1 && IsDirAt(t1, Parent(p))
    ensures p !in View(t1)
  {
    ChildOfParent(p);
    var q := Parent(p);
    assert PathOk(fs.tree, p);
    ViewKinds(fs.tree, q);
    ViewKinds(t1, q);
    assert q != p && TRASH + p != p;
    hide LastSlash, Parent, ValidPath, Consistent, View, PrepareTrash;
    assert View(t1)[q] == View(fs.tree)[q];
    IndexedNoFileAbove(t1, q);
    MkdirPExact(t1, q);
    hide IsDirAt;
  }

  lemma ThereAndBack(v: map<Path, Entry>, w: map<Path, Entry>, v1: map<Path, Entry>, p: Path, q: Path)
    requires Grown(v, w) && p in v && q !in w && v1 == (w - {p})[q := v[p]]
    ensures Grown(v, (v1 - {q})[p := v1[q]])
  {
  }

  /** What unlink leaves: the file in the trash, its way back clear. */
  lemma UnlinkLeavesClear(fs: Fs, p: Path)
    requires FsOk(fs) && ValidPath(p) && p != "/" && UnlinkGuard(fs.tree, p) && Unlink(fs, p).1 == Done
    ensures p in View(fs.tree) && View(fs.tree)[p].FileEntry?
    ensures var fs1, id := Unlink(fs, p).0, View(fs.tree)[p].fileId;
      && FsOk(fs1) && id in fs1.rows && fs1.rows[id] == Row(TRASH + p, true, Some(p))
      && p !in View(fs1.tree) && !IsFileAt(fs1.tree, Parent(p))
      && TRASH + p in View(fs1.tree) && View(fs1.tree)[TRASH + p] == View(fs.tree)[p]
      && KeepsFiles(View(fs.tree), fs.rows, View(fs1.tree), fs1.rows)
  {
    ViewKinds(fs.tree, p);
    assert IsFileAt(fs.tree, p);
    UnlinkFileMoves(fs, p);
    UnlinkOk(fs, p);
    ParentStays(fs, Unlink(fs, p).0.tree, p);
    hide LastSlash, Parent, ValidPath, Consistent, View, Unlink, PrepareTrash, UnlinkGuard, MkdirP, NoFileAbove,
      KeepsFiles, Grown, Mirrored;
  }

  /** Some path of the list names the file: it is scheduled. */
  lemma {:induction false} Scheduled(trashed: seq<TrashedFile>, paths: seq<Path>, f: TrashedFile, path: Path)
    requires f in trashed && path in paths && Matches(f, path)
    ensures f in Schedule(trashed, paths)
    decreases |paths|
  {
    var last := paths[|paths| - 1];
    MatchingIn(trashed, last);
    if last != path { Scheduled(trashed, paths[..|paths| - 1], f, path); }
  }

  /** No two listed files lie at one place. */
  lemma OnePlace(fs: Fs, trashed: seq<TrashedFile>, f: TrashedFile, g: TrashedFile)
    requires FsOk(fs) && IsListing(trashed, fs.rows) && f in trashed && g in trashed && f.currentPath == g.currentPath
    ensures f == g
  {
    assert RowMirrored(View(fs.tree), fs.rows, f.fileId) && RowMirrored(View(fs.tree), fs.rows, g.fileId);
    hide Consistent, View, OriginalsValid;
  }

  /** Main round trip: a file that is unlinked is brought back by any restore list,
      repeating or overlapping as it may, one of whose paths is the file's or a
      directory above it, as long as no other file it names goes back to the file's
      path, above it or below it. It is then at its path with the same inode, id,
      size and time and an untrashed row; tree and rows are mirrored and no file is
      lost or changed. */
  lemma UnlinkRestoreRoundTrip(fs: Fs, p: Path, trashed: seq<TrashedFile>, paths: seq<Path>, path: Path)
    requires FsOk(fs) && ValidPath(p) && p != "/" && UnlinkGuard(fs.tree, p) && Unlink(fs, p).1 == Done
    requires IsListing(trashed, Unlink(fs, p).0.rows)
    requires path in paths && (p == path || path + "/" <= p)
    requires forall g :: g in Schedule(trashed, paths) && g.currentPath != TRASH + p ==> Apart(p, g.originalPath)
    requires var todo := Schedule(trashed, paths);
      Restorable(todo) ==> RestoreGuardedTo(Unlink(fs, p).0, todo, |todo|)
    ensures p in View(fs.tree) && View(fs.tree)[p].FileEntry? && Restorable(Schedule(trashed, paths))
    ensures var fs', id := RestoreAll(Unlink(fs, p).0, Schedule(trashed, paths)), View(fs.tree)[p].fileId;
      && FsOk(fs') && p in View(fs'.tree) && View(fs'.tree)[p] == View(fs.tree)[p]
      && id in fs'.rows && fs'.rows[id] == Row(p, false, None)
      && KeepsFiles(View(fs.tree), fs.rows, View(fs'.tree), fs'.rows)
  {
    UnlinkLeavesClear(fs, p);
    var fs1, id, todo := Unlink(fs, p).0, View(fs.tree)[p].fileId, Schedule(trashed, paths);
    var f := TrashedFile(id, TRASH + p, p);
    assert f in trashed by { assert fs1.rows[id].trashed; }
    ScheduleIsSnapshot(fs1.rows, trashed, paths);
    Scheduled(trashed, paths, f, path);
    ScheduleIn(trashed, paths);
    forall g | g in todo && g != f ensures Apart(p, g.originalPath) {
      if g.currentPath == TRASH + p { OnePlace(fs1, trashed, f, g); }
    }
    hide LastSlash, Parent, ValidPath, Consistent, View, Unlink, UnlinkGuard, Mirrored, KeepsFiles, Schedule, Apart,
      RestoreTo, RestoreGuardedTo, Snapshot, IsListing, IsFileAt;
    assert Clear(fs1, todo, f);
    RestoreAllExact(fs1, todo);
    KeepsFilesTransitive(View(fs.tree), fs.rows, View(fs1.tree), fs1.rows,
                         View(RestoreAll(fs1, todo).tree), RestoreAll(fs1, todo).rows);
  }
}
