/**
 The tree together with its database rows: what unlink, rename and restore do
 to both, and when the two stay mirror images of each other.
 */
module FsModel {
  import opened Common
  import opened Paths
  import opened TreeModel
  import opened TreeAttach
  import opened TreeGrow
  import opened TreePrune
  import opened TreeRename
  import TreeRuns

  datatype Row = Row(path: Path, trashed: bool, originalPath: Option<Path>)
  type Rows = map<FileId, Row>

  datatype Fs = Fs(tree: Tree, rows: Rows)

  /** Entry is mkdir's answer: the new directory's inode. */
  datatype Reply = Done | Entry(inode: Inode) | ENOENT | EEXIST | EISDIR | ENOTDIR | ENOTEMPTY | EPERM | EIO

  /** A row of list_trashed. */
  datatype TrashedFile = TrashedFile(fileId: FileId, currentPath: Path, originalPath: Path)

  // ----- row updates -----

  function UpdateVirtualPath(rows: Rows, id: FileId, p: Path): Rows {
    if id in rows then rows[id := rows[id].(path := p)] else rows
  }

  function MarkTrashed(rows: Rows, id: FileId, original: Path): Rows {
    if id in rows then rows[id := rows[id].(trashed := true, originalPath := Some(original))] else rows
  }

  function UnmarkTrashed(rows: Rows, id: FileId): Rows {
    if id in rows then rows[id := rows[id].(trashed := false, originalPath := None)] else rows
  }

  /** Replace the leading `from` of every path that starts with it by `to`. */
  function ReplacePrefix(rows: Rows, from: string, to: string): Rows {
    map id | id in rows :: if from <= rows[id].path then rows[id].(path := to + rows[id].path[|from|..]) else rows[id]
  }

  // ----- the handlers -----

  predicate IsTrashPath(p: Path) {
    TRASH <= p
  }

  lemma TrashValid()
    ensures ValidPath(TRASH) && TRASH != "/" && Child("/", ".trash") == TRASH
  {
    ParentOfChild("/", ".trash");
    assert Child("/", ".trash") == TRASH;
  }

  /** dir + p for p right below a path whose trash counterpart is `dir`. */
  lemma ChildConcat(dir: Path, q: Path, n: Name)
    requires dir != "/"
    ensures (if q == "/" then dir else dir + q) != "/" ==>
            dir + Child(q, n) == Child(if q == "/" then dir else dir + q, n)
  {
    assert dir + ("/" + n) == dir + "/" + n;
    assert dir + (q + "/" + n) == (dir + q) + "/" + n;
  }

  lemma {:induction false} TrashPathValid(p: Path)
    requires ValidPath(p) && p != "/"
    ensures ValidPath(TRASH + p) && TRASH + p != "/" && ValidPath(Parent(TRASH + p))
    decreases |p|
  {
    TrashValid();
    ChildOfParent(p);
    var q, n := Parent(p), BaseName(p);
    var base := if q == "/" then TRASH else TRASH + q;
    if q != "/" { TrashPathValid(q); }
    ChildConcat(TRASH, q, n);
    hide LastSlash, Parent, BaseName, ValidPath, ValidName, Child;
    assert base != "/";
    ParentOfChild(base, n);
  }

  function RenameReply(r: Result<(), RenameError>): Reply {
    match r
    case Ok(_) => Done
    case Err(SourceNotFound) => ENOENT
    case Err(TargetExists) => EEXIST
    case Err(ParentNotFound) => ENOENT
    case Err(IsDirectory) => EISDIR
    case Err(NotDirectory) => ENOTDIR
  }

  /** unlink's own mapping of a failed move. */
  function UnlinkReply(e: RenameError): Reply {
    match e
    case SourceNotFound => ENOENT
    case TargetExists => EEXIST
    case _ => EIO
  }

  /** The tree once the trash directory and the parents inside it are made. */
  ghost function PrepareTrash(t: Tree, p: Path): Tree
    requires ValidPath(p) && p != "/"
  {
    TrashPathValid(p);
    MkdirP(EnsureTrashDir(t).0, Parent(TRASH + p)).0
  }

  ghost function Unlink(fs: Fs, p: Path): (Fs, Reply)
    requires ValidPath(p) && p != "/"
  {
    if IsDirAt(fs.tree, p) then (fs, EISDIR)
    else if !IsFileAt(fs.tree, p) then (fs, ENOENT)
    else
      var id := fs.tree.nodes[fs.tree.index[p]].fileId;
      var (t', r) := RenameFile(PrepareTrash(fs.tree, p), p, TRASH + p);
      match r
      case Err(e) => (Fs(t', fs.rows), UnlinkReply(e))
      case Ok(_) => (Fs(t', MarkTrashed(UpdateVirtualPath(fs.rows, id, TRASH + p), id, p)), Done)
  }

  /** rename on anything but a directory. */
  ghost function RenameOne(fs: Fs, src: Path, dst: Path): (Fs, Reply) {
    var (t', r) := RenameFile(fs.tree, src, dst);
    if r.Ok? && IsFileAt(fs.tree, src) then
      var id := fs.tree.nodes[fs.tree.index[src]].fileId;
      var rows := UpdateVirtualPath(fs.rows, id, dst);
      (Fs(t', if IsTrashPath(src) && !IsTrashPath(dst) then UnmarkTrashed(rows, id) else rows), Done)
    else (Fs(t', fs.rows), RenameReply(r))
  }

  function WithSlash(p: Path): string {
    if p != "" && p[|p| - 1] == '/' then p else p + "/"
  }

  /** rename on a directory: the row prefix carries a slash, the tree's does not. */
  ghost predicate RenamedDirectory(fs: Fs, fs': Fs, reply: Reply, src: Path, dst: Path) {
    match RenameDirectoryCheck(fs.tree, src, dst)
    case Err(e) => fs' == fs && reply == RenameReply(Err(e))
    case Ok(_) =>
      && DirectoryRenamed(fs.tree, fs'.tree, src, dst)
      && fs'.rows == ReplacePrefix(fs.rows, WithSlash(src), WithSlash(dst))
      && reply == Done
  }

  /** rename as a whole. */
  ghost predicate Renamed(fs: Fs, fs': Fs, reply: Reply, src: Path, dst: Path) {
    if src == dst then fs' == fs && reply == Done
    else if IsDirAt(fs.tree, src) then RenamedDirectory(fs, fs', reply, src, dst)
    else (fs', reply) == RenameOne(fs, src, dst)
  }

  /** One trashed file of process_pending_restores; true if it was restored. */
  ghost function RestoreOne(fs: Fs, f: TrashedFile): (Fs, bool)
    requires ValidPath(f.originalPath) && f.originalPath != "/"
  {
    ChildOfParent(f.originalPath);
    var t1 := MkdirP(fs.tree, Parent(f.originalPath)).0;
    var (t2, r) := RenameFile(t1, f.currentPath, f.originalPath);
    if r.Err? then (Fs(t2, fs.rows), false)
    else (Fs(t2, UnmarkTrashed(UpdateVirtualPath(fs.rows, f.fileId, f.originalPath), f.fileId)), true)
  }

  // ----- the mirror -----

  ghost predicate RowMirrored(v: map<Path, Entry>, rows: Rows, id: FileId)
    requires id in rows
  {
    rows[id].path in v && v[rows[id].path].FileEntry? && v[rows[id].path].fileId == id
  }

  ghost predicate FileMirrored(v: map<Path, Entry>, rows: Rows, p: Path)
    requires p in v && v[p].FileEntry?
  {
    v[p].fileId in rows && rows[v[p].fileId].path == p
  }

  /** Rows and file nodes correspond one to one, by path and by id. */
  ghost predicate Mirrored(v: map<Path, Entry>, rows: Rows) {
    && (forall id {:trigger RowMirrored(v, rows, id)} :: id in rows ==> RowMirrored(v, rows, id))
    && (forall p {:trigger FileMirrored(v, rows, p)} :: p in v && v[p].FileEntry? ==> FileMirrored(v, rows, p))
  }

  /** A trashed row remembers a proper path to go back to. */
  ghost predicate OriginalsValid(rows: Rows) {
    forall id {:trigger rows[id]} :: id in rows && rows[id].trashed ==>
      rows[id].originalPath.Some? && ValidPath(rows[id].originalPath.value) && rows[id].originalPath.value != "/"
  }

  ghost predicate FsOk(fs: Fs) {
    Consistent(fs.tree) && Mirrored(View(fs.tree), fs.rows) && OriginalsValid(fs.rows)
  }

  /** w is v with some directories more. */
  ghost predicate Grown(v: map<Path, Entry>, w: map<Path, Entry>) {
    (forall q :: q in v ==> q in w && w[q] == v[q]) && (forall q :: q in w && q !in v ==> w[q].DirEntry?)
  }

  /** More directories do not disturb the mirror. */
  lemma DirsKeepMirror(v: map<Path, Entry>, w: map<Path, Entry>, rows: Rows)
    requires Mirrored(v, rows) && Grown(v, w)
    ensures Mirrored(w, rows)
  {
    forall id | id in rows ensures RowMirrored(w, rows, id) { assert RowMirrored(v, rows, id); }
    forall p | p in w && w[p].FileEntry? ensures FileMirrored(w, rows, p) {
      assert p in v;
      assert FileMirrored(v, rows, p);
    }
  }

  /** Moving one file together with its row. */
  lemma MoveKeepsMirror(v: map<Path, Entry>, rows: Rows, src: Path, dst: Path, row: Row)
    requires Mirrored(v, rows) && src in v && v[src].FileEntry? && dst !in v && row.path == dst
    ensures v[src].fileId in rows
    ensures Mirrored((v - {src})[dst := v[src]], rows[v[src].fileId := row])
  {
    var v', id := (v - {src})[dst := v[src]], v[src].fileId;
    assert FileMirrored(v, rows, src);
    var rows' := rows[id := row];
    forall j | j in rows' ensures RowMirrored(v', rows', j) {
      if j != id { assert RowMirrored(v, rows, j); }
    }
    forall p | p in v' && v'[p].FileEntry? ensures FileMirrored(v', rows', p) {
      if p != dst { assert FileMirrored(v, rows, p); }
    }
  }

  /** Moving a subtree together with the rows whose paths lie below it. */
  lemma SubtreeKeepsMirror(v: map<Path, Entry>, v': map<Path, Entry>, rows: Rows, src: Path, dst: Path)
    requires Mirrored(v, rows) && SubtreeMoved(v, v', src, dst)
    requires src in v && v[src].DirEntry?
    requires WithSlash(src) == src + "/" && WithSlash(dst) == dst + "/"
    ensures Mirrored(v', ReplacePrefix(rows, WithSlash(src), WithSlash(dst)))
  {
    var rows' := ReplacePrefix(rows, WithSlash(src), WithSlash(dst));
    forall id | id in rows ensures rows'[id].path == Relocate(rows[id].path, src, dst) {
      assert RowMirrored(v, rows, id);
      PrefixIsRelocation(rows[id].path, src, dst);
    }
    hide ReplacePrefix, Relocate, WithSlash;
    forall id | id in rows' ensures RowMirrored(v', rows', id) {
      assert RowMirrored(v, rows, id);
    }
    forall k | k in v' && v'[k].FileEntry? ensures FileMirrored(v', rows', k) {
      var q :| q in v && k == Relocate(q, src, dst);
      assert v'[Relocate(q, src, dst)] == v[q];
      assert FileMirrored(v, rows, q);
    }
  }

  /** On paths other than src itself the slashed prefix replacement and the
      subtree move agree. */
  lemma PrefixIsRelocation(p: Path, src: Path, dst: Path)
    requires p != src
    ensures (if src + "/" <= p then dst + "/" + p[|src + "/"|..] else p) == Relocate(p, src, dst)
  {
    if src + "/" <= p {
      SubtreePrefix(p, src);
      assert p[|src|..] == "/" + p[|src| + 1..];
      assert dst + "/" + p[|src| + 1..] == dst + ("/" + p[|src| + 1..]);
    }
  }

  /** Every file row is still there, and its file is the same one: same inode,
      id, size and time, wherever it now lives. */
  ghost predicate KeepsFiles(v: map<Path, Entry>, rows: Rows, v': map<Path, Entry>, rows': Rows)
  {
    && rows'.Keys == rows.Keys
    && forall id :: id in rows ==>
         rows[id].path in v && rows'[id].path in v' && v'[rows'[id].path] == v[rows[id].path]
  }

  // ----- unlink -----

  lemma {:induction false} SameFilesAbove(t: Tree, t': Tree, p: Path)
    requires ValidPath(p) && forall q :: IsFileAt(t, q) <==> IsFileAt(t', q)
    ensures NoFileAbove(t, p) <==> NoFileAbove(t', p)
    decreases |p|
  {
    if p != "/" {
      ChildOfParent(p);
      SameFilesAbove(t, t', Parent(p));
    }
  }

  /** No file stands where unlink needs a directory inside the trash. */
  ghost predicate UnlinkGuard(t: Tree, p: Path)
    requires ValidPath(p) && p != "/"
  {
    TrashPathValid(p);
    IsFileAt(t, p) ==> NoFileAbove(t, Parent(TRASH + p))
  }

  /** A tree that shows some directories more has the same files, and every path
      it had. */
  lemma GrownTree(t: Tree, t': Tree)
    requires Consistent(t) && Consistent(t') && Grown(View(t), View(t'))
    ensures t.index.Keys <= t'.index.Keys
    ensures forall q :: IsFileAt(t, q) <==> IsFileAt(t', q)
    ensures forall q :: IsDirAt(t, q) ==> IsDirAt(t', q)
  {
    hide View, Consistent, IsFileAt, IsDirAt;
    forall q
      ensures q in t.index ==> q in t'.index
      ensures IsFileAt(t, q) <==> IsFileAt(t', q)
      ensures IsDirAt(t, q) ==> IsDirAt(t', q)
    {
      ViewKinds(t, q);
      ViewKinds(t', q);
    }
  }

  lemma TrashDirMade(t: Tree)
    requires Consistent(t)
    ensures Consistent(EnsureTrashDir(t).0) && Grown(View(t), View(EnsureTrashDir(t).0))
  {
    EnsureTrashDirExact(t);
    hide EnsureTrashDir, View, Consistent, Grown;
    GrownByOne(View(t), TRASH, t.next);
  }

  lemma GrownByOne(v: map<Path, Entry>, p: Path, i: Inode)
    ensures Grown(v, if p in v then v else v[p := DirEntry(i)])
  {
  }

  lemma {:induction false} MkdirPGrows(t: Tree, p: Path)
    requires Consistent(t) && ValidPath(p) && NoFileAbove(t, p)
    ensures Consistent(MkdirP(t, p).0) && Grown(View(t), View(MkdirP(t, p).0))
    ensures IsDirAt(MkdirP(t, p).0, p) <==> !IsFileAt(t, p)
  {
    MkdirPExact(t, p);
    hide MkdirP, View, Consistent, NoFileAbove, Ancestry;
  }

  /** Renaming a known path cannot repair a new path below a file. */
  lemma RenameKeepsBelowFile(t: Tree, known: set<Path>, src: Path, dst: Path)
    requires BelowFile(t, known) && src in known
    ensures !Consistent(RenameFile(t, src, dst).0)
  {
    hide LastSlash, Parent, BaseName, ValidPath;
    var t' := RenameFile(t, src, dst).0;
    if RenameFile(t, src, dst).1.Err? {
      BelowFileBreaks(t, known);
    } else {
      TreeRuns.RenamesEvolve(t, src, dst, t');
      RelinkKeys(t.nodes, t.index - {src}, t.index[src], src, dst, t.index[Parent(dst)]);
      hide Relink;
      var r :| r in t.index && r !in known && r != "/" && IsFileAt(t, Parent(r));
      assert r in t'.index;
      FilesStayFiles(t, t', src, dst, Parent(r));
      assert !PathOk(t', r);
    }
  }

  lemma FilesStayFiles(t: Tree, t': Tree, src: Path, dst: Path, q: Path)
    requires RenameFile(t, src, dst) == (t', Ok(())) && IsFileAt(t, q)
    requires t'.nodes.Keys == t.nodes.Keys
    ensures !IsDirAt(t', q)
  {
    hide LastSlash, Parent, BaseName, AddChild, SetName, DropChildAt;
    RelinkKeepsFile(t.nodes, t.index - {src}, t.index[src], src, dst, t.index[Parent(dst)], t.index[q]);
    RelinkKeepsFile(t.nodes, t.index - {src}, t.index[src], src, dst, t.index[Parent(dst)], t.index[src]);
  }

  lemma RelinkKeepsFile(nodes: map<Inode, Node>, index: map<Path, Inode>, i: Inode, src: Path, dst: Path,
                        parent: Inode, j: Inode)
    requires j in nodes && nodes[j].File?
    ensures var r := Relink(nodes, index, i, src, dst, parent); j in r && r[j].File?
  {
    hide LastSlash, Parent, BaseName;
  }

  lemma GrownTransitive(u: map<Path, Entry>, v: map<Path, Entry>, w: map<Path, Entry>)
    requires Grown(u, v) && Grown(v, w)
    ensures Grown(u, w)
  {
  }

  /** Making room in the trash only adds directories, under the guard; without
      it the tree is left with a path below a file. */
  lemma PrepareTrashExact(t: Tree, p: Path)
    requires Consistent(t) && ValidPath(p) && IsFileAt(t, p) && p != "/"
    ensures var t' := PrepareTrash(t, p);
      if UnlinkGuard(t, p) then Consistent(t') && Grown(View(t), View(t'))
      else BelowFile(t', t.index.Keys)
  {
    TrashPathValid(p);
    var q := Parent(TRASH + p);
    var t1 := EnsureTrashDir(t).0;
    TrashDirMade(t);
    GrownTree(t, t1);
    SameFilesAbove(t, t1, q);
    hide LastSlash, Parent, ValidPath, Consistent, View, EnsureTrashDir;
    if NoFileAbove(t1, q) {
      MkdirPGrows(t1, q);
      GrownTransitive(View(t), View(t1), View(PrepareTrash(t, p)));
    } else {
      if q in t1.index { IndexedNoFileAbove(t1, q); }
      MakeDirsBreaks(t1, q);
      FewerKnown(MkdirP(t1, q).0, t1.index.Keys, t.index.Keys);
    }
  }

  lemma IndexedNoFileAbove(t: Tree, q: Path)
    requires Consistent(t) && q in t.index && ValidPath(q)
    ensures NoFileAbove(t, q)
  {
    NoFileAboveIndexed(t, q);
  }

  lemma FewerKnown(t: Tree, known: set<Path>, fewer: set<Path>)
    requires BelowFile(t, known) && fewer <= known
    ensures BelowFile(t, fewer)
  {
    hide Parent;
    var r :| r in t.index && r !in known && r != "/" && IsFileAt(t, Parent(r));
    assert r !in fewer;
  }

  /** unlink keeps tree and index in agreement exactly under its guard. */
  lemma {:induction false} UnlinkExact(fs: Fs, p: Path)
    requires Consistent(fs.tree) && ValidPath(p) && p != "/"
    ensures Consistent(Unlink(fs, p).0.tree) <==> UnlinkGuard(fs.tree, p)
  {
    if IsFileAt(fs.tree, p) {
      TrashPathValid(p);
      PrepareTrashExact(fs.tree, p);
      var t1 := PrepareTrash(fs.tree, p);
      hide LastSlash, Parent, ValidPath, PrepareTrash, UnlinkGuard;
      if UnlinkGuard(fs.tree, p) {
        RenameFileExact(t1, p, TRASH + p);
      } else {
        RenameKeepsBelowFile(t1, fs.tree.index.Keys, p, TRASH + p);
      }
    }
  }

  /** A file's part of unlink: make room in the trash, move file and row there
      if the place is free, and remember the old path. */
  lemma {:induction false} UnlinkFileMoves(fs: Fs, p: Path)
    requires FsOk(fs) && ValidPath(p) && p != "/" && UnlinkGuard(fs.tree, p) && IsFileAt(fs.tree, p)
    ensures var (fs', reply) := Unlink(fs, p);
      var t1 := PrepareTrash(fs.tree, p);
      var v, w := View(fs.tree), View(t1);
      && Grown(v, w) && p in v && v[p].FileEntry? && p in w && v[p].fileId in fs.rows
      && (reply == Done <==> TRASH + p !in w && IsDirAt(t1, Parent(TRASH + p)))
      && (reply == Done ==>
            && View(fs'.tree) == (w - {p})[TRASH + p := v[p]]
            && fs'.rows == fs.rows[v[p].fileId := Row(TRASH + p, true, Some(p))])
      && (reply != Done ==> fs'.rows == fs.rows && fs'.tree == t1)
      && reply != EISDIR
  {
    var t := fs.tree;
    ViewKinds(t, p);
    TrashPathValid(p);
    PrepareTrashExact(t, p);
    var t1 := PrepareTrash(t, p);
    GrownTree(t, t1);
    ViewKinds(t1, TRASH + p);
    assert FileMirrored(View(t), fs.rows, p);
    hide LastSlash, Parent, ValidPath, PrepareTrash, UnlinkGuard, View, Consistent, OriginalsValid, Mirrored;
    RenameFileExact(t1, p, TRASH + p);
    RowAfterUnlink(fs.rows, View(t)[p].fileId, p);
    assert View(t1)[p] == View(t)[p];
    hide RenameFile, UpdateVirtualPath, MarkTrashed;
  }

  lemma RowAfterUnlink(rows: Rows, id: FileId, p: Path)
    requires id in rows
    ensures MarkTrashed(UpdateVirtualPath(rows, id, TRASH + p), id, p) == rows[id := Row(TRASH + p, true, Some(p))]
  {
  }

  /** Growing by directories and then moving one file with its row: rows and
      files still correspond, and every file is the one it was. */
  lemma MovedOk(v: map<Path, Entry>, w: map<Path, Entry>, rows: Rows, src: Path, dst: Path, row: Row)
    requires Mirrored(v, rows) && Grown(v, w) && src in v && v[src].FileEntry? && dst !in w && row.path == dst
    ensures v[src].fileId in rows
    ensures var (v', rows') := ((w - {src})[dst := v[src]], rows[v[src].fileId := row]);
      Mirrored(v', rows') && KeepsFiles(v, rows, v', rows')
  {
    DirsKeepMirror(v, w, rows);
    MoveKeepsMirror(w, rows, src, dst, row);
    var v', rows' := (w - {src})[dst := v[src]], rows[v[src].fileId := row];
    assert FileMirrored(v, rows, src);
    forall id | id in rows
      ensures rows[id].path in v && rows'[id].path in v' && v'[rows'[id].path] == v[rows[id].path]
    {
      assert RowMirrored(v, rows, id);
    }
    assert rows'.Keys == rows.Keys;
  }

  lemma GrownOk(v: map<Path, Entry>, w: map<Path, Entry>, rows: Rows)
    requires Mirrored(v, rows) && Grown(v, w)
    ensures Mirrored(w, rows) && KeepsFiles(v, rows, w, rows)
  {
    DirsKeepMirror(v, w, rows);
    forall id | id in rows ensures rows[id].path in v { assert RowMirrored(v, rows, id); }
  }

  lemma OriginalsAfter(rows: Rows, id: FileId, row: Row)
    requires OriginalsValid(rows)
    requires row.trashed ==>
      row.originalPath.Some? && ValidPath(row.originalPath.value) && row.originalPath.value != "/"
    ensures OriginalsValid(rows[id := row])
  {
    hide ValidPath;
  }

  /** A guarded unlink keeps tree and rows mirrored, whatever its reply. */
  lemma UnlinkOk(fs: Fs, p: Path)
    requires FsOk(fs) && ValidPath(p) && p != "/" && UnlinkGuard(fs.tree, p)
    ensures var fs' := Unlink(fs, p).0;
      FsOk(fs') && KeepsFiles(View(fs.tree), fs.rows, View(fs'.tree), fs'.rows)
  {
    var (fs', reply) := Unlink(fs, p);
    var v := View(fs.tree);
    UnlinkExact(fs, p);
    if IsFileAt(fs.tree, p) {
      UnlinkFileMoves(fs, p);
      hide LastSlash, Parent, ValidPath, PrepareTrash, UnlinkGuard, View, Consistent, Unlink, Mirrored, KeepsFiles,
        Grown;
      if reply == Done {
        OriginalsAfter(fs.rows, v[p].fileId, Row(TRASH + p, true, Some(p)));
        MovedOk(v, View(PrepareTrash(fs.tree, p)), fs.rows, p, TRASH + p, Row(TRASH + p, true, Some(p)));
      } else {
        GrownOk(v, View(PrepareTrash(fs.tree, p)), fs.rows);
      }
    } else {
      GrownOk(v, v, fs.rows);
    }
  }

  // ----- rename -----

  /** The row of a renamed file: untrashed if that takes it out of the trash, and else
      as it was but for its path. */
  function RenamedRow(row: Row, src: Path, dst: Path): Row {
    if "/.trash" <= src && !("/.trash" <= dst) then Row(dst, false, None)
    else Row(dst, row.trashed, row.originalPath)
  }

  /** Renaming a file, or failing to, keeps everything in order without a guard, and
      changes no row but the file's. */
  lemma {:induction false} RenameOneOk(fs: Fs, src: Path, dst: Path)
    requires FsOk(fs) && ValidPath(dst) && !IsDirAt(fs.tree, src)
    ensures var (fs', reply) := RenameOne(fs, src, dst);
      var v := View(fs.tree);
      && FsOk(fs') && KeepsFiles(v, fs.rows, View(fs'.tree), fs'.rows)
      && (reply == Done <==> IsFileAt(fs.tree, src) && dst !in v && IsDirAt(fs.tree, Parent(dst)))
      && (reply != Done ==> fs' == fs)
      && (reply == Done ==> src in v && View(fs'.tree) == (v - {src})[dst := v[src]])
      && (reply == Done ==>
            && v[src].FileEntry? && v[src].fileId in fs.rows
            && fs'.rows == fs.rows[v[src].fileId := RenamedRow(fs.rows[v[src].fileId], src, dst)])
  {
    var v := View(fs.tree);
    ViewKinds(fs.tree, src);
    ViewKinds(fs.tree, dst);
    RenameFileExact(fs.tree, src, dst);
    hide LastSlash, Parent, ValidPath, View, Consistent, Mirrored, KeepsFiles, Grown;
    GrownSelf(v);
    if RenameFile(fs.tree, src, dst).1.Ok? {
      var id := v[src].fileId;
      var row := RenameOne(fs, src, dst).0.rows;
      RowAfterRename(v, fs.rows, src, dst);
      OriginalsAfter(fs.rows, id, row[id]);
      MovedOk(v, v, fs.rows, src, dst, row[id]);
      assert row == fs.rows[id := row[id]];
    } else {
      GrownOk(v, v, fs.rows);
    }
    hide RenameFile, OriginalsValid;
  }

  lemma GrownSelf(v: map<Path, Entry>)
    ensures Grown(v, v)
  {
  }

  lemma RowAfterRename(v: map<Path, Entry>, rows: Rows, src: Path, dst: Path)
    requires Mirrored(v, rows) && OriginalsValid(rows) && src in v && v[src].FileEntry?
    ensures var id := v[src].fileId;
      var rows' := UpdateVirtualPath(rows, id, dst);
      && id in rows && rows'[id].path == dst && UnmarkTrashed(rows', id)[id] == Row(dst, false, None)
      && rows' == rows[id := rows'[id]] && UnmarkTrashed(rows', id) == rows[id := Row(dst, false, None)]
      && (rows'[id].trashed ==> rows'[id].originalPath.Some? && ValidPath(rows'[id].originalPath.value)
                                && rows'[id].originalPath.value != "/")
  {
    hide ValidPath;
    assert FileMirrored(v, rows, src);
  }

  /** rename on a directory keeps agreement exactly when the move is good, and
      then rows and files move together. */
  lemma RenamedDirectoryExact(fs: Fs, fs': Fs, reply: Reply, src: Path, dst: Path)
    requires FsOk(fs) && ValidPath(dst) && RenamedDirectory(fs, fs', reply, src, dst)
    ensures reply == Done <==> RenameDirectoryCheck(fs.tree, src, dst).Ok?
    ensures reply != Done ==> fs' == fs
    ensures reply == Done ==> (Consistent(fs'.tree) <==> GoodMove(fs.tree, src, dst))
    ensures reply == Done && GoodMove(fs.tree, src, dst) ==>
      && FsOk(fs') && KeepsFiles(View(fs.tree), fs.rows, View(fs'.tree), fs'.rows)
      && SubtreeMoved(View(fs.tree), View(fs'.tree), src, dst)
  {
    if RenameDirectoryCheck(fs.tree, src, dst).Ok? {
      RenameDirectoryExact(fs.tree, fs'.tree, src, dst);
      if GoodMove(fs.tree, src, dst) {
        ViewKinds(fs.tree, src);
        assert PathOk(fs.tree, src) && PathOk(fs.tree, "/");
        SlashAdded(src);
        SlashAdded(dst);
        hide LastSlash, Parent, ValidPath, View, Consistent, Mirrored, KeepsFiles, SubtreeMoved, DirectoryRenamed,
          GoodMove, ReplacePrefix, WithSlash, OriginalsValid;
        SubtreeOk(View(fs.tree), View(fs'.tree), fs.rows, src, dst);
      }
    }
  }

  lemma SlashAdded(p: Path)
    requires ValidPath(p) && p != "/"
    ensures WithSlash(p) == p + "/"
  {
    assert LastSlash(p) < |p| - 1;
  }

  lemma SubtreeOk(v: map<Path, Entry>, v': map<Path, Entry>, rows: Rows, src: Path, dst: Path)
    requires Mirrored(v, rows) && OriginalsValid(rows) && SubtreeMoved(v, v', src, dst)
    requires src in v && v[src].DirEntry?
    requires WithSlash(src) == src + "/" && WithSlash(dst) == dst + "/"
    ensures var rows' := ReplacePrefix(rows, WithSlash(src), WithSlash(dst));
      Mirrored(v', rows') && OriginalsValid(rows') && KeepsFiles(v, rows, v', rows')
  {
    SubtreeKeepsMirror(v, v', rows, src, dst);
    var rows' := ReplacePrefix(rows, WithSlash(src), WithSlash(dst));
    hide ValidPath, WithSlash, Relocate;
    forall id | id in rows
      ensures rows[id].path in v && rows'[id].path in v' && v'[rows'[id].path] == v[rows[id].path]
      ensures rows'[id].trashed == rows[id].trashed && rows'[id].originalPath == rows[id].originalPath
    {
      assert RowMirrored(v, rows, id);
      PrefixIsRelocation(rows[id].path, src, dst);
      assert rows'[id].path == Relocate(rows[id].path, src, dst);
    }
  }
}
