/**
 The guards are needed: for each, a small tree and a call without it after which
 index and child maps no longer agree.
 */
module GuardWitnesses {
  import opened Common
  import opened Paths
  import opened TreeModel
  import opened TreeGrow
  import opened TreePrune
  import opened TreeRename
  import opened FsModel
  import opened FsRestore

  function Song(id: int, p: Path): FileMeta { FileMeta(FileId(id), p, 0, 0) }

  /** A tree with one file, "/a". */
  ghost function OneSong(): Tree
  {
    InsertFile(EMPTY_TREE, Song(1, "/a")).0
  }

  lemma UnderRoot(p: Path, n: Name)
    requires ValidName(n) && p == "/" + n
    ensures ValidPath(p) && p != "/" && Parent(p) == "/"
  {
    assert Child("/", n) == p;
    ParentOfChild("/", n);
  }

  lemma Below(p: Path, dir: Path, n: Name)
    requires ValidPath(dir) && dir != "/" && ValidName(n) && p == dir + "/" + n
    ensures ValidPath(p) && p != "/" && Parent(p) == dir
  {
    assert Child(dir, n) == p;
    ParentOfChild(dir, n);
  }

  lemma SongPaths()
    ensures ValidPath("/a") && Parent("/a") == "/" && ValidPath("/a/b") && Parent("/a/b") == "/a" && ValidPath("/")
  {
    UnderRoot("/a", "a");
    Below("/a/b", "/a", "b");
  }

  /** Inserting at a free place right under the root. */
  lemma InsertUnderRoot(t: Tree, meta: FileMeta)
    requires var p := meta.virtualPath;
      Consistent(t) && ValidPath(p) && p != "/" && Parent(p) == "/" && p !in t.index
    ensures Consistent(InsertFile(t, meta).0) && IsFileAt(InsertFile(t, meta).0, meta.virtualPath)
  {
    var p := meta.virtualPath;
    assert PathOk(t, "/");
    assert NoFileAbove(t, "/") && NoFileAbove(t, p);
    InsertFileExact(t, meta);
    ViewKinds(InsertFile(t, meta).0, p);
  }

  lemma OneSongState()
    ensures Consistent(OneSong()) && IsFileAt(OneSong(), "/a")
  {
    SongPaths();
    EmptyTreeConsistent();
    hide LastSlash, Parent, BaseName, ValidPath, Consistent, IsFileAt;
    assert EMPTY_TREE.index.Keys == {"/"};
    InsertUnderRoot(EMPTY_TREE, Song(1, "/a"));
  }

  /** insert_file over a file or below one, and mkdir_p through one. */
  lemma GrowGuardsAreReal()
    ensures ValidPath("/a") && ValidPath("/a/b")
    ensures !Consistent(InsertFile(OneSong(), Song(2, "/a")).0)
    ensures !Consistent(InsertFile(OneSong(), Song(2, "/a/b")).0)
    ensures !Consistent(MkdirP(OneSong(), "/a/b").0)
  {
    SongPaths();
    OneSongState();
    var t := OneSong();
    assert !NoFileAbove(t, "/a/b");
    hide LastSlash, Parent, BaseName, ValidPath, Consistent, InsertFile, MkdirP, OneSong, NoFileAbove;
    InsertFileExact(t, Song(2, "/a"));
    InsertFileExact(t, Song(2, "/a/b"));
    MkdirPExact(t, "/a/b");
  }

  /** remove_file aimed at a directory, and the root removed either way. */
  lemma RemoveGuardsAreReal()
    ensures !Consistent(RemoveFile(EMPTY_TREE, "/").0)
    ensures RemoveDirectory(EMPTY_TREE, "/").1.Ok? && !Consistent(RemoveDirectory(EMPTY_TREE, "/").0)
    ensures !Consistent(RemoveRecursive(EMPTY_TREE, "/").0)
  {
    EmptyTreeConsistent();
    assert IsDirAt(EMPTY_TREE, "/");
    assert RemoveDirectory(EMPTY_TREE, "/").1.Ok?;
    RemoveFileExact(EMPTY_TREE, "/");
    RemoveDirectoryExact(EMPTY_TREE, "/");
    RemoveRecursiveExact(EMPTY_TREE, "/");
    hide Consistent, RemoveFile, RemoveDirectory, RemoveRecursive;
  }

  /** rename_directory below itself, and of the root: both pass the checks. */
  lemma MoveGuardsAreReal(t': Tree)
    ensures var t := Mkdir(EMPTY_TREE, "/a").0;
      RenameDirectoryCheck(t, "/a", "/a/b").Ok? && (DirectoryRenamed(t, t', "/a", "/a/b") ==> !Consistent(t'))
    ensures var t := EMPTY_TREE;
      RenameDirectoryCheck(t, "/", "/a").Ok? && (DirectoryRenamed(t, t', "/", "/a") ==> !Consistent(t'))
  {
    SongPaths();
    EmptyTreeConsistent();
    var e, t := EMPTY_TREE, Mkdir(EMPTY_TREE, "/a").0;
    assert IsDirAt(e, "/") && e.index.Keys == {"/"};
    assert t.index.Keys == {"/", "/a"} && IsDirAt(t, "/a");
    MkdirConsistent(e, "/a");
    hide LastSlash, Parent, BaseName, ValidPath, Consistent, Mkdir, DirectoryRenamed, NoClash, IsDirAt;
    if DirectoryRenamed(t, t', "/a", "/a/b") { RenameDirectoryExact(t, t', "/a", "/a/b"); }
    if DirectoryRenamed(e, t', "/", "/a") { RenameDirectoryExact(e, t', "/", "/a"); }
  }

  /** The trash directory's name taken by a file, and a file two levels down. */
  ghost function TrashIsFile(): Tree
    requires ValidPath("/.trash") && ValidPath("/a/b")
  {
    InsertFile(InsertFile(EMPTY_TREE, Song(1, "/.trash")).0, Song(2, "/a/b")).0
  }

  lemma FirstInsert(p: Path)
    requires ValidPath(p) && p != "/" && Parent(p) == "/"
    ensures var t := InsertFile(EMPTY_TREE, Song(1, p)).0;
      && Consistent(t) && IsFileAt(t, p) && t.index.Keys == {"/", p} && IsDirAt(t, "/")
      && View(t).Keys == {"/", p} && View(t)["/"].DirEntry? && View(t)[p].FileEntry? && View(t)[p].fileId == FileId(1)
  {
    EmptyTreeConsistent();
    var e, t := EMPTY_TREE, InsertFile(EMPTY_TREE, Song(1, p)).0;
    assert NoFileAbove(e, "/") && NoFileAbove(e, p);
    assert Ancestry("/") == {"/"} && View(e).Keys == {"/"};
    hide LastSlash, Parent, BaseName, ValidPath, Consistent;
    InsertFileExact(e, Song(1, p));
    assert View(t).Keys == {"/", p};
    ViewKinds(t, p);
    ViewKinds(t, "/");
    forall q ensures q in t.index <==> q in View(t) { ViewKinds(t, q); }
  }

  /** Files stay where they are when another is inserted. */
  lemma InsertKeeps(t: Tree, meta: FileMeta, q: Path)
    requires var p := meta.virtualPath;
      Consistent(t) && ValidPath(p) && p != "/" && p !in t.index && NoFileAbove(t, p) && IsFileAt(t, q)
    ensures var t' := InsertFile(t, meta).0;
      Consistent(t') && IsFileAt(t', q) && IsFileAt(t', meta.virtualPath)
  {
    var t' := InsertFile(t, meta).0;
    InsertFileExact(t, meta);
    ViewKinds(t, q);
    ViewKinds(t', q);
    ViewKinds(t', meta.virtualPath);
    hide Consistent, IsFileAt, ValidPath, NoFileAbove, InsertFile, Ancestry, Parent;
  }

  lemma TrashPaths()
    ensures ValidPath("/.trash") && ValidPath("/a/b") && Parent("/.trash") == "/"
    ensures ValidPath(TRASH + "/a/b") && Parent(TRASH + "/a/b") == "/.trash/a"
    ensures ValidPath("/.trash/a") && Parent("/.trash/a") == "/.trash"
  {
    SongPaths();
    UnderRoot("/.trash", ".trash");
    Below("/.trash/a", "/.trash", "a");
    Below("/.trash/a/b", "/.trash/a", "b");
    assert TRASH + "/a/b" == "/.trash/a/b";
  }

  lemma NothingAboveSong(t: Tree)
    requires Consistent(t) && IsDirAt(t, "/") && t.index.Keys == {"/", "/.trash"}
    ensures ValidPath("/a/b") && NoFileAbove(t, "/a/b")
  {
    SongPaths();
    hide LastSlash, Parent, BaseName, ValidPath, Consistent;
    assert NoFileAbove(t, "/") && NoFileAbove(t, "/a");
  }

  lemma TrashIsFileState()
    ensures ValidPath("/.trash") && ValidPath("/a/b")
    ensures Consistent(TrashIsFile()) && IsFileAt(TrashIsFile(), "/.trash") && IsFileAt(TrashIsFile(), "/a/b")
  {
    TrashPaths();
    FirstInsert("/.trash");
    var t := InsertFile(EMPTY_TREE, Song(1, "/.trash")).0;
    hide LastSlash, Parent, BaseName, ValidPath, Consistent, InsertFile, IsFileAt, NoFileAbove, View;
    NothingAboveSong(t);
    InsertKeeps(t, Song(2, "/a/b"), "/.trash");
  }

  /** unlink of "/a/b" while "/.trash" is a file. */
  lemma UnlinkGuardIsReal(rows: Rows)
    ensures ValidPath("/.trash") && ValidPath("/a/b")
    ensures !Consistent(Unlink(Fs(TrashIsFile(), rows), "/a/b").0.tree)
  {
    TrashPaths();
    TrashIsFileState();
    var t := TrashIsFile();
    hide LastSlash, Parent, BaseName, ValidPath, Consistent, TrashIsFile, IsFileAt, Unlink;
    assert !NoFileAbove(t, "/.trash/a");
    assert !UnlinkGuard(t, "/a/b");
    UnlinkExact(Fs(t, rows), "/a/b");
  }

  /** A file at p, and another in the trash at q that was at r. */
  ghost function PlaceTaken(p: Path, q: Path, r: Path): Fs
    requires ValidPath(p) && ValidPath(q)
  {
    Fs(InsertFile(InsertFile(EMPTY_TREE, Song(1, p)).0, Song(2, q)).0,
       TwoRows(p, q, r))
  }

  function TwoRows(p: Path, q: Path, r: Path): (rows: Rows)
    ensures rows.Keys == {FileId(1), FileId(2)} && rows[FileId(1)].path == p && rows[FileId(2)].path == q
    ensures ValidPath(r) && r != "/" ==> OriginalsValid(rows)
  {
    map[FileId(1) := Row(p, false, None), FileId(2) := Row(q, true, Some(r))]
  }

  lemma PlacePaths()
    ensures ValidPath("/") && ValidPath("/a") && Parent("/a") == "/" && ValidPath("/a/b") && Parent("/a/b") == "/a"
    ensures ValidPath("/a/b/c") && Parent("/a/b/c") == "/a/b"
    ensures ValidPath("/.trash") && Parent("/.trash") == "/"
    ensures ValidPath("/.trash/a") && Parent("/.trash/a") == "/.trash"
    ensures ValidPath("/.trash/a/b") && Parent("/.trash/a/b") == "/.trash/a"
    ensures ValidPath("/.trash/a/b/c") && Parent("/.trash/a/b/c") == "/.trash/a/b"
  {
    SongPaths();
    TrashPaths();
    hide LastSlash, Parent, ValidPath;
    Below("/a/b/c", "/a/b", "c");
    Below("/.trash/a/b", "/.trash/a", "b");
    Below("/.trash/a/b/c", "/.trash/a/b", "c");
  }

  /** Files at p and q only, each with its row. */
  lemma TwoFilesMirrored(v: map<Path, Entry>, p: Path, q: Path, rows: Rows)
    requires p in v && q in v && v[p].FileEntry? && v[q].FileEntry?
    requires v[p].fileId == FileId(1) && v[q].fileId == FileId(2)
    requires forall r :: r in v && v[r].FileEntry? ==> r == p || r == q
    requires rows.Keys == {FileId(1), FileId(2)} && rows[FileId(1)].path == p && rows[FileId(2)].path == q
    ensures Mirrored(v, rows)
  {
  }

  /** A file deep in the trash beside one right under the root. */
  lemma InsertBeside(t: Tree, p: Path, q: Path)
    requires Consistent(t) && t.index.Keys == {"/", p} && View(t).Keys == {"/", p} && View(t)["/"].DirEntry?
    requires View(t)[p].FileEntry? && View(t)[p].fileId == FileId(1)
    requires ValidPath(q) && q != "/" && q != p && NoFileAbove(t, q)
    ensures var t' := InsertFile(t, Song(2, q)).0; var v' := View(t');
      && Consistent(t') && p in v' && v'[p] == View(t)[p] && IsFileAt(t', p)
      && q in v' && v'[q].FileEntry? && v'[q].fileId == FileId(2)
      && forall r :: r in v' && v'[r].FileEntry? ==> r == p || r == q
  {
    hide LastSlash, Parent, BaseName, ValidPath, Consistent, InsertFile, IsFileAt, Ancestry, NoFileAbove, View;
    ViewKinds(t, q);
    InsertFileExact(t, Song(2, q));
    var t' := InsertFile(t, Song(2, q)).0;
    ViewKinds(t', p);
    var w := View(t') - {q};
    assert forall r :: r in View(t') && r != q ==> r in w && w[r] == View(t')[r];
  }

  lemma TwoSongs(p: Path, q: Path, rows: Rows)
    requires ValidPath(p) && p != "/" && Parent(p) == "/" && ValidPath(q) && q != "/" && q != p
    requires NoFileAbove(InsertFile(EMPTY_TREE, Song(1, p)).0, q)
    requires rows.Keys == {FileId(1), FileId(2)} && rows[FileId(1)].path == p && rows[FileId(2)].path == q
    ensures var t := InsertFile(InsertFile(EMPTY_TREE, Song(1, p)).0, Song(2, q)).0;
      Consistent(t) && Mirrored(View(t), rows) && IsFileAt(t, p)
  {
    FirstInsert(p);
    var t := InsertFile(EMPTY_TREE, Song(1, p)).0;
    hide LastSlash, Parent, BaseName, ValidPath, Consistent, InsertFile, IsFileAt, IsDirAt, NoFileAbove, View, Mirrored;
    InsertBeside(t, p, q);
    TwoFilesMirrored(View(InsertFile(t, Song(2, q)).0), p, q, rows);
  }

  lemma PlaceTakenBreaks(p: Path, q: Path, r: Path)
    requires ValidPath(p) && p != "/" && Parent(p) == "/" && ValidPath(q) && q != "/" && q != p
    requires NoFileAbove(InsertFile(EMPTY_TREE, Song(1, p)).0, q)
    requires ValidPath(r) && r != "/" && ValidPath(Parent(r)) && Parent(r) != "/" && Parent(Parent(r)) == p
    ensures FsOk(PlaceTaken(p, q, r))
    ensures !Consistent(RestoreOne(PlaceTaken(p, q, r), TrashedFile(FileId(2), q, r)).0.tree)
  {
    var fs := PlaceTaken(p, q, r);
    TwoSongs(p, q, fs.rows);
    hide LastSlash, Parent, BaseName, ValidPath, Consistent, InsertFile, IsFileAt, RestoreOne, View, Mirrored, TwoRows,
      OriginalsValid;
    assert !NoFileAbove(fs.tree, Parent(r));
    RestoreOneExact(fs, TrashedFile(FileId(2), q, r));
  }

  lemma NothingAboveTrash(t: Tree)
    requires Consistent(t) && IsDirAt(t, "/") && t.index.Keys == {"/", "/a"}
    ensures ValidPath("/.trash/a/b/c") && NoFileAbove(t, "/.trash/a/b/c")
  {
    PlacePaths();
    hide LastSlash, Parent, BaseName, ValidPath, Consistent;
    assert NoFileAbove(t, "/") && NoFileAbove(t, "/.trash");
    assert NoFileAbove(t, "/.trash/a");
    assert NoFileAbove(t, "/.trash/a/b");
  }

  /** restoring "/a/b/c" while "/a" is a file. */
  lemma RestoreGuardIsReal()
    ensures ValidPath("/a") && ValidPath("/.trash/a/b/c") && ValidPath("/a/b/c")
    ensures var fs := PlaceTaken("/a", "/.trash/a/b/c", "/a/b/c");
      FsOk(fs) && !Consistent(RestoreOne(fs, TrashedFile(FileId(2), "/.trash/a/b/c", "/a/b/c")).0.tree)
  {
    PlacePaths();
    FirstInsert("/a");
    hide LastSlash, Parent, BaseName, ValidPath, Consistent, FsOk, IsFileAt, IsDirAt, RestoreOne, NoFileAbove,
      InsertFile, PlaceTaken;
    NothingAboveTrash(InsertFile(EMPTY_TREE, Song(1, "/a")).0);
    PlaceTakenBreaks("/a", "/.trash/a/b/c", "/a/b/c");
  }
}
