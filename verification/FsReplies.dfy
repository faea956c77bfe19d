/**
 What each filesystem call answers, and what it does to the rows: every reply with
 the exact state of affairs that causes it, told by what is visible before the call.
 */
module FsReplies {
  import opened Common
  import opened Paths
  import opened TreeModel
  import opened TreeGrow
  import opened TreePrune
  import opened TreeRename
  import opened FsModel
  import opened FsRuns

  ghost predicate DirIn(v: map<Path, Entry>, p: Path) { p in v && v[p].DirEntry? }

  ghost predicate FileIn(v: map<Path, Entry>, p: Path) { p in v && v[p].FileEntry? }

  /** mkdir answers EEXIST, ENOENT, or the inode of a directory that is then there
      and that nothing had before. */
  lemma MkdirReplies(fs: Fs, p: Path)
    requires FsOk(fs) && Resolved(p)
    ensures var (fs', reply) := MkdirCall(fs, p);
      var v, v' := View(fs.tree), View(fs'.tree);
      && (reply == EEXIST <==> p in v)
      && (reply == ENOENT <==> p !in v && !DirIn(v, Parent(p)))
      && (reply.Entry? <==> p !in v && DirIn(v, Parent(p)))
      && (reply.Entry? ==> v' == v[p := DirEntry(reply.inode)] && forall q :: q in v ==> v[q].inode != reply.inode)
      && (!reply.Entry? ==> fs' == fs)
      && fs'.rows == fs.rows
  {
    MkdirConsistent(fs.tree, p);
    ViewKinds(fs.tree, p);
    ViewKinds(fs.tree, Parent(p));
    forall q | q in View(fs.tree) ensures View(fs.tree)[q].inode in fs.tree.nodes {
      ViewKinds(fs.tree, q);
      assert PathOk(fs.tree, q);
    }
    hide LastSlash, Parent, ValidPath, Consistent, View, Mkdir, IsDirAt;
  }

  ghost predicate Below(v: map<Path, Entry>, p: Path) {
    exists q :: q in v && q != p && InSubtree(q, p)
  }

  /** rmdir refuses whatever starts with "/.trash" as a string; otherwise it answers
      by what is at the path and below it. */
  lemma RmdirReplies(fs: Fs, p: Path)
    requires FsOk(fs) && Resolved(p)
    ensures var (fs', reply) := RmdirCall(fs, p);
      var v, v' := View(fs.tree), View(fs'.tree);
      && (reply == EPERM <==> "/.trash" <= p)
      && (reply == ENOENT <==> !("/.trash" <= p) && p !in v)
      && (reply == ENOTDIR <==> !("/.trash" <= p) && FileIn(v, p))
      && (reply == ENOTEMPTY <==> !("/.trash" <= p) && DirIn(v, p) && Below(v, p))
      && (reply == Done <==> !("/.trash" <= p) && DirIn(v, p) && !Below(v, p))
      && (if reply == Done then v' == v - {p} else fs' == fs)
      && fs'.rows == fs.rows
  {
    RemoveDirectoryExact(fs.tree, p);
    ViewKinds(fs.tree, p);
    assert HasDescendant(fs.tree, p) <==> Below(View(fs.tree), p) by {
      forall q ensures q in View(fs.tree) <==> q in fs.tree.index { ViewKinds(fs.tree, q); }
      hide Consistent, View, LastSlash, InSubtree;
    }
    hide LastSlash, Parent, ValidPath, Consistent, View, RemoveDirectory, Below, HasDescendant;
  }

  lemma TrashParent(p: Path)
    requires Resolved(p)
    ensures Parent(TRASH + p) == if Parent(p) == "/" then TRASH else TRASH + Parent(p)
  {
    ChildOfParent(p);
    TrashValid();
    var base := if Parent(p) == "/" then TRASH else TRASH + Parent(p);
    if Parent(p) != "/" { TrashPathValid(Parent(p)); }
    ChildConcat(TRASH, Parent(p), BaseName(p));
    hide LastSlash, Parent, BaseName, ValidPath, ValidName, Child;
    ParentOfChild(base, BaseName(p));
  }

  lemma {:induction false} TrashAbove(p: Path)
    requires Resolved(p)
    ensures ValidPath(Parent("/.trash" + p)) && "/.trash" in Ancestry(Parent("/.trash" + p))
    decreases |p|
  {
    TrashPathValid(p);
    TrashValid();
    ChildOfParent(p);
    hide LastSlash, Parent, ValidPath;
    TrashParent(p);
    if Parent(p) != "/" { TrashAbove(Parent(p)); TrashPathValid(Parent(p)); }
  }

  lemma AddedTwice(v: map<Path, Entry>, w: map<Path, Entry>, p: Path, i: Inode, u: map<Path, Entry>, dirs: set<Path>)
    requires w == (if p in v then v else v[p := DirEntry(i)]) && DirsAdded(w, u, dirs) && p in dirs
    ensures DirsAdded(v, u, dirs)
  {
  }

  /** Making room in the trash adds just the directories above the place the file
      goes to; if a file stands there instead, nothing at all. */
  lemma PreparedTrash(t: Tree, p: Path)
    requires Consistent(t) && Resolved(p) && IsFileAt(t, p) && UnlinkGuard(t, p)
    ensures ValidPath(Parent("/.trash" + p))
    ensures var t1, dir := PrepareTrash(t, p), Parent("/.trash" + p);
      && Consistent(t1)
      && if IsFileAt(t, dir) then View(t1) == View(t) && !IsDirAt(t1, dir)
         else DirsAdded(View(t), View(t1), Ancestry(dir)) && IsDirAt(t1, dir)
  {
    TrashAbove(p);
    TrashPathValid(p);
    PrepareTrashExact(t, p);
    var dir := Parent(TRASH + p);
    var t0 := EnsureTrashDir(t).0;
    EnsureTrashDirExact(t);
    TrashDirMade(t);
    GrownTree(t, t0);
    hide LastSlash, Parent, ValidPath, Consistent, View, EnsureTrashDir, Ancestry, NoFileAbove, Grown, IsFileAt,
      IsDirAt;
    MkdirPExact(t0, dir);
    if IsFileAt(t, dir) {
      TrashUnderFile(t, dir);
      FileIsNoDir(t0, dir);
    } else {
      AddedTwice(View(t), View(t0), TRASH, t.next, View(PrepareTrash(t, p)), Ancestry(dir));
    }
  }

  lemma FileIsNoDir(t: Tree, p: Path)
    requires IsFileAt(t, p)
    ensures !IsDirAt(t, p)
  {
  }

  /** A file below "/.trash", or there, shows that "/.trash" exists. */
  lemma {:induction false} TrashUnderFile(t: Tree, dir: Path)
    requires Consistent(t) && ValidPath(dir) && IsFileAt(t, dir) && TRASH in Ancestry(dir)
    ensures TRASH in View(t)
  {
    IndexedAncestry(t, dir, TRASH);
    ViewKinds(t, TRASH);
  }

  lemma {:induction false} IndexedAncestry(t: Tree, p: Path, q: Path)
    requires Consistent(t) && ValidPath(p) && p in t.index && q in Ancestry(p)
    ensures q in t.index
    decreases |p|
  {
    if q != p {
      ChildOfParent(p);
      assert PathOk(t, p);
      IndexedAncestry(t, Parent(p), q);
    }
  }

  /** What unlink answers, and what it leaves: the file in the trash, its row saying
      where it was, and the directories above it in the trash. w is the view between
      making room and moving. */
  lemma UnlinkReplies(fs: Fs, p: Path) returns (w: map<Path, Entry>)
    requires FsOk(fs) && Resolved(p) && UnlinkGuard(fs.tree, p)
    ensures ValidPath(Parent("/.trash" + p))
    ensures var (fs', reply) := Unlink(fs, p);
      var v, place, dir := View(fs.tree), "/.trash" + p, Parent("/.trash" + p);
      && (reply == EISDIR <==> DirIn(v, p))
      && (reply == ENOENT <==> p !in v)
      && (reply == EEXIST <==> FileIn(v, p) && place in v)
      && (reply == EIO <==> FileIn(v, p) && place !in v && FileIn(v, dir))
      && (reply == Done <==> FileIn(v, p) && place !in v && !FileIn(v, dir))
      && (if FileIn(v, p) && !FileIn(v, dir) then DirsAdded(v, w, Ancestry(dir)) else w == v)
      && (if reply == Done then
            && View(fs'.tree) == (w - {p})[place := v[p]] && v[p].fileId in fs.rows
            && fs'.rows == fs.rows[v[p].fileId := Row(place, true, Some(p))]
          else View(fs'.tree) == w && fs'.rows == fs.rows)
  {
    var t := fs.tree;
    var place, dir := TRASH + p, Parent(TRASH + p);
    TrashPathValid(p);
    ViewKinds(t, p);
    ViewKinds(t, dir);
    w := View(t);
    if IsFileAt(t, p) {
      var t1 := PrepareTrash(t, p);
      PreparedTrash(t, p);
      UnlinkFileMoves(fs, p);
      PlaceNotAbove(p);
      FileReply(fs, p);
      w := View(t1);
      hide LastSlash, Parent, ValidPath, Consistent, View, PrepareTrash, UnlinkGuard, Ancestry, Unlink, Mirrored,
        OriginalsValid, IsFileAt, IsDirAt;
      assert place in View(t1) <==> place in View(t);
    } else {
      hide LastSlash, Parent, ValidPath, Consistent, View, PrepareTrash, UnlinkGuard, Ancestry, Mirrored,
        OriginalsValid;
    }
  }

  lemma FileMoveErrors(t: Tree, src: Path, dst: Path)
    requires Consistent(t) && IsFileAt(t, src)
    ensures RenameFile(t, src, dst).1 ==
      if dst in View(t) then Err(TargetExists) else if !IsDirAt(t, Parent(dst)) then Err(ParentNotFound) else Ok(())
  {
    ViewKinds(t, dst);
    hide LastSlash, Parent, ValidPath, Consistent, View, Relink;
  }

  /** The errors of moving a file into the trash. */
  lemma FileReply(fs: Fs, p: Path)
    requires FsOk(fs) && Resolved(p) && UnlinkGuard(fs.tree, p) && IsFileAt(fs.tree, p)
    ensures Unlink(fs, p).1 ==
      var t1 := PrepareTrash(fs.tree, p);
      if TRASH + p in View(t1) then EEXIST else if !IsDirAt(t1, Parent(TRASH + p)) then EIO else Done
  {
    var t1 := PrepareTrash(fs.tree, p);
    PrepareTrashExact(fs.tree, p);
    GrownTree(fs.tree, t1);
    FileMoveErrors(t1, p, TRASH + p);
    hide LastSlash, Parent, ValidPath, Consistent, View, PrepareTrash, UnlinkGuard, Mirrored, OriginalsValid,
      RenameFile, IsDirAt;
    assert !IsDirAt(fs.tree, p) by { FileIsNoDir(fs.tree, p); }
  }

  lemma PlaceNotAbove(p: Path)
    requires Resolved(p)
    ensures ValidPath(Parent("/.trash" + p)) && "/.trash" + p !in Ancestry(Parent("/.trash" + p))
  {
    TrashPathValid(p);
    ChildOfParent(TRASH + p);
    if TRASH + p in Ancestry(Parent(TRASH + p)) { AncestryShorter(Parent(TRASH + p), TRASH + p); }
  }

  /** The test for the trash is on strings: "/.trashcan" is not in the trash, and can be
      made but not removed. */
  lemma TrashcanRefused(fs: Fs)
    ensures RmdirCall(fs, "/.trashcan") == (fs, EPERM) && !InSubtree("/.trashcan", "/.trash")
  {
    assert "/.trashcan"[..7] == "/.trash" && "/.trashcan"[7] == 'c';
  }

  /** rename answers the same for files and directories; when it fails it changes
      nothing. */
  lemma RenameReplies(fs: Fs, fs': Fs, reply: Reply, src: Path, dst: Path)
    requires FsOk(fs) && ValidPath(dst) && src != dst && Renamed(fs, fs', reply, src, dst)
    ensures var v := View(fs.tree);
      && (reply == EEXIST <==> src in v && dst in v)
      && (reply == ENOENT <==> src !in v || (dst !in v && !DirIn(v, Parent(dst))))
      && (reply == Done <==> src in v && dst !in v && DirIn(v, Parent(dst)))
      && (reply != Done ==> fs' == fs)
  {
    var t := fs.tree;
    ViewKinds(t, src);
    ViewKinds(t, dst);
    ViewKinds(t, Parent(dst));
    assert src in t.index ==> PathOk(t, src);
    hide LastSlash, Parent, ValidPath, Consistent, View, Relink, Rewritten;
  }

  /** A file's row gets its new path, and loses its flag if that takes it out of the
      trash; no other row changes. With a directory the leading part of the paths
      below it changes, and no flag: files that leave the trash with their directory
      stay marked as trashed. */
  ghost predicate RowsRenamed(v: map<Path, Entry>, rows: Rows, rows': Rows, src: Path, dst: Path) {
    && (FileIn(v, src) ==>
         v[src].fileId in rows && rows' == rows[v[src].fileId := RenamedRow(rows[v[src].fileId], src, dst)])
    && (DirIn(v, src) ==> rows'.Keys == rows.Keys && forall id :: id in rows ==>
         rows'[id] == if src + "/" <= rows[id].path then
                        Row(dst + "/" + rows[id].path[|src| + 1..], rows[id].trashed, rows[id].originalPath)
                      else rows[id])
  }

  lemma RenameRows(fs: Fs, fs': Fs, reply: Reply, src: Path, dst: Path)
    requires FsOk(fs) && Resolved(src) && Resolved(dst) && src != dst && Renamed(fs, fs', reply, src, dst)
    requires reply == Done
    ensures RowsRenamed(View(fs.tree), fs.rows, fs'.rows, src, dst)
  {
    ViewKinds(fs.tree, src);
    SlashAdded(src);
    SlashAdded(dst);
    hide LastSlash, Parent, ValidPath, Consistent, View, RenamedRow, KeepsFiles, DirectoryRenamed, WithSlash, RenameOne,
      Mirrored, OriginalsValid;
    if FileIn(View(fs.tree), src) {
      RenameOneOk(fs, src, dst);
    } else if DirIn(View(fs.tree), src) {
      assert IsDirAt(fs.tree, src);
      hide IsDirAt;
      PrefixRows(fs.rows, src, dst);
    }
  }

  lemma PrefixRows(rows: Rows, src: Path, dst: Path)
    ensures var rows' := ReplacePrefix(rows, src + "/", dst + "/");
      rows'.Keys == rows.Keys && forall id :: id in rows ==>
        rows'[id] == if src + "/" <= rows[id].path then
                       Row(dst + "/" + rows[id].path[|src| + 1..], rows[id].trashed, rows[id].originalPath)
                     else rows[id]
  {
  }

  /** It does happen: a trashed file whose directory is moved out of the trash is
      outside of it, and still marked as trashed. */
  lemma LeavesMarked(rows: Rows, id: FileId)
    requires id in rows && rows[id] == Row("/.trash/a/b", true, Some("/a/b"))
    ensures ReplacePrefix(rows, WithSlash("/.trash/a"), WithSlash("/c"))[id] == Row("/c/b", true, Some("/a/b"))
  {
    assert WithSlash("/.trash/a") == "/.trash/a/" && WithSlash("/c") == "/c/";
    assert "/.trash/a/b"[|"/.trash/a/"|..] == "b";
  }
}
