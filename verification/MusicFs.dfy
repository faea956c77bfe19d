/**
 The filesystem handlers and the start-up restore, as they change the shared
 tree and database in place.
 */
module MusicFsHandlers {
  import opened Common
  import opened Paths
  import opened TreeModel
  import opened TreeGrow
  import opened TreePrune
  import opened TreeRename
  import opened VirtualTrees
  import opened FsModel
  import opened FsRestore
  import opened FsRuns
  import opened FsReplies
  import opened Databases

  class MusicFs {
    const tree: VirtualTree
    const db: Database

    constructor (tree: VirtualTree, db: Database)
      ensures this.tree == tree && this.db == db
    {
      this.tree := tree;
      this.db := db;
    }

    ghost function State(): Fs
      reads tree, db
    {
      Fs(tree.State(), db.rows)
    }

    /** The path of a name in the directory with the given inode, found by scanning
        the index for that inode. */
    method ResolvePath(parent: Inode, name: Name) returns (path: Option<Path>)
      requires Injective(tree.State())
      ensures path == None ==> !HasPath(tree.State(), parent)
      ensures forall d :: d in tree.pathToInode && tree.pathToInode[d] == parent ==> path == Some(Child(d, name))
    {
      var todo := tree.pathToInode.Keys;
      while todo != {}
        invariant todo <= tree.pathToInode.Keys
        invariant forall p :: p in tree.pathToInode && p !in todo ==> tree.pathToInode[p] != parent
        decreases |todo|
      {
        var p :| p in todo;
        if tree.pathToInode[p] == parent {
          assert forall q :: SameNode(tree.State(), q, p) ==> q == p;
          assert forall q :: q in tree.pathToInode && tree.pathToInode[q] == parent ==> SameNode(tree.State(), q, p);
          return Some(if p == "/" then "/" + name else p + "/" + name);
        }
        todo := todo - {p};
      }
      return None;
    }

    method Unlink(path: Path) returns (reply: Reply)
      requires Resolved(path)
      modifies tree, db
      ensures (State(), reply) == FsModel.Unlink(old(State()), path)
      ensures old(FsOk(State())) ==>
        && (Consistent(State().tree) <==> UnlinkGuard(old(tree.State()), path))
        && (UnlinkGuard(old(tree.State()), path) ==> FsOk(State()))
    {
      ghost var fs := State();
      if FsOk(fs) {
        UnlinkExact(fs, path);
        if UnlinkGuard(fs.tree, path) { UnlinkOk(fs, path); }
      }
      TrashPathValid(path);
      hide LastSlash, ValidPath, FsOk, Consistent, UnlinkGuard, NoFileAbove, KeepsFiles;
      if !(path in tree.pathToInode && tree.pathToInode[path] in tree.nodes) { return ENOENT; }
      var node := tree.nodes[tree.pathToInode[path]];
      if node.Directory? { return EISDIR; }
      var trashPath := TRASH + path;
      var _ := tree.EnsureTrashDir();
      // a failure can only mean that a file bears the name, and then the move below fails
      var _ := tree.MkdirP(Parent(trashPath));
      var r := tree.RenameFile(path, trashPath);
      if r.Err? { return UnlinkReply(r.error); }
      db.UpdateVirtualPath(node.fileId, trashPath);
      db.MarkTrashed(node.fileId, path);
      return Done;
    }

    method Rename(src: Path, dst: Path) returns (reply: Reply)
      requires Resolved(src) && Resolved(dst)
      modifies tree, db
      ensures Renamed(old(State()), State(), reply, src, dst)
      ensures old(FsOk(State())) && CallGuard(old(State()), CallRename(src, dst)) ==> FsOk(State())
      ensures old(FsOk(State())) && src != dst && reply == Done ==>
        RowsRenamed(old(View(tree.State())), old(db.rows), db.rows, src, dst)
    {
      ghost var fs := State();
      hide LastSlash, Parent, BaseName, ValidPath, FsOk, Consistent, GoodMove, KeepsFiles, RowsRenamed;
      if src == dst { return Done; }
      if src in tree.pathToInode && tree.pathToInode[src] in tree.nodes &&
        tree.nodes[tree.pathToInode[src]].Directory? {
        reply := RenameADirectory(src, dst);
      } else {
        reply := RenameAFile(src, dst);
      }
      if FsOk(fs) {
        RenamedExact(fs, State(), reply, src, dst);
        if reply == Done { RenameRows(fs, State(), reply, src, dst); }
      }
    }

    method RenameADirectory(src: Path, dst: Path) returns (reply: Reply)
      requires ValidPath(dst)
      modifies tree, db
      ensures RenamedDirectory(old(State()), State(), reply, src, dst)
    {
      hide LastSlash, Parent, BaseName, ValidPath, Consistent, GoodMove, Rewritten, Relink;
      var r := tree.RenameDirectory(src, dst);
      if r.Err? {
        return RenameReply(Err(r.error));
      }
      db.RenameDirectory(WithSlash(src), WithSlash(dst));
      return Done;
    }

    method RenameAFile(src: Path, dst: Path) returns (reply: Reply)
      requires ValidPath(dst)
      modifies tree, db
      ensures (State(), reply) == RenameOne(old(State()), src, dst)
    {
      hide LastSlash, Parent, BaseName, ValidPath, Consistent, RenameFile;
      var fileId := None;
      if src in tree.pathToInode && tree.pathToInode[src] in tree.nodes && tree.nodes[tree.pathToInode[src]].File? {
        fileId := Some(tree.nodes[tree.pathToInode[src]].fileId);
      }
      var r := tree.RenameFile(src, dst);
      if r.Ok? && fileId.Some? {
        db.UpdateVirtualPath(fileId.value, dst);
        if IsTrashPath(src) && !IsTrashPath(dst) {
          db.UnmarkTrashed(fileId.value);
        }
      }
      return RenameReply(r);
    }

    method MakeDirectory(path: Path) returns (reply: Reply)
      requires Resolved(path)
      modifies tree
      ensures (State(), reply) == MkdirCall(old(State()), path)
      ensures reply == EEXIST <==> path in old(tree.pathToInode)
      ensures old(FsOk(State())) && reply.Entry? ==>
        Find(tree.State(), path) == Some(reply.inode) && reply.inode !in old(tree.nodes)
    {
      var r := tree.Mkdir(path);
      return MkdirReply(r);
    }

    method RemoveDirectory(path: Path) returns (reply: Reply)
      requires Resolved(path)
      modifies tree
      ensures (State(), reply) == RmdirCall(old(State()), path)
    {
      hide LastSlash, Parent, BaseName, ValidPath, Consistent, TreePrune.RemoveDirectory;
      if IsTrashPath(path) { return EPERM; }
      var r := tree.RemoveDirectory(path);
      return RmdirReply(r);
    }

    /** Restores one listed file; true if it went back. */
    method Restore(f: TrashedFile) returns (restored: bool)
      requires Resolved(f.originalPath)
      modifies tree, db
      ensures (State(), restored) == RestoreOne(old(State()), f)
    {
      ChildOfParent(f.originalPath);
      hide LastSlash, ValidPath, Consistent, NoFileAbove, RenameFile, TreeGrow.MkdirP;
      var _ := tree.MkdirP(Parent(f.originalPath));
      var r := tree.RenameFile(f.currentPath, f.originalPath);
      if r.Err? { return false; }
      db.UpdateVirtualPath(f.fileId, f.originalPath);
      db.UnmarkTrashed(f.fileId);
      return true;
    }

    /** The start-up restore: for each requested path, every file of one listing
        that it names. */
    method ProcessPendingRestores(restorePaths: seq<Path>) returns (ghost trashed: seq<TrashedFile>)
      requires OriginalsValid(db.rows)
      modifies tree, db
      ensures IsListing(trashed, old(db.rows)) && Snapshot(old(db.rows), Schedule(trashed, restorePaths))
      ensures State() == RestoreAll(old(State()), Schedule(trashed, restorePaths))
    {
      ghost var fs := State();
      var listing := db.ListTrashed();
      trashed := listing;
      ScheduleIsSnapshot(db.rows, trashed, restorePaths);
      ListingRestorable(db.rows, trashed);
      hide LastSlash, ValidPath, IsListing, OriginalsValid, Snapshot, Restorable, RestoreAll, Schedule;
      ScheduleStart(fs, trashed, restorePaths);
      for i := 0 to |restorePaths|
        invariant Restorable(Schedule(trashed, restorePaths[..i]))
        invariant State() == RestoreAll(fs, Schedule(trashed, restorePaths[..i]))
      {
        ScheduleRound(fs, trashed, restorePaths, i);
        var matching := FilterMatching(listing, restorePaths[i]);
        RestoreMatching(matching);
      }
      assert restorePaths[..|restorePaths|] == restorePaths;
    }

    /** The inner loop: the files that one path names. */
    method RestoreMatching(matching: seq<TrashedFile>)
      requires Restorable(matching)
      modifies tree, db
      ensures State() == RestoreAll(old(State()), matching)
    {
      ghost var fs := State();
      hide LastSlash, ValidPath, RestoreOne;
      for j := 0 to |matching|
        invariant State() == RestoreTo(fs, matching, j)
      {
        assert matching[j] in matching;
        var _ := Restore(matching[j]);
      }
    }

    method FilterMatching(trashed: seq<TrashedFile>, path: Path) returns (matching: seq<TrashedFile>)
      ensures matching == Matching(trashed, path)
    {
      matching := [];
      for k := 0 to |trashed|
        invariant matching == Matching(trashed[..k], path)
      {
        assert trashed[..k + 1][..k] == trashed[..k];
        if trashed[k].originalPath == path || path + "/" <= trashed[k].originalPath {
          matching := matching + [trashed[k]];
        }
      }
      assert trashed[..|trashed|] == trashed;
    }
  }

  lemma ListingRestorable(rows: Rows, trashed: seq<TrashedFile>)
    requires OriginalsValid(rows) && IsListing(trashed, rows)
    ensures Restorable(trashed)
  {
    hide ValidPath;
    forall f | f in trashed ensures Resolved(f.originalPath) { assert rows[f.fileId].trashed; }
  }

  lemma ScheduleStart(fs: Fs, trashed: seq<TrashedFile>, paths: seq<Path>)
    ensures Schedule(trashed, paths[..0]) == [] && Restorable(Schedule(trashed, paths[..0]))
    ensures RestoreAll(fs, Schedule(trashed, paths[..0])) == fs
  {
  }

  /** Trying the files of one more path continues the restore of the earlier ones. */
  lemma {:induction false} ScheduleRound(fs: Fs, trashed: seq<TrashedFile>, paths: seq<Path>, i: nat)
    requires i < |paths| && Restorable(trashed) && Restorable(Schedule(trashed, paths[..i]))
    ensures var before, m := Schedule(trashed, paths[..i]), Matching(trashed, paths[i]);
      && Restorable(m) && Restorable(Schedule(trashed, paths[..i + 1]))
      && RestoreAll(fs, Schedule(trashed, paths[..i + 1])) == RestoreAll(RestoreAll(fs, before), m)
  {
    MatchingRestorable(trashed, paths[i]);
    ScheduleNext(trashed, paths, i);
    hide Restorable, Schedule, Matching, RestoreAll;
    RestoreMore(fs, Schedule(trashed, paths[..i]), Matching(trashed, paths[i]));
  }

  lemma MatchingRestorable(trashed: seq<TrashedFile>, path: Path)
    requires Restorable(trashed)
    ensures Restorable(Matching(trashed, path))
  {
    MatchingIn(trashed, path);
    hide ValidPath, Matching;
  }

  lemma {:induction false} ScheduleNext(trashed: seq<TrashedFile>, paths: seq<Path>, i: nat)
    requires i < |paths|
    ensures Schedule(trashed, paths[..i + 1]) == Schedule(trashed, paths[..i]) + Matching(trashed, paths[i])
  {
    var upTo := paths[..i + 1];
    assert upTo[..i] == paths[..i] && upTo[i] == paths[i];
    hide Matching;
    assert Schedule(trashed, upTo) == Schedule(trashed, upTo[..i]) + Matching(trashed, upTo[i]);
  }
}
