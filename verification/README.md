# MusicFS, modelled and proved

MusicFS shows a music library as a virtual filesystem. This project models its
four hard parts in Dafny and proves what they promise, over all inputs and whole
runs.

- **The inode tree and its rows.** A directory tree is kept twice, as nodes with
  child maps and as a flat index from paths to inodes, and a database row follows
  every file. `Paths`, `TreeModel`, `TreeAttach`, `TreeGrow`, `TreePrune` and
  `TreeRename` say what each operation does and exactly when it keeps the two
  copies in agreement; `VirtualTree` is the class that changes them in place;
  `TreeRuns` and `TreeBuild` are about whole runs and about building a tree.
  `Database` and `MusicFs` are the rows and the filesystem handlers above them,
  `FsModel`, `FsRestore` and `FsRuns` their model, and `FsReplies` what each call
  answers; `ReadDir` is listing in pages.
- **The read path.** `Chunks`, `CasModel`, `CasStore`, `Mending`,
  `ContentFetcher` and `FileReader` are the chunker, the content-addressed store,
  the fetcher and the reader that heals what is missing or damaged.
- **FLAC headers.** `Vorbis`, `Flac`, `FlacBlocks` and `FlacSynthesis` are the
  comment format, the analysis of metadata blocks and the writing of a new header
  (sections 8.1, 8.2 and 8.6 of RFC 9639); `Overlay` splices the new header
  before the old audio.
- **Smaller protocols.** `LruModel`, `EvictionModel` and `Eviction`, `Prefetch`,
  `Delta` and `DeltaChanges`.

Classes hold the state that the source changes in place. Their methods are tied
to functions on values, and the lemmas are about those. How the model treats what
it cannot see:

- A path is a string such as `"/A/B"`, because the source tests subtrees by string
  prefix; inode 1 is the root.
- The chunk hash is any function. Claims about reading assume that no two byte
  strings of a given world share a hash; the world contains everything that chunk
  files and origins ever hold during the run.
- Where content-defined chunking cuts is any function whose cuts partition the
  content.
- Input and output that can fail do so by a parameter or by choice. The reading
  methods take a flag `calm`: if it is false, files, index and counter of the
  store and the contents of origins are replaced arbitrarily between steps, and
  every read, write and delete may fail at any point.
- The clock of the eviction policy, the listing of a directory at an origin, and
  the comments made of a file's metadata are parameters.

## What the proofs found

The code does not always keep its two copies of the tree in agreement. Each of
these has an exact condition and a concrete witness below.

- `rename_directory` and `remove_directory_recursive` select by string prefix, so
  a sibling such as `/Artist` is swept up with `/Art`.
- `rename_directory` accepts the root and a target beneath the source;
  `remove_directory` and `remove_directory_recursive` accept the root.
- `insert_file` and `mkdir_p` step through a file as if it were a directory;
  `insert_file` over an existing path leaves the old node unreachable;
  `remove_file` accepts a directory.
- `unlink` meets the same when a file stands where it needs a directory in the
  trash, and restoring when one stands above the directory to be recreated.

Elsewhere:

- A file that leaves the trash with its directory stays marked as trashed.
- A directory such as `/.trashcan` counts as in the trash, and cannot be removed.
- Deleting a file longer than the store's counter wraps the counter, and the store
  then refuses new chunks, unless one is long enough to wrap it back.
- A put over a file with other bytes under its hash succeeds and stores nothing.
- With no size limit the store hands out chunks unverified.
- FLAC analysis does not check that the last block ends inside the file, and the
  overlay's size arithmetic then wraps.
- A comment block of 2^24 bytes or more is written with a truncated length.
- Two chunk accesses at one clock reading lose the first from the eviction order.
- Eviction does not end if some tracked chunk cannot be read and the counter stays
  above the target once every readable chunk before the tenth unreadable one is
  gone.
- A prefetch task that panics leaves its file marked for good, and no later call
  fetches it.
- A changed file without a manifest is reported neither as modified nor as added.

## Model
| member | source | states |
|---|---|---|
| `Paths.JoinComponents` | crates/musicfs-cache/src/tree.rs:203-252 | taking a valid path apart at its slashes and joining the pieces again loses nothing; last piece and rest are the base name and the parent's pieces |
| `Paths.ComponentsPrefix` | crates/musicfs-cache/src/tree.rs:203-252 | every prefix of the pieces names a valid path, each one child step below the previous |
| `Paths.ClashingSibling` | crates/musicfs-cache/src/tree.rs:521-526 | wherever the string-prefix test and the component-wise subtree test disagree, a sibling with a longer name is on the way |
| `TreeModel.EmptyTreeConsistent` | crates/musicfs-cache/src/tree.rs:86-108 | a fresh tree has index and child maps in agreement |
| `TreeModel.IndexIsWalk` | crates/musicfs-cache/src/tree.rs:118-134 | in an agreeing tree, for every valid path, found or not, the flat index answers exactly what walking child maps from the root one component at a time does |
| `TreeModel.AncestorIndexed` | crates/musicfs-cache/src/tree.rs:203-252 | ancestors of an existing path exist and are directories |
| `TreeAttach.AttachConsistent` | crates/musicfs-cache/src/tree.rs:318-373 | entering a new node below an existing directory at a fresh path keeps agreement and changes what is visible at that one path |
| `TreeGrow.MkdirConsistent` | crates/musicfs-cache/src/tree.rs:318-373 | mkdir succeeds exactly when the path is free and its parent is a directory, each error has its exact cause, it always keeps agreement, adds exactly that directory, and returns the inode the path then leads to, which no node had |
| `TreeGrow.MkdirPExact` | crates/musicfs-cache/src/tree.rs:605-663 | mkdir_p keeps agreement if and only if no proper ancestor is a file; then it yields the directory and adds exactly the missing ancestors; on a file it fails and changes nothing |
| `TreeGrow.InsertFileExact` | crates/musicfs-cache/src/tree.rs:173-201 | insert_file keeps agreement if and only if the path is not the root, is free, and has no file above it; then it adds exactly that file and its missing ancestors |
| `TreeGrow.OverwriteBreaks` | crates/musicfs-cache/src/tree.rs:192-197 | inserting over an existing path leaves the old node in the table with no path |
| `TreeGrow.EnsureTrashDirExact` | crates/musicfs-cache/src/tree.rs:579-603 | ensure_trash_dir always keeps agreement, adds only "/.trash", and returns the inode of whatever bears that name |
| `TreePrune.CutConsistent` | crates/musicfs-cache/src/tree.rs:705-758 | taking away a component-wise subtree, its nodes and its parent's entry keeps agreement and removes nothing else |
| `TreePrune.RemoveFileExact` | crates/musicfs-cache/src/tree.rs:254-274 | remove_file keeps agreement if and only if the path is not a directory; it returns the id of the file that was there and removes just that path |
| `TreePrune.RemoveDirectoryExact` | crates/musicfs-cache/src/tree.rs:665-703 | remove_directory succeeds exactly on directories with nothing below them, each error has its exact cause, and success keeps agreement if and only if the directory is not the root |
| `TreePrune.RemoveRecursiveExact` | crates/musicfs-cache/src/tree.rs:705-758 | remove_directory_recursive succeeds exactly on directories, each error has its exact cause, and it keeps agreement if and only if the directory is not the root and no path outside the subtree starts with its path as a string; then exactly the subtree is gone |
| `TreePrune.ClashWitness` | crates/musicfs-cache/src/tree.rs:719-725 | when the prefix test sweeps up a path outside the subtree, the parent lists a longer-named sibling that is swept up too |
| `TreePrune.ForceRefreshExact` | crates/musicfs-cache/src/tree.rs:295-304 | force_refresh leaves the root alone, keeps agreement, and keeps the inode counter |
| `TreeRename.RenameFileExact` | crates/musicfs-cache/src/tree.rs:375-465 | rename_file succeeds exactly for a file, a free target and a directory as target parent; it always keeps agreement and moves that one file with its inode |
| `TreeRename.MoveConsistent` | crates/musicfs-cache/src/tree.rs:467-573 | relocating a component-wise subtree keeps agreement and moves that subtree and nothing else |
| `TreeRename.RenameDirectoryExact` | crates/musicfs-cache/src/tree.rs:467-573 | whatever order the collected paths are rewritten in, rename_directory keeps agreement if and only if the source is not the root, the target is not below it, and no outside path has it as string prefix; then the subtree moves and nothing else |
| `TreeRename.RenameDirectoryDeterministic` | crates/musicfs-cache/src/tree.rs:521-560 | under that guard the result does not depend on the rewriting order |
| `TreeRename.ClashMoveBreaks` | crates/musicfs-cache/src/tree.rs:521-526 | with a clashing sibling every rewriting order loses agreement |
| `VirtualTrees.VirtualTree.constructor` | crates/musicfs-cache/src/tree.rs:86-108 | a new tree is the empty tree |
| `VirtualTrees.VirtualTree.GetParent` | crates/musicfs-cache/src/tree.rs:152-158 | for every indexed inode, directory or file, the result is the inode at its path's parent |
| `VirtualTrees.VirtualTree.FindParentByPathLookup` | crates/musicfs-cache/src/tree.rs:160-171 | scanning the index for an inode finds the inode at its path's parent |
| `VirtualTrees.VirtualTree.EnsureParents` | crates/musicfs-cache/src/tree.rs:203-252 | the loop over components creates exactly the missing ancestors and returns the parent's inode |
| `VirtualTrees.VirtualTree.InsertFile` | crates/musicfs-cache/src/tree.rs:173-201 | the in-place insertion does what the model does, and keeps agreement exactly under its guard |
| `VirtualTrees.VirtualTree.Mkdir` | crates/musicfs-cache/src/tree.rs:318-373 | in-place mkdir does what the model does and always keeps agreement; the inode it returns is the one the path leads to, and is new |
| `VirtualTrees.VirtualTree.EnsureTrashDir` | crates/musicfs-cache/src/tree.rs:579-603 | in-place ensure_trash_dir does what the model does and always keeps agreement |
| `VirtualTrees.VirtualTree.MkdirP` | crates/musicfs-cache/src/tree.rs:605-663 | the loop does what the model does, and keeps agreement exactly under its guard |
| `VirtualTrees.VirtualTree.RemoveFile` | crates/musicfs-cache/src/tree.rs:254-274 | in-place removal does what the model does, and keeps agreement exactly when not aimed at a directory |
| `VirtualTrees.VirtualTree.RemoveDirectory` | crates/musicfs-cache/src/tree.rs:665-703 | in-place removal does what the model does; success keeps agreement exactly off the root |
| `VirtualTrees.VirtualTree.RemoveDirectoryRecursive` | crates/musicfs-cache/src/tree.rs:705-758 | removing the collected entries in any order does what the model does, and returns exactly the multiset of file ids among them, which without a prefix clash are those of the subtree |
| `VirtualTrees.FileIdsCount` | crates/musicfs-cache/src/tree.rs:728-742 | the ids returned hold every id as often as there are visible files with it |
| `VirtualTrees.VirtualTree.RenameFile` | crates/musicfs-cache/src/tree.rs:375-465 | in-place rename of a file does what the model does and always keeps agreement |
| `VirtualTrees.VirtualTree.RenameDirectory` | crates/musicfs-cache/src/tree.rs:467-573 | relinking and rewriting in place yields a possible outcome of the model and keeps agreement exactly under the guard, under which the count is the size of the subtree; errors change nothing |
| `VirtualTrees.VirtualTree.RewriteEntries` | crates/musicfs-cache/src/tree.rs:545-560 | taking the collected entries out and putting them back one by one, in any order, rewrites them all |
| `VirtualTrees.VirtualTree.ForceRefresh` | crates/musicfs-cache/src/tree.rs:295-304 | in-place refresh does what the model does and keeps the inode counter |
| `TreeRuns.StepExact` | crates/musicfs-cache/src/tree.rs:173-758 | each tree operation keeps agreement if and only if its guard, checkable before the call, holds |
| `TreeRuns.RunConsistentExactly` | crates/musicfs-cache/src/tree.rs:81-758 | over every run from a fresh tree, index and walk agree in all states if and only if every call was made under its guard |
| `TreeRuns.NoInodeReuse` | crates/musicfs-cache/src/tree.rs:110-112 | over every run, guarded or not, and across force_refresh, an inode number never comes to mean another file or directory |
| `TreeRuns.PrefixClashIsReal` | crates/musicfs-cache/src/tree.rs:521-526 | concrete run: with "/Art" beside "/Artist", renaming or recursively removing "/Art" loses agreement in every outcome |
| `GuardWitnesses.GrowGuardsAreReal` | crates/musicfs-cache/src/tree.rs:173-201 | concrete trees where insert_file over or below a file, and mkdir_p through one, lose agreement |
| `GuardWitnesses.RemoveGuardsAreReal` | crates/musicfs-cache/src/tree.rs:665-758 | concrete trees where remove_file on a directory and removing the root lose agreement |
| `GuardWitnesses.MoveGuardsAreReal` | crates/musicfs-cache/src/tree.rs:467-573 | concrete trees where renaming a directory below itself, or the root, passes all checks and loses agreement |
| `GuardWitnesses.UnlinkGuardIsReal` | crates/musicfs-fuse/src/filesystem.rs:653-689 | concrete tree where unlink loses agreement because "/.trash" is a file |
| `GuardWitnesses.RestoreGuardIsReal` | crates/musicfs-cli/src/main.rs:767-806 | concrete mirrored state where restoring "/a/b/c" loses agreement because "/a" is by now a file |
| `TreeBuild.BuildTree` | crates/musicfs-cache/src/tree.rs:792-816 | adding the files of a list one by one builds the model's tree |
| `TreeBuild.BuildShows` | crates/musicfs-cache/src/tree.rs:792-816 | from any list of files with distinct paths, none above another, the tree shows exactly those files and, as directories, all their ancestors |
| `TreeBuild.BuildOrderIrrelevant` | crates/musicfs-cache/src/tree.rs:792-816 | lists of the same files in any order build trees that look the same |
| `TreeBuild.CountsMatchView` | crates/musicfs-cache/src/tree.rs:276-288 | counting file nodes and directory nodes counts the visible files and directories |
| `TreeBuild.BuildFileCount` | crates/musicfs-cache/src/tree.rs:276-288 | the file count of a built tree is the length of the list, and the directory count the number of distinct proper ancestors of the listed files, the root among them |
| `Databases.Database.UpdateVirtualPath` | crates/musicfs-cache/src/db.rs:444-462 | the row with the id gets the path; no other row changes |
| `Databases.Database.MarkTrashed` | crates/musicfs-cache/src/db.rs:886-904 | the row with the id is trashed and remembers its original path; no other row changes |
| `Databases.Database.UnmarkTrashed` | crates/musicfs-cache/src/db.rs:906-915 | the row with the id is no longer trashed and remembers no path |
| `Databases.Database.RenameDirectory` | crates/musicfs-cache/src/db.rs:464-479 | every row path that starts with the old prefix has it replaced by the new one |
| `Databases.Database.ListTrashed` | crates/musicfs-cache/src/db.rs:917-960 | every trashed row that remembers a path is listed exactly once |
| `MusicFsHandlers.MusicFs.ResolvePath` | crates/musicfs-fuse/src/filesystem.rs:91-110 | for an indexed parent the result is the child path; otherwise none |
| `MusicFsHandlers.MusicFs.Unlink` | crates/musicfs-fuse/src/filesystem.rs:627-693 | the handler does what the model does to tree and rows, loses agreement exactly without its guard, and keeps the mirror under it |
| `MusicFsHandlers.MusicFs.Rename` | crates/musicfs-fuse/src/filesystem.rs:738-843 | the handler does what the model does and keeps the mirror under the rename guard; a file's row gets the new path and is untrashed exactly if that takes it out of the trash, no other row changes, and with a directory only the leading part of the paths below it does |
| `MusicFsHandlers.MusicFs.MakeDirectory` | crates/musicfs-fuse/src/filesystem.rs:576-625 | the handler does what the model does to tree and reply; the inode in the reply is the one the path then leads to, and is new |
| `MusicFsHandlers.MusicFs.RemoveDirectory` | crates/musicfs-fuse/src/filesystem.rs:695-736 | the handler refuses paths in the trash, maps each error, and otherwise removes the directory |
| `MusicFsHandlers.MusicFs.ProcessPendingRestores` | crates/musicfs-cli/src/main.rs:755-806 | the nested loops restore, path by path, every file of one listing that the path names or is a directory above |
| `FsModel.UnlinkExact` | crates/musicfs-fuse/src/filesystem.rs:653-689 | unlink keeps agreement if and only if no file stands where it has to make a directory in the trash |
| `FsModel.UnlinkFileMoves` | crates/musicfs-fuse/src/filesystem.rs:653-689 | a guarded unlink of a file moves it with its inode under "/.trash", rewrites and marks its row, and otherwise only adds directories; its success condition is exact |
| `FsModel.UnlinkOk` | crates/musicfs-fuse/src/filesystem.rs:627-693 | a guarded unlink, whatever its reply, keeps rows and file nodes one to one and every file the one it was |
| `FsModel.RenameOneOk` | crates/musicfs-fuse/src/filesystem.rs:803-833 | renaming a file keeps rows and file nodes one to one, succeeds exactly under rename_file's condition, and changes one row only: its path, and its flag and remembered path if and only if it leaves the trash |
| `FsModel.RenamedDirectoryExact` | crates/musicfs-fuse/src/filesystem.rs:769-802 | renaming a directory keeps agreement if and only if the move is good; then rows and files move together |
| `FsReplies.MkdirReplies` | crates/musicfs-fuse/src/filesystem.rs:576-625 | mkdir answers EEXIST, ENOENT or the new inode, each exactly when the visible tree says so; the inode is new, and nothing else changes |
| `FsReplies.RmdirReplies` | crates/musicfs-fuse/src/filesystem.rs:695-736 | rmdir answers EPERM exactly for paths that start with "/.trash" as a string, and otherwise ENOENT, ENOTDIR, ENOTEMPTY or success exactly by what is at the path and below it |
| `FsReplies.TrashcanRefused` | crates/musicfs-cache/src/tree.rs:575-577 | the test for the trash is on strings: "/.trashcan" is not in the trash and yet refused |
| `FsReplies.UnlinkReplies` | crates/musicfs-fuse/src/filesystem.rs:627-693 | a guarded unlink answers EISDIR, ENOENT, EEXIST, EIO or success, each exactly when the visible tree says so; it adds just the directories above the file's place in the trash, moves the file, and marks its row |
| `FsReplies.RenameReplies` | crates/musicfs-fuse/src/filesystem.rs:738-843 | rename answers EEXIST, ENOENT or success by one exact condition for files and directories alike, and changes nothing when it fails |
| `FsReplies.RenameRows` | crates/musicfs-fuse/src/filesystem.rs:769-833 | on success exactly the rows of what moved change: paths, and the trashed flag only of a single file that leaves the trash |
| `FsReplies.LeavesMarked` | crates/musicfs-fuse/src/filesystem.rs:769-802 | concrete row: a trashed file whose directory is renamed out of the trash stays marked as trashed |
| `FsRestore.RestoreOneExact` | crates/musicfs-cli/src/main.rs:767-806 | restoring one file keeps agreement if and only if no file stands above the directory to be recreated |
| `FsRestore.RestoreOneMoves` | crates/musicfs-cli/src/main.rs:767-806 | a guarded restore moves the file back with its inode and clears its row, or only adds directories; when it restores is stated exactly |
| `FsRestore.ClearRestores` | crates/musicfs-cli/src/main.rs:767-806 | a guarded restore of a file whose original path is free, with no file at its parent, brings it back |
| `FsRestore.RestoreAllExact` | crates/musicfs-cli/src/main.rs:755-806 | for any restore list, repeating or overlapping, agreement holds after every file if and only if every guard held; then the mirror holds, every file is the one it was, only listed rows changed, each to its untrashed original place, and every listed file is back whose original path was free, with no file at its parent and no other listed file going back to it, above it or below it |
| `FsRestore.GuardsFromStart` | crates/musicfs-cli/src/main.rs:755-806 | every guard along a restore list holds if each holds at the start and no listed file goes back to a place above another's directory |
| `FsRestore.ScheduleIsSnapshot` | crates/musicfs-cli/src/main.rs:755-767 | whatever paths are asked for, the files tried come from one listing, tracked and with one record per file |
| `FsRestore.ScheduleExact` | crates/musicfs-cli/src/main.rs:760-767 | the files tried are exactly the listed ones whose original path is asked for or lies below a path that is |
| `FsRestore.UnlinkRestoreAlone` | crates/musicfs-cli/src/main.rs:767-806 | unlink followed by restoring that path alone changes nothing but the row's flag and directories in the trash |
| `FsRestore.UnlinkRestoreRoundTrip` | crates/musicfs-cli/src/main.rs:755-806 | unlink followed by a restore of any list of paths, one of which is the file's or a directory above it, repeating or overlapping as it may, brings the file back to its path with the same inode, id, size and time and an untrashed row, with the mirror kept and no file lost, unless another file named goes back to the same path, above it or below it |
| `FsRuns.CallExact` | crates/musicfs-fuse/src/filesystem.rs:576-843 | each filesystem call keeps agreement if and only if its guard holds, and then keeps the mirror and every file |
| `FsRuns.FsRunExactly` | crates/musicfs-fuse/src/filesystem.rs:576-843 | over every run of unlink, rename, mkdir, rmdir and restore, agreement holds throughout if and only if every guard held; then tree and rows are mirrored at the end and no file was lost or changed |
| `ReadDir.ReadChildren` | crates/musicfs-cache/src/tree.rs:136-150 | the children come in name order, each with its inode and kind |
| `ReadDir.EntriesShown` | crates/musicfs-cache/src/tree.rs:136-150 | in a tree in agreement the entries are exactly the paths right below the directory, each with its inode and kind |
| `ReadDir.NameOrderUnique` | crates/musicfs-cache/src/tree.rs:136-150 | a directory has only one listing in name order |
| `ReadDir.LexMeans` | crates/musicfs-cache/src/tree.rs:136-150 | name order: a proper prefix comes first, and otherwise the smaller character at the first difference decides |
| `ReadDir.FillPage` | crates/musicfs-fuse/src/filesystem.rs:349-395 | the two loops over a reply buffer of so many bytes put exactly the entries from the offset on that fit, each with the offset behind it |
| `ReadDir.ReadDirectory` | crates/musicfs-fuse/src/filesystem.rs:337-399 | the handler fills the reply from the list of "." with the directory's inode, ".." with its parent's, and the children in name order; a node that is no directory gives nothing |
| `ReadDir.PageIsSlice` | crates/musicfs-fuse/src/filesystem.rs:349-395 | a page is the longest slice of the whole listing from the offset on that fits into the buffer, and each of its entries carries the position behind it |
| `ReadDir.ResumeListsAll` | crates/musicfs-fuse/src/filesystem.rs:349-395 | with any buffer sizes, resuming from the last offset lists a prefix, each entry once and in order; with buffers that take any one entry, and enough of them, it lists everything and then nothing |
| `ReadDir.TooLargeStalls` | crates/musicfs-fuse/src/filesystem.rs:349-395 | an entry too large for every buffer is never got past |
| `ReadDir.DirectoryListsOnce` | crates/musicfs-fuse/src/filesystem.rs:349-395 | read in pages, an unchanged directory shows ".", ".." and each child exactly once in name order |
| `Chunks.ChunkRefs` | crates/musicfs-sync/src/cdc.rs:61-75 | the chunks are the pieces between the cuts, in order, each with its offset, length and hash |
| `Chunks.ChunkStreaming` | crates/musicfs-sync/src/cdc.rs:77-95 | streaming hands over the same chunks in the same order as collecting them, and counts them |
| `Chunks.ChunkingBuilds` | crates/musicfs-cas/src/fetcher.rs:85-108 | the references made from any content cover it left to right with no gap, each with the hash of its piece |
| `Chunks.ManifestDeterminesContent` | crates/musicfs-cas/src/reader.rs:12-18 | without hash collisions, chunk references fit only one content |
| `CasStores.CasStore.Put` | crates/musicfs-cas/src/store.rs:106-167 | put does what the model does to files, index and counter, for every point at which its input or output may fail |
| `CasStores.CasStore.Get` | crates/musicfs-cas/src/store.rs:169-184 | get answers what the model does: not found, unreadable, corrupt, or the data |
| `CasStores.CasStore.Delete` | crates/musicfs-cas/src/store.rs:220-232 | delete does what the model does, for every point at which it may fail |
| `CasModel.PutAccounting` | crates/musicfs-cas/src/store.rs:106-167 | counter and index stay right if and only if the put is not cut off between creating the file and indexing it; then the limit is kept |
| `CasModel.DeleteAccounting` | crates/musicfs-cas/src/store.rs:220-232 | counter and index stay right if and only if the delete is not cut off between removing the file and its index entry |
| `CasModel.StoreRunAccurate` | crates/musicfs-cas/src/store.rs:106-236 | over every run of puts and deletes, the counter is the sum of what is stored after every call if and only if no call is cut off; and then what is stored never passes the limit |
| `CasModel.PutThenGet` | crates/musicfs-cas/src/store.rs:106-184 | after a successful put the chunk reads back if and only if no file with other bytes was under its hash before |
| `CasModel.DeleteUndoesPut` | crates/musicfs-cas/src/store.rs:106-232 | deleting a chunk just put restores files, index and counter |
| `CasModel.PutAfterDelete` | crates/musicfs-cas/src/store.rs:106-232 | with a file deleted, a new chunk that fitted before still fits if and only if the counter covered the file, or the chunk is long enough to wrap the counter back; otherwise the store says it is full |
| `CasModel.UnderflowIsReal` | crates/musicfs-cas/src/store.rs:220-232 | concrete store: its one file is longer than the counter, and once it is deleted the empty store refuses a chunk of one byte |
| `CasModel.PutAdmits` | crates/musicfs-cas/src/store.rs:106-167 | in a store whose accounts are right a put gives the data's own hash if it is stored already or fits below the limit with all that is stored, and is refused otherwise; it adds that one file or none, and a second put changes nothing |
| `CasModel.OthersRead` | crates/musicfs-cas/src/store.rs:106-236 | a put or delete of one chunk, however it fails, leaves every other chunk as readable as before; a deleted chunk is not found |
| `CasModel.GetVerifies` | crates/musicfs-cas/src/store.rs:169-184 | each answer has its exact cause; with a size limit every chunk handed out has the hash asked for, and without one whatever is stored is handed out |
| `Mending.PutKeepsRoom` | crates/musicfs-cas/src/store.rs:106-167 | with room for the pieces a content lacks, putting back a missing one is never refused and leaves room for the rest |
| `Mending.DeleteKeepsRoom` | crates/musicfs-cas/src/reader.rs:130-135 | deleting a damaged piece does not wrap the counter and leaves room for all that is then lacking |
| `Mending.RoomEnough` | crates/musicfs-cas/src/store.rs:106-131 | whatever is missing or damaged, and whatever the index says, there is room if the counter covers the damaged files of the content and the content fits beside the counter |
| `Mending.LossLeavesRoom` | crates/musicfs-cas/src/store.rs:106-131 | so there is room after any loss behind the store: chunk files that vanished, were cut short, or were overwritten with no more bytes |
| `ContentFetchers.ContentFetcher.RegisterOrigin` | crates/musicfs-cas/src/fetcher.rs:39-42 | an origin is entered under its id |
| `ContentFetchers.ContentFetcher.FetchFile` | crates/musicfs-cas/src/fetcher.rs:55-118 | the manifest of a successful fetch was made from the data the origin gave, with the size and time the metadata claims, whatever happens to the store meanwhile; in peace the errors are exact, no intact chunk is lost or changed, and with room for what is lacking every chunk is there at the end |
| `ContentFetchers.ContentFetcher.StoreChunk` | crates/musicfs-cas/src/fetcher.rs:88-94 | one round stores a missing chunk if it can and goes on without it if not |
| `FileReaders.FileReader.FetchManifest` | crates/musicfs-cas/src/reader.rs:87-89 | a fetched manifest is kept for its file and no other file's changes; in peace it describes what the origin has, and fails exactly as the origin does |
| `FileReaders.FileReader.GetOrFetchManifest` | crates/musicfs-cas/src/reader.rs:73-90 | a cached manifest is used as it is and nothing changes; a missing one is fetched and kept, made from what the origin gave; without a fetcher it is an error |
| `FileReaders.FileReader.LoadChunk` | crates/musicfs-cas/src/reader.rs:122-150 | a chunk is returned only with the bytes of its piece; in peace no intact chunk is harmed, an intact one is returned with the store unchanged, without a fetcher that is the only success, and with the content at the origin and room for what is lacking it always succeeds |
| `FileReaders.FileReader.Refetch` | crates/musicfs-cas/src/reader.rs:127-148 | after fetching again the chunk is returned only with the bytes of its piece, and the file's new manifest is kept; in peace, with the content at the origin and room for what is lacking, a missing chunk is returned |
| `FileReaders.FileReader.Read` | crates/musicfs-cas/src/reader.rs:92-171 | read safety: whatever happens to store and origins while it runs, a successful read returns exactly the window of the content its starting manifest was made from, cut to the claimed size, never a mix; self-healing: in peace, with the content at the origin and room for what is lacking, it succeeds however many chunks have vanished or are damaged, whatever the index says, and leaves those it needed intact; with those it needs intact it succeeds and changes nothing, and without a fetcher only then; afterwards a manifest is kept, the one there was unless something had to be fetched in peace, and then one of what the origin has; no other file's changes |
| `FileReaders.FileReader.ReadTwice` | crates/musicfs-cas/src/reader.rs:73-171 | whatever happens to the origins in between, a second read of a range returns the same bytes if the first needed nothing new, or there was no manifest, or it described what the origin had; otherwise it shows what the origin had at the first |
| `FileReaders.ShareExtends` | crates/musicfs-cas/src/reader.rs:152-164 | the slice taken of a chunk is within it and extends what was read by exactly the chunk's share of the range |
| `FileReaders.ReadRound` | crates/musicfs-cas/src/reader.rs:114-166 | each chunk is skipped or spliced so that the bytes read stay the range up to that chunk's end |
| `FileReaders.RefetchMends` | crates/musicfs-cas/src/reader.rs:137-143 | with room for what is lacking, a missing chunk is there and verifies after a calm fetch |
| `Vorbis.SerializeVorbisComments` | crates/musicfs-cache/src/handlers/flac.rs:204-226 | the loop writes vendor and comments, each with a little-endian 32-bit length |
| `Vorbis.SerializeRoundTrip` | crates/musicfs-cache/src/handlers/flac.rs:204-226 | a reader made from section 8.6 of RFC 9639 gets back the vendor, or "musicfs" if there was none, and every comment in order, and stops right behind them, for any comments within 32-bit lengths |
| `Vorbis.SerializeInjective` | crates/musicfs-cache/src/handlers/flac.rs:204-226 | no two tags are written alike, but for an empty vendor and the default one |
| `Flac.HeaderRoundTrip` | crates/musicfs-cache/src/handlers/flac.rs:47-71 | a written block header reads back if and only if its type is below 128 and its size below 2^24 |
| `Flac.HeaderBits` | crates/musicfs-cache/src/handlers/flac.rs:47-71 | a written header is a flag, seven bits of type, and three bytes of size with the high byte first |
| `Flac.HeaderRewrites` | crates/musicfs-cache/src/handlers/flac.rs:47-71 | a header that was read is written back byte for byte |
| `Flac.Analyze` | crates/musicfs-cache/src/handlers/flac.rs:332-386 | the loop terminates on all inputs and gives the result of the recursive scan, error cases included |
| `FlacBlocks.AnalyzeExact` | crates/musicfs-cache/src/handlers/flac.rs:332-386 | analysis accepts exactly the files made of the marker and well-formed blocks with a STREAMINFO, the last body possibly cut short; audio begins behind the block flagged last, and the last STREAMINFO is reported |
| `FlacBlocks.ErrorsExact` | crates/musicfs-cache/src/handlers/flac.rs:332-386 | each error of the analysis has its exact cause: no marker, or well-formed blocks followed by a header that is cut short, a STREAMINFO of wrong size or cut short, an end without a STREAMINFO, or a block that is cut short |
| `FlacBlocks.ScanHeld` | crates/musicfs-cache/src/handlers/flac.rs:342-375 | a scan over well-formed blocks finds their total length, their last STREAMINFO, and how far it had to look |
| `FlacBlocks.AnalyzePrefix` | crates/musicfs-cache/src/handlers/flac.rs:332-386 | analysing the first n bytes succeeds if and only if analysing the file does and looks no further than n, and then gives the same layout |
| `FlacBlocks.AnalyzeFormatLayout` | crates/musicfs-cli/src/main.rs:996-1036 | analysing the first 64 KiB gives the layout of the whole file, or nothing, and gives nothing exactly when the file is not accepted or its headers reach further |
| `FlacSynthesis.Synthesize` | crates/musicfs-cache/src/handlers/flac.rs:388-431 | the buffer is the marker, the STREAMINFO block and the comment block flagged last; a missing or wrongly sized STREAMINFO is an error |
| `FlacSynthesis.HeaderCarriesTag` | crates/musicfs-cache/src/handlers/flac.rs:388-431 | for every tag whose comments fit, the new header with anything behind it is a FLAC file of exactly two blocks: one of type 0 with the STREAMINFO, and one of type 4 from which a reader gets back vendor and comments |
| `FlacSynthesis.AnalyzeWritten` | crates/musicfs-cache/src/handlers/flac.rs:332-431 | for all comments and audio, analysing the new header with the audio behind it succeeds with the same STREAMINFO; audio begins at the header's end if and only if the comments are shorter than 2^24 bytes |
| `FlacSynthesis.OverlayPreservesAudio` | crates/musicfs-cache/src/handlers/flac.rs:332-431 | for every accepted file and every tag that fits, the file with its header replaced is accepted, has the same STREAMINFO and audio and carries the tag, and replacing its header again with the same tag reproduces it |
| `FlacSynthesis.AudioInside` | crates/musicfs-cache/src/handlers/flac.rs:370-384 | the reported audio start lies inside the file if and only if the last block does |
| `FlacSynthesis.OverrunWitness` | crates/musicfs-cache/src/handlers/flac.rs:370-384 | a concrete accepted file whose reported audio start lies behind its end |
| `Overlays.OverlayReader.Read` | crates/musicfs-cache/src/overlay.rs:66-157 | a successful read returns that window of header plus the origin's audio, or of the plain content if there is no layout; errors come from the handler lookup and synthesis as stated; in peace a healable file never fails |
| `Overlays.OverlayReader.Splice` | crates/musicfs-cache/src/overlay.rs:107-157 | header part and audio part of a read make up the window |
| `Overlays.OverlayReader.ReadThrough` | crates/musicfs-cache/src/overlay.rs:107-157 | windows of any sizes read one after another join to the virtual file with no gap or overlap, whatever chunks were missing or damaged |
| `Overlays.SpliceIsWindow` | crates/musicfs-cache/src/overlay.rs:107-146 | for every offset and size, the bytes taken from the header and those asked of the origin are together that window of header plus audio |
| `Overlays.VirtualFileIsFlac` | crates/musicfs-cache/src/overlay.rs:91-95 | the virtual file of an accepted file is again accepted, with the same STREAMINFO and audio behind the new header, and carries the tag |
| `Overlays.VirtualSizeExact` | crates/musicfs-cache/src/overlay.rs:93-95 | the 64-bit size arithmetic is right if and only if audio does not begin behind the file's end |
| `Evictions.LruEviction.RecordAccess` | crates/musicfs-cache/src/eviction.rs:65-76 | both maps are updated as the model says |
| `Evictions.LruEviction.SelectVictims` | crates/musicfs-cache/src/eviction.rs:78-81 | the victims are the first chunks of the recency list |
| `Evictions.LruEviction.Remove` | crates/musicfs-cache/src/eviction.rs:83-90 | both maps are updated as the model says |
| `Evictions.LruEviction.EvictVictims` | crates/musicfs-cache/src/eviction.rs:41-47 | one batch, whatever state its chunks are in, does to maps, store and bytes_freed what the model does |
| `Evictions.LruEviction.EvictToTarget` | crates/musicfs-cache/src/eviction.rs:27-55 | under the exact condition for it, the loop ends with the store small enough or nothing tracked; whatever state the chunks are in, exactly a front of the readable chunks before the tenth unreadable one is evicted in order of recency, bytes_freed is their bytes and the drop of the counter, and no batch was begun once the store was small enough |
| `EvictionModel.EndsExactly` | crates/musicfs-cache/src/eviction.rs:34-48 | with working deletes and a counter that does not wrap, the eviction ends if and only if no tracked chunk is unreadable, or the counter less the bytes of the readable chunks before the tenth unreadable one is at most the target |
| `EvictionModel.RoundEffect` | crates/musicfs-cache/src/eviction.rs:41-47 | a batch takes its readable chunks from store and list and frees exactly their bytes; unreadable ones stay, and what was within reach is evicted or still is |
| `EvictionModel.RoundsEvict` | crates/musicfs-cache/src/eviction.rs:34-48 | any number of batches, ending or not, evicts a front of the readable chunks before the tenth unreadable one, frees their bytes, and begins no batch once the store is small enough |
| `EvictionModel.IntactEnds` | crates/musicfs-cache/src/eviction.rs:27-55 | with all tracked chunks intact and the counter right the eviction ends, with the whole recency list within reach |
| `EvictionModel.StuckForever` | crates/musicfs-cache/src/eviction.rs:34-48 | concrete store on which the eviction never ends: its one tracked chunk has no file while the counter still has a byte |
| `LruModel.TraceRefinesList` | crates/musicfs-cache/src/eviction.rs:64-91 | over every trace with strictly increasing clock readings the maps are inverse and are a recency list: accesses move to the end, removals take off |
| `LruModel.TraceInverse` | crates/musicfs-cache/src/eviction.rs:64-91 | over every trace whose readings all differ the maps are inverse |
| `LruModel.AccessInverse` | crates/musicfs-cache/src/eviction.rs:65-76 | an access keeps the maps inverse if and only if no other chunk has its reading |
| `LruModel.TraceSound` | crates/musicfs-cache/src/eviction.rs:64-91 | over every trace, whatever the clock, the time map stays inside the inverse of the other |
| `LruModel.EqualReadings` | crates/musicfs-cache/src/eviction.rs:65-90 | two accesses at one reading: the first chunk is never selected again, and removing it loses the second |
| `Prefetch.StepEffect` | crates/musicfs-cache/src/prefetch.rs:143-183 | a step concerns one activity, and takes or returns a permit, or enters or takes out its file, exactly as that activity comes to hold one or stops |
| `Prefetch.StepSafe` | crates/musicfs-cache/src/prefetch.rs:137-184 | every step keeps permits conserved, the set equal to the files of the activities between entering and leaving it, and no file held twice |
| `Prefetch.RunSafe` | crates/musicfs-cache/src/prefetch.rs:137-184 | the same over every interleaving of callers and tasks, panics included |
| `Prefetch.SafeMeans` | crates/musicfs-cache/src/prefetch.rs:137-184 | so never more fetches than permits, never one file twice at once, and at rest all permits are back and the set is empty if and only if no task panicked |
| `Prefetch.OnlyPanics` | crates/musicfs-cache/src/prefetch.rs:137-184 | over every run an activity counts as panicked only if its task panicked in that run |
| `Prefetch.RestIsClean` | crates/musicfs-cache/src/prefetch.rs:137-184 | after every run in which no task panics, at rest the set is empty and all permits are back |
| `Prefetch.OneCall` | crates/musicfs-cache/src/prefetch.rs:137-184 | a call whose file is in flight ends at once, one that finds no permit ends without fetching, any other fetches with its file in the set and a permit held; in the end set and permits are what they were |
| `Prefetch.PanicLocksOut` | crates/musicfs-cache/src/prefetch.rs:137-184 | after a panic the file stays in the set through every later run, and every later call for it ends at its first step with neither set nor permits touched |
| `Prefetch.PanicIsReal` | crates/musicfs-cache/src/prefetch.rs:164-183 | concrete run: one call whose fetch panics, after which everything is at rest with the file still in the set |
| `Prefetch.AlwaysProgress` | crates/musicfs-cache/src/prefetch.rs:137-184 | an unfinished activity can always step, comes closer to its end by it, and disturbs no other |
| `Prefetch.RunsToIdle` | crates/musicfs-cache/src/prefetch.rs:137-184 | any reachable state can be brought to rest |
| `Delta.ScanOrigin` | crates/musicfs-sync/src/delta.rs:123-155 | the worklist scan ends on every finite origin, succeeds exactly when everything below the root is readable, and lists every audio file exactly once with its size and time |
| `Delta.ScanDirectory` | crates/musicfs-sync/src/delta.rs:127-151 | one directory gives exactly its subdirectories and its audio files |
| `Delta.EndsWithIs` | crates/musicfs-sync/src/delta.rs:157-167 | a suffix is compared without regard to letter case |
| `Delta.WorkStep` | crates/musicfs-sync/src/delta.rs:127-138 | a round of the worklist never queues a directory twice and misses none |
| `DeltaChanges.DetectChanges` | crates/musicfs-sync/src/delta.rs:63-117 | it succeeds exactly when all it has to look at is there, and a scan error is told from a read error; applying added and removed, each once, to the cached paths gives the scanned paths; the modified files are exactly those of other size or time with a manifest, each once with its difference |
| `DeltaChanges.Compare` | crates/musicfs-sync/src/delta.rs:83-92 | a cached file is different exactly if size or time differ; its difference is computed if it has a manifest |
| `DeltaChanges.DiffExact` | crates/musicfs-sync/src/delta.rs:190-215 | reuse and fetch weave back to the new manifest in order; old hashes without the orphaned ones plus the fetched ones are the new hashes; the orphaned ones are those of the old chunks that are gone, in order |

## Left out
- FileReaders.FileReader.Read: needs a store with a size limit, because without one chunks are not verified (`CasModel.GetVerifies`); offset plus size is not wrapped at 64 bits.
- FileReaders.FileReader.RegisterManifest: takes only manifests made from some content; a made-up manifest could be read out of its chunks' bounds.
- Overlays.OverlayReader.Read: needs an audio start not behind the audio end, the exact condition under which the size arithmetic is right (`Overlays.VirtualSizeExact`).
- Evictions.LruEviction.EvictToTarget: needs deletes that succeed and a counter that covers the readable tracked chunks, so that it does not wrap; where the loop does not end, `EvictionModel.RoundsEvict` says what each number of batches does. Nothing else touches store and maps meanwhile.
- TreeBuild.BuildShows: is about lists with distinct paths, none an ancestor of another; other lists fall under `TreeGrow.InsertFileExact`.
- FsRestore.UnlinkRestoreRoundTrip: leaves out restores that name another file going back to the same path, above it or below it: which of them gets its place depends on the order of the listing.
- MusicFsHandlers.MusicFs.ProcessPendingRestores: neither reads the restore file nor counts and logs what was restored.
- Databases.Database.RenameDirectory: prefix replacement is exact, without the wildcard and letter case rules of SQL's `LIKE`.
- Databases.Database.ListTrashed: the order of the listing and its filters are left open.
- ReadDir.FillPage: how many bytes an entry takes is any function of the entry; the search directories beside the tree's own are not listed.
- DeltaChanges.DetectChanges: when several cached files share a path, which of them is compared is left open.
- Delta.ScanOrigin: an origin whose links make it endless is not a finite map and not covered; letter case is folded for ASCII.
- FlacSynthesis.Synthesize: starts from the finished comments; making them of the metadata, field by field, is repetitive and includes floating-point formatting.
- Prefetch.RunSafe: has no engine loop; the patterns that choose what to prefetch do not matter to the protocol.
- Inode numbers do not wrap at 64 bits, and node times are not kept apart from the size and time of a file.
- Database failures in the handlers are only logged by the source; the model's rows do not fail.
- The table of user-made directories, which does not mirror the tree, and the metadata columns.
- The estimated virtual size shown before a read: it adds a constant for the header and differs from the size read.
- MP3 through the overlay: the handler's name is not the one the lookup uses, so such files end in the missing-handler error.
- Concurrent puts: the capacity check and the counter are not one step; interference with the store is arbitrary in the reading methods instead.
- Origin failover and routing, search, plugins, configuration, artwork, credentials, metrics and the command line.
- FUSE, SQLite, the tag and hash libraries, and the chunker's choice of cuts.
