/**
 What changed at an origin since it was cached.
 */
module DeltaChanges {
  import opened Common
  import opened Chunks
  import opened Delta

  datatype CachedFile = CachedFile(path: RealPath, size: nat, mtime: int)

  datatype ManifestDiff = ManifestDiff(reuse: seq<ChunkRef>, fetch: seq<ChunkRef>, orphaned: seq<Hash>)

  datatype ChangeSet = ChangeSet(added: seq<ScannedFile>, removed: seq<FileId>, modified: seq<(FileId, ManifestDiff)>)

  // ----- the chunks two manifests share -----

  function Hashes(refs: seq<ChunkRef>): set<Hash> { set c | c in refs :: c.hash }

  /** The references whose hash is in hs, or those whose hash is not. */
  function Select(refs: seq<ChunkRef>, hs: set<Hash>, within: bool): seq<ChunkRef> {
    if refs == [] then []
    else if (refs[0].hash in hs) == within then [refs[0]] + Select(refs[1..], hs, within)
    else Select(refs[1..], hs, within)
  }

  function HashList(refs: seq<ChunkRef>): seq<Hash> {
    if refs == [] then [] else [refs[0].hash] + HashList(refs[1..])
  }

  function ComputeDiff(before: seq<ChunkRef>, after: seq<ChunkRef>): ManifestDiff {
    ManifestDiff(Select(after, Hashes(before), true), Select(after, Hashes(before), false),
                 HashList(Select(before, Hashes(after), false)))
  }

  /** all is a and b woven together, each in its own order. */
  predicate Woven(all: seq<ChunkRef>, a: seq<ChunkRef>, b: seq<ChunkRef>)
    decreases |all|
  {
    if all == [] then a == [] && b == []
    else
      || (a != [] && a[0] == all[0] && Woven(all[1..], a[1..], b))
      || (b != [] && b[0] == all[0] && Woven(all[1..], a, b[1..]))
  }

  lemma {:induction false} SelectWeaves(refs: seq<ChunkRef>, hs: set<Hash>)
    ensures Woven(refs, Select(refs, hs, true), Select(refs, hs, false))
    decreases |refs|
  {
    if refs != [] { SelectWeaves(refs[1..], hs); }
  }

  lemma {:induction false} SelectElements(refs: seq<ChunkRef>, hs: set<Hash>, within: bool)
    ensures forall c :: c in Select(refs, hs, within) <==> c in refs && (c.hash in hs) == within
    decreases |refs|
  {
    if refs != [] {
      SelectElements(refs[1..], hs, within);
      assert forall c :: c in refs <==> c == refs[0] || c in refs[1..];
    }
  }

  lemma {:induction false} HashListElements(refs: seq<ChunkRef>)
    ensures forall h :: h in HashList(refs) <==> h in Hashes(refs)
    decreases |refs|
  {
    if refs != [] {
      HashListElements(refs[1..]);
      assert Hashes(refs) == {refs[0].hash} + Hashes(refs[1..]) by {
        assert forall c :: c in refs <==> c == refs[0] || c in refs[1..];
      }
    }
  }

  lemma {:induction false} HashListAt(refs: seq<ChunkRef>)
    ensures |HashList(refs)| == |refs| && forall i :: 0 <= i < |refs| ==> HashList(refs)[i] == refs[i].hash
    decreases |refs|
  {
    if refs != [] { HashListAt(refs[1..]); }
  }

  /** The old chunks apart: those still there, and those whose hashes are orphaned, one
      by one. */
  ghost predicate Lost(before: seq<ChunkRef>, after: seq<ChunkRef>, kept: seq<ChunkRef>, lost: seq<ChunkRef>) {
    var orphaned := ComputeDiff(before, after).orphaned;
    && (forall c :: c in kept ==> c.hash in Hashes(after)) && (forall c :: c in lost ==> c.hash !in Hashes(after))
    && |orphaned| == |lost| && forall i :: 0 <= i < |lost| ==> orphaned[i] == lost[i].hash
  }

  lemma LostExact(before: seq<ChunkRef>, after: seq<ChunkRef>)
    ensures var kept, lost := Select(before, Hashes(after), true), Select(before, Hashes(after), false);
      Woven(before, kept, lost) && Lost(before, after, kept, lost)
  {
    var lost := Select(before, Hashes(after), false);
    SelectWeaves(before, Hashes(after));
    SelectElements(before, Hashes(after), true);
    SelectElements(before, Hashes(after), false);
    HashListAt(lost);
    hide Select, Woven, HashList;
  }

  /** Reuse and fetch split the new manifest, each in its order: what is reused was
      there before, what is fetched was not. Dropping the orphaned chunks from the
      old ones and adding the fetched ones gives the new ones exactly. */
  lemma DiffExact(before: seq<ChunkRef>, after: seq<ChunkRef>)
    ensures var d := ComputeDiff(before, after);
      && Woven(after, d.reuse, d.fetch)
      && (forall c :: c in d.reuse ==> c.hash in Hashes(before))
      && (forall c :: c in d.fetch ==> c.hash !in Hashes(before))
      && (Hashes(before) - (set h | h in d.orphaned)) + Hashes(d.fetch) == Hashes(after)
      && (set h | h in d.orphaned) !! Hashes(after)
    ensures exists kept, lost :: Woven(before, kept, lost) && Lost(before, after, kept, lost)
  {
    var d := ComputeDiff(before, after);
    var lost := Select(before, Hashes(after), false);
    LostExact(before, after);
    SelectWeaves(after, Hashes(before));
    SelectElements(after, Hashes(before), true);
    SelectElements(after, Hashes(before), false);
    SelectElements(before, Hashes(after), false);
    HashListElements(lost);
    hide Select, Woven, HashList;
    var orphaned := set h | h in d.orphaned;
    forall h ensures h in orphaned <==> h in Hashes(before) && h !in Hashes(after) {
      if h in Hashes(before) && h !in Hashes(after) {
        var c :| c in before && c.hash == h;
        assert c in lost;
      }
    }
    forall h ensures h in Hashes(d.fetch) <==> h in Hashes(after) && h !in Hashes(before) {
      if h in Hashes(after) && h !in Hashes(before) {
        var c :| c in after && c.hash == h;
        assert c in d.fetch;
      }
    }
  }

  // ----- detecting changes -----

  type Cache = map<FileId, CachedFile>
  type Manifests = map<FileId, seq<ChunkRef>>

  function CachedPaths(cached: Cache): set<RealPath> { set id | id in cached :: cached[id].path }

  ghost predicate DistinctPaths(cached: Cache) {
    forall i, j :: i in cached && j in cached && cached[i].path == cached[j].path ==> i == j
  }

  /** How the source tells that a file changed. */
  predicate IsModified(c: CachedFile, size: nat, mtime: int) { c.size != size || c.mtime != mtime }

  /** The origin has another version of this cached file, and there is a manifest to
      compare it with. A changed file without a manifest is passed over. */
  predicate Due(o: Origin, cached: Cache, manifests: Manifests, id: FileId) {
    && id in cached && id in manifests && cached[id].path in o.stats
    && (cached[id].size != o.stats[cached[id].path].size || cached[id].mtime != o.stats[cached[id].path].mtime)
  }

  function NewRefs(o: Origin, hash: Hasher, cut: Cutter, p: RealPath): seq<ChunkRef>
    requires p in o.contents && Partition(cut(o.contents[p]), |o.contents[p]|)
  {
    Refs(ChunkList(hash, cut, o.contents[p]))
  }

  ghost predicate IsChange(o: Origin, hash: Hasher, cut: Cutter, cached: Cache, manifests: Manifests,
                           m: (FileId, ManifestDiff))
    requires Partitions(cut)
  {
    && Due(o, cached, manifests, m.0) && cached[m.0].path in o.contents
    && Partition(cut(o.contents[cached[m.0].path]), |o.contents[cached[m.0].path]|)
    && m.1 == ComputeDiff(manifests[m.0], NewRefs(o, hash, cut, cached[m.0].path))
  }

  ghost function Ids(modified: seq<(FileId, ManifestDiff)>): set<FileId> { set m | m in modified :: m.0 }

  ghost predicate IdsOnce(modified: seq<(FileId, ManifestDiff)>) {
    forall i, j :: 0 <= i < j < |modified| ==> modified[i].0 != modified[j].0
  }

  /** What is cached after the removed files are dropped and the added ones cached. */
  ghost function Applied(cached: Cache, changes: ChangeSet): set<RealPath> {
    (set id | id in cached && id !in changes.removed :: cached[id].path) + Paths(changes.added)
  }

  /** The file known for each path; of several with one path, any. */
  method IndexByPath(cached: Cache) returns (byPath: map<RealPath, FileId>)
    ensures byPath.Keys == CachedPaths(cached)
    ensures forall p :: p in byPath ==> byPath[p] in cached && cached[byPath[p]].path == p
  {
    byPath := map[];
    var todo := cached.Keys;
    while todo != {}
      invariant todo <= cached.Keys
      invariant byPath.Keys == set id | id in cached && id !in todo :: cached[id].path
      invariant forall p :: p in byPath ==> byPath[p] in cached && cached[byPath[p]].path == p
      decreases |todo|
    {
      var id :| id in todo;
      byPath := byPath[cached[id].path := id];
      todo := todo - {id};
    }
  }

  /** The cached files whose path was not scanned. */
  method FindRemoved(cached: Cache, scanned: set<RealPath>) returns (removed: seq<FileId>)
    ensures forall id :: id in removed <==> id in cached && cached[id].path !in scanned
    ensures forall i, j :: 0 <= i < j < |removed| ==> removed[i] != removed[j]
  {
    removed := [];
    var todo := cached.Keys;
    while todo != {}
      invariant todo <= cached.Keys
      invariant forall id :: id in removed <==> id in cached && id !in todo && cached[id].path !in scanned
      invariant forall i, j :: 0 <= i < j < |removed| ==> removed[i] != removed[j]
      decreases |todo|
    {
      var id :| id in todo;
      if cached[id].path !in scanned {
        assert id !in removed;
        removed := removed + [id];
      }
      todo := todo - {id};
    }
  }

  /** Progress through the scanned files: paths not cached were added, changes of
      the others recorded. */
  ghost predicate Compared(o: Origin, hash: Hasher, cut: Cutter, cached: Cache, manifests: Manifests,
                           byPath: map<RealPath, FileId>, done: set<RealPath>,
                           added: seq<ScannedFile>, modified: seq<(FileId, ManifestDiff)>)
    requires Partitions(cut)
  {
    && Paths(added) == done - byPath.Keys && PathsOnce(added)
    && (forall f :: f in added ==> f.path in o.stats && o.stats[f.path] == Stat(f.size, f.mtime))
    && IdsOnce(modified)
    && (forall m :: m in modified ==>
         m.0 in cached && cached[m.0].path in done && IsChange(o, hash, cut, cached, manifests, m))
    && (forall p :: p in done && p in byPath && Due(o, cached, manifests, byPath[p]) ==>
         byPath[p] in Ids(modified) && p in o.contents)
  }

  lemma AddedStep(o: Origin, hash: Hasher, cut: Cutter, cached: Cache, manifests: Manifests,
                  byPath: map<RealPath, FileId>, done: set<RealPath>,
                  added: seq<ScannedFile>, modified: seq<(FileId, ManifestDiff)>, f: ScannedFile)
    requires Partitions(cut) && Compared(o, hash, cut, cached, manifests, byPath, done, added, modified)
    requires f.path !in done && f.path !in byPath && f.path in o.stats && o.stats[f.path] == Stat(f.size, f.mtime)
    ensures Compared(o, hash, cut, cached, manifests, byPath, done + {f.path}, added + [f], modified)
  {
    hide IsChange, Due;
    assert Paths(added + [f]) == Paths(added) + {f.path};
    forall i, j | 0 <= i < j < |added + [f]| ensures (added + [f])[i].path != (added + [f])[j].path {
      if j == |added| { assert added[i] in added && added[i].path in Paths(added); }
    }
  }

  lemma ModifiedStep(o: Origin, hash: Hasher, cut: Cutter, cached: Cache, manifests: Manifests,
                     byPath: map<RealPath, FileId>, done: set<RealPath>,
                     added: seq<ScannedFile>, modified: seq<(FileId, ManifestDiff)>,
                     p: RealPath, more: seq<(FileId, ManifestDiff)>)
    requires Partitions(cut) && Compared(o, hash, cut, cached, manifests, byPath, done, added, modified)
    requires p !in done && p in byPath && byPath[p] in cached && cached[byPath[p]].path == p
    requires more == [] || (|more| == 1 && more[0].0 == byPath[p] && IsChange(o, hash, cut, cached, manifests, more[0]))
    requires Due(o, cached, manifests, byPath[p]) ==> more != [] && p in o.contents
    ensures Compared(o, hash, cut, cached, manifests, byPath, done + {p}, added, modified + more)
  {
    hide IsChange, Due, PathsOnce;
    var all := modified + more;
    assert Paths(added) == (done + {p}) - byPath.Keys;
    hide Paths;
    forall m | m in modified ensures m.0 != byPath[p] { assert cached[m.0].path in done; }
    MoreIds(modified, more);
    assert forall m :: m in all ==> m in modified || m == more[0];
  }

  lemma MoreIds(modified: seq<(FileId, ManifestDiff)>, more: seq<(FileId, ManifestDiff)>)
    requires IdsOnce(modified) && |more| <= 1
    requires more != [] ==> forall m :: m in modified ==> m.0 != more[0].0
    ensures IdsOnce(modified + more) && Ids(modified + more) == Ids(modified) + if more == [] then {} else {more[0].0}
  {
    var all := modified + more;
    assert more != [] ==> more[0] in all;
    assert forall m :: m in all ==> m in modified || (more != [] && m == more[0]);
    assert forall m :: m in modified ==> m in all;
    forall i, j | 0 <= i < j < |all| ensures all[i].0 != all[j].0 {
      assert j >= |modified| ==> all[i] in modified && all[j] == more[0];
    }
  }

  /** Compare one scanned file that is cached: a difference, if there is one. */
  method Compare(o: Origin, hash: Hasher, cut: Cutter, cached: Cache, manifests: Manifests,
                 id: FileId, scanned: ScannedFile) returns (r: Result<seq<(FileId, ManifestDiff)>, DeltaError>)
    requires Partitions(cut) && id in cached && cached[id].path == scanned.path
    requires scanned.path in o.stats && o.stats[scanned.path] == Stat(scanned.size, scanned.mtime)
    ensures r.Err? ==> r == Err(OriginRead) && Due(o, cached, manifests, id) && scanned.path !in o.contents
    ensures r.Ok? ==>
      r.value == [] || (|r.value| == 1 && r.value[0].0 == id && IsChange(o, hash, cut, cached, manifests, r.value[0]))
    ensures r.Ok? && Due(o, cached, manifests, id) ==> r.value != [] && scanned.path in o.contents
  {
    if !IsModified(cached[id], scanned.size, scanned.mtime) { return Ok([]); }
    if id !in manifests { return Ok([]); }
    if scanned.path !in o.contents { return Err(OriginRead); }
    var data := o.contents[scanned.path];
    assert Partition(cut(data), |data|);
    var chunks := ChunkRefs(hash, cut, data);
    return Ok([(id, ComputeDiff(manifests[id], Refs(chunks)))]);
  }

  /** Every difference that has to be computed can be: the content is there. */
  ghost predicate ContentsThere(o: Origin, cached: Cache, manifests: Manifests) {
    forall id :: id in cached && IsAudio(o, cached[id].path) && Due(o, cached, manifests, id) ==>
      cached[id].path in o.contents
  }

  /** Dropping what was removed and caching what was added leaves exactly the
      origin's audio files. */
  ghost predicate ExactPaths(o: Origin, cached: Cache, changes: ChangeSet) {
    && (forall p :: p in Applied(cached, changes) <==> IsAudio(o, p))
    && PathsOnce(changes.added) && Paths(changes.added) !! CachedPaths(cached)
    && (forall f :: f in changes.added ==> f.path in o.stats && o.stats[f.path] == Stat(f.size, f.mtime))
    && (forall id :: id in changes.removed <==> id in cached && !IsAudio(o, cached[id].path))
    && (forall i, j :: 0 <= i < j < |changes.removed| ==> changes.removed[i] != changes.removed[j])
  }

  /** The modified files are changed ones with their differences, each once; and all
      of them, if no path is cached twice. */
  ghost predicate ExactModified(o: Origin, hash: Hasher, cut: Cutter, cached: Cache, manifests: Manifests,
                                changes: ChangeSet)
    requires Partitions(cut)
  {
    && IdsOnce(changes.modified)
    && (forall m :: m in changes.modified ==>
         m.0 in cached && IsAudio(o, cached[m.0].path) && IsChange(o, hash, cut, cached, manifests, m))
    && (DistinctPaths(cached) ==>
         forall id :: id in cached && IsAudio(o, cached[id].path) && Due(o, cached, manifests, id) ==>
           id in Ids(changes.modified))
  }

  /** All scanned files were compared, and what is gone was found. */
  ghost predicate AllCompared(o: Origin, hash: Hasher, cut: Cutter, cached: Cache, manifests: Manifests,
                              byPath: map<RealPath, FileId>, scanned: set<RealPath>, changes: ChangeSet)
    requires Partitions(cut)
  {
    && Compared(o, hash, cut, cached, manifests, byPath, scanned, changes.added, changes.modified)
    && byPath.Keys == CachedPaths(cached)
    && (forall p :: p in byPath ==> byPath[p] in cached && cached[byPath[p]].path == p)
    && (forall p :: p in scanned <==> IsAudio(o, p))
    && (forall id :: id in changes.removed <==> id in cached && cached[id].path !in scanned)
    && (forall i, j :: 0 <= i < j < |changes.removed| ==> changes.removed[i] != changes.removed[j])
  }

  lemma DetectedPaths(o: Origin, hash: Hasher, cut: Cutter, cached: Cache, manifests: Manifests,
                      byPath: map<RealPath, FileId>, scanned: set<RealPath>, changes: ChangeSet)
    requires Partitions(cut) && AllCompared(o, hash, cut, cached, manifests, byPath, scanned, changes)
    ensures ExactPaths(o, cached, changes)
  {
    hide IsAudio, Due, IsChange, Paths, PathsOnce, Ids, IdsOnce;
    forall p ensures p in Applied(cached, changes) <==> IsAudio(o, p) {
      if IsAudio(o, p) && p in byPath { assert byPath[p] !in changes.removed; }
    }
  }

  lemma DetectedModified(o: Origin, hash: Hasher, cut: Cutter, cached: Cache, manifests: Manifests,
                         byPath: map<RealPath, FileId>, scanned: set<RealPath>, changes: ChangeSet)
    requires Partitions(cut) && AllCompared(o, hash, cut, cached, manifests, byPath, scanned, changes)
    ensures ExactModified(o, hash, cut, cached, manifests, changes)
    ensures DistinctPaths(cached) ==> ContentsThere(o, cached, manifests)
  {
    hide IsAudio, Due, IsChange, Paths, PathsOnce, Ids, IdsOnce;
    if DistinctPaths(cached) {
      forall id | id in cached && IsAudio(o, cached[id].path)
        ensures cached[id].path in scanned && cached[id].path in byPath && byPath[cached[id].path] == id
      {
        assert cached[id].path in CachedPaths(cached);
      }
    }
  }

  lemma ContentMissing(o: Origin, cached: Cache, manifests: Manifests, id: FileId)
    requires id in cached && IsAudio(o, cached[id].path) && Due(o, cached, manifests, id)
    requires cached[id].path !in o.contents
    ensures !ContentsThere(o, cached, manifests)
  {
    hide IsAudio, Due;
  }

  /** Detecting changes succeeds exactly when everything it has to look at is there,
      and is exact. */
  method DetectChanges(o: Origin, hash: Hasher, cut: Cutter, cached: Cache, manifests: Manifests)
    returns (r: Result<ChangeSet, DeltaError>)
    requires NamesOnce(o) && Partitions(cut)
    ensures r.Ok? ==>
      Readable(o) && ExactPaths(o, cached, r.value) && ExactModified(o, hash, cut, cached, manifests, r.value)
    ensures DistinctPaths(cached) ==> (r.Ok? <==> Readable(o) && ContentsThere(o, cached, manifests))
    ensures r == Err(OriginScan) <==> !Readable(o)
  {
    hide IsAudioFile, IsDir, IsAudio, Due, IsChange, Readable, ExactPaths, ExactModified, ContentsThere;
    var scan := ScanOrigin(o);
    if scan.Err? { return Err(scan.error); }
    var scanned := scan.value;
    var byPath := IndexByPath(cached);
    var added: seq<ScannedFile>, modified: seq<(FileId, ManifestDiff)> := [], [];
    assert Paths(scanned[..0]) == {};
    assert Compared(o, hash, cut, cached, manifests, byPath, {}, added, modified);
    hide Compared;
    for i := 0 to |scanned|
      invariant Compared(o, hash, cut, cached, manifests, byPath, Paths(scanned[..i]), added, modified)
    {
      var f := scanned[i];
      NextScanned(scanned, i);
      if f.path in byPath {
        var id := byPath[f.path];
        var diff := Compare(o, hash, cut, cached, manifests, id, f);
        if diff.Err? {
          ContentMissing(o, cached, manifests, id);
          return Err(diff.error);
        }
        ModifiedStep(o, hash, cut, cached, manifests, byPath, Paths(scanned[..i]), added, modified, f.path, diff.value);
        modified := modified + diff.value;
      } else {
        AddedStep(o, hash, cut, cached, manifests, byPath, Paths(scanned[..i]), added, modified, f);
        added := added + [f];
      }
    }
    assert scanned[..|scanned|] == scanned;
    var removed := FindRemoved(cached, Paths(scanned));
    var changes := ChangeSet(added, removed, modified);
    DetectedPaths(o, hash, cut, cached, manifests, byPath, Paths(scanned), changes);
    DetectedModified(o, hash, cut, cached, manifests, byPath, Paths(scanned), changes);
    return Ok(changes);
  }

  lemma NextScanned(scanned: seq<ScannedFile>, i: nat)
    requires PathsOnce(scanned) && i < |scanned|
    ensures scanned[i] in scanned && scanned[i].path in Paths(scanned)
    ensures Paths(scanned[..i + 1]) == Paths(scanned[..i]) + {scanned[i].path}
    ensures scanned[i].path !in Paths(scanned[..i])
  {
    assert scanned[..i + 1] == scanned[..i] + [scanned[i]];
  }
}
