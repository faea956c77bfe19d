/**
 Fetching a file from its origin: read all of it, chunk it, store the chunks
 that are missing, and describe it by a manifest.
 */
module ContentFetchers {
  import opened Common
  import opened ByteData
  import opened Chunks
  import opened CasModel
  import opened CasStores
  import opened Mending

  type OriginId = string

  /** What the fetcher knows of a file: the size its metadata claims and where it
      really is. */
  datatype SourceMeta = SourceMeta(size: nat, mtime: int, origin: OriginId, realPath: string)

  datatype FetchError = FileNotFound | OriginNotFound | OriginRead

  ghost predicate AllKnown(world: World, files: Files) {
    forall h :: h in files ==> world(files[h])
  }

  /** Between the two stores nothing was lost or changed and only pieces of d
      were added. */
  ghost predicate Restocked(before: Files, after: Files, refs: seq<ChunkRef>, d: Bytes) {
    && (forall h :: h in before ==> h in after && after[h] == before[h])
    && (forall h :: h in after && h !in before ==> IsPiece(refs, d, |refs|, h, after[h]))
  }

  ghost predicate AllPresent(refs: seq<ChunkRef>, k: nat, files: Files) {
    forall i :: 0 <= i < k && i < |refs| ==> refs[i].hash in files
  }

  /** A calm fetch so far, with the first k chunks behind it: nothing was lost, and
      a roomy store stayed roomy and has those chunks. */
  ghost predicate Progress(c: CasConfig, world: World, start: Store, now: Store, refs: seq<ChunkRef>, d: Bytes,
          k: nat) {
    && Restocked(start.files, now.files, refs, d)
    && (Roomy(c, world, start, refs, d) ==> Roomy(c, world, now, refs, d) && AllPresent(refs, k, now.files))
  }

  lemma ProgressStart(c: CasConfig, world: World, start: Store, refs: seq<ChunkRef>, d: Bytes)
    ensures Progress(c, world, start, start, refs, d, 0)
  {
  }

  lemma ProgressStep(c: CasConfig, world: World, start: Store, now: Store, next: Store, refs: seq<ChunkRef>,
          d: Bytes, k: nat)
    requires Progress(c, world, start, now, refs, d, k) && k < |refs|
    requires Restocked(now.files, next.files, refs, d)
    requires Roomy(c, world, now, refs, d) ==> Roomy(c, world, next, refs, d) && refs[k].hash in next.files
    ensures Progress(c, world, start, next, refs, d, k + 1)
  {
    hide IsPiece, Roomy;
  }

  /** What chunking says of chunk i and its reference. */
  lemma ChunkFacts(hash: Hasher, world: World, cut: Cutter, d: Bytes, i: nat)
    requires Known(hash, world, cut, d) && i < |ChunkList(hash, cut, d)|
    ensures var cs := ChunkList(hash, cut, d);
      && RefOk(hash, world, Refs(cs), d, i) && Refs(cs)[i] == RefOf(cs[i]) && cs[i].data == Piece(Refs(cs), d, i)
  {
    var cs := ChunkList(hash, cut, d);
    ChunkingBuilds(hash, world, cut, d);
    assert RefOk(hash, world, Refs(cs), d, i);
    ChunkIs(hash, d, cut(d), |cut(d)|, i);
  }

  class ContentFetcher {
    const store: CasStore
    const cut: Cutter
    const world: World
    var origins: map<OriginId, map<string, Bytes>>
    var fileMeta: map<FileId, SourceMeta>

    constructor (store: CasStore, cut: Cutter, world: World)
      ensures this.store == store && this.cut == cut && this.world == world
      ensures origins == map[] && fileMeta == map[] && Valid()
    {
      this.store, this.cut, this.world := store, cut, world;
      origins, fileMeta := map[], map[];
    }

    /** Everything the origins hold cuts into byte strings the world knows. */
    ghost predicate Valid()
      reads this
    {
      forall o, p :: o in origins && p in origins[o] ==> Known(store.config.hash, world, cut, origins[o][p])
    }

    method RegisterOrigin(id: OriginId, holds: map<string, Bytes>)
      requires Valid()
      requires forall p :: p in holds ==> Known(store.config.hash, world, cut, holds[p])
      modifies this`origins
      ensures Valid() && origins == old(origins)[id := holds]
    {
      origins := origins[id := holds];
    }

    method RegisterFile(id: FileId, meta: SourceMeta)
      modifies this`fileMeta
      ensures fileMeta == old(fileMeta)[id := meta]
    {
      fileMeta := fileMeta[id := meta];
    }

    /** What the origin of a file has for it now. */
    ghost function Source(id: FileId): Result<Bytes, FetchError>
      reads this
    {
      if id !in fileMeta then Err(FileNotFound)
      else if fileMeta[id].origin !in origins then Err(OriginNotFound)
      else if fileMeta[id].realPath !in origins[fileMeta[id].origin] then Err(OriginRead)
      else Ok(origins[fileMeta[id].origin][fileMeta[id].realPath])
    }

    ghost function RefsFor(d: Bytes): seq<ChunkRef>
      requires Known(store.config.hash, world, cut, d)
    {
      Refs(ChunkList(store.config.hash, cut, d))
    }

    /** Whatever happens at the origins. */
    method Interfere()
      modifies this`origins
      ensures Valid()
    {
      var found: map<OriginId, map<string, Bytes>> := *;
      origins := map o | o in found ::
        map p | p in found[o] && Known(store.config.hash, world, cut, found[o][p]) :: found[o][p];
    }

    /** Fetch a file. In a calm run nobody else touches store or origins and no
        input or output fails; otherwise anything may happen between two steps. */
    method FetchFile(id: FileId, calm: bool)
      returns (r: Result<ChunkManifest, FetchError>, ghost d: Bytes)
      requires Valid() && AllKnown(world, store.files)
      modifies this`origins, store
      ensures Valid() && AllKnown(world, store.files)
      ensures r.Ok? ==> BuiltFrom(store.config.hash, world, r.value.chunks, d)
      ensures r.Ok? ==> id in fileMeta && r.value.totalSize == fileMeta[id].size && r.value.fileId == id
      ensures r.Ok? ==> r.value.mtime >= 0 && (fileMeta[id].mtime >= 0 ==> r.value.mtime == fileMeta[id].mtime)
      ensures r == Err(FileNotFound) <==> id !in fileMeta
      ensures calm ==> (r == Err(OriginNotFound) <==> id in fileMeta && fileMeta[id].origin !in origins)
      ensures calm ==> origins == old(origins)
      ensures calm ==> match Source(id)
        case Ok(data) => d == data && Known(store.config.hash, world, cut, d) && r.Ok? && r.value.chunks == RefsFor(d)
        case Err(e) => r == Err(e)
      ensures calm && r.Err? ==> store.State() == old(store.State())
      ensures calm && r.Ok? ==>
        Progress(store.config, world, old(store.State()), store.State(), r.value.chunks, d, |r.value.chunks|)
    {
      d := [];
      if !calm { Interfere(); }
      if id !in fileMeta { return Err(FileNotFound), d; }
      var meta := fileMeta[id];
      if meta.origin !in origins { return Err(OriginNotFound), d; }
      var unreadable: bool := *;
      if meta.realPath !in origins[meta.origin] || (!calm && unreadable) { return Err(OriginRead), d; }
      var data := origins[meta.origin][meta.realPath];
      d := data;
      var chunkRefs := StoreAll(data, calm);
      var mtime := if meta.mtime < 0 then 0 else meta.mtime;
      return Ok(ChunkManifest(id, meta.size, mtime, chunkRefs)), d;
    }

    /** Chunk the data and store what is missing. */
    method StoreAll(d: Bytes, calm: bool) returns (chunkRefs: seq<ChunkRef>)
      requires Known(store.config.hash, world, cut, d) && AllKnown(world, store.files)
      modifies store
      ensures AllKnown(world, store.files)
      ensures chunkRefs == RefsFor(d) && BuiltFrom(store.config.hash, world, chunkRefs, d)
      ensures calm ==> Progress(store.config, world, old(store.State()), store.State(), chunkRefs, d, |chunkRefs|)
    {
      var chunks := ChunkRefs(store.config.hash, cut, d);
      ghost var refs := RefsFor(d);
      ChunkingBuilds(store.config.hash, world, cut, d);
      ghost var start := store.State();
      chunkRefs := [];
      ProgressStart(store.config, world, start, refs, d);
      hide AllKnown, Known, ChunkList, Refs, BuiltFrom, RefOk, Roomy, IsPiece, Piece, Restocked, AllPresent, Progress;
      for i := 0 to |chunks|
        invariant chunkRefs == refs[..i]
        invariant AllKnown(world, store.files)
        invariant calm ==> Progress(store.config, world, start, store.State(), refs, d, i)
      {
        ChunkFacts(store.config.hash, world, cut, d, i);
        if !calm { store.Interfere(world); }
        ghost var now := store.State();
        StoreChunk(chunks[i], calm, refs, i, d);
        if calm { ProgressStep(store.config, world, start, now, store.State(), refs, d, i); }
        chunkRefs := chunkRefs + [RefOf(chunks[i])];
      }
    }

    /** One round: a chunk the store does not have is put there; if that fails the
        fetch goes on without it. */
    method StoreChunk(chunk: Chunk, calm: bool, ghost refs: seq<ChunkRef>, ghost i: nat,
            ghost d: Bytes)
      requires AllKnown(world, store.files)
      requires BuiltFrom(store.config.hash, world, refs, d) && i < |refs| && refs[i] == RefOf(chunk)
      requires RefOk(store.config.hash, world, refs, d, i) && chunk.data == Piece(refs, d, i)
      modifies store
      ensures AllKnown(world, store.files)
      ensures calm ==> Restocked(old(store.files), store.files, refs, d)
      ensures calm && Roomy(store.config, world, old(store.State()), refs, d) ==>
        Roomy(store.config, world, store.State(), refs, d) && chunk.hash in store.files
    {
      if !store.Exists(chunk.hash) {
        ghost var s := store.State();
        if Roomy(store.config, world, s, refs, d) {
          PutKeepsRoom(store.config, world, s, refs, d, i);
        }
        var fault: PutFault := *;
        if calm { fault := PutHealthy; }
        if fault.TornWrite? && !world(fault.left) { fault := BeforeWrite; }
        var _ := store.Put(chunk.data, fault);
        assert IsPiece(refs, d, |refs|, chunk.hash, chunk.data);
      }
    }
  }
}
