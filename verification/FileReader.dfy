/**
 Reading a byte range of a file from its hashed chunks, fetching again what is
 missing or damaged.
 */
module FileReaders {
  import opened Common
  import opened ByteData
  import opened Chunks
  import opened CasModel
  import opened CasStores
  import opened Mending
  import opened ContentFetchers

  datatype ReaderError = ManifestNotFound | Fetch(fetchError: FetchError) | Cas(casError: CasError)

  /** Reference i covers part of the range from lo up to hi. */
  predicate Touches(refs: seq<ChunkRef>, i: nat, lo: nat, hi: nat)
    requires i < |refs|
  {
    !(refs[i].offset + refs[i].size <= lo || refs[i].offset >= hi)
  }

  /** The chunks a read of this range needs are all intact. */
  ghost predicate RangeIntact(c: CasConfig, files: Files, refs: seq<ChunkRef>, k: nat, lo: nat, hi: nat) {
    forall i :: 0 <= i < k && i < |refs| && Touches(refs, i, lo, hi) ==> Intact(c, files, refs[i].hash)
  }

  lemma SliceOfSlice(d: Bytes, a: nat, b: nat, x: nat, y: nat)
    requires x <= y <= b - a && a <= b <= |d|
    ensures d[a..b][x..y] == d[a + x..a + y]
  {
    var u, v := d[a..b][x..y], d[a + x..a + y];
    forall i | 0 <= i < y - x ensures u[i] == v[i] {
      assert u[i] == d[a..b][x + i] == d[a + x + i];
    }
  }

  /** Chunks that verified before still do. */
  ghost predicate KeepsIntact(c: CasConfig, before: Files, after: Files) {
    forall h :: Intact(c, before, h) ==> Intact(c, after, h)
  }

  lemma KeepsRange(c: CasConfig, before: Files, after: Files, refs: seq<ChunkRef>, k: nat, lo: nat, hi: nat)
    requires RangeIntact(c, before, refs, k, lo, hi) && KeepsIntact(c, before, after)
    ensures RangeIntact(c, after, refs, k, lo, hi)
  {
    hide Intact, Touches;
  }

  /** What a read shows when the metadata claims total bytes for d. */
  function Shown(d: Bytes, total: nat, offset: nat, size: nat): Bytes {
    Window(d[..Min(total, |d|)], offset, size)
  }

  lemma ShownBetween(d: Bytes, total: nat, offset: nat, size: nat)
    ensures offset >= total ==> Shown(d, total, offset, size) == []
    ensures offset < total ==> Shown(d, total, offset, size) == Between(d, offset, Min(Min(offset + size, total), |d|))
  {
    var n := Min(total, |d|);
    var hi := Min(offset + size, n);
    if offset < hi { SliceOfSlice(d, 0, n, offset, hi); }
  }

  lemma RangeStep(c: CasConfig, files: Files, refs: seq<ChunkRef>, i: nat, lo: nat, hi: nat)
    requires i < |refs| && RangeIntact(c, files, refs, i, lo, hi)
    ensures (Touches(refs, i, lo, hi) ==> Intact(c, files, refs[i].hash)) <==>
      RangeIntact(c, files, refs, i + 1, lo, hi)
    ensures RangeIntact(c, files, refs, |refs|, lo, hi) ==> RangeIntact(c, files, refs, i + 1, lo, hi)
  {
    hide Touches, Intact;
    if Touches(refs, i, lo, hi) ==> Intact(c, files, refs[i].hash) {
      forall j | 0 <= j < i + 1 && j < |refs| && Touches(refs, j, lo, hi) ensures Intact(c, files, refs[j].hash) {
        assert j == i || j < i;
      }
    }
  }

  lemma RangeShorter(c: CasConfig, files: Files, refs: seq<ChunkRef>, i: nat, lo: nat, hi: nat)
    requires i < |refs|
    ensures RangeIntact(c, files, refs, i + 1, lo, hi) ==> RangeIntact(c, files, refs, i, lo, hi)
    ensures RangeIntact(c, files, refs, |refs|, lo, hi) ==> RangeIntact(c, files, refs, i + 1, lo, hi)
  {
    hide Touches, Intact;
  }

  lemma OnePiece(hash: Hasher, world: World, refs: seq<ChunkRef>, d: Bytes, i: nat)
    requires BuiltFrom(hash, world, refs, d) && i < |refs|
    ensures RefOk(hash, world, refs, d, i)
    ensures Start(refs, i + 1) == refs[i].offset + refs[i].size <= |d| && Start(refs, i) == refs[i].offset
  {
    assert RefOk(hash, world, refs, d, i);
  }

  lemma SkipChunk(d: Bytes, lo: nat, hi: nat, start: nat, end: nat)
    requires start <= end && (end <= lo || start >= hi)
    ensures Between(d, lo, Min(hi, end)) == Between(d, lo, Min(hi, start))
  {
  }

  /** The share of a range that a chunk's data holds. */
  function Share(data: Bytes, start: nat, lo: nat, hi: nat): Bytes
    requires start + |data| > lo && start < hi && lo <= hi
  {
    var readStart := if lo > start then lo - start else 0;
    var readEnd := if hi < start + |data| then hi - start else |data|;
    data[readStart..readEnd]
  }

  lemma ShareIsBetween(d: Bytes, lo: nat, hi: nat, start: nat, size: nat)
    requires start + size <= |d| && start + size > lo && start < hi && lo <= hi
    ensures Share(d[start..start + size], start, lo, hi) == Between(d, Max(lo, start), Min(hi, start + size))
  {
    var from := if lo > start then lo - start else 0;
    var to := if hi < start + size then hi - start else size;
    assert from <= to <= size;
    SliceOfSlice(d, start, start + size, from, to);
    assert start + from == Max(lo, start) && start + to == Min(hi, start + size);
  }

  /** Appended to what the chunks before it gave, the share extends the range. */
  lemma ShareExtends(d: Bytes, lo: nat, hi: nat, start: nat, size: nat)
    requires start + size <= |d| && start + size > lo && start < hi && lo <= hi
    ensures
      Between(d, lo, Min(hi, start)) + Share(d[start..start + size], start, lo, hi) ==
        Between(d, lo, Min(hi, start + size))
  {
    ShareIsBetween(d, lo, hi, start, size);
    hide Share;
    if lo <= start {
      BetweenJoin(d, lo, start, Min(hi, start + size));
    } else {
      assert Between(d, lo, Min(hi, start)) == [];
    }
  }

  /** One round of a read: chunk i, if the range needs it, extends what was read. */
  lemma ReadRound(hash: Hasher, world: World, refs: seq<ChunkRef>, d: Bytes, i: nat, lo: nat, hi: nat)
    requires BuiltFrom(hash, world, refs, d) && i < |refs| && lo <= hi
    ensures RefOk(hash, world, refs, d, i)
    ensures var chunk, upTo := refs[i], Between(d, lo, Min(hi, Start(refs, i)));
      if Touches(refs, i, lo, hi) then
        && |Piece(refs, d, i)| == chunk.size && chunk.offset + chunk.size > lo && chunk.offset < hi
        && Between(d, lo, Min(hi, Start(refs, i + 1))) == upTo + Share(Piece(refs, d, i), chunk.offset, lo, hi)
      else
        Between(d, lo, Min(hi, Start(refs, i + 1))) == upTo
  {
    OnePiece(hash, world, refs, d, i);
    hide Between, Share;
    if Touches(refs, i, lo, hi) {
      ShareExtends(d, lo, hi, refs[i].offset, refs[i].size);
    } else {
      SkipChunk(d, lo, hi, refs[i].offset, refs[i].offset + refs[i].size);
    }
  }

  /** A verified chunk can only be the piece it was made from. */
  lemma OnlyOnePiece(c: CasConfig, world: World, s: Store, refs: seq<ChunkRef>, d: Bytes, i: nat, unreadable: bool)
    requires c.maxSize > 0 && NoCollision(c.hash, world) && AllKnown(world, s.files)
    requires BuiltFrom(c.hash, world, refs, d) && i < |refs|
    ensures RefOk(c.hash, world, refs, d, i)
    ensures Get(c, s, refs[i].hash, unreadable).Ok? ==> Get(c, s, refs[i].hash, unreadable).value == Piece(refs, d, i)
  {
    assert RefOk(c.hash, world, refs, d, i);
  }

  /** After a calm fetch a chunk that was missing is there again, and verifies. */
  lemma RefetchMends(c: CasConfig, world: World, s: Store, s': Store, refs: seq<ChunkRef>, d: Bytes, i: nat)
    requires BuiltFrom(c.hash, world, refs, d) && i < |refs|
    requires Roomy(c, world, s, refs, d) && Progress(c, world, s, s', refs, d, |refs|)
    requires refs[i].hash !in s.files
    ensures Get(c, s', refs[i].hash, false).Ok?
  {
    assert refs[i].hash in s'.files;
    var j :| 0 <= j < |refs| && refs[j].offset + refs[j].size <= |d| &&
      refs[j].hash == refs[i].hash && s'.files[refs[i].hash] == Piece(refs, d, j);
    assert RefOk(c.hash, world, refs, d, j);
  }

  class FileReader {
    const store: CasStore
    const fetcher: ContentFetcher?
    const world: World
    var manifests: map<FileId, ChunkManifest>
    /** What each registered manifest was made from. */
    ghost var contents: map<FileId, Bytes>

    ghost function Fetchers(): set<object> {
      if fetcher == null then {} else {fetcher}
    }

    ghost predicate Valid()
      reads this, store, Fetchers()
    {
      && store.config.maxSize > 0
      && NoCollision(store.config.hash, world)
      && AllKnown(world, store.files)
      && (fetcher != null ==> fetcher.store == store && fetcher.world == world && fetcher.Valid())
      && manifests.Keys == contents.Keys
      && forall id :: id in manifests ==> BuiltFrom(store.config.hash, world, manifests[id].chunks, contents[id])
    }

    constructor (store: CasStore, fetcher: ContentFetcher?, world: World)
      requires store.config.maxSize > 0 && NoCollision(store.config.hash, world) && AllKnown(world, store.files)
      requires fetcher != null ==> fetcher.store == store && fetcher.world == world && fetcher.Valid()
      ensures this.store == store && this.fetcher == fetcher && this.world == world
      ensures manifests == map[] && Valid()
    {
      this.store, this.fetcher, this.world := store, fetcher, world;
      manifests, contents := map[], map[];
    }

    method RegisterManifest(id: FileId, m: ChunkManifest, ghost d: Bytes)
      requires Valid() && BuiltFrom(store.config.hash, world, m.chunks, d)
      modifies this
      ensures Valid() && manifests == old(manifests)[id := m] && contents == old(contents)[id := d]
    {
      manifests, contents := manifests[id := m], contents[id := d];
    }

    /** The origin still holds d, chunked as refs say and as the file's manifest
        says if it has one, and there is room for the pieces of d that are lacking. */
    ghost predicate Mendable(id: FileId, refs: seq<ChunkRef>, d: Bytes)
      requires Valid()
      reads this, store, Fetchers()
    {
      && fetcher != null && fetcher.Source(id) == Ok(d)
      && Known(store.config.hash, world, fetcher.cut, d) && refs == fetcher.RefsFor(d)
      && (id in manifests ==> contents[id] == d && manifests[id].chunks == refs)
      && Roomy(store.config, world, store.State(), refs, d)
    }

    /** However many of its chunks are missing or damaged, the file can be had again
        from its origin. */
    ghost predicate Healable(id: FileId)
      requires Valid()
      reads this, store, Fetchers()
    {
      && fetcher != null && fetcher.Source(id).Ok?
      && var d := fetcher.Source(id).value;
      && Known(store.config.hash, world, fetcher.cut, d)
      && Mendable(id, fetcher.RefsFor(d), d)
    }

    /** The file's manifest claims the size its metadata does. */
    ghost predicate Settled(id: FileId)
      reads this, Fetchers()
    {
      fetcher != null && id in manifests ==>
        id in fetcher.fileMeta && manifests[id].totalSize == fetcher.fileMeta[id].size
    }

    /** Reading changes no file's metadata, and unsettles no manifest. */
    twostate predicate SameSources()
      reads this, Fetchers()
    {
      && (fetcher != null ==> fetcher.fileMeta == old(fetcher.fileMeta))
      && forall id :: old(Settled(id)) ==> Settled(id)
    }

    /** All manifests but id's. */
    ghost function Others(id: FileId): (map<FileId, ChunkManifest>, map<FileId, Bytes>)
      reads this
    {
      (manifests - {id}, contents - {id})
    }

    /** No manifest but id's changes, and that one is not lost. */
    twostate predicate OthersKept(id: FileId)
      reads this
    {
      Others(id) == old(Others(id)) && (id in old(manifests) ==> id in manifests)
    }

    twostate predicate SameManifests()
      reads this
    {
      manifests == old(manifests) && contents == old(contents)
    }

    twostate predicate SameOrigins()
      reads this, Fetchers()
    {
      fetcher != null ==> fetcher.origins == old(fetcher.origins)
    }

    /** The manifest kept for id describes what its origin has now. */
    ghost predicate Current(id: FileId)
      requires Valid()
      reads this, store, Fetchers()
    {
      && fetcher != null && fetcher.Source(id).Ok?
      && var d := fetcher.Source(id).value;
      && Known(store.config.hash, world, fetcher.cut, d) && id in manifests && contents[id] == d
      && manifests[id].chunks == fetcher.RefsFor(d) && manifests[id].totalSize == fetcher.fileMeta[id].size
    }

    /** A manifest that describes what the origin has keeps doing so: if it is fetched
        again, the new one says the same. */
    twostate predicate StaysCurrent(id: FileId)
      requires old(Valid()) && Valid()
      reads this, store, Fetchers()
    {
      old(Current(id)) ==> Current(id) && Described(id) == old(Described(id))
    }

    /** What the manifest kept for id says, but for its time. */
    ghost function Described(id: FileId): Option<(Bytes, seq<ChunkRef>, nat)>
      reads this
    {
      if id in manifests && id in contents then Some((contents[id], manifests[id].chunks, manifests[id].totalSize))
      else None
    }

    /** Fetch the file from its origin and keep the new manifest. */
    method FetchManifest(id: FileId, calm: bool) returns (r: Result<ChunkManifest, FetchError>, ghost d: Bytes)
      requires Valid() && fetcher != null
      modifies this, store, Fetchers()
      ensures Valid() && SameSources() && OthersKept(id) && (calm ==> SameOrigins())
      ensures if r.Ok? then id in manifests && manifests[id] == r.value && contents[id] == d else SameManifests()
      ensures r.Ok? ==> BuiltFrom(store.config.hash, world, r.value.chunks, d)
      ensures r.Ok? ==> id in fetcher.fileMeta && r.value.totalSize == fetcher.fileMeta[id].size
      ensures calm ==> match fetcher.Source(id)
        case Ok(data) => r.Ok? && d == data && Current(id)
        case Err(e) => r == Err(e)
      ensures calm && r.Err? ==> store.State() == old(store.State())
      ensures calm && r.Ok? ==>
        Progress(store.config, world, old(store.State()), store.State(), r.value.chunks, d, |r.value.chunks|)
    {
      r, d := fetcher.FetchFile(id, calm);
      if r.Err? { return; }
      assert manifests[id := r.value] - {id} == manifests - {id} && contents[id := d] - {id} == contents - {id};
      manifests, contents := manifests[id := r.value], contents[id := d];
    }

    /** What a missing and a damaged chunk have in common: fetch the file again, take
        its new manifest, and try once more. */
    method Refetch(id: FileId, h: Hash, calm: bool, ghost refs: seq<ChunkRef>, ghost d: Bytes,
            ghost i: nat)
      returns (r: Result<Bytes, ReaderError>)
      requires Valid() && BuiltFrom(store.config.hash, world, refs, d) && i < |refs| && h == refs[i].hash
      modifies this, store, Fetchers()
      ensures Valid() && SameSources() && OthersKept(id) && (calm ==> SameOrigins())
      ensures RefOk(store.config.hash, world, refs, d, i) && (r.Ok? ==> r.value == Piece(refs, d, i))
      ensures fetcher == null ==> r == Err(Cas(NotFound)) && store.State() == old(store.State()) && SameManifests()
      ensures calm ==> KeepsIntact(store.config, old(store.files), store.files)
      ensures calm && r.Ok? ==> Intact(store.config, store.files, h)
      ensures calm && r.Ok? ==> Current(id)
      ensures calm ==> StaysCurrent(id)
      ensures calm && old(Mendable(id, refs, d)) && h !in old(store.files) ==>
        r.Ok? && Mendable(id, refs, d)
    {
      assert RefOk(store.config.hash, world, refs, d, i);
      if fetcher == null { return Err(Cas(NotFound)); }
      ghost var s := store.State();
      ghost var mendable := Mendable(id, refs, d);
      var m; ghost var e;
      m, e := FetchManifest(id, calm);
      if m.Err? { return Err(Fetch(m.error)); }
      assert calm && mendable ==> e == d && m.value.chunks == refs;
      assert calm && mendable ==> Progress(store.config, world, s, store.State(), refs, d, |refs|);
      if !calm { store.Interfere(world); }
      var unreadable: bool := *;
      if calm { unreadable := false; }
      OnlyOnePiece(store.config, world, store.State(), refs, d, i, unreadable);
      if calm && mendable && h !in s.files {
        RefetchMends(store.config, world, s, store.State(), refs, d, i);
      }
      var got := store.Get(h, unreadable);
      if got.Err? { return Err(Cas(got.error)); }
      return Ok(got.value);
    }

    /** Get one chunk, fetching the file again if it is missing or damaged. */
    method LoadChunk(id: FileId, h: Hash, calm: bool, ghost refs: seq<ChunkRef>, ghost d: Bytes,
            ghost i: nat)
      returns (r: Result<Bytes, ReaderError>)
      requires Valid() && BuiltFrom(store.config.hash, world, refs, d) && i < |refs| && h == refs[i].hash
      modifies this, store, Fetchers()
      ensures Valid() && SameSources() && OthersKept(id) && (calm ==> SameOrigins())
      ensures RefOk(store.config.hash, world, refs, d, i) && (r.Ok? ==> r.value == Piece(refs, d, i))
      ensures calm && fetcher == null ==>
        && SameManifests()
        && (r.Ok? <==> Intact(store.config, old(store.files), h))
        && (r.Ok? ==> store.State() == old(store.State()))
        && (r.Err? ==> r == Err(Cas(NotFound)))
      ensures calm && Intact(store.config, old(store.files), h) ==>
        r.Ok? && store.State() == old(store.State()) && SameManifests()
      ensures calm && !Intact(store.config, old(store.files), h) && r.Ok? ==> Current(id)
      ensures calm ==> StaysCurrent(id)
      ensures calm ==> KeepsIntact(store.config, old(store.files), store.files)
      ensures calm && r.Ok? ==> Intact(store.config, store.files, h)
      ensures calm && old(Mendable(id, refs, d)) ==> r.Ok? && Mendable(id, refs, d)
    {
      hide Known, Roomy, RefOk, Piece, BuiltFrom, NoCollision;
      if !calm { store.Interfere(world); }
      var unreadable: bool := *;
      if calm { unreadable := false; }
      OnlyOnePiece(store.config, world, store.State(), refs, d, i, unreadable);
      var got := store.Get(h, unreadable);
      match got {
        case Ok(data) =>
          return Ok(data);
        case Err(IntegrityError) =>
          var fault: DeleteFault := *;
          if calm { fault := DeleteHealthy; }
          if Roomy(store.config, world, store.State(), refs, d) {
            DeleteKeepsRoom(store.config, world, store.State(), refs, d, i);
          }
          var _ := store.Delete(h, fault);
          r := Refetch(id, h, calm, refs, d, i);
        case Err(NotFound) =>
          r := Refetch(id, h, calm, refs, d, i);
        case Err(e) =>
          return Err(Cas(e));
      }
    }

    /** A manifest once fetched is kept, and read by from then on. */
    method GetOrFetchManifest(id: FileId, calm: bool)
      returns (r: Result<ChunkManifest, ReaderError>, ghost d: Bytes)
      requires Valid()
      modifies this, store, Fetchers()
      ensures Valid() && SameSources() && OthersKept(id) && (calm ==> SameOrigins())
      ensures r.Ok? ==> BuiltFrom(store.config.hash, world, r.value.chunks, d)
      ensures if r.Ok? then id in manifests && manifests[id] == r.value && contents[id] == d else SameManifests()
      ensures id in old(manifests) ==> r.Ok? && store.State() == old(store.State()) && SameManifests()
      ensures id !in old(manifests) ==>
        if fetcher == null then r == Err(ManifestNotFound)
        else r.Ok? ==> id in fetcher.fileMeta && r.value.totalSize == fetcher.fileMeta[id].size
      ensures calm && id !in old(manifests) && r.Ok? ==> Current(id)
      ensures calm && old(Healable(id)) ==>
        r.Ok? && old(fetcher.Source(id)) == Ok(d) && Mendable(id, r.value.chunks, d)
    {
      d := [];
      hide Known, Roomy, BuiltFrom, IsPiece;
      if id in manifests { return Ok(manifests[id]), contents[id]; }
      if fetcher == null { return Err(ManifestNotFound), d; }
      var m;
      m, d := FetchManifest(id, calm);
      if m.Err? { return Err(Fetch(m.error)), d; }
      return Ok(m.value), d;
    }

    /** One chunk's turn: its share of the range is nothing if they do not touch. */
    method ReadChunk(id: FileId, refs: seq<ChunkRef>, i: nat, offset: nat, end: nat, calm: bool,
            ghost d: Bytes)
      returns (r: Result<Bytes, ReaderError>)
      requires Valid() && BuiltFrom(store.config.hash, world, refs, d) && i < |refs| && offset <= end
      modifies this, store, Fetchers()
      ensures Valid() && SameSources() && OthersKept(id) && (calm ==> SameOrigins())
      ensures r.Ok? ==>
        Between(d, offset, Min(end, Start(refs, i + 1))) == Between(d, offset, Min(end, Start(refs, i))) + r.value
      ensures calm && old(Mendable(id, refs, d)) ==> r.Ok? && Mendable(id, refs, d)
      ensures calm ==> StaysCurrent(id)
      ensures calm && r.Ok? && RangeIntact(store.config, old(store.files), refs, i, offset, end) ==>
        RangeIntact(store.config, store.files, refs, i + 1, offset, end)
      ensures calm && RangeIntact(store.config, old(store.files), refs, i + 1, offset, end) ==>
        r.Ok? && store.State() == old(store.State()) && SameManifests()
      ensures calm && r.Ok? && RangeIntact(store.config, old(store.files), refs, i, offset, end) ==>
        || RangeIntact(store.config, old(store.files), refs, i + 1, offset, end)
        || (fetcher != null && Current(id))
    {
      ReadRound(store.config.hash, world, refs, d, i, offset, end);
      ghost var now := store.files;
      ghost var intact := RangeIntact(store.config, now, refs, i, offset, end);
      if intact { RangeStep(store.config, now, refs, i, offset, end); }
      RangeShorter(store.config, now, refs, i, offset, end);
      hide BuiltFrom, RefOk, Start, Valid, Mendable, Known, Roomy, RangeIntact, KeepsIntact, Intact, Touches,
        Between, Share, Piece, Current, Settled, Others;
      if !Touches(refs, i, offset, end) { return Ok([]); }
      var got := LoadChunk(id, refs[i].hash, calm, refs, d, i);
      if got.Err? { return got; }
      if calm && intact {
        KeepsRange(store.config, now, store.files, refs, i, offset, end);
        RangeStep(store.config, store.files, refs, i, offset, end);
      }
      return Ok(Share(got.value, refs[i].offset, offset, end));
    }

    /** The chunks that touch the range, one after another. */
    method ReadChunks(id: FileId, refs: seq<ChunkRef>, offset: nat, end: nat, calm: bool,
            ghost d: Bytes)
      returns (r: Result<Bytes, ReaderError>)
      requires Valid() && BuiltFrom(store.config.hash, world, refs, d) && offset <= end
      modifies this, store, Fetchers()
      ensures Valid() && SameSources() && OthersKept(id) && (calm ==> SameOrigins())
      ensures r.Ok? ==> r.value == Between(d, offset, Min(end, |d|))
      ensures calm && old(Mendable(id, refs, d)) ==> r.Ok? && Mendable(id, refs, d)
      ensures calm ==> StaysCurrent(id)
      ensures calm && r.Ok? ==> RangeIntact(store.config, store.files, refs, |refs|, offset, end)
      ensures calm && RangeIntact(store.config, old(store.files), refs, |refs|, offset, end) ==>
        r.Ok? && store.State() == old(store.State()) && SameManifests()
      ensures calm && r.Ok? ==>
        || RangeIntact(store.config, old(store.files), refs, |refs|, offset, end)
        || (fetcher != null && Current(id))
    {
      ghost var files := store.files;
      ghost var whole := RangeIntact(store.config, files, refs, |refs|, offset, end);
      var result: Bytes := [];
      assert Start(refs, |refs|) == |d|;
      assert Start(refs, 0) == 0;
      BetweenEmpty(d, offset);
      assert RangeIntact(store.config, files, refs, 0, offset, end) && Between(d, offset, Min(end, 0)) == [];
      hide BuiltFrom, Start, Valid, Mendable, RangeIntact, Between, Current, Settled, Others, Described;
      for i := 0 to |refs|
        invariant Valid() && SameSources() && OthersKept(id) && (calm ==> SameOrigins())
        invariant result == Between(d, offset, Min(end, Start(refs, i)))
        invariant calm && old(Mendable(id, refs, d)) ==> Mendable(id, refs, d)
        invariant calm ==> StaysCurrent(id)
        invariant calm ==> RangeIntact(store.config, store.files, refs, i, offset, end)
        invariant calm && whole ==> store.State() == old(store.State()) && SameManifests()
        invariant calm ==>
          || (fetcher != null && Current(id))
          || (store.files == files && RangeIntact(store.config, files, refs, i, offset, end))
      {
        RangeShorter(store.config, files, refs, i, offset, end);
        var share := ReadChunk(id, refs, i, offset, end, calm, d);
        if share.Err? { return share; }
        result := result + share.value;
      }
      return Ok(result);
    }

    /** The range can be read by the manifest kept for id without fetching anything. */
    ghost predicate AtHand(id: FileId, offset: nat, size: nat)
      reads this, store
    {
      id in manifests && (offset < manifests[id].totalSize ==>
        RangeIntact(store.config, store.files, manifests[id].chunks, |manifests[id].chunks|,
                    offset, Min(offset + size, manifests[id].totalSize)))
    }

    /** Read a byte range. start is the manifest the read goes by and d the content
        that manifest was made from. Whatever happens to store and origins while
        it runs, a read that succeeds returns that content's bytes and no others;
        left in peace it heals every missing or damaged chunk it needs, if the origin
        still has the content and the store has room. Intact chunks are enough for it to
        succeed, and without a fetcher they are needed too. A file that was read has a
        manifest from then on: the one it had, unless something had to be fetched. */
    method Read(id: FileId, offset: nat, size: nat, calm: bool)
      returns (r: Result<Bytes, ReaderError>, ghost start: ChunkManifest, ghost d: Bytes)
      requires Valid()
      modifies this, store, Fetchers()
      ensures Valid() && SameSources() && OthersKept(id) && (calm ==> SameOrigins())
      ensures id in old(manifests) ==> start == old(manifests)[id] && d == old(contents)[id]
      ensures id !in old(manifests) && r.Ok? ==>
        fetcher != null && id in fetcher.fileMeta && start.totalSize == fetcher.fileMeta[id].size
      ensures old(Settled(id)) && r.Ok? && fetcher != null ==>
        id in fetcher.fileMeta && start.totalSize == fetcher.fileMeta[id].size
      ensures r.Ok? ==> BuiltFrom(store.config.hash, world, start.chunks, d)
      ensures r.Ok? ==> r.value == Shown(d, start.totalSize, offset, size)
      ensures r.Ok? ==> id in manifests
      ensures calm && old(Healable(id)) ==>
        r.Ok? && old(fetcher.Source(id)) == Ok(d) && fetcher.Source(id) == Ok(d) && Healable(id)
      ensures calm && r.Ok? && offset < start.totalSize ==>
        RangeIntact(store.config, store.files, start.chunks, |start.chunks|,
                    offset, Min(offset + size, start.totalSize))
      ensures calm && old(AtHand(id, offset, size)) ==>
        r.Ok? && store.State() == old(store.State()) && SameManifests()
      ensures calm && !old(AtHand(id, offset, size)) && r.Ok? ==> Current(id)
      ensures calm && id !in old(manifests) && r.Ok? ==>
        d == contents[id] && start.chunks == manifests[id].chunks && start.totalSize == manifests[id].totalSize
      ensures calm && fetcher == null && r.Ok? ==> old(AtHand(id, offset, size))
    {
      start, d := ChunkManifest(id, 0, 0, []), [];
      var m;
      m, d := GetOrFetchManifest(id, calm);
      if m.Err? { return Err(m.error), start, d; }
      var manifest := m.value;
      start := manifest;
      ShownBetween(d, manifest.totalSize, offset, size);
      if offset >= manifest.totalSize { return Ok([]), start, d; }
      var end := Min(offset + size, manifest.totalSize);
      r := ReadChunks(id, manifest.chunks, offset, end, calm, d);
    }

    /** The same range twice, with anything happening to the origins in between: if the
        first read needed nothing new, or the manifest kept was none or described what
        the origin had, the second returns the same bytes. Otherwise it goes by a
        manifest of what the origin had at the first. */
    method ReadTwice(id: FileId, offset: nat, size: nat)
      returns (first: Result<Bytes, ReaderError>, second: Result<Bytes, ReaderError>, ghost e: Bytes)
      requires Valid()
      modifies this, store, Fetchers()
      ensures Valid()
      ensures first.Ok? && (id in old(manifests) ==> old(AtHand(id, offset, size)) || old(Current(id))) ==>
        second == first
      ensures first.Ok? && !old(AtHand(id, offset, size)) ==>
        fetcher != null && old(fetcher.Source(id)) == Ok(e)
        && (second.Ok? ==> second.value == Shown(e, old(fetcher.fileMeta)[id].size, offset, size))
    {
      hide RangeIntact, BuiltFrom, Known, Roomy, Mendable, Healable, Settled, Others, Shown;
      ghost var start, d;
      first, start, d := Read(id, offset, size, true);
      e := if id in contents then contents[id] else [];
      if fetcher != null { fetcher.Interfere(); }
      ghost var start', d';
      second, start', d' := Read(id, offset, size, true);
    }
  }
}
