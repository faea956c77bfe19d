/**
 The content-addressed store as a value: chunk files by hash, the index of what
 is stored, and the running size counter, with every way its input and output
 can fail half-way.
 */
module CasModel {
  import opened Common
  import opened ByteData
  import opened Chunks

  /** No slice or file is longer. */
  const MAX_SLICE := 0x7fff_ffff_ffff_ffff

  /** maxSize 0 means no limit, and no integrity checks either. */
  datatype CasConfig = CasConfig(hash: Hasher, maxSize: nat)

  /** Chunk files by hash. */
  type Files = map<Hash, Bytes>

  datatype Store = Store(files: Files, index: set<Hash>, size: nat)

  datatype CasError = NotFound | IntegrityError | StoreFull | Io

  /** How far a put gets before its input or output fails. */
  datatype PutFault = PutHealthy | BeforeWrite | TornWrite(left: Bytes) | BeforeIndex

  /** How far a delete gets. */
  datatype DeleteFault = DeleteHealthy | BeforeRemove | BeforeUnindex

  /** The counter is an unsigned 64-bit atomic: it wraps. */
  function WrapAdd(a: nat, b: nat): nat { (a + b) % U64 }

  function WrapSub(a: nat, b: nat): nat { (a - b) % U64 }

  predicate Full(c: CasConfig, s: Store, data: Bytes) {
    c.maxSize > 0 && WrapAdd(s.size, |data|) > c.maxSize
  }

  function Put(c: CasConfig, s: Store, data: Bytes, fault: PutFault): (Store, Result<Hash, CasError>) {
    var h := c.hash(data);
    if h in s.files then (s, Ok(h))
    else if Full(c, s, data) then (s, Err(StoreFull))
    else match fault
      case BeforeWrite => (s, Err(Io))
      case TornWrite(left) => (s.(files := s.files[h := left]), Err(Io))
      case BeforeIndex => (s.(files := s.files[h := data]), Err(Io))
      case PutHealthy => (Store(s.files[h := data], s.index + {h}, WrapAdd(s.size, |data|)), Ok(h))
  }

  function Get(c: CasConfig, s: Store, h: Hash, unreadable: bool): Result<Bytes, CasError> {
    if h !in s.files then Err(NotFound)
    else if unreadable then Err(Io)
    else if c.maxSize > 0 && c.hash(s.files[h]) != h then Err(IntegrityError)
    else Ok(s.files[h])
  }

  function Delete(s: Store, h: Hash, fault: DeleteFault): (Store, Result<(), CasError>) {
    if h !in s.files then (s, Ok(()))
    else match fault
      case BeforeRemove => (s, Err(Io))
      case BeforeUnindex => (s.(files := s.files - {h}), Err(Io))
      case DeleteHealthy => (Store(s.files - {h}, s.index - {h}, WrapSub(s.size, |s.files[h]|)), Ok(()))
  }

  // ----- what the counter is for -----

  /** The bytes stored in all. */
  ghost function StoredBytes(files: Files): nat {
    if files == map[] then 0
    else var h :| h in files; |files[h]| + StoredBytes(files - {h})
  }

  lemma {:induction false} StoredWithout(files: Files, h: Hash)
    requires h in files
    ensures StoredBytes(files) == |files[h]| + StoredBytes(files - {h})
    decreases |files|
  {
    var g :| g in files && StoredBytes(files) == |files[g]| + StoredBytes(files - {g});
    if g != h {
      StoredWithout(files - {g}, h);
      StoredWithout(files - {h}, g);
      assert files - {g} - {h} == files - {h} - {g};
    }
  }

  lemma StoredWith(files: Files, h: Hash, data: Bytes)
    requires h !in files
    ensures StoredBytes(files[h := data]) == StoredBytes(files) + |data|
  {
    StoredWithout(files[h := data], h);
    assert files[h := data] - {h} == files;
  }

  /** The index lists what is stored and the counter is its size. */
  ghost predicate Accurate(s: Store) {
    s.index == s.files.Keys && s.size == StoredBytes(s.files) % U64
  }

  ghost predicate WithinLimit(c: CasConfig, s: Store) {
    c.maxSize > 0 ==> StoredBytes(s.files) <= c.maxSize <= MAX_SLICE
  }

  /** A put that leaves a file the index does not list. */
  predicate PutLeaks(c: CasConfig, s: Store, data: Bytes, fault: PutFault) {
    c.hash(data) !in s.files && !Full(c, s, data) && (fault.TornWrite? || fault.BeforeIndex?)
  }

  lemma ModAdd(a: nat, b: nat)
    ensures (a % U64 + b) % U64 == (a + b) % U64
  {
  }

  lemma ModSub(a: nat, b: nat)
    requires b <= a
    ensures (a % U64 - b) % U64 == (a - b) % U64
  {
  }

  /** Index and counter stay right exactly when no write is cut off between
      creating the file and indexing it. */
  lemma PutAccounting(c: CasConfig, s: Store, data: Bytes, fault: PutFault)
    requires Accurate(s)
    ensures Accurate(Put(c, s, data, fault).0) <==> !PutLeaks(c, s, data, fault)
    ensures WithinLimit(c, s) && |data| <= MAX_SLICE && !PutLeaks(c, s, data, fault) ==>
      WithinLimit(c, Put(c, s, data, fault).0)
  {
    var h := c.hash(data);
    if h !in s.files {
      StoredWith(s.files, h, data);
      ModAdd(StoredBytes(s.files), |data|);
      hide StoredBytes;
      assert (s.files[h := data]).Keys == s.files.Keys + {h};
    }
  }

  /** Likewise a delete, unless the index entry outlives the file. */
  lemma DeleteAccounting(c: CasConfig, s: Store, h: Hash, fault: DeleteFault)
    requires Accurate(s)
    ensures Accurate(Delete(s, h, fault).0) <==> !(h in s.files && fault.BeforeUnindex?)
    ensures WithinLimit(c, s) ==> WithinLimit(c, Delete(s, h, fault).0)
  {
    if h in s.files {
      StoredWithout(s.files, h);
      ModSub(StoredBytes(s.files), |s.files[h]|);
      hide StoredBytes;
      assert (s.files - {h}).Keys == s.files.Keys - {h};
    }
  }

  // ----- whole runs -----

  datatype StoreCall = PutCall(data: Bytes, putFault: PutFault) | DeleteCall(hash: Hash, deleteFault: DeleteFault)

  function StoreStep(c: CasConfig, s: Store, call: StoreCall): Store {
    match call
    case PutCall(data, fault) => Put(c, s, data, fault).0
    case DeleteCall(h, fault) => Delete(s, h, fault).0
  }

  predicate StoreGuard(c: CasConfig, s: Store, call: StoreCall) {
    match call
    case PutCall(data, fault) => !PutLeaks(c, s, data, fault)
    case DeleteCall(h, fault) => !(h in s.files && fault.BeforeUnindex?)
  }

  function StoreRun(c: CasConfig, s: Store, calls: seq<StoreCall>): Store
    decreases |calls|
  {
    if calls == [] then s else StoreRun(c, StoreStep(c, s, calls[0]), calls[1..])
  }

  /** Index and counter are right after every step of the run. */
  ghost predicate AlwaysAccurate(c: CasConfig, s: Store, calls: seq<StoreCall>)
    decreases |calls|
  {
    Accurate(s) && (calls != [] ==> AlwaysAccurate(c, StoreStep(c, s, calls[0]), calls[1..]))
  }

  predicate StoreGuards(c: CasConfig, s: Store, calls: seq<StoreCall>)
    decreases |calls|
  {
    calls != [] ==> StoreGuard(c, s, calls[0]) && StoreGuards(c, StoreStep(c, s, calls[0]), calls[1..])
  }

  predicate SlicesFit(calls: seq<StoreCall>) {
    forall call :: call in calls && call.PutCall? ==> |call.data| <= MAX_SLICE
  }

  /** Over every run of puts and deletes the counter is the sum of what is stored,
      at every step, exactly when no call is cut off between file and index; and
      what is stored then never passes the limit. */
  lemma {:induction false} StoreRunAccurate(c: CasConfig, s: Store, calls: seq<StoreCall>)
    requires Accurate(s)
    ensures AlwaysAccurate(c, s, calls) <==> StoreGuards(c, s, calls)
    ensures WithinLimit(c, s) && SlicesFit(calls) && StoreGuards(c, s, calls) ==>
      WithinLimit(c, StoreRun(c, s, calls)) && Accurate(StoreRun(c, s, calls))
    decreases |calls|
  {
    if calls != [] {
      var s' := StoreStep(c, s, calls[0]);
      match calls[0] {
        case PutCall(data, fault) => PutAccounting(c, s, data, fault);
        case DeleteCall(h, fault) => DeleteAccounting(c, s, h, fault);
      }
      assert StoreGuard(c, s, calls[0]) <==> Accurate(s');
      assert SlicesFit(calls) ==> SlicesFit(calls[1..]);
      assert StoreGuard(c, s, calls[0]) && WithinLimit(c, s) && SlicesFit(calls) ==> WithinLimit(c, s') by {
        assert calls[0] in calls;
      }
      hide StoreStep, StoreGuard, Accurate, WithinLimit;
      if Accurate(s') { StoreRunAccurate(c, s', calls[1..]); }
    }
  }

  // ----- how the operations relate -----

  /** In a store whose accounts are right a put gives the data's own hash if it is
      there already or fits below the limit, stored bytes and all, and is refused
      otherwise; and it adds that one file or none. */
  lemma PutAdmits(c: CasConfig, s: Store, data: Bytes)
    requires Accurate(s) && WithinLimit(c, s) && |data| <= MAX_SLICE
    ensures var h, (s', r) := c.hash(data), Put(c, s, data, PutHealthy);
      var fits := c.maxSize == 0 || StoredBytes(s.files) + |data| <= c.maxSize;
      && (r == Ok(h) <==> h in s.files || fits)
      && (r == Err(StoreFull) <==> h !in s.files && !fits)
      && (if h !in s.files && fits then s'.files == s.files[h := data] else s' == s)
      && (r.Ok? ==> Put(c, s', data, PutHealthy) == (s', r))
  {
    hide StoredBytes;
  }

  /** A put or a delete of one chunk leaves all others readable as they were. */
  lemma OthersRead(c: CasConfig, s: Store, data: Bytes, h: Hash, putFault: PutFault, deleteFault: DeleteFault, g: Hash,
                   unreadable: bool)
    ensures g != c.hash(data) ==> Get(c, Put(c, s, data, putFault).0, g, unreadable) == Get(c, s, g, unreadable)
    ensures g != h ==> Get(c, Delete(s, h, deleteFault).0, g, unreadable) == Get(c, s, g, unreadable)
    ensures Delete(s, h, deleteFault).1.Ok? ==> Get(c, Delete(s, h, deleteFault).0, h, unreadable) == Err(NotFound)
    ensures Delete(s, h, deleteFault).1.Ok? <==> h !in s.files || deleteFault == DeleteHealthy
  {
  }

  /** A stored chunk reads back, unless a file was there already under its hash
      with other bytes: a put does not repair that one. */
  lemma PutThenGet(c: CasConfig, s: Store, data: Bytes, fault: PutFault)
    requires c.maxSize > 0 && Put(c, s, data, fault).1.Ok?
    ensures var h := c.hash(data);
      Get(c, Put(c, s, data, fault).0, h, false) == Ok(data) <==> (h in s.files ==> s.files[h] == data)
  {
  }

  /** A delete takes back the put of a new chunk. */
  lemma DeleteUndoesPut(c: CasConfig, s: Store, data: Bytes)
    requires Accurate(s) && c.hash(data) !in s.files && !Full(c, s, data)
    ensures Delete(Put(c, s, data, PutHealthy).0, c.hash(data), DeleteHealthy) == (s, Ok(()))
  {
    var h := c.hash(data);
    var s1 := Put(c, s, data, PutHealthy).0;
    assert s1.files - {h} == s.files;
    assert s1.index - {h} == s.index;
    PutAccounting(c, s, data, PutHealthy);
    DeleteAccounting(c, s1, h, DeleteHealthy);
    hide StoredBytes;
  }

  /** After a file was deleted, a new chunk that fitted before still fits exactly when
      the counter covered the file, or the chunk is long enough to wrap the counter
      back: a damaged file longer than the counter makes it wrap, and the store then
      refuses chunks as if it were full. */
  lemma PutAfterDelete(c: CasConfig, s: Store, h: Hash, data: Bytes)
    requires h in s.files && |s.files[h]| <= c.maxSize <= MAX_SLICE && c.maxSize > 0
    requires c.hash(data) !in s.files && s.size + |data| <= c.maxSize
    ensures Put(c, Delete(s, h, DeleteHealthy).0, data, PutHealthy).1.Ok? <==>
      |s.files[h]| <= s.size || |s.files[h]| - s.size <= |data|
    ensures Put(c, Delete(s, h, DeleteHealthy).0, data, PutHealthy).1.Err? ==>
      Put(c, Delete(s, h, DeleteHealthy).0, data, PutHealthy).1 == Err(StoreFull)
  {
    var length := |s.files[h]|;
    if length > s.size {
      assert WrapSub(s.size, length) == U64 + s.size - length;
      assert length - s.size <= |data| ==> WrapAdd(WrapSub(s.size, length), |data|) == s.size - length + |data|;
    }
  }

  /** A store of two bytes whose counter says none, with room for ten. */
  function MiscountedStore(): (CasConfig, Store) {
    (CasConfig((d: Bytes) => Hash(|d|), 10), Store(map[Hash(5) := [1, 2]], {}, 0))
  }

  /** It refuses a chunk of one byte once its only file is deleted. */
  lemma UnderflowIsReal()
    ensures var (c, s) := MiscountedStore();
      && Put(c, s, [7], PutHealthy).1.Ok?
      && Put(c, Delete(s, Hash(5), DeleteHealthy).0, [7], PutHealthy).1 == Err(StoreFull)
  {
    var (c, s) := MiscountedStore();
    assert |s.files[Hash(5)]| == 2 && c.hash([7]) == Hash(1);
    PutAfterDelete(c, s, Hash(5), [7]);
  }

  /** What a read answers: with a limit a chunk is handed out only if it has the hash
      asked for, and without one whatever is stored under it. */
  lemma GetVerifies(c: CasConfig, s: Store, h: Hash, unreadable: bool)
    ensures var r := Get(c, s, h, unreadable);
      && (r == Err(NotFound) <==> h !in s.files)
      && (r == Err(Io) <==> h in s.files && unreadable)
      && (r == Err(IntegrityError) <==> h in s.files && !unreadable && c.maxSize > 0 && c.hash(s.files[h]) != h)
      && (r.Ok? ==> h in s.files && r.value == s.files[h] && (c.maxSize > 0 ==> c.hash(r.value) == h))
  {
  }
}
