/**
 The store as the source keeps it: files, index and counter changed in place.
 */
module CasStores {
  import opened Common
  import opened ByteData
  import opened Chunks
  import opened CasModel

  class CasStore {
    const config: CasConfig
    var files: Files
    var index: set<Hash>
    var currentSize: nat

    ghost function State(): Store
      reads this
    {
      Store(files, index, currentSize)
    }

    /** Opening counts what is on disk. */
    constructor (config: CasConfig, files: Files, index: set<Hash>, total: nat)
      requires total == StoredBytes(files) % U64
      ensures this.config == config && State() == Store(files, index, total)
    {
      this.config, this.files, this.index, currentSize := config, files, index, total;
    }

    method Put(data: Bytes, fault: PutFault) returns (r: Result<Hash, CasError>)
      modifies this
      ensures (State(), r) == CasModel.Put(config, old(State()), data, fault)
    {
      var h := config.hash(data);
      if h in files { return Ok(h); }
      if config.maxSize > 0 {
        var newSize := WrapAdd(currentSize, |data|);
        if newSize > config.maxSize { return Err(StoreFull); }
      }
      if fault.BeforeWrite? { return Err(Io); }
      if fault.TornWrite? {
        files := files[h := fault.left];
        return Err(Io);
      }
      files := files[h := data];
      if fault.BeforeIndex? { return Err(Io); }
      index := index + {h};
      currentSize := WrapAdd(currentSize, |data|);
      return Ok(h);
    }

    method Get(h: Hash, unreadable: bool) returns (r: Result<Bytes, CasError>)
      ensures r == CasModel.Get(config, State(), h, unreadable)
    {
      if !Exists(h) { return Err(NotFound); }
      if unreadable { return Err(Io); }
      var data := files[h];
      if config.maxSize > 0 {
        var v := VerifyIntegrity(h, data);
        if v.Err? { return Err(v.error); }
      }
      return Ok(data);
    }

    predicate Exists(h: Hash)
      reads this
    {
      h in files
    }

    method VerifyIntegrity(expected: Hash, data: Bytes) returns (r: Result<(), CasError>)
      ensures r == if config.hash(data) == expected then Ok(()) else Err(IntegrityError)
    {
      var actual := config.hash(data);
      if actual != expected { return Err(IntegrityError); }
      return Ok(());
    }

    method Delete(h: Hash, fault: DeleteFault) returns (r: Result<(), CasError>)
      modifies this
      ensures (State(), r) == CasModel.Delete(old(State()), h, fault)
    {
      if h in files {
        var length := |files[h]|;
        if fault.BeforeRemove? { return Err(Io); }
        files := files - {h};
        if fault.BeforeUnindex? { return Err(Io); }
        index := index - {h};
        currentSize := WrapSub(currentSize, length);
      }
      return Ok(());
    }

    /** Whatever else happens to the chunk directory: files appear, vanish or
        change, as long as their contents are byte strings the world knows. */
    method Interfere(world: World)
      modifies this
      ensures forall h :: h in files ==> world(files[h])
    {
      var found: Files := *;
      files := map h | h in found && world(found[h]) :: found[h];
      index := *;
      currentSize := *;
    }
  }
}
