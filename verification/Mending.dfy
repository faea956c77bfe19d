/**
 When a store has room to take back the chunks of one file, however many of
 them are missing or damaged, and whatever its index and counter say.
 */
module Mending {
  import opened Common
  import opened ByteData
  import opened Chunks
  import opened CasModel

  /** The data under h is one of the first k pieces of d. */
  ghost predicate IsPiece(refs: seq<ChunkRef>, d: Bytes, k: nat, h: Hash, data: Bytes) {
    exists i :: 0 <= i < k && i < |refs| && refs[i].offset + refs[i].size <= |d| &&
      refs[i].hash == h && data == Piece(refs, d, i)
  }

  /** The chunk is stored under its hash and verifies. */
  ghost predicate Intact(c: CasConfig, files: Files, h: Hash) {
    h in files && c.hash(files[h]) == h
  }

  /** The first k pieces of d, by their hashes. */
  ghost function Pieces(refs: seq<ChunkRef>, d: Bytes, k: nat): Files
    requires k <= |refs|
  {
    if k == 0 then map[]
    else
      var before := Pieces(refs, d, k - 1);
      if refs[k - 1].offset + refs[k - 1].size <= |d| then before[refs[k - 1].hash := Piece(refs, d, k - 1)] else before
  }

  /** The pieces of d that the store does not have, or not as they should be. */
  ghost function Lacking(c: CasConfig, files: Files, refs: seq<ChunkRef>, d: Bytes): Files {
    var pieces := Pieces(refs, d, |refs|);
    map h | h in pieces && !Intact(c, files, h) :: pieces[h]
  }

  /** What lies damaged under the hashes of d's pieces. */
  ghost function Damaged(c: CasConfig, files: Files, refs: seq<ChunkRef>, d: Bytes): Files {
    var pieces := Pieces(refs, d, |refs|);
    map h | h in pieces && h in files && c.hash(files[h]) != h :: files[h]
  }

  /** A counter of this size covers the damaged bytes and leaves room for the lacking
      ones. */
  ghost predicate Space(c: CasConfig, size: nat, damaged: nat, lacking: nat) {
    c.maxSize > 0 ==> damaged <= size && size + lacking <= c.maxSize <= MAX_SLICE
  }

  /** The counter, right or wrong, covers what lies damaged under d's hashes, and
      leaves room under the limit for the pieces of d that are lacking. */
  ghost predicate Roomy(c: CasConfig, world: World, s: Store, refs: seq<ChunkRef>, d: Bytes) {
    && NoCollision(c.hash, world) && BuiltFrom(c.hash, world, refs, d)
    && Space(c, s.size, StoredBytes(Damaged(c, s.files, refs, d)), StoredBytes(Lacking(c, s.files, refs, d)))
  }

  /** Pieces with one hash are one piece. */
  lemma {:induction false} PieceUnderHash(hash: Hasher, world: World, refs: seq<ChunkRef>, d: Bytes, k: nat, i: nat)
    requires NoCollision(hash, world) && BuiltFrom(hash, world, refs, d) && i < k <= |refs|
    ensures RefOk(hash, world, refs, d, i)
    ensures refs[i].hash in Pieces(refs, d, k) && Pieces(refs, d, k)[refs[i].hash] == Piece(refs, d, i)
    decreases k
  {
    assert RefOk(hash, world, refs, d, i) && RefOk(hash, world, refs, d, k - 1);
    hide BuiltFrom, RefOk, Start, RefFits;
    if i < k - 1 {
      PieceUnderHash(hash, world, refs, d, k - 1, i);
    }
  }

  lemma AfterPut(c: CasConfig, files: Files, refs: seq<ChunkRef>, d: Bytes, h: Hash)
    requires h in Pieces(refs, d, |refs|) && h !in files && c.hash(Pieces(refs, d, |refs|)[h]) == h
    ensures var piece := Pieces(refs, d, |refs|)[h];
      var files' := files[h := piece];
      && Damaged(c, files', refs, d) == Damaged(c, files, refs, d)
      && StoredBytes(Lacking(c, files, refs, d)) == |piece| + StoredBytes(Lacking(c, files', refs, d))
  {
    hide Pieces;
    var pieces := Pieces(refs, d, |refs|);
    var files' := files[h := pieces[h]];
    assert Damaged(c, files', refs, d) == Damaged(c, files, refs, d);
    assert Lacking(c, files', refs, d) == Lacking(c, files, refs, d) - {h};
    assert h in Lacking(c, files, refs, d) && Lacking(c, files, refs, d)[h] == pieces[h];
    StoredWithout(Lacking(c, files, refs, d), h);
    hide StoredBytes;
  }

  lemma AfterDelete(c: CasConfig, files: Files, refs: seq<ChunkRef>, d: Bytes, h: Hash)
    requires h in Pieces(refs, d, |refs|) && h in files && !Intact(c, files, h)
    ensures var files' := files - {h};
      && Lacking(c, files', refs, d) == Lacking(c, files, refs, d)
      && StoredBytes(Damaged(c, files, refs, d)) == |files[h]| + StoredBytes(Damaged(c, files', refs, d))
  {
    hide Pieces;
    var files' := files - {h};
    assert Lacking(c, files', refs, d) == Lacking(c, files, refs, d);
    assert Damaged(c, files', refs, d) == Damaged(c, files, refs, d) - {h};
    assert h in Damaged(c, files, refs, d) && Damaged(c, files, refs, d)[h] == files[h];
    StoredWithout(Damaged(c, files, refs, d), h);
    hide StoredBytes;
  }

  lemma PutFits(c: CasConfig, s: Store, data: Bytes, damaged: nat, lacking: nat)
    requires Space(c, s.size, damaged, |data| + lacking) && c.hash(data) !in s.files
    ensures var (s', r) := Put(c, s, data, PutHealthy);
      r == Ok(c.hash(data)) && s'.files == s.files[c.hash(data) := data] && Space(c, s'.size, damaged, lacking)
  {
  }

  lemma DeleteFits(c: CasConfig, s: Store, h: Hash, damaged: nat, lacking: nat)
    requires h in s.files && Space(c, s.size, |s.files[h]| + damaged, lacking)
    ensures var s' := Delete(s, h, DeleteHealthy).0;
      s'.files == s.files - {h} && Space(c, s'.size, damaged, lacking)
  {
  }

  /** Putting back a missing chunk is never refused, and uses up just its own room. */
  lemma PutKeepsRoom(c: CasConfig, world: World, s: Store, refs: seq<ChunkRef>, d: Bytes, i: nat)
    requires Roomy(c, world, s, refs, d) && i < |refs| && refs[i].hash !in s.files
    ensures RefOk(c.hash, world, refs, d, i)
    ensures var (s', r) := Put(c, s, Piece(refs, d, i), PutHealthy);
      r == Ok(refs[i].hash) && Roomy(c, world, s', refs, d) && s'.files == s.files[refs[i].hash := Piece(refs, d, i)]
  {
    PieceUnderHash(c.hash, world, refs, d, |refs|, i);
    assert c.hash(Piece(refs, d, i)) == refs[i].hash;
    hide RefOk, Piece, BuiltFrom, NoCollision, Pieces, StoredBytes, Lacking, Damaged, Space, Put;
    AfterPut(c, s.files, refs, d, refs[i].hash);
    var piece := Piece(refs, d, i);
    var files' := s.files[refs[i].hash := piece];
    PutFits(c, s, piece, StoredBytes(Damaged(c, s.files, refs, d)), StoredBytes(Lacking(c, files', refs, d)));
  }

  /** Deleting a damaged chunk of d does not wrap the counter. */
  lemma DeleteKeepsRoom(c: CasConfig, world: World, s: Store, refs: seq<ChunkRef>, d: Bytes, i: nat)
    requires Roomy(c, world, s, refs, d) && i < |refs|
    requires refs[i].hash in s.files && !Intact(c, s.files, refs[i].hash)
    ensures Roomy(c, world, Delete(s, refs[i].hash, DeleteHealthy).0, refs, d)
  {
    PieceUnderHash(c.hash, world, refs, d, |refs|, i);
    hide RefOk, Piece, BuiltFrom, NoCollision, Pieces, StoredBytes, Lacking, Damaged, Space, Delete;
    AfterDelete(c, s.files, refs, d, refs[i].hash);
    var files' := s.files - {refs[i].hash};
    DeleteFits(c, s, refs[i].hash, StoredBytes(Damaged(c, files', refs, d)), StoredBytes(Lacking(c, s.files, refs, d)));
  }

  // ----- when there is room -----

  lemma {:induction false} SubsetBytes(files: Files, within: Files)
    requires forall h :: h in files ==> h in within && |files[h]| <= |within[h]|
    ensures StoredBytes(files) <= StoredBytes(within)
    decreases |files|
  {
    if files != map[] {
      var h :| h in files;
      StoredWithout(files, h);
      StoredWithout(within, h);
      SubsetBytes(files - {h}, within - {h});
    }
  }

  /** All pieces together are no longer than d. */
  lemma {:induction false} PieceBytes(hash: Hasher, world: World, refs: seq<ChunkRef>, d: Bytes, k: nat)
    requires BuiltFrom(hash, world, refs, d) && k <= |refs|
    ensures StoredBytes(Pieces(refs, d, k)) <= Start(refs, k)
    decreases k
  {
    if k > 0 {
      assert RefOk(hash, world, refs, d, k - 1);
      var before, h, piece := Pieces(refs, d, k - 1), refs[k - 1].hash, Piece(refs, d, k - 1);
      PieceBytes(hash, world, refs, d, k - 1);
      assert Pieces(refs, d, k) == before[h := piece];
      assert Start(refs, k) == Start(refs, k - 1) + |piece|;
      hide StoredBytes, BuiltFrom, Pieces, Start, Piece, RefOk;
      BytesWith(before, h, piece);
    }
  }

  lemma BytesWith(files: Files, h: Hash, data: Bytes)
    ensures StoredBytes(files[h := data]) <= StoredBytes(files) + |data|
  {
    StoredWithout(files[h := data], h);
    assert files[h := data] - {h} == files - {h};
    SubsetBytes(files - {h}, files);
    hide StoredBytes;
  }

  /** Whatever is missing or damaged: room for d beside the counter is enough, if
      the counter covers the damaged files of d. */
  lemma RoomEnough(c: CasConfig, world: World, s: Store, refs: seq<ChunkRef>, d: Bytes)
    requires NoCollision(c.hash, world) && BuiltFrom(c.hash, world, refs, d)
    requires StoredBytes(Damaged(c, s.files, refs, d)) <= s.size
    requires c.maxSize > 0 ==> s.size + |d| <= c.maxSize <= MAX_SLICE
    ensures Roomy(c, world, s, refs, d)
  {
    PieceBytes(c.hash, world, refs, d, |refs|);
    SubsetBytes(Lacking(c, s.files, refs, d), Pieces(refs, d, |refs|));
    hide StoredBytes;
  }

  /** In particular after any loss behind the store's back: from files counted right,
      some have vanished, others been cut short or overwritten with no more bytes. */
  lemma LossLeavesRoom(c: CasConfig, world: World, counted: Store, s: Store, refs: seq<ChunkRef>, d: Bytes)
    requires NoCollision(c.hash, world) && BuiltFrom(c.hash, world, refs, d)
    requires c.maxSize > 0 && Accurate(counted) && WithinLimit(c, counted) && s.size == counted.size
    requires forall h :: h in s.files ==> h in counted.files && |s.files[h]| <= |counted.files[h]|
    requires s.size + |d| <= c.maxSize
    ensures Roomy(c, world, s, refs, d)
  {
    SubsetBytes(Damaged(c, s.files, refs, d), s.files);
    SubsetBytes(s.files, counted.files);
    hide StoredBytes, Damaged;
    RoomEnough(c, world, s, refs, d);
  }
}
