/**
 Cutting content into hashed chunks, and the manifests that say how to put it
 together again. Where the cuts fall is a parameter; that they partition the
 content is what the chunker promises.
 */
module Chunks {
  import opened Common
  import opened ByteData

  /** The eight bytes of a chunk's hash, as one value. */
  datatype Hash = Hash(raw: int)

  type Hasher = Bytes -> Hash

  /** Tells which byte strings ever turn up. */
  type World = Bytes -> bool

  datatype Cut = Cut(offset: nat, length: nat)

  /** Where a chunker cuts. */
  type Cutter = Bytes -> seq<Cut>

  datatype Chunk = Chunk(hash: Hash, offset: nat, length: nat, data: Bytes)

  datatype ChunkRef = ChunkRef(hash: Hash, offset: nat, size: nat)

  datatype ChunkManifest = ChunkManifest(fileId: FileId, totalSize: nat, mtime: int, chunks: seq<ChunkRef>)

  const MAX_CHUNK := 256 * 1024

  /** Where cut i starts if the cuts before it leave no gap. */
  function CutsEnd(cuts: seq<Cut>, i: nat): nat
    requires i <= |cuts|
  {
    if i == 0 then 0 else cuts[i - 1].offset + cuts[i - 1].length
  }

  /** Cut i is not empty, starts where the one before ends, and stays below n. */
  predicate CutOk(cuts: seq<Cut>, n: nat, i: nat)
    requires i < |cuts|
  {
    && cuts[i].offset == CutsEnd(cuts, i)
    && 0 < cuts[i].length <= MAX_CHUNK
    && cuts[i].offset + cuts[i].length <= n
  }

  /** The cuts cover n bytes from left to right. */
  predicate Partition(cuts: seq<Cut>, n: nat) {
    (forall i :: 0 <= i < |cuts| ==> CutOk(cuts, n, i)) && CutsEnd(cuts, |cuts|) == n
  }

  ghost predicate Partitions(cut: Cutter) {
    forall d :: Partition(cut(d), |d|)
  }

  function ChunkAt(hash: Hasher, d: Bytes, c: Cut): Chunk
    requires c.offset + c.length <= |d|
  {
    var piece := d[c.offset..c.offset + c.length];
    Chunk(hash(piece), c.offset, c.length, piece)
  }

  /** The chunks made by the first k cuts. */
  function ChunkPrefix(hash: Hasher, d: Bytes, cuts: seq<Cut>, k: nat): (cs: seq<Chunk>)
    requires Partition(cuts, |d|) && k <= |cuts|
    ensures |cs| == k
  {
    if k == 0 then []
    else
      assert CutOk(cuts, |d|, k - 1);
      ChunkPrefix(hash, d, cuts, k - 1) + [ChunkAt(hash, d, cuts[k - 1])]
  }

  function ChunkList(hash: Hasher, cut: Cutter, d: Bytes): seq<Chunk>
    requires Partition(cut(d), |d|)
  {
    ChunkPrefix(hash, d, cut(d), |cut(d)|)
  }

  function RefOf(c: Chunk): ChunkRef { ChunkRef(c.hash, c.offset, c.length) }

  /** The references a fetch writes into its manifest for these chunks. */
  function Refs(cs: seq<Chunk>): (refs: seq<ChunkRef>)
    ensures |refs| == |cs|
    ensures forall i :: 0 <= i < |cs| ==> refs[i] == RefOf(cs[i])
  {
    if cs == [] then [] else Refs(cs[..|cs| - 1]) + [RefOf(cs[|cs| - 1])]
  }

  method ChunkRefs(hash: Hasher, cut: Cutter, d: Bytes) returns (chunks: seq<Chunk>)
    requires Partition(cut(d), |d|)
    ensures chunks == ChunkList(hash, cut, d)
  {
    chunks := [];
    for i := 0 to |cut(d)|
      invariant chunks == ChunkPrefix(hash, d, cut(d), i)
    {
      assert CutOk(cut(d), |d|, i);
      chunks := chunks + [ChunkAt(hash, d, cut(d)[i])];
    }
  }

  /** Chunking hands its caller the same chunks in the same order whether it
      collects them or passes each on as it is cut. */
  method ChunkStreaming(hash: Hasher, cut: Cutter, d: Bytes)
    returns (processed: seq<Chunk>, count: nat)
    requires Partition(cut(d), |d|)
    ensures processed == ChunkList(hash, cut, d) && count == |processed|
  {
    processed, count := [], 0;
    for i := 0 to |cut(d)|
      invariant processed == ChunkPrefix(hash, d, cut(d), i) && count == i
    {
      assert CutOk(cut(d), |d|, i);
      processed := processed + [ChunkAt(hash, d, cut(d)[i])];
      count := count + 1;
    }
  }

  // ----- manifests -----

  function Start(refs: seq<ChunkRef>, i: nat): nat
    requires i <= |refs|
  {
    if i == 0 then 0 else refs[i - 1].offset + refs[i - 1].size
  }

  ghost predicate RefFits(refs: seq<ChunkRef>, d: Bytes, i: nat)
    requires i < |refs|
  {
    && refs[i].offset == Start(refs, i)
    && refs[i].offset + refs[i].size <= |d|
  }

  /** The piece of d that reference i stands for. */
  function Piece(refs: seq<ChunkRef>, d: Bytes, i: nat): Bytes
    requires i < |refs| && refs[i].offset + refs[i].size <= |d|
  {
    d[refs[i].offset..refs[i].offset + refs[i].size]
  }

  /** Reference i continues where the one before ends and carries the hash of its
      piece, one of the byte strings the world knows. */
  ghost predicate RefOk(hash: Hasher, world: World, refs: seq<ChunkRef>, d: Bytes, i: nat)
    requires i < |refs|
  {
    && RefFits(refs, d, i)
    && refs[i].hash == hash(Piece(refs, d, i))
    && world(Piece(refs, d, i))
  }

  /** The references were made by cutting d: they cover it from left to right. */
  ghost predicate BuiltFrom(hash: Hasher, world: World, refs: seq<ChunkRef>, d: Bytes) {
    && (forall i :: 0 <= i < |refs| ==> RefOk(hash, world, refs, d, i))
    && Start(refs, |refs|) == |d|
  }

  /** Every chunk of d is a byte string the world knows. */
  predicate Known(hash: Hasher, world: World, cut: Cutter, d: Bytes) {
    && Partition(cut(d), |d|)
    && forall c :: c in ChunkList(hash, cut, d) ==> world(c.data)
  }

  /** No two byte strings of the world share a hash. */
  ghost predicate NoCollision(hash: Hasher, world: World) {
    forall a, b :: world(a) && world(b) && hash(a) == hash(b) ==> a == b
  }

  lemma {:induction false} PrefixBuilds(hash: Hasher, world: World, d: Bytes, cuts: seq<Cut>, k: nat, i: nat)
    requires Partition(cuts, |d|) && i < k <= |cuts|
    requires world(ChunkPrefix(hash, d, cuts, k)[i].data)
    ensures CutOk(cuts, |d|, i) && ChunkPrefix(hash, d, cuts, k)[i] == ChunkAt(hash, d, cuts[i])
    ensures RefOk(hash, world, Refs(ChunkPrefix(hash, d, cuts, k)), d, i)
  {
    var cs, refs := ChunkPrefix(hash, d, cuts, k), Refs(ChunkPrefix(hash, d, cuts, k));
    ChunkIs(hash, d, cuts, k, i);
    assert refs[i] == RefOf(cs[i]);
    if i > 0 {
      ChunkIs(hash, d, cuts, k, i - 1);
      assert refs[i - 1] == RefOf(cs[i - 1]);
    }
  }

  lemma {:induction false} ChunkIs(hash: Hasher, d: Bytes, cuts: seq<Cut>, k: nat, i: nat)
    requires Partition(cuts, |d|) && i < k <= |cuts|
    ensures CutOk(cuts, |d|, i) && ChunkPrefix(hash, d, cuts, k)[i] == ChunkAt(hash, d, cuts[i])
    decreases k
  {
    assert CutOk(cuts, |d|, i);
    if i < k - 1 { ChunkIs(hash, d, cuts, k - 1, i); }
  }

  /** The references a fetch makes were made from what it fetched. */
  lemma ChunkingBuilds(hash: Hasher, world: World, cut: Cutter, d: Bytes)
    requires Known(hash, world, cut, d)
    ensures BuiltFrom(hash, world, Refs(ChunkList(hash, cut, d)), d)
  {
    var cuts, cs := cut(d), ChunkList(hash, cut, d);
    var refs := Refs(cs);
    forall i | 0 <= i < |refs| ensures RefOk(hash, world, refs, d, i) {
      assert cs[i] in cs;
      PrefixBuilds(hash, world, d, cuts, |cuts|, i);
    }
    if cs != [] {
      ChunkIs(hash, d, cuts, |cuts|, |cuts| - 1);
      assert refs[|refs| - 1] == RefOf(cs[|refs| - 1]);
    }
  }

  /** References say what they were made from: only one content fits. */
  lemma {:induction false} PiecesDetermine(hash: Hasher, world: World, refs: seq<ChunkRef>, d: Bytes, e: Bytes, k: nat)
    requires NoCollision(hash, world) && k <= |refs|
    requires BuiltFrom(hash, world, refs, d) && BuiltFrom(hash, world, refs, e)
    ensures Start(refs, k) <= |d| && Start(refs, k) <= |e|
    ensures d[..Start(refs, k)] == e[..Start(refs, k)]
    decreases k
  {
    if k > 0 {
      PiecesDetermine(hash, world, refs, d, e, k - 1);
      assert RefOk(hash, world, refs, d, k - 1) && RefOk(hash, world, refs, e, k - 1);
      assert Piece(refs, d, k - 1) == Piece(refs, e, k - 1);
      assert d[..Start(refs, k)] == d[..Start(refs, k - 1)] + Piece(refs, d, k - 1);
      assert e[..Start(refs, k)] == e[..Start(refs, k - 1)] + Piece(refs, e, k - 1);
    }
  }

  lemma ManifestDeterminesContent(hash: Hasher, world: World, refs: seq<ChunkRef>, d: Bytes, e: Bytes)
    requires NoCollision(hash, world)
    requires BuiltFrom(hash, world, refs, d) && BuiltFrom(hash, world, refs, e)
    ensures d == e
  {
    PiecesDetermine(hash, world, refs, d, e, |refs|);
    assert d[..|d|] == d && e[..|e|] == e;
  }
}
