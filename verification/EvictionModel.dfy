/**
 What evicting in batches does to a store, whatever state its chunks are in, and
 exactly when it comes to an end.
 */
module EvictionModel {
  import opened Common
  import opened ByteData
  import opened Chunks
  import opened CasModel
  import opened LruModel

  const BATCH := 10

  predicate Readable(c: CasConfig, s: Store, h: Hash) {
    Get(c, s, h, false).Ok?
  }

  /** One batch: what can be read is deleted and forgotten, the rest stays tracked.
      The last component is the number of bytes freed. */
  function EvictBatch(c: CasConfig, l: Lru, s: Store, victims: seq<Hash>): (Lru, Store, nat)
    decreases |victims|
  {
    if victims == [] then (l, s, 0)
    else if Readable(c, s, victims[0]) then
      var (l', s', freed) :=
        EvictBatch(c, Remove(l, victims[0]), Delete(s, victims[0], DeleteHealthy).0, victims[1..]);
      (l', s', |s.files[victims[0]]| + freed)
    else EvictBatch(c, l, s, victims[1..])
  }

  /** The store is small enough, or nothing is tracked. */
  ghost predicate Done(l: Lru, s: Store, target: nat) {
    s.size <= target || Recency(l) == []
  }

  ghost function Batch(l: Lru): seq<Hash> {
    Recency(l)[..Min(BATCH, |Recency(l)|)]
  }

  /** At most n batches, fewer if done before. */
  ghost function EvictRounds(c: CasConfig, l: Lru, s: Store, target: nat, n: nat): (Lru, Store, nat)
    decreases n
  {
    if n == 0 || Done(l, s, target) then (l, s, 0)
    else
      var (l1, s1, f1) := EvictBatch(c, l, s, Batch(l));
      var (l2, s2, f2) := EvictRounds(c, l1, s1, target, n - 1);
      (l2, s2, f1 + f2)
  }

  /** So many bytes freed before. */
  function AddFreed(freed: nat, end: (Lru, Store, nat)): (Lru, Store, nat) {
    (end.0, end.1, freed + end.2)
  }

  lemma AddTwice(a: nat, b: nat, end: (Lru, Store, nat))
    ensures AddFreed(a, AddFreed(b, end)) == AddFreed(a + b, end)
    ensures AddFreed(0, end) == end && AddFreed(a, (end.0, end.1, 0)) == (end.0, end.1, a)
  {
  }

  /** Some number of batches is enough: the eviction comes to an end. */
  ghost predicate Ends(c: CasConfig, l: Lru, s: Store, target: nat) {
    exists n :: DoneAfter(c, l, s, target, n)
  }

  ghost predicate DoneAfter(c: CasConfig, l: Lru, s: Store, target: nat, n: nat) {
    var (l', s', _) := EvictRounds(c, l, s, target, n);
    Done(l', s', target)
  }

  // ----- readable and unreadable chunks of a list -----

  function Readables(c: CasConfig, s: Store, list: seq<Hash>): seq<Hash> {
    if list == [] then []
    else if Readable(c, s, list[0]) then [list[0]] + Readables(c, s, list[1..])
    else Readables(c, s, list[1..])
  }

  function Unreadables(c: CasConfig, s: Store, list: seq<Hash>): seq<Hash> {
    if list == [] then []
    else if Readable(c, s, list[0]) then Unreadables(c, s, list[1..])
    else [list[0]] + Unreadables(c, s, list[1..])
  }

  /** The readable chunks before the tenth unreadable one, if `blocked` unreadable
      ones lie before the list: those that batches ever get to. */
  function Reach(c: CasConfig, s: Store, list: seq<Hash>, blocked: nat): seq<Hash>
    decreases |list|
  {
    if list == [] || blocked >= 10 then []
    else if Readable(c, s, list[0]) then [list[0]] + Reach(c, s, list[1..], blocked)
    else Reach(c, s, list[1..], blocked + 1)
  }

  function ByteSum(files: Files, list: seq<Hash>): nat {
    if list == [] then 0
    else (if list[0] in files then |files[list[0]]| else 0) + ByteSum(files, list[1..])
  }

  /** The files without some chunks. */
  function Sans(files: Files, gone: seq<Hash>): Files {
    map h | h in files && h !in gone :: files[h]
  }

  ghost predicate NoRepeats(list: seq<Hash>) {
    forall i, j :: 0 <= i < j < |list| ==> list[i] != list[j]
  }

  lemma {:induction false} ByteSumJoin(files: Files, a: seq<Hash>, b: seq<Hash>)
    ensures ByteSum(files, a + b) == ByteSum(files, a) + ByteSum(files, b)
    decreases |a|
  {
    if a == [] {
      assert a + b == b;
    } else {
      ByteSumJoin(files, a[1..], b);
      assert (a + b)[1..] == a[1..] + b;
    }
  }

  /** The two stores have the same files under these hashes. */
  ghost predicate SameOn(s: Store, s': Store, list: seq<Hash>) {
    forall h :: h in list ==> (h in s'.files <==> h in s.files) && (h in s.files ==> s'.files[h] == s.files[h])
  }

  lemma SansSame(s: Store, s': Store, gone: seq<Hash>, list: seq<Hash>)
    requires s'.files == Sans(s.files, gone) && forall h :: h in list ==> h !in gone
    ensures SameOn(s, s', list)
  {
  }

  /** What a list says depends on no other files. */
  lemma {:induction false} ForgetOther(c: CasConfig, s: Store, s': Store, list: seq<Hash>)
    requires SameOn(s, s', list)
    ensures Readables(c, s', list) == Readables(c, s, list) && Unreadables(c, s', list) == Unreadables(c, s, list)
    ensures ByteSum(s'.files, list) == ByteSum(s.files, list)
    decreases |list|
  {
    if list != [] {
      assert list[0] in list && forall h :: h in list[1..] ==> h in list;
      ForgetOther(c, s, s', list[1..]);
    }
  }

  lemma {:induction false} ReachOther(c: CasConfig, s: Store, s': Store, list: seq<Hash>, blocked: nat)
    requires SameOn(s, s', list)
    ensures Reach(c, s', list, blocked) == Reach(c, s, list, blocked)
    decreases |list|
  {
    if list != [] {
      assert list[0] in list && forall h :: h in list[1..] ==> h in list;
      ReachOther(c, s, s', list[1..], if Readable(c, s, list[0]) then blocked else blocked + 1);
    }
  }

  lemma {:induction false} PartsOf(c: CasConfig, s: Store, list: seq<Hash>)
    ensures forall h :: h in Readables(c, s, list) <==> h in list && Readable(c, s, h)
    ensures forall h :: h in Unreadables(c, s, list) <==> h in list && !Readable(c, s, h)
    ensures |Readables(c, s, list)| + |Unreadables(c, s, list)| == |list|
    decreases |list|
  {
    if list != [] {
      PartsOf(c, s, list[1..]);
      assert forall h :: h in list <==> h == list[0] || h in list[1..];
      hide Readable;
    }
  }

  lemma {:induction false} UnreadablesJoin(c: CasConfig, s: Store, a: seq<Hash>, b: seq<Hash>)
    ensures Unreadables(c, s, a + b) == Unreadables(c, s, a) + Unreadables(c, s, b)
    decreases |a|
  {
    hide Readable;
    if a == [] {
      assert a + b == b;
    } else {
      assert (a + b)[1..] == a[1..] + b;
      UnreadablesJoin(c, s, a[1..], b);
    }
  }

  lemma {:induction false} ReadablesJoin(c: CasConfig, s: Store, a: seq<Hash>, b: seq<Hash>)
    ensures Readables(c, s, a + b) == Readables(c, s, a) + Readables(c, s, b)
    decreases |a|
  {
    hide Readable;
    if a == [] {
      assert a + b == b;
    } else {
      assert (a + b)[1..] == a[1..] + b;
      ReadablesJoin(c, s, a[1..], b);
    }
  }

  lemma {:induction false} AllUnreadable(c: CasConfig, s: Store, list: seq<Hash>)
    requires forall h :: h in list ==> !Readable(c, s, h)
    ensures Readables(c, s, list) == [] && Unreadables(c, s, list) == list
    decreases |list|
  {
    if list != [] {
      assert forall h :: h in list[1..] ==> h in list;
      AllUnreadable(c, s, list[1..]);
    }
  }

  /** A stretch that does not reach the tenth unreadable chunk. */
  lemma {:induction false} ReachJoin(c: CasConfig, s: Store, a: seq<Hash>, b: seq<Hash>, blocked: nat)
    requires blocked + |a| <= BATCH
    ensures Reach(c, s, a + b, blocked) == Readables(c, s, a) + Reach(c, s, b, blocked + |Unreadables(c, s, a)|)
    decreases |a|
  {
    hide Readable;
    if a == [] {
      assert a + b == b;
    } else {
      assert (a + b)[1..] == a[1..] + b;
      ReachJoin(c, s, a[1..], b, if Readable(c, s, a[0]) then blocked else blocked + 1);
    }
  }

  // ----- the recency list under eviction -----

  lemma {:induction false} InOrderDistinct(s: set<Instant>)
    ensures forall i, j :: 0 <= i < j < |InOrder(s)| ==> InOrder(s)[i] != InOrder(s)[j]
    decreases s
  {
    if s != {} {
      var rest := s - {Earliest(s)};
      InOrderDistinct(rest);
      InOrderElements(rest);
      forall j | 0 < j < |InOrder(s)| ensures InOrder(s)[0] != InOrder(s)[j] {
        assert InOrder(s)[j] == InOrder(rest)[j - 1];
        assert InOrder(rest)[j - 1] in rest;
      }
    }
  }

  lemma RecencyDistinct(l: Lru)
    requires Inverse(l)
    ensures NoRepeats(Recency(l))
  {
    InOrderDistinct(l.times.Keys);
    InOrderElements(l.times.Keys);
    ChunksElements(l.times, InOrder(l.times.Keys));
    hide InOrder, ChunksAt;
    var ts := InOrder(l.times.Keys);
    forall i, j | 0 <= i < j < |ts| ensures Recency(l)[i] != Recency(l)[j] {
      assert ts[i] in ts && ts[j] in ts;
    }
  }

  lemma {:induction false} WithoutMiddle(a: seq<Hash>, h: Hash, b: seq<Hash>)
    requires NoRepeats(a + [h] + b)
    ensures Without(a + [h] + b, h) == a + b && h !in a && h !in b
    decreases |a|
  {
    var list := a + [h] + b;
    assert h !in a && h !in b by {
      forall i | 0 <= i < |a| ensures a[i] != h { assert list[i] == a[i] && list[|a|] == h; }
      forall i | 0 <= i < |b| ensures b[i] != h { assert list[|a| + 1 + i] == b[i] && list[|a|] == h; }
    }
    if a == [] {
      assert list[1..] == b;
      WithoutAbsent(b, h);
    } else {
      assert list[1..] == a[1..] + [h] + b;
      assert forall i, j :: 0 <= i < j < |list[1..]| ==> list[1..][i] == list[i + 1] && list[1..][j] == list[j + 1];
      WithoutMiddle(a[1..], h, b);
    }
  }

  /** Forgetting one chunk in the middle of the list. */
  lemma ForgetMiddle(l: Lru, a: seq<Hash>, h: Hash, b: seq<Hash>)
    requires Inverse(l) && Recency(l) == a + [h] + b
    ensures Inverse(Remove(l, h)) && Recency(Remove(l, h)) == a + b && h !in a && h !in b
  {
    AccessInverse(l, h, Instant(0));
    RemoveRecency(l, h);
    RecencyDistinct(l);
    WithoutMiddle(a, h, b);
  }

  // ----- one batch -----

  /** The counter covers the readable chunks of the list: deleting them does not wrap
      it. */
  ghost predicate Payable(c: CasConfig, s: Store, list: seq<Hash>) {
    ByteSum(s.files, Readables(c, s, list)) <= s.size < U64
  }

  lemma DeleteOne(c: CasConfig, s: Store, h: Hash)
    requires h in s.files && |s.files[h]| <= s.size < U64
    ensures var s' := Delete(s, h, DeleteHealthy).0;
      && s'.files == s.files - {h} && s'.size == s.size - |s.files[h]| && (Accurate(s) ==> Accurate(s'))
  {
    if Accurate(s) { DeleteAccounting(c, s, h, DeleteHealthy); }
  }

  lemma SansMore(files: Files, h: Hash, gone: seq<Hash>)
    requires h in files
    ensures Sans(files - {h}, gone) == Sans(files, [h] + gone)
    ensures Sans(files, []) == files
  {
  }

  /** A batch in the middle of the recency list: its readable chunks go, and nothing
      else does. */
  lemma {:induction false} BatchFrom(c: CasConfig, l: Lru, s: Store, skipped: seq<Hash>, vs: seq<Hash>, rest: seq<Hash>)
    requires Inverse(l) && Recency(l) == skipped + vs + rest && Payable(c, s, vs)
    ensures var (l', s', freed) := EvictBatch(c, l, s, vs);
      && Inverse(l') && Recency(l') == skipped + Unreadables(c, s, vs) + rest
      && s'.files == Sans(s.files, Readables(c, s, vs))
      && freed == ByteSum(s.files, Readables(c, s, vs)) && s'.size + freed == s.size
      && (Accurate(s) ==> Accurate(s'))
    decreases |vs|
  {
    hide Recency, Inverse, Remove, Accurate, NoRepeats;
    if vs == [] {
      assert s.files == Sans(s.files, []);
      assert skipped + vs + rest == skipped + [] + rest;
    } else {
      var h, more := vs[0], vs[1..];
      assert vs == [h] + more;
      if Readable(c, s, h) {
        assert skipped + vs + rest == skipped + [h] + (more + rest);
        ForgetMiddle(l, skipped, h, more + rest);
        assert forall g :: g in more ==> g in more + rest;
        DeleteOne(c, s, h);
        var l1, s1 := Remove(l, h), Delete(s, h, DeleteHealthy).0;
        ForgetOther(c, s, s1, more);
        PartsOf(c, s, more);
        assert skipped + (more + rest) == skipped + more + rest;
        hide Delete, Readable;
        assert ByteSum(s1.files, Readables(c, s, more)) == ByteSum(s.files, Readables(c, s, more)) by {
          ForgetOther(c, s, s1, Readables(c, s, more));
        }
        BatchFrom(c, l1, s1, skipped, more, rest);
        SansMore(s.files, h, Readables(c, s, more));
      } else {
        assert skipped + vs + rest == (skipped + [h]) + more + rest;
        hide Readable;
        BatchFrom(c, l, s, skipped + [h], more, rest);
        assert (skipped + [h]) + Unreadables(c, s, more) == skipped + ([h] + Unreadables(c, s, more));
      }
    }
  }

  lemma NoneInBoth(a: seq<Hash>, b: seq<Hash>)
    requires NoRepeats(a + b)
    ensures forall h :: h in b ==> h !in a
  {
    forall h | h in b ensures h !in a {
      var j :| 0 <= j < |b| && b[j] == h;
      forall i | 0 <= i < |a| ensures a[i] != h { assert (a + b)[i] == a[i] && (a + b)[|a| + j] == h; }
    }
  }

  lemma ReachRound(c: CasConfig, s: Store, vs: seq<Hash>, rest: seq<Hash>)
    requires |vs| <= BATCH
    ensures Reach(c, s, vs + rest, 0) == Readables(c, s, vs) + Reach(c, s, Unreadables(c, s, vs) + rest, 0)
  {
    var us := Unreadables(c, s, vs);
    PartsOf(c, s, vs);
    AllUnreadable(c, s, us);
    ReachJoin(c, s, vs, rest, 0);
    ReachJoin(c, s, us, rest, 0);
    hide *;
    assert [] + Reach(c, s, rest, |us|) == Reach(c, s, rest, |us|);
  }

  /** What a batch leaves of the list looks as it did before. */
  lemma LeftAlone(c: CasConfig, s: Store, s': Store, vs: seq<Hash>, rest: seq<Hash>)
    requires NoRepeats(vs + rest) && s'.files == Sans(s.files, Readables(c, s, vs))
    ensures var left := Unreadables(c, s, vs) + rest;
      && Unreadables(c, s', left) == Unreadables(c, s, vs + rest)
      && ByteSum(s'.files, Readables(c, s', left)) == ByteSum(s.files, Readables(c, s, rest))
      && (|vs| <= BATCH ==> Reach(c, s, vs + rest, 0) == Readables(c, s, vs) + Reach(c, s', left, 0))
  {
    var us, gone := Unreadables(c, s, vs), Readables(c, s, vs);
    NoneInBoth(vs, rest);
    PartsOf(c, s, vs);
    PartsOf(c, s, rest);
    hide NoRepeats, Readable, Sans, Readables, Unreadables, Reach, ByteSum, SameOn;
    assert forall h :: h in us + rest ==> h in us || h in rest;
    SansSame(s, s', gone, us + rest);
    SansSame(s, s', gone, Readables(c, s, rest));
    ForgetOther(c, s, s', us + rest);
    ForgetOther(c, s, s', Readables(c, s, rest));
    ReachOther(c, s, s', us + rest, 0);
    AllUnreadable(c, s, us);
    UnreadablesJoin(c, s, us, rest);
    UnreadablesJoin(c, s, vs, rest);
    ReadablesJoin(c, s, us, rest);
    assert [] + Readables(c, s, rest) == Readables(c, s, rest);
    if |vs| <= BATCH { ReachRound(c, s, vs, rest); }
  }

  /** The counter once everything within reach is gone. */
  ghost function Floor(c: CasConfig, s: Store, list: seq<Hash>): int {
    s.size - ByteSum(s.files, Reach(c, s, list, 0))
  }

  /** The first batch of a list, and what comes behind it. */
  lemma FirstBatch(c: CasConfig, l: Lru, s: Store)
    requires Inverse(l) && Payable(c, s, Recency(l))
    ensures var vs := Batch(l);
      var rest := Recency(l)[|vs|..];
      && Recency(l) == vs + rest && NoRepeats(vs + rest) && |vs| <= BATCH
      && Recency(l) == [] + vs + rest
      && ByteSum(s.files, Readables(c, s, vs)) + ByteSum(s.files, Readables(c, s, rest)) <= s.size < U64
  {
    var vs := Batch(l);
    var rest := Recency(l)[|vs|..];
    assert Recency(l) == vs + rest;
    RecencyDistinct(l);
    hide Recency, Inverse, NoRepeats, Readables, Batch, ByteSum;
    ReadablesJoin(c, s, vs, rest);
    ByteSumJoin(s.files, Readables(c, s, vs), Readables(c, s, rest));
  }

  /** The first batch: its readable chunks go, its unreadable ones stay in front. */
  lemma BatchEffect(c: CasConfig, l: Lru, s: Store)
    requires Inverse(l) && Payable(c, s, Recency(l))
    ensures var vs := Batch(l);
      var evicted := Readables(c, s, vs);
      var (l', s', freed) := EvictBatch(c, l, s, vs);
      && Inverse(l') && Recency(l') == Unreadables(c, s, vs) + Recency(l)[|vs|..]
      && s'.files == Sans(s.files, evicted) && freed == ByteSum(s.files, evicted) && s'.size + freed == s.size
      && (Accurate(s) ==> Accurate(s'))
  {
    var vs := Batch(l);
    var rest := Recency(l)[|vs|..];
    FirstBatch(c, l, s);
    hide Recency, Inverse, NoRepeats, Readable, EvictBatch, Accurate, Sans, Readables, Unreadables, Batch, ByteSum;
    BatchFrom(c, l, s, [], vs, rest);
    assert [] + Unreadables(c, s, vs) + rest == Unreadables(c, s, vs) + rest;
  }

  /** One round: the unreadable chunks stay, and what was within reach is evicted or
      still is. */
  lemma RoundEffect(c: CasConfig, l: Lru, s: Store)
    requires Inverse(l) && Payable(c, s, Recency(l))
    ensures var list, evicted := Recency(l), Readables(c, s, Batch(l));
      var (l', s', freed) := EvictBatch(c, l, s, Batch(l));
      && Inverse(l') && Payable(c, s', Recency(l'))
      && s'.files == Sans(s.files, evicted) && freed == ByteSum(s.files, evicted) && s'.size + freed == s.size
      && |Recency(l')| + |evicted| == |list| && |evicted| <= 10
      && Unreadables(c, s', Recency(l')) == Unreadables(c, s, list)
      && Reach(c, s, list, 0) == evicted + Reach(c, s', Recency(l'), 0)
      && (Accurate(s) ==> Accurate(s'))
  {
    var vs := Batch(l);
    var rest := Recency(l)[|vs|..];
    FirstBatch(c, l, s);
    BatchEffect(c, l, s);
    hide Recency, Inverse, NoRepeats, Readable, EvictBatch, Accurate, Sans, Readables, Unreadables, Reach, Batch,
      ByteSum;
    var (l', s', freed) := EvictBatch(c, l, s, vs);
    LeftAlone(c, s, s', vs, rest);
    PartsOf(c, s, vs);
  }

  // ----- when it ends -----

  /** No tracked chunk is unreadable, or the counter falls to the target once all that
      is within reach is gone. Both can be told before the eviction. */
  ghost predicate CanEnd(c: CasConfig, l: Lru, s: Store, target: nat) {
    Unreadables(c, s, Recency(l)) == [] || Floor(c, s, Recency(l)) <= target
  }

  lemma {:induction false} ReachBytes(c: CasConfig, s: Store, list: seq<Hash>, blocked: nat)
    ensures ByteSum(s.files, Reach(c, s, list, blocked)) <= ByteSum(s.files, Readables(c, s, list))
    decreases |list|
  {
    hide Readable;
    if list != [] { ReachBytes(c, s, list[1..], if Readable(c, s, list[0]) then blocked else blocked + 1); }
  }

  lemma {:induction false} ReachReadable(c: CasConfig, s: Store, list: seq<Hash>, blocked: nat)
    ensures forall h :: h in Reach(c, s, list, blocked) ==> h in list && Readable(c, s, h)
    decreases |list|
  {
    hide Readable;
    if list != [] {
      ReachReadable(c, s, list[1..], if Readable(c, s, list[0]) then blocked else blocked + 1);
      assert forall h :: h in list[1..] ==> h in list;
    }
  }

  lemma {:induction false} SumWithin(files: Files, files': Files, list: seq<Hash>)
    requires forall h :: h in list ==> h in files' && h in files && files'[h] == files[h]
    ensures ByteSum(files', list) == ByteSum(files, list)
    decreases |list|
  {
    if list != [] {
      assert list[0] in list && forall h :: h in list[1..] ==> h in list;
      SumWithin(files, files', list[1..]);
    }
  }

  /** A round keeps the floor, and with it whether the eviction can end. */
  lemma RoundKeeps(c: CasConfig, l: Lru, s: Store, target: nat)
    requires Inverse(l) && Payable(c, s, Recency(l))
    ensures var (l', s', freed) := EvictBatch(c, l, s, Batch(l));
      && Inverse(l') && Payable(c, s', Recency(l')) && |Recency(l')| <= |Recency(l)|
      && (CanEnd(c, l', s', target) <==> CanEnd(c, l, s, target))
      && (Unreadables(c, s', Recency(l')) == [] <==> Unreadables(c, s, Recency(l)) == [])
  {
    RoundEffect(c, l, s);
    var (l', s', freed) := EvictBatch(c, l, s, Batch(l));
    var evicted, reach' := Readables(c, s, Batch(l)), Reach(c, s', Recency(l'), 0);
    ReachReadable(c, s', Recency(l'), 0);
    SumWithin(s.files, s'.files, reach');
    hide Recency, Inverse, Readable, EvictBatch, Accurate, Readables, Unreadables, Reach, Batch, ByteSum, Sans;
    ByteSumJoin(s.files, evicted, reach');
  }

  /** A round with the store too big evicts something, if the eviction can end. */
  lemma RoundShrinks(c: CasConfig, l: Lru, s: Store, target: nat)
    requires Inverse(l) && Payable(c, s, Recency(l)) && CanEnd(c, l, s, target) && !Done(l, s, target)
    ensures |Recency(EvictBatch(c, l, s, Batch(l)).0)| < |Recency(l)|
  {
    var vs := Batch(l);
    var rest := Recency(l)[|vs|..];
    RoundEffect(c, l, s);
    FirstBatch(c, l, s);
    hide Recency, Inverse, NoRepeats, Readable, EvictBatch, Accurate, Sans, Readables, Unreadables, Reach;
    if Readables(c, s, vs) == [] { BlockedBatch(c, s, vs, rest); }
  }

  /** The eviction comes to an end from here without the counter wrapping. */
  ghost predicate Ready(c: CasConfig, l: Lru, s: Store, target: nat) {
    Inverse(l) && Payable(c, s, Recency(l)) && CanEnd(c, l, s, target)
  }

  /** Once done, further rounds change nothing. */
  lemma RoundsDone(c: CasConfig, l: Lru, s: Store, target: nat, n: nat)
    requires Done(l, s, target)
    ensures EvictRounds(c, l, s, target, n) == (l, s, 0)
  {
  }

  /** One round more is done, with fewer chunks left to track. */
  lemma NextRound(c: CasConfig, l: Lru, s: Store, target: nat, n: nat)
    requires Ready(c, l, s, target) && !Done(l, s, target) && |Recency(l)| <= n
    ensures var (l', s', freed) := EvictBatch(c, l, s, Batch(l));
      && Ready(c, l', s', target) && |Recency(l')| < |Recency(l)| <= n
      && EvictRounds(c, l, s, target, n) == AddFreed(freed, EvictRounds(c, l', s', target, n - 1))
  {
    hide Inverse, Payable, CanEnd, EvictBatch, Batch, Recency;
    RoundKeeps(c, l, s, target);
    RoundShrinks(c, l, s, target);
  }

  /** A batch of unreadable chunks that ends the list or fills up: nothing is within
      reach. */
  lemma BlockedBatch(c: CasConfig, s: Store, vs: seq<Hash>, rest: seq<Hash>)
    requires Readables(c, s, vs) == [] && |vs| <= BATCH && (rest != [] ==> |vs| == BATCH)
    ensures Reach(c, s, vs + rest, 0) == [] && (vs != [] ==> Unreadables(c, s, vs + rest) != [])
  {
    PartsOf(c, s, vs);
    ReachJoin(c, s, vs, rest, 0);
    UnreadablesJoin(c, s, vs, rest);
    hide Readable, Readables, Unreadables;
    assert Reach(c, s, rest, |vs|) == [];
  }

  lemma {:induction false} NeverDone(c: CasConfig, l: Lru, s: Store, target: nat, n: nat)
    requires Inverse(l) && Payable(c, s, Recency(l)) && !CanEnd(c, l, s, target)
    ensures !DoneAfter(c, l, s, target, n)
    decreases n
  {
    ReachBytes(c, s, Recency(l), 0);
    assert !Done(l, s, target);
    if n > 0 {
      RoundKeeps(c, l, s, target);
      var (l1, s1, f1) := EvictBatch(c, l, s, Batch(l));
      hide Recency, Inverse, EvictBatch, CanEnd, Payable, Done;
      NeverDone(c, l1, s1, target, n - 1);
    }
  }

  lemma {:induction false} SoonDone(c: CasConfig, l: Lru, s: Store, target: nat, n: nat)
    requires Inverse(l) && Payable(c, s, Recency(l)) && CanEnd(c, l, s, target) && n >= |Recency(l)|
    ensures DoneAfter(c, l, s, target, n)
    decreases n
  {
    if !Done(l, s, target) {
      RoundKeeps(c, l, s, target);
      RoundShrinks(c, l, s, target);
      var (l1, s1, f1) := EvictBatch(c, l, s, Batch(l));
      assert n > 0;
      hide Recency, Inverse, EvictBatch, CanEnd, Payable, Done;
      SoonDone(c, l1, s1, target, n - 1);
    }
  }

  /** The eviction comes to an end if and only if no tracked chunk is unreadable, or
      the counter less the bytes of the readable chunks before the tenth unreadable
      one is at most the target. */
  lemma EndsExactly(c: CasConfig, l: Lru, s: Store, target: nat)
    requires Inverse(l) && Payable(c, s, Recency(l))
    ensures Ends(c, l, s, target) <==> CanEnd(c, l, s, target)
  {
    hide Payable, Inverse, CanEnd, DoneAfter, Recency;
    if CanEnd(c, l, s, target) {
      SoonDone(c, l, s, target, |Recency(l)|);
    } else {
      forall n ensures !DoneAfter(c, l, s, target, n) { NeverDone(c, l, s, target, n); }
    }
  }

  // ----- what is evicted -----

  /** A list without some chunks, in its order. */
  function Minus(list: seq<Hash>, gone: seq<Hash>): seq<Hash> {
    if list == [] then []
    else if list[0] in gone then Minus(list[1..], gone)
    else [list[0]] + Minus(list[1..], gone)
  }

  lemma {:induction false} MinusTwice(list: seq<Hash>, a: seq<Hash>, b: seq<Hash>)
    ensures Minus(Minus(list, a), b) == Minus(list, a + b)
    decreases |list|
  {
    if list != [] { MinusTwice(list[1..], a, b); }
  }

  lemma {:induction false} MinusNone(list: seq<Hash>, gone: seq<Hash>)
    requires forall h :: h in list ==> h !in gone
    ensures Minus(list, gone) == list
    decreases |list|
  {
    if list != [] {
      assert forall h :: h in list[1..] ==> h in list;
      MinusNone(list[1..], gone);
    }
  }

  /** Taking the readable chunks vs[..k] did not reach yet out of vs + rest. */
  lemma {:induction false} MinusReadables(c: CasConfig, s: Store, vs: seq<Hash>, rest: seq<Hash>, gone: seq<Hash>)
    requires forall h :: h in vs ==> (h in gone <==> Readable(c, s, h))
    requires forall h :: h in rest ==> h !in gone
    ensures Minus(vs + rest, gone) == Unreadables(c, s, vs) + rest
    decreases |vs|
  {
    hide Readable;
    if vs == [] {
      assert vs + rest == rest;
      MinusNone(rest, gone);
    } else {
      assert (vs + rest)[1..] == vs[1..] + rest && vs[0] in vs && forall h :: h in vs[1..] ==> h in vs;
      MinusReadables(c, s, vs[1..], rest, gone);
    }
  }

  /** What an eviction has done: exactly the chunks gone are deleted and forgotten,
      and the counter dropped by their bytes. */
  ghost predicate Evicted(l: Lru, s: Store, gone: seq<Hash>, l': Lru, s': Store, freed: nat) {
    && Inverse(l') && Recency(l') == Minus(Recency(l), gone)
    && s'.files == Sans(s.files, gone)
    && freed == ByteSum(s.files, gone) && s'.size + freed == s.size
    && (Accurate(s) ==> Accurate(s'))
  }

  /** All but the last ten. */
  function Before(gone: seq<Hash>): seq<Hash> {
    gone[..if |gone| > 10 then |gone| - 10 else 0]
  }

  /** Before its last ten chunks went, the store was too big. */
  ghost predicate NoneTooMany(s: Store, gone: seq<Hash>, target: nat) {
    gone != [] ==> s.size - ByteSum(s.files, Before(gone)) > target
  }

  lemma MinusBatch(c: CasConfig, l: Lru, s: Store)
    requires Inverse(l) && Payable(c, s, Recency(l))
    ensures Minus(Recency(l), Readables(c, s, Batch(l))) ==
      Unreadables(c, s, Batch(l)) + Recency(l)[|Batch(l)|..]
  {
    var vs := Batch(l);
    var rest := Recency(l)[|vs|..];
    hide Recency, Inverse, Payable, NoRepeats, Readables, Unreadables, Readable, Batch, ByteSum, Minus;
    FirstBatch(c, l, s);
    NoneInBoth(vs, rest);
    PartsOf(c, s, vs);
    MinusReadables(c, s, vs, rest, Readables(c, s, vs));
  }

  lemma RoundEvicted(c: CasConfig, l: Lru, s: Store)
    requires Inverse(l) && Payable(c, s, Recency(l))
    ensures var (l', s', freed) := EvictBatch(c, l, s, Batch(l));
      Evicted(l, s, Readables(c, s, Batch(l)), l', s', freed)
  {
    BatchEffect(c, l, s);
    MinusBatch(c, l, s);
    hide Recency, Inverse, EvictBatch, Accurate, Sans, Readables, Unreadables, Batch, ByteSum, Minus, Payable;
  }

  lemma EvictedTwice(l: Lru, s: Store, a: seq<Hash>, l1: Lru, s1: Store, f1: nat,
                     b: seq<Hash>, l2: Lru, s2: Store, f2: nat)
    requires Evicted(l, s, a, l1, s1, f1) && Evicted(l1, s1, b, l2, s2, f2)
    requires forall h :: h in b ==> h in s1.files
    ensures Evicted(l, s, a + b, l2, s2, f1 + f2)
  {
    MinusTwice(Recency(l), a, b);
    ByteSumJoin(s.files, a, b);
    SumWithin(s.files, s1.files, b);
    assert Sans(Sans(s.files, a), b) == Sans(s.files, a + b);
    hide Recency, Inverse, Minus, ByteSum, Sans, Accurate;
  }

  lemma {:induction false} NoneTooManyTwice(s: Store, a: seq<Hash>, s1: Store, b: seq<Hash>, target: nat)
    requires s1.size + ByteSum(s.files, a) == s.size && s1.files == Sans(s.files, a) && |a| <= BATCH
    requires forall h :: h in b ==> h in s1.files
    requires s.size > target && NoneTooMany(s1, b, target)
    ensures NoneTooMany(s, a + b, target)
  {
    var first := Before(a + b);
    if |b| > BATCH {
      assert first == a + Before(b);
      assert forall h :: h in Before(b) ==> h in b;
      hide Before, Readable;
      ByteSumJoin(s.files, a, Before(b));
      SumWithin(s.files, s1.files, Before(b));
    } else if |a + b| > BATCH {
      assert Before(b) == [] && first <= a && a == first + a[|first|..];
      hide Before;
      ByteSumJoin(s.files, first, a[|first|..]);
    } else {
      assert first == [];
    }
  }

  /** The first k chunks within reach were evicted. */
  ghost predicate Course(c: CasConfig, l: Lru, s: Store, target: nat, end: (Lru, Store, nat), k: nat) {
    var reach := Reach(c, s, Recency(l), 0);
    k <= |reach| && Evicted(l, s, reach[..k], end.0, end.1, end.2) && NoneTooMany(s, reach[..k], target)
  }

  lemma CourseStart(c: CasConfig, l: Lru, s: Store, target: nat)
    requires Inverse(l)
    ensures Course(c, l, s, target, (l, s, 0), 0)
  {
    MinusNone(Recency(l), []);
    assert Sans(s.files, []) == s.files && Reach(c, s, Recency(l), 0)[..0] == [];
  }

  lemma ReachStored(c: CasConfig, s: Store, list: seq<Hash>, k: nat)
    requires k <= |Reach(c, s, list, 0)|
    ensures forall h :: h in Reach(c, s, list, 0)[..k] ==> h in s.files
  {
    ReachReadable(c, s, list, 0);
    hide Reach;
    forall h | h in Reach(c, s, list, 0)[..k] ensures h in s.files { assert h in Reach(c, s, list, 0); }
  }

  lemma CourseStep(c: CasConfig, l: Lru, s: Store, target: nat, end: (Lru, Store, nat), k: nat)
    requires Inverse(l) && Payable(c, s, Recency(l)) && s.size > target
    requires var (l1, s1, _) := EvictBatch(c, l, s, Batch(l)); Course(c, l1, s1, target, end, k)
    ensures var (_, _, f1) := EvictBatch(c, l, s, Batch(l));
      Course(c, l, s, target, (end.0, end.1, f1 + end.2), |Readables(c, s, Batch(l))| + k)
  {
    hide Recency, Inverse, EvictBatch, Sans, Readables, Unreadables, Reach, Batch, ByteSum, Minus, Evicted, NoneTooMany,
      Accurate, Readable, Payable;
    var (l1, s1, f1) := EvictBatch(c, l, s, Batch(l));
    var evicted, reach1 := Readables(c, s, Batch(l)), Reach(c, s1, Recency(l1), 0);
    RoundEffect(c, l, s);
    RoundEvicted(c, l, s);
    ReachStored(c, s1, Recency(l1), k);
    EvictedTwice(l, s, evicted, l1, s1, f1, reach1[..k], end.0, end.1, end.2);
    NoneTooManyTwice(s, evicted, s1, reach1[..k], target);
    assert (evicted + reach1)[..|evicted| + k] == evicted + reach1[..k];
  }

  /** Every eviction, ended or not, evicts the front of what is within reach, readable
      chunks in order of recency, frees exactly their bytes, and begins no batch once
      the store is small enough. */
  lemma {:induction false} RoundsEvict(c: CasConfig, l: Lru, s: Store, target: nat, n: nat) returns (k: nat)
    requires Inverse(l) && Payable(c, s, Recency(l))
    ensures Course(c, l, s, target, EvictRounds(c, l, s, target, n), k)
    decreases n
  {
    hide Recency, Inverse, EvictBatch, Batch, Payable, Course, Readables, Unreadables, Reach, ByteSum, Sans, Accurate;
    if n == 0 || Done(l, s, target) {
      CourseStart(c, l, s, target);
      k := 0;
    } else {
      var (l1, s1, f1) := EvictBatch(c, l, s, Batch(l));
      RoundEffect(c, l, s);
      var k1 := RoundsEvict(c, l1, s1, target, n - 1);
      CourseStep(c, l, s, target, EvictRounds(c, l1, s1, target, n - 1), k1);
      k := |Readables(c, s, Batch(l))| + k1;
    }
  }

  /** Once the rounds are done, the front of what is within reach is gone. */
  lemma FrontEvicted(c: CasConfig, l: Lru, s: Store, target: nat, n: nat, end: (Lru, Store, nat))
    returns (gone: seq<Hash>)
    requires Inverse(l) && Payable(c, s, Recency(l)) && EvictRounds(c, l, s, target, n) == end
    ensures gone <= Reach(c, s, Recency(l), 0) && NoneTooMany(s, gone, target)
    ensures Evicted(l, s, gone, end.0, end.1, end.2)
  {
    hide Recency, Inverse, Payable, EvictRounds, Reach, Evicted, NoneTooMany;
    var k := RoundsEvict(c, l, s, target, n);
    gone := Reach(c, s, Recency(l), 0)[..k];
  }

  // ----- when all tracked chunks are intact -----

  ghost predicate TrackedIntact(c: CasConfig, s: Store, tracked: seq<Hash>) {
    forall h :: h in tracked ==> Readable(c, s, h)
  }

  lemma {:induction false} SumOfSome(files: Files, list: seq<Hash>)
    requires NoRepeats(list) && forall h :: h in list ==> h in files
    ensures ByteSum(files, list) <= StoredBytes(files)
    decreases |list|
  {
    if list != [] {
      var h, more := list[0], list[1..];
      assert h in list && forall g :: g in more ==> g in list && g != h by {
        forall j | 0 <= j < |more| ensures more[j] != h { assert more[j] == list[j + 1]; }
      }
      assert forall i, j :: 0 <= i < j < |more| ==> more[i] == list[i + 1] && more[j] == list[j + 1];
      StoredWithout(files, h);
      SumWithin(files, files - {h}, more);
      SumOfSome(files - {h}, more);
      hide StoredBytes;
    }
  }

  lemma {:induction false} AllWithinReach(c: CasConfig, s: Store, list: seq<Hash>)
    requires TrackedIntact(c, s, list)
    ensures Reach(c, s, list, 0) == list && Readables(c, s, list) == list && Unreadables(c, s, list) == []
    decreases |list|
  {
    hide Readable;
    if list != [] {
      assert list[0] in list && forall h :: h in list[1..] ==> h in list;
      AllWithinReach(c, s, list[1..]);
    }
  }

  /** With all tracked chunks intact and the counter right, the eviction ends, and all
      of the recency list is within reach. */
  lemma IntactEnds(c: CasConfig, l: Lru, s: Store, target: nat)
    requires Inverse(l) && TrackedIntact(c, s, Recency(l)) && Accurate(s) && StoredBytes(s.files) < U64
    ensures Payable(c, s, Recency(l)) && CanEnd(c, l, s, target) && Reach(c, s, Recency(l), 0) == Recency(l)
  {
    AllWithinReach(c, s, Recency(l));
    RecencyDistinct(l);
    SumOfSome(s.files, Recency(l));
    hide Recency, Inverse, NoRepeats, StoredBytes;
  }

  // ----- a store on which it never ends -----

  /** One tracked chunk, whose file is gone while the counter still has its byte. */
  lemma StuckForever(c: CasConfig, h: Hash, now: Instant)
    ensures !Ends(c, RecordAccess(EMPTY_LRU, h, now), Store(map[], {}, 1), 0)
  {
    var l, s := RecordAccess(EMPTY_LRU, h, now), Store(map[], {}, 1);
    assert EMPTY_LRU.times.Keys == {} && Inverse(EMPTY_LRU) && Recency(EMPTY_LRU) == [];
    AccessRecency(EMPTY_LRU, h, now);
    AccessInverse(EMPTY_LRU, h, now);
    assert Recency(l) == [h];
    AllUnreadable(c, s, [h]);
    assert [h][1..] == [] && Reach(c, s, [h], 0) == [];
    hide Recency, Inverse, Ends, RecordAccess;
    EndsExactly(c, l, s, 0);
  }
}
