/**
 Least-recently-used eviction as the source runs it, on two maps and a store that
 are changed in place.
 */
module Evictions {
  import opened Common
  import opened Chunks
  import opened CasModel
  import opened CasStores
  import opened LruModel
  import opened EvictionModel

  /** Where a sorted map's iteration starts. */
  method FindEarliest(s: set<Instant>) returns (m: Instant)
    requires s != {}
    ensures m == Earliest(s)
  {
    m :| m in s;
    var todo := s - {m};
    while todo != {}
      invariant m in s && todo <= s
      invariant forall t :: t in s && t !in todo ==> m.ticks <= t.ticks
      decreases |todo|
    {
      var t :| t in todo;
      if t.ticks < m.ticks { m := t; }
      todo := todo - {t};
    }
    assert IsEarliest(m, s);
  }

  class LruEviction {
    var accessTimes: map<Instant, Hash>
    var hashToTime: map<Hash, Instant>

    ghost function State(): Lru
      reads this
    {
      Lru(accessTimes, hashToTime)
    }

    constructor ()
      ensures State() == EMPTY_LRU
    {
      accessTimes, hashToTime := map[], map[];
    }

    method RecordAccess(h: Hash, now: Instant)
      modifies this
      ensures State() == LruModel.RecordAccess(old(State()), h, now)
    {
      if h in hashToTime {
        var before := hashToTime[h];
        hashToTime := hashToTime - {h};
        accessTimes := accessTimes - {before};
      }
      accessTimes := accessTimes[now := h];
      hashToTime := hashToTime[h := now];
    }

    method Remove(h: Hash)
      modifies this
      ensures State() == LruModel.Remove(old(State()), h)
    {
      if h in hashToTime {
        var time := hashToTime[h];
        hashToTime := hashToTime - {h};
        accessTimes := accessTimes - {time};
      }
    }

    /** The values of the sorted map, the first count of them. */
    method SelectVictims(count: nat) returns (victims: seq<Hash>)
      ensures victims == Recency(State())[..Min(count, |Recency(State())|)]
    {
      victims := [];
      var left := accessTimes.Keys;
      ghost var ts, list := InOrder(left), Recency(State());
      NextVictim(State(), 0);
      hide InOrder, ChunksAt, Recency, Earliest;
      for i := 0 to count
        invariant i <= |ts| && left <= accessTimes.Keys && InOrder(left) == ts[i..]
        invariant victims == list[..i]
      {
        OrderStep(left, ts, i);
        NextVictim(State(), i);
        if left == {} { return; }
        var t := FindEarliest(left);
        victims := victims + [accessTimes[t]];
        left := left - {t};
      }
    }

    /** One batch of victims, in whatever state they are. */
    method EvictVictims(store: CasStore, victims: seq<Hash>) returns (bytesFreed: nat)
      modifies this, store
      ensures (State(), store.State(), bytesFreed) ==
        EvictBatch(store.config, old(State()), old(store.State()), victims)
    {
      ghost var l, s := State(), store.State();
      bytesFreed := 0;
      for i := 0 to |victims|
        invariant EvictBatch(store.config, l, s, victims) ==
          AddFreed(bytesFreed, EvictBatch(store.config, State(), store.State(), victims[i..]))
      {
        var hash := victims[i];
        assert victims[i..][0] == hash && victims[i..][1..] == victims[i + 1..];
        var data := store.Get(hash, false);
        if data.Ok? {
          bytesFreed := bytesFreed + |data.value|;
          var _ := store.Delete(hash, DeleteHealthy);
          Remove(hash);
        }
      }
    }

    /** Delete least recently used chunks, ten at a time, until the store is small
        enough or nothing is tracked. Whatever state the chunks are in, this ends under
        the condition that is exact for it, and evicts the front of what is within
        reach, `gone`. */
    method EvictToTarget(store: CasStore, target: nat) returns (bytesFreed: nat, ghost gone: seq<Hash>)
      requires Inverse(State()) && Payable(store.config, store.State(), Recency(State()))
      requires CanEnd(store.config, State(), store.State(), target)
      modifies this, store
      ensures Done(State(), store.State(), target)
      ensures gone <= Reach(store.config, old(store.State()), old(Recency(State())), 0)
      ensures Evicted(old(State()), old(store.State()), gone, State(), store.State(), bytesFreed)
      ensures NoneTooMany(old(store.State()), gone, target)
    {
      ghost var c, l, s, n := store.config, State(), store.State(), |Recency(State())|;
      ghost var left := n;
      bytesFreed := 0;
      assert Ready(c, l, s, target);
      AddTwice(0, 0, EvictRounds(c, l, s, target, n));
      hide Ready, Recency, Inverse, Payable, CanEnd, EvictBatch, EvictRounds, Reach, Evicted, NoneTooMany, AddFreed;
      while store.currentSize > target
        invariant Ready(c, State(), store.State(), target)
        invariant left >= |Recency(State())|
        invariant EvictRounds(c, l, s, target, n) ==
          AddFreed(bytesFreed, EvictRounds(c, State(), store.State(), target, left))
        decreases |Recency(State())|
      {
        ghost var l1, s1 := State(), store.State();
        var victims := SelectVictims(BATCH);
        if victims == [] { break; }
        NextRound(c, l1, s1, target, left);
        var freed := EvictVictims(store, victims);
        AddTwice(bytesFreed, freed, EvictRounds(c, State(), store.State(), target, left - 1));
        bytesFreed := bytesFreed + freed;
        left := left - 1;
      }
      RoundsDone(c, State(), store.State(), target, left);
      AddTwice(bytesFreed, 0, (State(), store.State(), 0));
      gone := FrontEvicted(c, l, s, target, n, (State(), store.State(), bytesFreed));
    }
  }

  lemma NextVictim(l: Lru, i: nat)
    ensures var ts := InOrder(l.times.Keys);
      |Recency(l)| == |ts| && (i < |ts| ==> ts[i] in l.times && Recency(l)[i] == l.times[ts[i]])
  {
    InOrderElements(l.times.Keys);
    ChunksElements(l.times, InOrder(l.times.Keys));
  }

  lemma OrderStep(left: set<Instant>, ts: seq<Instant>, i: nat)
    requires i <= |ts| && InOrder(left) == ts[i..]
    ensures left == {} <==> i == |ts|
    ensures left != {} ==> i < |ts| && ts[i] == Earliest(left) && InOrder(left - {ts[i]}) == ts[i + 1..]
  {
    InOrderElements(left);
    if left != {} { assert ts[i + 1..] == InOrder(left)[1..]; }
  }
}
