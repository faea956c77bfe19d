/**
 The two maps behind least-recently-used eviction, and the recency list they
 stand for.
 */
module LruModel {
  import opened Chunks

  /** A reading of the clock. */
  datatype Instant = Instant(ticks: int)

  /** times by reading, stamps by chunk. */
  datatype Lru = Lru(times: map<Instant, Hash>, stamps: map<Hash, Instant>)

  const EMPTY_LRU := Lru(map[], map[])

  function Remove(l: Lru, h: Hash): Lru {
    if h in l.stamps then Lru(l.times - {l.stamps[h]}, l.stamps - {h}) else l
  }

  function RecordAccess(l: Lru, h: Hash, now: Instant): Lru {
    var l1 := Remove(l, h);
    Lru(l1.times[now := h], l1.stamps[h := now])
  }

  // ----- time order -----

  ghost predicate IsEarliest(m: Instant, s: set<Instant>) {
    m in s && forall t :: t in s ==> m.ticks <= t.ticks
  }

  lemma {:induction false} HasEarliest(s: set<Instant>)
    requires s != {}
    ensures exists m :: IsEarliest(m, s)
    decreases s
  {
    var t :| t in s;
    var rest := s - {t};
    if rest == {} {
      forall u | u in s ensures u == t { assert u in rest || u == t; }
      assert IsEarliest(t, s);
    } else {
      HasEarliest(rest);
      var n :| IsEarliest(n, rest);
      var m := if n.ticks < t.ticks then n else t;
      forall u | u in s ensures m.ticks <= u.ticks { assert u == t || u in rest; }
      assert IsEarliest(m, s);
    }
  }

  ghost function Earliest(s: set<Instant>): (m: Instant)
    requires s != {}
    ensures IsEarliest(m, s)
  {
    HasEarliest(s);
    var m :| IsEarliest(m, s);
    m
  }

  /** The readings in the order of a sorted map. */
  ghost function InOrder(s: set<Instant>): seq<Instant>
    decreases s
  {
    if s == {} then [] else [Earliest(s)] + InOrder(s - {Earliest(s)})
  }

  /** A recency list without one chunk. */
  function Without<T(==)>(list: seq<T>, x: T): seq<T> {
    if list == [] then []
    else if list[0] == x then Without(list[1..], x)
    else [list[0]] + Without(list[1..], x)
  }

  lemma {:induction false} InOrderElements(s: set<Instant>)
    ensures forall t :: t in InOrder(s) <==> t in s
    ensures |InOrder(s)| == |s|
    decreases s
  {
    if s != {} { InOrderElements(s - {Earliest(s)}); }
  }

  /** Taking a reading away leaves the others in order. */
  lemma {:induction false} InOrderWithout(s: set<Instant>, x: Instant)
    ensures InOrder(s - {x}) == Without(InOrder(s), x)
    decreases s
  {
    if s != {} {
      var m := Earliest(s);
      InOrderWithout(s - {m}, x);
      if x == m {
        assert s - {m} - {x} == s - {x};
      } else {
        assert s - {m} - {x} == s - {x} - {m};
        assert Earliest(s - {x}) == m by { assert IsEarliest(m, s - {x}); }
      }
    } else {
      assert s - {x} == {};
    }
  }

  /** A reading later than all others comes last. */
  lemma {:induction false} InOrderLatest(s: set<Instant>, now: Instant)
    requires forall t :: t in s ==> t.ticks < now.ticks
    ensures InOrder(s + {now}) == InOrder(s) + [now]
    decreases s
  {
    var all := s + {now};
    if s == {} {
      assert all == {now} && Earliest(all) == now && all - {now} == {};
    } else {
      var m := Earliest(s);
      assert Earliest(all) == m;
      assert all - {m} == (s - {m}) + {now};
      InOrderLatest(s - {m}, now);
    }
  }

  // ----- the recency list -----

  ghost function ChunksAt(times: map<Instant, Hash>, ts: seq<Instant>): seq<Hash>
    requires forall t :: t in ts ==> t in times
  {
    if ts == [] then [] else [times[ts[0]]] + ChunksAt(times, ts[1..])
  }

  /** The tracked chunks, least recently used first. */
  ghost function Recency(l: Lru): seq<Hash> {
    InOrderElements(l.times.Keys);
    ChunksAt(l.times, InOrder(l.times.Keys))
  }

  /** Every reading on record is the stamp of the chunk on record for it. */
  ghost predicate Sound(l: Lru) {
    forall t :: t in l.times ==> l.times[t] in l.stamps && l.stamps[l.times[t]] == t
  }

  /** The two maps are inverse to each other. */
  ghost predicate Inverse(l: Lru) {
    Sound(l) && forall h :: h in l.stamps ==> l.stamps[h] in l.times && l.times[l.stamps[h]] == h
  }

  /** One inclusion survives any clock. */
  lemma StepSound(l: Lru, h: Hash, now: Instant)
    requires Sound(l)
    ensures Sound(RecordAccess(l, h, now)) && Sound(Remove(l, h))
  {
  }

  /** The other needs a reading that no other chunk has. */
  lemma AccessInverse(l: Lru, h: Hash, now: Instant)
    requires Inverse(l)
    ensures Inverse(RecordAccess(l, h, now)) <==> (now in l.times ==> l.times[now] == h)
    ensures Inverse(Remove(l, h))
  {
    var l' := RecordAccess(l, h, now);
    if now in l.times && l.times[now] != h {
      var g := l.times[now];
      assert l'.stamps[g] == now && l'.times[now] == h;
    }
  }

  lemma {:induction false} ChunksWithout(times: map<Instant, Hash>, ts: seq<Instant>, x: Instant)
    requires x in times && forall t :: t in ts ==> t in times
    requires forall t :: t in times && times[t] == times[x] ==> t == x
    ensures forall t :: t in Without(ts, x) ==> t in times && t != x
    ensures ChunksAt(times - {x}, Without(ts, x)) == Without(ChunksAt(times, ts), times[x])
    decreases |ts|
  {
    if ts != [] {
      ChunksWithout(times, ts[1..], x);
    }
  }

  lemma {:induction false} ChunksMore(times: map<Instant, Hash>, ts: seq<Instant>, now: Instant, h: Hash)
    requires forall t :: t in ts ==> t in times && t != now
    ensures forall t :: t in ts + [now] ==> t in times[now := h]
    ensures ChunksAt(times[now := h], ts + [now]) == ChunksAt(times, ts) + [h]
    decreases |ts|
  {
    if ts == [] {
      assert ts + [now] == [now] && [now][1..] == [];
    } else {
      var all, more := ts + [now], times[now := h];
      assert forall t :: t in ts[1..] ==> t in ts;
      ChunksMore(times, ts[1..], now, h);
      assert all[0] == ts[0] && all[1..] == ts[1..] + [now];
      assert forall t :: t in all ==> t in more;
      assert ChunksAt(more, all) == [more[all[0]]] + ChunksAt(more, all[1..]);
    }
  }

  lemma {:induction false} WithoutAbsent<T>(list: seq<T>, x: T)
    requires x !in list
    ensures Without(list, x) == list
    decreases |list|
  {
    if list != [] { WithoutAbsent(list[1..], x); }
  }

  lemma {:induction false} ChunksElements(times: map<Instant, Hash>, ts: seq<Instant>)
    requires forall t :: t in ts ==> t in times
    ensures |ChunksAt(times, ts)| == |ts|
    ensures forall i :: 0 <= i < |ts| ==> ChunksAt(times, ts)[i] == times[ts[i]]
    decreases |ts|
  {
    if ts != [] { ChunksElements(times, ts[1..]); }
  }

  lemma TrackedChunks(l: Lru)
    requires Inverse(l)
    ensures forall h :: h in Recency(l) <==> h in l.stamps
  {
    var ts := InOrder(l.times.Keys);
    InOrderElements(l.times.Keys);
    ChunksElements(l.times, ts);
    hide InOrder;
    forall h | h in Recency(l) ensures h in l.stamps {
      var i :| 0 <= i < |ts| && Recency(l)[i] == h;
      assert ts[i] in ts;
    }
    forall h | h in l.stamps ensures h in Recency(l) {
      assert l.stamps[h] in ts;
      var i :| 0 <= i < |ts| && ts[i] == l.stamps[h];
      assert Recency(l)[i] == h;
    }
  }

  /** Removing a chunk takes it off the list. */
  lemma RemoveRecency(l: Lru, h: Hash)
    requires Inverse(l)
    ensures Recency(Remove(l, h)) == Without(Recency(l), h)
  {
    InOrderElements(l.times.Keys);
    if h in l.stamps {
      var x := l.stamps[h];
      InOrderWithout(l.times.Keys, x);
      ChunksWithout(l.times, InOrder(l.times.Keys), x);
      assert (l.times - {x}).Keys == l.times.Keys - {x};
      hide InOrder, ChunksAt, Without;
    } else {
      TrackedChunks(l);
      WithoutAbsent(Recency(l), h);
    }
  }

  /** An access moves the chunk to the end of the list, if the clock has moved on
      since every access on record. */
  lemma {:induction false} AccessRecency(l: Lru, h: Hash, now: Instant)
    requires Inverse(l) && forall t :: t in l.times ==> t.ticks < now.ticks
    ensures Recency(RecordAccess(l, h, now)) == Without(Recency(l), h) + [h]
  {
    var l1 := Remove(l, h);
    RemoveRecency(l, h);
    hide Inverse, Sound;
    InOrderElements(l1.times.Keys);
    InOrderLatest(l1.times.Keys, now);
    ChunksMore(l1.times, InOrder(l1.times.Keys), now, h);
    assert (l1.times[now := h]).Keys == l1.times.Keys + {now};
    hide InOrder, ChunksAt, Without;
  }

  // ----- whole traces -----

  datatype LruEvent = Access(hash: Hash, now: Instant) | Forget(hash: Hash)

  function LruStep(l: Lru, e: LruEvent): Lru {
    match e
    case Access(h, now) => RecordAccess(l, h, now)
    case Forget(h) => Remove(l, h)
  }

  function LruRun(l: Lru, es: seq<LruEvent>): Lru {
    if es == [] then l else LruStep(LruRun(l, es[..|es| - 1]), es[|es| - 1])
  }

  /** What the trace does to a list. */
  function ListRun(list: seq<Hash>, es: seq<LruEvent>): seq<Hash> {
    if es == [] then list
    else
      var before := ListRun(list, es[..|es| - 1]);
      match es[|es| - 1]
      case Access(h, _) => Without(before, h) + [h]
      case Forget(h) => Without(before, h)
  }

  /** Each access reads the clock later than every access before it. */
  ghost predicate Increasing(es: seq<LruEvent>) {
    forall i, j :: 0 <= i < j < |es| && es[i].Access? && es[j].Access? ==> es[i].now.ticks < es[j].now.ticks
  }

  /** No two accesses read the same instant. */
  ghost predicate Distinct(es: seq<LruEvent>) {
    forall i, j :: 0 <= i < j < |es| && es[i].Access? && es[j].Access? ==> es[i].now != es[j].now
  }

  /** Every reading on record was made by an access of the trace. */
  lemma {:induction false} ReadingsKnown(es: seq<LruEvent>, t: Instant)
    requires t in LruRun(EMPTY_LRU, es).times
    ensures exists i :: 0 <= i < |es| && es[i].Access? && es[i].now == t
    decreases |es|
  {
    if es != [] {
      var init, last := es[..|es| - 1], es[|es| - 1];
      if last.Access? && last.now == t {
        assert es[|es| - 1].now == t;
      } else {
        ReadingsKnown(init, t);
        var i :| 0 <= i < |init| && init[i].Access? && init[i].now == t;
        assert es[i].now == t;
      }
    }
  }

  /** Whatever the clock reads, over every trace, the time map stays inside the
      inverse of the other. */
  lemma {:induction false} TraceSound(es: seq<LruEvent>)
    ensures Sound(LruRun(EMPTY_LRU, es))
    decreases |es|
  {
    if es != [] {
      TraceSound(es[..|es| - 1]);
      StepSound(LruRun(EMPTY_LRU, es[..|es| - 1]), es[|es| - 1].hash, Instant(0));
      if es[|es| - 1].Access? {
        StepSound(LruRun(EMPTY_LRU, es[..|es| - 1]), es[|es| - 1].hash, es[|es| - 1].now);
      }
      hide Sound, RecordAccess, Remove;
    }
  }

  /** Over every trace whose readings are all different the maps are inverse. */
  lemma {:induction false} TraceInverse(es: seq<LruEvent>)
    requires Distinct(es)
    ensures Inverse(LruRun(EMPTY_LRU, es))
    decreases |es|
  {
    if es != [] {
      var init, last := es[..|es| - 1], es[|es| - 1];
      TraceInverse(init);
      var l := LruRun(EMPTY_LRU, init);
      AccessInverse(l, last.hash, if last.Access? then last.now else Instant(0));
      forall t | t in l.times && last.Access? ensures t != last.now {
        ReadingsKnown(init, t);
        var i :| 0 <= i < |init| && init[i].Access? && init[i].now == t;
        assert es[i] == init[i];
      }
      hide Inverse, RecordAccess, Remove;
    }
  }

  /** Over every trace with strictly increasing readings the two maps are a recency
      list: each access moves its chunk to the end, each removal takes it off. */
  lemma {:induction false} TraceRefinesList(es: seq<LruEvent>)
    requires Increasing(es)
    ensures Inverse(LruRun(EMPTY_LRU, es)) && Recency(LruRun(EMPTY_LRU, es)) == ListRun([], es)
    decreases |es|
  {
    assert Distinct(es);
    TraceInverse(es);
    if es == [] {
      assert EMPTY_LRU.times.Keys == {};
    } else {
      var init, last := es[..|es| - 1], es[|es| - 1];
      TraceRefinesList(init);
      var l := LruRun(EMPTY_LRU, init);
      if last.Access? {
        forall t | t in l.times ensures t.ticks < last.now.ticks {
          ReadingsKnown(init, t);
          var i :| 0 <= i < |init| && init[i].Access? && init[i].now == t;
          assert es[i] == init[i];
        }
        AccessRecency(l, last.hash, last.now);
      } else {
        RemoveRecency(l, last.hash);
      }
      hide Recency, Inverse, RecordAccess, Remove, Without;
    }
  }

  /** Two accesses at one reading: the first chunk keeps its stamp but is no longer
      selected, and forgetting it drops the second one from the order too. */
  lemma EqualReadings(a: Hash, b: Hash, now: Instant)
    requires a != b
    ensures var l := LruRun(EMPTY_LRU, [Access(a, now), Access(b, now)]);
      a in l.stamps && Recency(l) == [b] && Recency(Remove(l, a)) == [] && b in Remove(l, a).stamps
  {
    var es := [Access(a, now), Access(b, now)];
    assert es[..1] == [Access(a, now)] && es[..1][..0] == [];
    var l1 := LruRun(EMPTY_LRU, es[..1]);
    assert l1 == LruStep(LruRun(EMPTY_LRU, []), Access(a, now)) == Lru(map[now := a], map[a := now]);
    var l := LruRun(EMPTY_LRU, es);
    assert l == LruStep(l1, Access(b, now)) == Lru(map[now := b], map[a := now, b := now]);
    assert l.times - {now} == map[];
    assert l.times.Keys == {now} && Earliest({now}) == now;
    assert {now} - {now} == {} && InOrder({now}) == [now] + InOrder({now} - {now}) == [now];
    InOrderElements(l.times.Keys);
    assert [now][1..] == [] && ChunksAt(l.times, [now]) == [b];
    assert Remove(l, a).times.Keys == {};
  }
}
