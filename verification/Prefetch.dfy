/**
 The prefetch protocol as interleaved steps: any number of callers and tasks
 share a set of files in flight and a counted semaphore. Each step below is one
 critical section or one operation on the semaphore.
 */
module Prefetch {
  import opened Common

  /** Where one call, and the task it spawns, has got to. */
  datatype Phase =
    | Called        // about to look at the set
    | Inserted      // its file is in the set, no permit yet
    | Refused       // no permit to be had, its file still in the set
    | Permitted     // holds a permit, task not spawned yet
    | Fetching      // the task is fetching
    | Fetched       // fetch over, its file still in the set
    | Removed       // its file is out of the set, the permit still held
    | Finished
    | Panicked      // the task unwound: the permit is gone, its file is not

  datatype Activity = Activity(file: FileId, phase: Phase)

  datatype Engine = Engine(free: nat, inFlight: set<FileId>, activities: map<nat, Activity>)

  datatype Action = Call(n: nat, file: FileId) | Advance(n: nat) | Panic(n: nat)

  function Start(maxConcurrent: nat): Engine { Engine(maxConcurrent, {}, map[]) }

  predicate Unfinished(a: Activity) { a.phase != Finished && a.phase != Panicked }

  /** The next step of one activity. No step waits for another activity. */
  function Next(e: Engine, n: nat): Engine
    requires n in e.activities
  {
    var a := e.activities[n];
    var to := (p: Phase) => e.activities[n := a.(phase := p)];
    match a.phase
    case Called =>
      if a.file in e.inFlight then e.(activities := to(Finished))
      else e.(inFlight := e.inFlight + {a.file}, activities := to(Inserted))
    case Inserted =>
      if e.free > 0 then e.(free := e.free - 1, activities := to(Permitted))
      else e.(activities := to(Refused))
    case Refused => e.(inFlight := e.inFlight - {a.file}, activities := to(Finished))
    case Permitted => e.(activities := to(Fetching))
    case Fetching => e.(activities := to(Fetched))
    case Fetched => e.(inFlight := e.inFlight - {a.file}, activities := to(Removed))
    case Removed => e.(free := e.free + 1, activities := to(Finished))
    case Finished => e
    case Panicked => e
  }

  function Step(e: Engine, action: Action): Engine {
    match action
    case Call(n, file) => if n in e.activities then e else e.(activities := e.activities[n := Activity(file, Called)])
    case Advance(n) => if n in e.activities then Next(e, n) else e
    case Panic(n) =>
      if n in e.activities && e.activities[n].phase == Fetching
      then e.(free := e.free + 1, activities := e.activities[n := e.activities[n].(phase := Panicked)])
      else e
  }

  function Run(e: Engine, actions: seq<Action>): Engine {
    if actions == [] then e else Step(Run(e, actions[..|actions| - 1]), actions[|actions| - 1])
  }

  // ----- what every step keeps -----

  predicate HoldsPermit(a: Activity) {
    a.phase == Permitted || a.phase == Fetching || a.phase == Fetched || a.phase == Removed
  }

  /** Its file is in the set on its account. */
  predicate Marks(a: Activity) {
    a.phase == Inserted || a.phase == Refused || a.phase == Permitted || a.phase == Fetching || a.phase == Fetched
    || a.phase == Panicked
  }

  ghost function Holders(e: Engine): set<nat> {
    set n | n in e.activities && HoldsPermit(e.activities[n])
  }

  ghost function MarkedFiles(e: Engine): set<FileId> {
    set n | n in e.activities && Marks(e.activities[n]) :: e.activities[n].file
  }

  ghost predicate OneEach(e: Engine) {
    forall m, n | m in e.activities && n in e.activities && m != n && Marks(e.activities[m]) && Marks(e.activities[n])
      :: e.activities[m].file != e.activities[n].file
  }

  /** Permits are conserved, the set holds exactly the files of the activities that
      are between entering and leaving it, and no file is held twice. */
  ghost predicate Safe(e: Engine, maxConcurrent: nat) {
    && e.free + |Holders(e)| == maxConcurrent
    && e.inFlight == MarkedFiles(e)
    && OneEach(e)
  }

  /** How an activity's change of phase changes who holds and who marks. */
  lemma Changed(e: Engine, e': Engine, n: nat, a: Activity)
    requires e'.activities == e.activities[n := a]
    requires n in e.activities ==> e.activities[n].file == a.file
    ensures Holders(e') == if HoldsPermit(a) then Holders(e) + {n} else Holders(e) - {n}
    ensures n in e.activities && Marks(e.activities[n]) && !Marks(a) && OneEach(e) ==>
      MarkedFiles(e') == MarkedFiles(e) - {a.file} && OneEach(e')
    ensures !(n in e.activities && Marks(e.activities[n])) && Marks(a) && a.file !in MarkedFiles(e) && OneEach(e) ==>
      MarkedFiles(e') == MarkedFiles(e) + {a.file} && OneEach(e')
    ensures (n in e.activities && Marks(e.activities[n])) == Marks(a) && OneEach(e) ==>
      MarkedFiles(e') == MarkedFiles(e) && OneEach(e')
  {
    hide HoldsPermit, Marks;
    var others := set m | m in e.activities && m != n && Marks(e.activities[m]) :: e.activities[m].file;
    assert forall m :: m in e.activities && m != n ==> e'.activities[m] == e.activities[m];
    MarkedSplit(e, n);
    MarkedSplit(e', n);
    assert others == set m | m in e'.activities && m != n && Marks(e'.activities[m]) :: e'.activities[m].file;
  }

  /** The marked files are those of n, if it marks, and those of the others. */
  lemma MarkedSplit(e: Engine, n: nat)
    ensures MarkedFiles(e) ==
      (set m | m in e.activities && m != n && Marks(e.activities[m]) :: e.activities[m].file)
      + if n in e.activities && Marks(e.activities[n]) then {e.activities[n].file} else {}
    ensures n in e.activities && Marks(e.activities[n]) && OneEach(e) ==>
      e.activities[n].file !in set m | m in e.activities && m != n && Marks(e.activities[m]) :: e.activities[m].file
  {
    hide Marks;
  }

  predicate HoldsAt(e: Engine, n: nat) { n in e.activities && HoldsPermit(e.activities[n]) }

  predicate MarksAt(e: Engine, n: nat) { n in e.activities && Marks(e.activities[n]) }

  /** A step concerns one activity: it takes or returns a permit as that activity
      comes to hold one or stops, and likewise enters its file or takes it out. */
  lemma StepEffect(e: Engine, action: Action)
    ensures var e', n := Step(e, action), action.n;
      e' != e ==>
        && n in e'.activities && e'.activities == e.activities[n := e'.activities[n]]
        && (n in e.activities ==> e'.activities[n].file == e.activities[n].file)
        && e'.free + (if HoldsAt(e', n) then 1 else 0) == e.free + (if HoldsAt(e, n) then 1 else 0)
        && var f := e'.activities[n].file;
           if MarksAt(e, n) == MarksAt(e', n) then e'.inFlight == e.inFlight
           else if MarksAt(e', n) then f !in e.inFlight && e'.inFlight == e.inFlight + {f}
           else e'.inFlight == e.inFlight - {f}
  {
  }

  lemma StepSafe(e: Engine, action: Action, maxConcurrent: nat)
    requires Safe(e, maxConcurrent)
    ensures Safe(Step(e, action), maxConcurrent)
  {
    var e', n := Step(e, action), action.n;
    StepEffect(e, action);
    if e' != e {
      assert n in Holders(e) <==> HoldsAt(e, n);
      Changed(e, e', n, e'.activities[n]);
      hide Holders, MarkedFiles, OneEach, Step, HoldsPermit, Marks;
    }
  }

  /** Over every interleaving of callers and tasks, panics included, permits are
      conserved and the set in flight holds exactly the files of the activities
      between entering and leaving it. */
  lemma {:induction false} RunSafe(maxConcurrent: nat, actions: seq<Action>)
    ensures Safe(Run(Start(maxConcurrent), actions), maxConcurrent)
    decreases |actions|
  {
    if actions == [] {
      assert Holders(Start(maxConcurrent)) == {} && MarkedFiles(Start(maxConcurrent)) == {};
    } else {
      RunSafe(maxConcurrent, actions[..|actions| - 1]);
      StepSafe(Run(Start(maxConcurrent), actions[..|actions| - 1]), actions[|actions| - 1], maxConcurrent);
      hide Safe, Step;
    }
  }

  ghost function FetchingNow(e: Engine): set<nat> {
    set n | n in e.activities && e.activities[n].phase == Fetching
  }

  ghost predicate Idle(e: Engine) {
    forall n :: n in e.activities ==> !Unfinished(e.activities[n])
  }

  ghost predicate NoPanics(e: Engine) {
    forall n :: n in e.activities ==> e.activities[n].phase != Panicked
  }

  /** What that means to a user: never more than the limit at once, never the same
      file twice at once, and with nothing going on all permits are back; the set is
      then empty exactly when no task ever panicked. */
  lemma SafeMeans(e: Engine, maxConcurrent: nat)
    requires Safe(e, maxConcurrent)
    ensures |FetchingNow(e)| <= maxConcurrent
    ensures forall m, n :: m in FetchingNow(e) && n in FetchingNow(e) && m != n ==>
      e.activities[m].file != e.activities[n].file
    ensures Idle(e) ==> e.free == maxConcurrent && (e.inFlight == {} <==> NoPanics(e))
  {
    SubsetSize(FetchingNow(e), Holders(e));
    if Idle(e) {
      assert Holders(e) == {};
      forall n | n in e.activities && e.activities[n].phase == Panicked ensures e.activities[n].file in MarkedFiles(e) {
        assert Marks(e.activities[n]);
      }
    }
  }

  lemma {:induction false} SubsetSize(a: set<nat>, b: set<nat>)
    requires a <= b
    ensures |a| <= |b|
  {
    assert b == a + (b - a);
  }

  // ----- a panic is forever -----

  lemma StaysPanicked(e: Engine, n: nat, action: Action)
    requires n in e.activities && e.activities[n].phase == Panicked
    ensures n in Step(e, action).activities && Step(e, action).activities[n] == e.activities[n]
  {
  }

  /** Whoever is about to look at the set for f is finished by its next step, with
      neither the set nor a permit touched. */
  ghost predicate ShutOut(e: Engine, f: FileId) {
    forall m :: m in e.activities && e.activities[m] == Activity(f, Called) ==>
      Next(e, m) == e.(activities := e.activities[m := Activity(f, Finished)])
  }

  /** No step but the owner's own takes a file out of the set, so after a panic the
      file stays in it over every run, and every later call for that file ends at
      once without a fetch. */
  lemma {:induction false} PanicLocksOut(e: Engine, n: nat, actions: seq<Action>, maxConcurrent: nat)
    requires Safe(e, maxConcurrent) && n in e.activities && e.activities[n].phase == Panicked
    ensures var e' := Run(e, actions);
      && Safe(e', maxConcurrent) && n in e'.activities && e'.activities[n] == e.activities[n]
      && e.activities[n].file in e'.inFlight && ShutOut(e', e.activities[n].file)
    decreases |actions|
  {
    if actions == [] {
      assert Marks(e.activities[n]);
    } else {
      var e1, action := Run(e, actions[..|actions| - 1]), actions[|actions| - 1];
      PanicLocksOut(e, n, actions[..|actions| - 1], maxConcurrent);
      StepSafe(e1, action, maxConcurrent);
      StaysPanicked(e1, n, action);
      hide Step;
      var e2 := Step(e1, action);
      assert Marks(e2.activities[n]);
      assert e.activities[n].file in MarkedFiles(e2);
    }
  }

  lemma RunOne(e: Engine, actions: seq<Action>, a: Action, e1: Engine)
    requires Run(e, actions) == e1
    ensures Run(e, actions + [a]) == Step(e1, a)
  {
    assert (actions + [a])[..|actions|] == actions;
  }

  /** It does happen: one call, its fetch panics, and with everything at rest the
      file is still in the set. */
  lemma PanicIsReal(maxConcurrent: nat, file: FileId)
    requires maxConcurrent > 0
    ensures var actions := [Call(0, file), Advance(0), Advance(0), Advance(0), Panic(0)];
      Run(Start(maxConcurrent), actions) == Engine(maxConcurrent, {file}, map[0 := Activity(file, Panicked)])
  {
    var e, call, on := Start(maxConcurrent), Call(0, file), Advance(0);
    assert Run(e, []) == e;
    hide Run;
    var a1 := [] + [call];
    var a2 := a1 + [on];
    var a3 := a2 + [on];
    var a4 := a3 + [on];
    RunOne(e, [], call, e);
    RunOne(e, a1, on, Engine(maxConcurrent, {}, map[0 := Activity(file, Called)]));
    RunOne(e, a2, on, Engine(maxConcurrent, {file}, map[0 := Activity(file, Inserted)]));
    RunOne(e, a3, on, Engine(maxConcurrent - 1, {file}, map[0 := Activity(file, Permitted)]));
    RunOne(e, a4, Panic(0), Engine(maxConcurrent - 1, {file}, map[0 := Activity(file, Fetching)]));
    assert a4 + [Panic(0)] == [call, on, on, on, Panic(0)];
  }

  // ----- without a panic nothing is left behind -----

  /** Only a panic makes an activity panicked. */
  lemma {:induction false} OnlyPanics(maxConcurrent: nat, actions: seq<Action>, n: nat)
    ensures var e := Run(Start(maxConcurrent), actions);
      n in e.activities && e.activities[n].phase == Panicked ==> Panic(n) in actions
    decreases |actions|
  {
    if actions != [] {
      OnlyPanics(maxConcurrent, actions[..|actions| - 1], n);
      assert actions == actions[..|actions| - 1] + [actions[|actions| - 1]];
    }
  }

  /** Over every run in which no task panics, once nothing is going on the set is
      empty and all permits are back. */
  lemma RestIsClean(maxConcurrent: nat, actions: seq<Action>)
    requires forall n :: Panic(n) !in actions
    requires Idle(Run(Start(maxConcurrent), actions))
    ensures var e := Run(Start(maxConcurrent), actions);
      e.inFlight == {} && e.free == maxConcurrent
  {
    var e := Run(Start(maxConcurrent), actions);
    RunSafe(maxConcurrent, actions);
    forall n | n in e.activities ensures e.activities[n].phase != Panicked { OnlyPanics(maxConcurrent, actions, n); }
    hide Run, Idle, Safe;
    SafeMeans(e, maxConcurrent);
  }

  // ----- one call from beginning to end -----

  /** n's next k steps, with nothing else in between. */
  function Advances(e: Engine, n: nat, k: nat): (e': Engine)
    requires n in e.activities
    ensures n in e'.activities
  {
    if k == 0 then e else Step(Advances(e, n, k - 1), Advance(n))
  }

  function At(e: Engine, n: nat, phase: Phase): map<nat, Activity>
    requires n in e.activities
  {
    e.activities[n := Activity(e.activities[n].file, phase)]
  }

  /** One step of n from a state that differs from e in permits, set and n's phase. */
  lemma OneMore(e: Engine, n: nat, k: nat, e1: Engine, p: Phase, e2: Engine, q: Phase)
    requires n in e.activities && e1.activities == At(e, n, p) && e2.activities == At(e, n, q)
    requires Advances(e, n, k) == e1
    requires var next := Next(e1, n);
      next.free == e2.free && next.inFlight == e2.inFlight && next.activities[n] == e2.activities[n]
    ensures Advances(e, n, k + 1) == e2
  {
    var next := Next(e1, n);
    assert next.activities == e1.activities[n := next.activities[n]];
    assert next.activities == e2.activities;
  }

  lemma FetchedCall(e: Engine, n: nat)
    requires n in e.activities && e.activities[n].phase == Called && e.activities[n].file !in e.inFlight && e.free > 0
    ensures Advances(e, n, 3) == Engine(e.free - 1, e.inFlight + {e.activities[n].file}, At(e, n, Fetching))
    ensures Advances(e, n, 6) == e.(activities := At(e, n, Finished))
  {
    var more, left := e.inFlight + {e.activities[n].file}, e.free - 1;
    var free, none := e.free, e.inFlight;
    assert Advances(e, n, 0) == e && e.activities == At(e, n, Called) && more - {e.activities[n].file} == none;
    hide Advances;
    OneMore(e, n, 0, e, Called, Engine(free, more, At(e, n, Inserted)), Inserted);
    OneMore(e, n, 1, Engine(free, more, At(e, n, Inserted)), Inserted,
            Engine(left, more, At(e, n, Permitted)), Permitted);
    OneMore(e, n, 2, Engine(left, more, At(e, n, Permitted)), Permitted,
            Engine(left, more, At(e, n, Fetching)), Fetching);
    OneMore(e, n, 3, Engine(left, more, At(e, n, Fetching)), Fetching, Engine(left, more, At(e, n, Fetched)), Fetched);
    OneMore(e, n, 4, Engine(left, more, At(e, n, Fetched)), Fetched, Engine(left, none, At(e, n, Removed)), Removed);
    OneMore(e, n, 5, Engine(left, none, At(e, n, Removed)), Removed, Engine(free, none, At(e, n, Finished)), Finished);
  }

  lemma RefusedCall(e: Engine, n: nat)
    requires n in e.activities && e.activities[n].phase == Called && e.activities[n].file !in e.inFlight && e.free == 0
    ensures Advances(e, n, 2) == Engine(0, e.inFlight + {e.activities[n].file}, At(e, n, Refused))
    ensures Advances(e, n, 3) == e.(activities := At(e, n, Finished))
  {
    var more, none := e.inFlight + {e.activities[n].file}, e.inFlight;
    assert Advances(e, n, 0) == e && e.activities == At(e, n, Called) && more - {e.activities[n].file} == none;
    hide Advances;
    OneMore(e, n, 0, e, Called, Engine(0, more, At(e, n, Inserted)), Inserted);
    OneMore(e, n, 1, Engine(0, more, At(e, n, Inserted)), Inserted, Engine(0, more, At(e, n, Refused)), Refused);
    OneMore(e, n, 2, Engine(0, more, At(e, n, Refused)), Refused, Engine(0, none, At(e, n, Finished)), Finished);
  }

  /** A call whose file is in flight ends at once; one that finds no permit ends
      without fetching; any other fetches, with its file in the set and a permit held
      meanwhile. In the end permits and set are what they were. */
  lemma OneCall(e: Engine, n: nat)
    requires n in e.activities && e.activities[n].phase == Called
    ensures var f, done := e.activities[n].file, e.(activities := At(e, n, Finished));
      if f in e.inFlight then Advances(e, n, 1) == done
      else if e.free == 0 then
        && Advances(e, n, 2) == e.(inFlight := e.inFlight + {f}, activities := At(e, n, Refused))
        && Advances(e, n, 3) == done
      else
        && Advances(e, n, 3) == Engine(e.free - 1, e.inFlight + {f}, At(e, n, Fetching))
        && Advances(e, n, 6) == done
  {
    if e.activities[n].file in e.inFlight {
      assert Advances(e, n, 0) == e;
    } else if e.free == 0 {
      RefusedCall(e, n);
      hide Advances;
    } else {
      FetchedCall(e, n);
      hide Advances;
    }
  }

  // ----- nothing waits -----

  /** Steps an activity still has to take, at most. */
  function Rank(p: Phase): nat {
    match p
    case Called => 6
    case Inserted => 5
    case Refused => 1
    case Permitted => 4
    case Fetching => 3
    case Fetched => 2
    case Removed => 1
    case Finished => 0
    case Panicked => 0
  }

  /** Whatever the others do, an unfinished activity can always take its next step,
      and brings itself closer to its end by it and nobody else further from theirs. */
  lemma AlwaysProgress(e: Engine, n: nat)
    requires n in e.activities && Unfinished(e.activities[n])
    ensures var e' := Next(e, n);
      && e'.activities.Keys == e.activities.Keys
      && Rank(e'.activities[n].phase) < Rank(e.activities[n].phase)
      && forall m :: m in e.activities && m != n ==> e'.activities[m] == e.activities[m]
  {
  }

  /** So any engine can be brought to rest, by finishing its activities one by one. */
  lemma {:induction false} RunsToIdle(e: Engine, todo: set<nat>) returns (actions: seq<Action>)
    requires todo <= e.activities.Keys
    requires forall n :: n in e.activities && n !in todo ==> !Unfinished(e.activities[n])
    ensures Idle(Run(e, actions)) && Run(e, actions).activities.Keys == e.activities.Keys
    decreases |todo|
  {
    if n :| n in todo {
      var first := FinishOne(e, n);
      var e1 := Run(e, first);
      var rest := RunsToIdle(e1, todo - {n});
      RunAppend(e, first, rest);
      actions := first + rest;
    } else {
      actions := [];
    }
  }

  lemma {:induction false} FinishOne(e: Engine, n: nat) returns (actions: seq<Action>)
    requires n in e.activities
    ensures var e' := Run(e, actions);
      && e'.activities.Keys == e.activities.Keys && !Unfinished(e'.activities[n])
      && forall m :: m in e.activities && m != n ==> e'.activities[m] == e.activities[m]
    decreases Rank(e.activities[n].phase)
  {
    if Unfinished(e.activities[n]) {
      AlwaysProgress(e, n);
      var e1 := Next(e, n);
      var rest := FinishOne(e1, n);
      assert [Advance(n)][..0] == [];
      assert Run(e, [Advance(n)]) == Step(Run(e, []), Advance(n)) == e1;
      RunAppend(e, [Advance(n)], rest);
      actions := [Advance(n)] + rest;
    } else {
      actions := [];
    }
  }

  lemma {:induction false} RunAppend(e: Engine, a: seq<Action>, b: seq<Action>)
    ensures Run(e, a + b) == Run(Run(e, a), b)
    decreases |b|
  {
    if b == [] {
      assert a + b == a;
    } else {
      RunAppend(e, a, b[..|b| - 1]);
      assert (a + b)[..|a + b| - 1] == a + b[..|b| - 1];
    }
  }
}
