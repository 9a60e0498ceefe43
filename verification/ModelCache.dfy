// The model cache: a lazy build behind a double check, the preload and the periodic refresh.
module ModelCache {
  import opened Options

  type TaskId = nat

  datatype Task =
    | Arrived                        // a request, before it looks at the preload
    | AwaitingPreload
    | Checking                       // about to look at the cache
    | WaitingLock(refresh: bool)
    | Building(refresh: bool)
    | Returned(model: string)
    | Failed

  datatype Preload = NotRun | Running | Done

  datatype State = State(tasks: map<TaskId, Task>, cache: Option<string>, lock: Option<TaskId>, preload: Preload,
                         lazyBuilds: nat, built: set<string>)

  function Start(preload: Preload): State { State(map[], None, None, preload, 0, {}) }

  datatype Event =
    | Arrive(p: TaskId)
    | LookAtPreload(p: TaskId)
    | PreloadAwaited(p: TaskId)      // the awaited preload ended, with a model or with an exception
    | LookAtCache(p: TaskId)
    | Acquire(p: TaskId)
    | Built(p: TaskId, model: string)
    | Fails(p: TaskId)
    | PreloadBuilt(model: string)
    | PreloadFailed
    | RefreshDue(p: TaskId)          // the periodic refresh starts a round

  predicate Enabled(s: State, e: Event) {
    match e
    case Arrive(p) => p !in s.tasks
    case LookAtPreload(p) => p in s.tasks && s.tasks[p] == Arrived
    case PreloadAwaited(p) => p in s.tasks && s.tasks[p] == AwaitingPreload && s.preload == Done
    case LookAtCache(p) => p in s.tasks && s.tasks[p] == Checking
    case Acquire(p) => p in s.tasks && s.tasks[p].WaitingLock? && s.lock == None
    case Built(p, _) => p in s.tasks && s.tasks[p].Building?
    case Fails(p) => p in s.tasks && !s.tasks[p].Returned? && !s.tasks[p].Failed?
    case PreloadBuilt(_) => s.preload == Running
    case PreloadFailed => s.preload == Running
    case RefreshDue(p) => p !in s.tasks
  }

  function Set(s: State, p: TaskId, t: Task): State { s.(tasks := s.tasks[p := t]) }

  function Step(s: State, e: Event): State
    requires Enabled(s, e)
  {
    match e
    case Arrive(p) => Set(s, p, Arrived)
    case LookAtPreload(p) => Set(s, p, if s.preload == Running then AwaitingPreload else Checking)
    case PreloadAwaited(p) => Set(s, p, Checking)
    case LookAtCache(p) => Set(s, p, if s.cache.Some? then Returned(s.cache.value) else WaitingLock(false))
    case Acquire(p) =>
      if !s.tasks[p].refresh && s.cache.Some? then Set(s, p, Returned(s.cache.value))
      else Set(s, p, Building(s.tasks[p].refresh)).(lock := Some(p))
    case Built(p, model) =>
      Set(s, p, Returned(model))
      .(cache := Some(model), lock := None, built := s.built + {model},
        lazyBuilds := if s.tasks[p].refresh then s.lazyBuilds else s.lazyBuilds + 1)
    case Fails(p) => Set(s, p, Failed).(lock := if s.lock == Some(p) then None else s.lock)
    case PreloadBuilt(model) => s.(cache := Some(model), preload := Done, built := s.built + {model})
    case PreloadFailed => s.(preload := Done)
    case RefreshDue(p) => Set(s, p, WaitingLock(true))
  }

  function After(preload: Preload, events: seq<Event>): Option<State> {
    if events == [] then Some(Start(preload)) else
    var before := After(preload, events[..|events| - 1]);
    var e := events[|events| - 1];
    if before.Some? && Enabled(before.value, e) then Some(Step(before.value, e)) else None
  }

  ghost predicate Inv(s: State) {
    && (forall p :: p in s.tasks && s.tasks[p].Building? <==> s.lock == Some(p))
    && s.lazyBuilds <= 1 && (s.lazyBuilds == 1 ==> s.cache.Some?)
    && (forall p :: p in s.tasks && s.tasks[p] == Building(false) ==> s.cache.None?)
    && (forall p :: p in s.tasks && s.preload == Running ==>
          s.tasks[p] !in {Checking, WaitingLock(false), Building(false)})
    && (s.cache.Some? ==> s.cache.value in s.built)
    && (forall p :: p in s.tasks && s.tasks[p].Returned? ==> s.tasks[p].model in s.built)
  }

  lemma StepKeepsInv(s: State, e: Event)
    requires Inv(s) && Enabled(s, e)
    ensures Inv(Step(s, e)) && (s.cache.Some? ==> Step(s, e).cache.Some?)
  {
    if e.Built? || e.Fails? {
      assert s.tasks[e.p].Building? <==> s.lock == Some(e.p);
    }
  }

  lemma {:induction false} RunKeepsInv(preload: Preload, events: seq<Event>)
    requires After(preload, events).Some?
    ensures Inv(After(preload, events).value)
    decreases |events|
  {
    if events != [] {
      RunKeepsInv(preload, events[..|events| - 1]);
      StepKeepsInv(After(preload, events[..|events| - 1]).value, events[|events| - 1]);
    }
  }

  // Building lazily succeeds at most once, one build runs under the lock, and every request is answered
  // with a model that was built.
  lemma LazyBuildSucceedsOnce(preload: Preload, events: seq<Event>, p: TaskId, q: TaskId)
    requires After(preload, events).Some?
    ensures var s := After(preload, events).value;
      && s.lazyBuilds <= 1
      && (p in s.tasks && q in s.tasks && s.tasks[p].Building? && s.tasks[q].Building? ==> p == q)
      && (p in s.tasks && s.tasks[p].Returned? ==> s.tasks[p].model in s.built)
  {
    RunKeepsInv(preload, events);
  }

  // Once there is a model, there is one for the rest of the run.
  lemma {:induction false} CacheNeverEmptiesAgain(preload: Preload, events: seq<Event>, n: nat)
    requires n <= |events| && After(preload, events).Some? && After(preload, events[..n]).Some?
    requires After(preload, events[..n]).value.cache.Some?
    ensures After(preload, events).value.cache.Some?
    decreases |events|
  {
    if n < |events| {
      var front := events[..|events| - 1];
      assert front[..n] == events[..n];
      CacheNeverEmptiesAgain(preload, front, n);
      RunKeepsInv(preload, front);
      StepKeepsInv(After(preload, front).value, events[|events| - 1]);
    } else {
      assert events[..n] == events;
    }
  }

  // Once there is a model, from a lazy build, the preload or a refresh, no request is building, then or later.
  lemma NoBuildAfterTheFirst(preload: Preload, events: seq<Event>, n: nat, p: TaskId)
    requires n <= |events| && After(preload, events).Some? && After(preload, events[..n]).Some?
    requires After(preload, events[..n]).value.cache.Some? || After(preload, events[..n]).value.lazyBuilds > 0
    requires p in After(preload, events).value.tasks
    ensures After(preload, events).value.tasks[p] != Building(false)
  {
    RunKeepsInv(preload, events[..n]);
    CacheNeverEmptiesAgain(preload, events, n);
    RunKeepsInv(preload, events);
  }

  // ----- The cache and the answers, told by the events alone -----

  // The model built last, by a request, the preload or a refresh.
  ghost function LastBuilt(events: seq<Event>): Option<string> {
    if events == [] then None else
    match events[|events| - 1]
    case Built(_, model) => Some(model)
    case PreloadBuilt(model) => Some(model)
    case _ => LastBuilt(events[..|events| - 1])
  }

  lemma {:induction false} CacheIsLastBuilt(preload: Preload, events: seq<Event>)
    requires After(preload, events).Some?
    ensures After(preload, events).value.cache == LastBuilt(events)
    decreases |events|
  {
    if events != [] {
      CacheIsLastBuilt(preload, events[..|events| - 1]);
    }
  }

  // A request is answered with the model built last: the one it finds before or under the lock, or its own. Only
  // without a model does it wait and build; a refresh always builds.
  lemma RequestsGetTheLastModel(preload: Preload, events: seq<Event>, e: Event)
    requires After(preload, events + [e]).Some?
    ensures After(preload, events).Some?
    ensures e.LookAtPreload? ==>
      var before, after := After(preload, events).value, After(preload, events + [e]).value;
      e.p in after.tasks && after.tasks[e.p] == if before.preload.Running? then AwaitingPreload else Checking
    ensures e.LookAtCache? ==>
      var after, last := After(preload, events + [e]).value, LastBuilt(events);
      e.p in after.tasks && after.tasks[e.p] == if last.Some? then Returned(last.value) else WaitingLock(false)
    ensures e.Acquire? ==>
      var before, after := After(preload, events).value, After(preload, events + [e]).value;
      var last := LastBuilt(events);
      && e.p in before.tasks && before.tasks[e.p].WaitingLock? && e.p in after.tasks
      && after.tasks[e.p] ==
           if last.Some? && !before.tasks[e.p].refresh then Returned(last.value)
           else Building(before.tasks[e.p].refresh)
    ensures e.Built? ==>
      var after := After(preload, events + [e]).value;
      e.p in after.tasks && after.tasks[e.p] == Returned(e.model) && after.lock == None
  {
    assert (events + [e])[..|events|] == events;
    CacheIsLastBuilt(preload, events);
    RunKeepsInv(preload, events);
  }
}
