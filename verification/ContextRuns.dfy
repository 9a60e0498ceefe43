// What the object type context cache does in every run, told by the events alone.
module ContextRuns {
  import opened Options
  import opened ContextCache

  // The inputs and the output of the last build, unless a lazy model build has cleared the cache since.
  ghost function LastBuild(w: World, events: seq<Event>): Option<(Inputs, string)>
    requires After(w, events).Some?
  {
    if events == [] then None else
    var front, e := events[..|events| - 1], events[|events| - 1];
    match e
    case Built(p, output) => Some((After(w, front).value.tasks[p].inputs, output))
    case SwapModel(_, clears) => if clears then None else LastBuild(w, front)
    case _ => LastBuild(w, front)
  }

  // The model the application serves.
  ghost function LastModel(events: seq<Event>): Option<string> {
    if events == [] then None else
    var e := events[|events| - 1];
    if e.SwapModel? then Some(e.model) else LastModel(events[..|events| - 1])
  }

  ghost function ContextOf(w: World, build: (Inputs, string)): Context {
    Context(build.0, build.1, w.hashContext(build.1))
  }

  // Inputs that ask for the same context, as far as the revision and the hash can tell.
  ghost predicate Alike(w: World, i: Inputs, k: Inputs) {
    && w.modelRevision(i.model) == w.modelRevision(k.model) && i.namespaces == k.namespaces
    && w.hashTypes(w.definitions(i.objectTypes)) == w.hashTypes(w.definitions(k.objectTypes))
  }

  lemma AlikeTokens(w: World, i: Inputs, k: Inputs)
    ensures Alike(w, i, k) <==> TokensOf(w, i) == TokensOf(w, k)
  {
  }

  // The cache holds the last context built, under what tells its inputs apart.
  lemma {:induction false} CacheIsLastBuild(w: World, events: seq<Event>)
    requires After(w, events).Some?
    ensures var build := LastBuild(w, events);
      After(w, events).value.cache ==
        if build.Some? then Some(Entry(TokensOf(w, build.value.0), ContextOf(w, build.value))) else None
    ensures After(w, events).value.modelCache == LastModel(events)
    decreases |events|
  {
    hide TokensOf;
    if events != [] {
      var front, e := events[..|events| - 1], events[|events| - 1];
      CacheIsLastBuild(w, front);
      RunKeepsInv(w, front);
      if e.Built? {
        assert TaskIsSound(w, After(w, front).value, After(w, front).value.tasks[e.p]);
      }
    }
  }

  lemma NextState(w: World, events: seq<Event>, e: Event)
    requires After(w, events + [e]).Some?
    ensures After(w, events).Some? && Enabled(After(w, events).value, e)
    ensures After(w, events + [e]).value == Step(w, After(w, events).value, e)
  {
    assert (events + [e])[..|events|] == events;
  }

  // A finished build serves its caller the context of its own inputs and leaves it in the cache; the lock is free.
  lemma BuiltIsServedAndCached(w: World, events: seq<Event>, p: TaskId, output: string)
    requires After(w, events + [Built(p, output)]).Some?
    ensures var before, after := After(w, events).value, After(w, events + [Built(p, output)]).value;
      && p in before.tasks && before.tasks[p].Building? && p in after.tasks
      && var t := before.tasks[p]; var context := ContextOf(w, (t.inputs, output));
         && after.tasks[p] == Served(t.caller, t.inputs, context, false, w.hashContext(output))
         && after.cache == Some(Entry(TokensOf(w, t.inputs), context)) && after.lock == None
    ensures LastBuild(w, events + [Built(p, output)]) == Some((After(w, events).value.tasks[p].inputs, output))
  {
    hide TokensOf;
    NextState(w, events, Built(p, output));
    RunKeepsInv(w, events);
    assert TaskIsSound(w, After(w, events).value, After(w, events).value.tasks[p]);
    assert (events + [Built(p, output)])[..|events|] == events;
  }

  // What becomes of a request that has fetched its inputs: the cached context if it was built for alike inputs, else
  // for a caller that allows it the last context, with a refresh in flight, else a wait for the lock.
  lemma FetchedIsAnswered(w: World, events: seq<Event>, e: Event)
    requires e.Fetched? && After(w, events + [e]).Some?
    ensures var before, after := After(w, events).value, After(w, events + [e]).value;
      var build := LastBuild(w, events);
      && e.p in before.tasks && before.tasks[e.p].Fetching? && e.p in after.tasks
      && var caller := before.tasks[e.p].caller; var inputs := Inputs(caller.model, e.namespaces, e.objectTypes);
         after.tasks[e.p] ==
           if build.Some? && Alike(w, build.value.0, inputs) then
             Served(caller, inputs, ContextOf(w, build.value), false, w.hashContext(build.value.1))
           else if build.Some? && caller.allowStale then
             Served(caller, inputs, ContextOf(w, build.value), true, w.hashContext(build.value.1))
           else Waiting(caller, inputs, TokensOf(w, inputs))
    ensures var t := After(w, events + [e]).value.tasks[e.p];
      t.Served? && t.stale ==>
        && RefreshInFlight(After(w, events + [e]).value)
        && (!RefreshInFlight(After(w, events).value) ==>
              e.next in After(w, events + [e]).value.tasks
              && After(w, events + [e]).value.tasks[e.next] == Scheduled(t.caller.model))
  {
    hide TokensOf, Alike;
    NextState(w, events, e);
    CacheIsLastBuild(w, events);
    RunKeepsInv(w, events);
    var s := After(w, events).value;
    MemoKeeps(w, s, e.objectTypes);
    var inputs := Inputs(s.tasks[e.p].caller.model, e.namespaces, e.objectTypes);
    TokensByParts(w, inputs);
    if LastBuild(w, events).Some? {
      AlikeTokens(w, LastBuild(w, events).value.0, inputs);
    }
    if After(w, events + [e]).value.tasks[e.p].Served? && After(w, events + [e]).value.tasks[e.p].stale {
      StaleAnswerIsRefreshed(w, events, e);
    }
  }

  lemma TokensByParts(w: World, i: Inputs)
    ensures TokensOf(w, i) == Tokens(w.modelRevision(i.model), i.namespaces, w.hashTypes(w.definitions(i.objectTypes)))
  {
  }

  // Under the lock a caller is served a context built for alike inputs while it waited, or builds one itself.
  lemma AcquiredIsAnswered(w: World, events: seq<Event>, p: TaskId)
    requires After(w, events + [Acquire(p)]).Some?
    ensures var before, after := After(w, events).value, After(w, events + [Acquire(p)]).value;
      var build := LastBuild(w, events);
      && p in before.tasks && before.tasks[p].Waiting? && p in after.tasks
      && var t := before.tasks[p];
         if build.Some? && Alike(w, build.value.0, t.inputs) then
           after.tasks[p] == Served(t.caller, t.inputs, ContextOf(w, build.value), false, w.hashContext(build.value.1))
         else after.tasks[p] == Building(t.caller, t.inputs, TokensOf(w, t.inputs)) && after.lock == Some(p)
  {
    hide TokensOf, Alike;
    NextState(w, events, Acquire(p));
    CacheIsLastBuild(w, events);
    RunKeepsInv(w, events);
    var s := After(w, events).value;
    assert TaskIsSound(w, s, s.tasks[p]);
    if LastBuild(w, events).Some? {
      AlikeTokens(w, LastBuild(w, events).value.0, s.tasks[p].inputs);
    }
  }

  ghost predicate KeepsBuild(e: Event) {
    !e.Built? && !(e.SwapModel? && e.clears)
  }

  lemma {:induction false} BuildStays(w: World, events: seq<Event>, between: seq<Event>)
    requires After(w, events + between).Some?
    requires forall i :: 0 <= i < |between| ==> KeepsBuild(between[i])
    ensures After(w, events).Some? && LastBuild(w, events + between) == LastBuild(w, events)
    decreases |between|
  {
    if between == [] {
      assert events + between == events;
    } else {
      var front := between[..|between| - 1];
      assert (events + between)[..|events + between| - 1] == events + front;
      assert KeepsBuild(between[|between| - 1]);
      BuildStays(w, events, front);
    }
  }

  // Until the next build or a lazy model build, everyone who asks with alike inputs is served the context just built,
  // as current and without building.
  lemma ServedWithoutBuilding(w: World, events: seq<Event>, p: TaskId, output: string, between: seq<Event>, e: Event)
    requires e.Fetched? && After(w, events + [Built(p, output)] + between + [e]).Some?
    requires forall i :: 0 <= i < |between| ==> KeepsBuild(between[i])
    ensures After(w, events).Some? && p in After(w, events).value.tasks && After(w, events).value.tasks[p].Building?
    ensures var built := After(w, events).value.tasks[p].inputs;
      var asking := After(w, events + [Built(p, output)] + between);
      && asking.Some? && e.p in asking.value.tasks && asking.value.tasks[e.p].Fetching?
      && var caller := asking.value.tasks[e.p].caller;
         var inputs := Inputs(caller.model, e.namespaces, e.objectTypes);
         var after := After(w, events + [Built(p, output)] + between + [e]).value;
         Alike(w, built, inputs) ==>
           && e.p in after.tasks
           && after.tasks[e.p] ==
                Served(caller, inputs, ContextOf(w, (built, output)), false, w.hashContext(output))
  {
    hide Alike, After, LastBuild, TokensOf, Inv;
    var filled := events + [Built(p, output)];
    NextState(w, filled + between, e);
    BuildStays(w, filled, between);
    NextState(w, events, Built(p, output));
    BuiltIsServedAndCached(w, events, p, output);
    FetchedIsAnswered(w, filled + between, e);
  }

  // The tool that does not wait finds the last context exactly if it was built for a model of the served revision.
  lemma ToolFindsLastBuild(w: World, events: seq<Event>)
    requires After(w, events).Some?
    ensures var build, model := LastBuild(w, events), LastModel(events);
      ToolContext(w, After(w, events).value) ==
        if build.Some? && model.Some? && w.modelRevision(build.value.0.model) == w.modelRevision(model.value)
        then Some(ContextOf(w, build.value)) else None
  {
    CacheIsLastBuild(w, events);
  }

  // Whoever waits for the lock can take it, or someone is building.
  lemma WaitersGetOn(w: World, events: seq<Event>, p: TaskId)
    requires After(w, events).Some? && p in After(w, events).value.tasks && After(w, events).value.tasks[p].Waiting?
    ensures var s := After(w, events).value;
      Enabled(s, Acquire(p)) || exists q :: q in s.tasks && s.tasks[q].Building? && s.lock == Some(q)
  {
    RunKeepsInv(w, events);
    var s := After(w, events).value;
    if s.lock.Some? {
      assert s.lock.value in s.tasks && s.tasks[s.lock.value].Building?;
    }
  }

  // A caller asks for the model it came with; a background refresh for the one the application serves when it starts.
  lemma CallersAskForTheirModel(w: World, events: seq<Event>, e: Event)
    requires After(w, events + [e]).Some?
    ensures e.Call? ==> var s := After(w, events + [e]).value;
      e.p in s.tasks && s.tasks[e.p] == Fetching(Caller(e.model, e.allowStale, false))
    ensures e.StartRefresh? ==> var s, t := After(w, events + [e]).value, After(w, events).value;
      && e.p in t.tasks && t.tasks[e.p].Scheduled? && e.p in s.tasks
      && var model := if LastModel(events).Some? then LastModel(events).value else t.tasks[e.p].model;
         s.tasks[e.p] == Fetching(Caller(model, false, true))
  {
    NextState(w, events, e);
    CacheIsLastBuild(w, events);
  }
}
