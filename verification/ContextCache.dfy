// The object type context cache: stale-while-revalidate over one lock, as atomic steps between awaits.
module ContextCache {
  import opened Options

  type TaskId = nat
  type ListId = nat

  datatype NamespaceInfo = NamespaceInfo(uri: string, displayName: string, version: Option<string>,
                                         serverUri: Option<string>)

  // What the cache takes for granted: the hashes, and what each object type list holds. A list is never changed
  // once the client serves it, and the memo keeps its identity from being reused.
  datatype World = World(modelRevision: string -> string, definitions: ListId -> string, hashTypes: string -> string,
                         hashContext: string -> string)

  datatype Inputs = Inputs(model: string, namespaces: seq<NamespaceInfo>, objectTypes: ListId)
  datatype Tokens = Tokens(model: string, namespaces: seq<NamespaceInfo>, objectTypes: string)

  function TokensOf(w: World, i: Inputs): Tokens {
    Tokens(w.modelRevision(i.model), i.namespaces, w.hashTypes(w.definitions(i.objectTypes)))
  }

  // A built context: its inputs, the output that live lookups helped to make, and the hash of that output.
  datatype Context = Context(inputs: Inputs, output: string, revision: string)
  datatype Entry = Entry(tokens: Tokens, context: Context)
  datatype Memo = Memo(list: ListId, token: string)

  datatype Caller = Caller(model: string, allowStale: bool, isRefresh: bool)

  datatype Task =
    | Scheduled(model: string)
    | Fetching(caller: Caller)
    | Waiting(caller: Caller, inputs: Inputs, tokens: Tokens)
    | Building(caller: Caller, inputs: Inputs, tokens: Tokens)
    | Served(caller: Caller, inputs: Inputs, context: Context, stale: bool, recorded: string)
    | Failed(caller: Caller)

  datatype State = State(tasks: map<TaskId, Task>, cache: Option<Entry>, lock: Option<TaskId>, memo: Option<Memo>,
                         refreshTask: Option<TaskId>, modelCache: Option<string>, built: set<Context>)

  const START := State(map[], None, None, None, None, None, {})

  // An event runs one task from one await to its next, or is something done elsewhere in the application.
  datatype Event =
    | Call(p: TaskId, model: string, allowStale: bool)                                // a request or a warm-up begins
    | StartRefresh(p: TaskId)
    | Fetched(p: TaskId, namespaces: seq<NamespaceInfo>, objectTypes: ListId, next: TaskId)
    | Acquire(p: TaskId)
    | Built(p: TaskId, output: string)
    | Fails(p: TaskId)                                                               // an exception or a cancellation
    | SwapModel(model: string, clears: bool)                 // a lazy build also clears the cache

  predicate IsDone(t: Task) { t.Served? || t.Failed? }

  predicate IsRefresh(t: Task) { t.Scheduled? || t.caller.isRefresh }

  function CallerOf(t: Task): Caller {
    if t.Scheduled? then Caller(t.model, false, true) else t.caller
  }

  predicate Enabled(s: State, e: Event) {
    match e
    case Call(p, _, _) => p !in s.tasks
    case StartRefresh(p) => p in s.tasks && s.tasks[p].Scheduled?
    case Fetched(p, _, _, next) => p in s.tasks && s.tasks[p].Fetching? && next !in s.tasks
    case Acquire(p) => p in s.tasks && s.tasks[p].Waiting? && s.lock == None
    case Built(p, _) => p in s.tasks && s.tasks[p].Building?
    case Fails(p) => p in s.tasks && !IsDone(s.tasks[p])
    case SwapModel(_, _) => true
  }

  // _memoized_object_types_token
  function Memoized(w: World, memo: Option<Memo>, list: ListId): Memo {
    if memo.Some? && memo.value.list == list then memo.value else Memo(list, w.hashTypes(w.definitions(list)))
  }

  // _cached_object_type_context
  function Cached(cache: Option<Entry>, tokens: Tokens): Option<Context> {
    if cache.Some? && cache.value.tokens == tokens then Some(cache.value.context) else None
  }

  // _schedule_object_type_context_refresh
  function Schedule(s: State, model: string, next: TaskId): State {
    if s.refreshTask.Some? && s.refreshTask.value in s.tasks && !IsDone(s.tasks[s.refreshTask.value]) then s
    else s.(tasks := s.tasks[next := Scheduled(model)], refreshTask := Some(next))
  }

  function Serve(s: State, p: TaskId, caller: Caller, inputs: Inputs, context: Context, stale: bool): State {
    s.(tasks := s.tasks[p := Served(caller, inputs, context, stale, context.revision)])
  }

  // From the fetched inputs to an answer without the lock, or to the wait for it.
  function Resolve(w: World, s: State, p: TaskId, caller: Caller, inputs: Inputs, next: TaskId): State {
    var memo := Memoized(w, s.memo, inputs.objectTypes);
    var tokens := Tokens(w.modelRevision(inputs.model), inputs.namespaces, memo.token);
    var s := s.(memo := Some(memo));
    var hit := Cached(s.cache, tokens);
    if hit.Some? then Serve(s, p, caller, inputs, hit.value, false)
    else if caller.allowStale && s.cache.Some? then
      Serve(Schedule(s, caller.model, next), p, caller, inputs, s.cache.value.context, true)
    else s.(tasks := s.tasks[p := Waiting(caller, inputs, tokens)])
  }

  // The second look at the cache, under the lock.
  function Enter(s: State, p: TaskId): State
    requires p in s.tasks && s.tasks[p].Waiting?
  {
    var t := s.tasks[p];
    var hit := Cached(s.cache, t.tokens);
    if hit.Some? then Serve(s, p, t.caller, t.inputs, hit.value, false)
    else s.(tasks := s.tasks[p := Building(t.caller, t.inputs, t.tokens)], lock := Some(p))
  }

  function Finish(w: World, s: State, p: TaskId, output: string): State
    requires p in s.tasks && s.tasks[p].Building?
  {
    var t := s.tasks[p];
    var context := Context(t.inputs, output, w.hashContext(output));
    Serve(s, p, t.caller, t.inputs, context, false)
    .(cache := Some(Entry(t.tokens, context)), lock := None, built := s.built + {context})
  }

  function Step(w: World, s: State, e: Event): State
    requires Enabled(s, e)
  {
    match e
    case Call(p, model, allowStale) => s.(tasks := s.tasks[p := Fetching(Caller(model, allowStale, false))])
    case StartRefresh(p) =>
      var target := if s.modelCache.Some? then s.modelCache.value else s.tasks[p].model;
      s.(tasks := s.tasks[p := Fetching(Caller(target, false, true))])
    case Fetched(p, namespaces, objectTypes, next) =>
      var caller := s.tasks[p].caller;
      Resolve(w, s, p, caller, Inputs(caller.model, namespaces, objectTypes), next)
    case Acquire(p) => Enter(s, p)
    case Built(p, output) => Finish(w, s, p, output)
    case Fails(p) =>
      s.(tasks := s.tasks[p := Failed(CallerOf(s.tasks[p]))], lock := if s.tasks[p].Building? then None else s.lock)
    case SwapModel(model, clears) => s.(modelCache := Some(model), cache := if clears then None else s.cache)
  }

  // The state after a run, if every event was possible when it happened.
  function After(w: World, events: seq<Event>): Option<State> {
    if events == [] then Some(START) else
    var before := After(w, events[..|events| - 1]);
    var e := events[|events| - 1];
    if before.Some? && Enabled(before.value, e) then Some(Step(w, before.value, e)) else None
  }

  // ----- What every step keeps -----

  ghost predicate IsSound(w: World, built: set<Context>, c: Context) {
    c in built && c.revision == w.hashContext(c.output)
  }

  ghost predicate TaskIsSound(w: World, s: State, t: Task) {
    match t
    case Scheduled(_) => true
    case Fetching(_) => true
    case Waiting(caller, inputs, tokens) => tokens == TokensOf(w, inputs) && inputs.model == caller.model
    case Building(caller, inputs, tokens) =>
      tokens == TokensOf(w, inputs) && inputs.model == caller.model && Cached(s.cache, tokens) == None
    case Served(caller, inputs, context, stale, recorded) =>
      && IsSound(w, s.built, context) && recorded == context.revision && inputs.model == caller.model
      && (if stale then caller.allowStale else TokensOf(w, context.inputs) == TokensOf(w, inputs))
    case Failed(_) => true
  }

  ghost predicate CacheIsSound(w: World, s: State) {
    && (s.cache.Some? ==>
      s.cache.value.tokens == TokensOf(w, s.cache.value.context.inputs) && IsSound(w, s.built, s.cache.value.context))
    && (s.memo.Some? ==> s.memo.value.token == w.hashTypes(w.definitions(s.memo.value.list)))
  }

  ghost predicate LockIsHeld(s: State) {
    forall p :: p in s.tasks && s.tasks[p].Building? <==> s.lock == Some(p)
  }

  ghost predicate RefreshIsSingle(s: State) {
    && (forall p :: p in s.tasks && IsRefresh(s.tasks[p]) && !IsDone(s.tasks[p]) ==> s.refreshTask == Some(p))
    && (s.refreshTask.Some? ==> s.refreshTask.value in s.tasks && IsRefresh(s.tasks[s.refreshTask.value]))
    && (forall p :: p in s.tasks && !s.tasks[p].Scheduled? && s.tasks[p].caller.isRefresh ==>
      !s.tasks[p].caller.allowStale)
  }

  ghost predicate Inv(w: World, s: State) {
    && CacheIsSound(w, s) && LockIsHeld(s) && RefreshIsSingle(s)
    && forall p :: p in s.tasks ==> TaskIsSound(w, s, s.tasks[p])
  }

  // A task at p becomes t; nothing else changes but what the step says.
  lemma TaskChanges(w: World, s: State, p: TaskId, t: Task, s': State)
    requires Inv(w, s) && s'.tasks == s.tasks[p := t] && s'.cache == s.cache && s'.memo == s.memo && s'.built == s.built
    requires s'.refreshTask == s.refreshTask && TaskIsSound(w, s', t)
    requires !t.Building? && s'.lock == (if s.lock == Some(p) then None else s.lock)
    requires IsRefresh(t) && !IsDone(t) ==> s.refreshTask == Some(p)
    requires s.refreshTask == Some(p) ==> IsRefresh(t)
    requires !t.Scheduled? && t.caller.isRefresh ==> !t.caller.allowStale
    ensures Inv(w, s')
  {
    hide IsSound, TokensOf;
  }

  lemma ScheduleKeeps(w: World, s: State, model: string, next: TaskId)
    requires Inv(w, s) && next !in s.tasks
    ensures Inv(w, Schedule(s, model, next))
    ensures var r := Schedule(s, model, next);
      && r.cache == s.cache && r.memo == s.memo && r.built == s.built && r.lock == s.lock
      && forall p :: p in s.tasks ==> p in r.tasks && r.tasks[p] == s.tasks[p]
    ensures RefreshInFlight(Schedule(s, model, next))
  {
    hide IsSound, TokensOf;
  }

  ghost predicate RefreshInFlight(s: State) {
    s.refreshTask.Some? && s.refreshTask.value in s.tasks && !IsDone(s.tasks[s.refreshTask.value])
  }

  lemma MemoKeeps(w: World, s: State, list: ListId)
    requires Inv(w, s)
    ensures Memoized(w, s.memo, list).token == w.hashTypes(w.definitions(list))
    ensures Inv(w, s.(memo := Some(Memoized(w, s.memo, list))))
  {
    hide IsSound, TokensOf;
    var s' := s.(memo := Some(Memoized(w, s.memo, list)));
    forall p | p in s'.tasks ensures TaskIsSound(w, s', s'.tasks[p]) {
      assert TaskIsSound(w, s, s.tasks[p]);
    }
  }

  lemma ResolveKeeps(w: World, s: State, p: TaskId, caller: Caller, inputs: Inputs, next: TaskId)
    requires Inv(w, s) && p in s.tasks && s.tasks[p] == Fetching(caller) && next !in s.tasks
      && inputs.model == caller.model
    ensures Inv(w, Resolve(w, s, p, caller, inputs, next))
  {
    hide Inv, IsSound, Schedule;
    MemoKeeps(w, s, inputs.objectTypes);
    var memo := Memoized(w, s.memo, inputs.objectTypes);
    var m := s.(memo := Some(memo));
    CacheOfInv(w, s, p);
    CacheOfInv(w, m, p);
    ScheduleKeeps(w, m, caller.model, next);
    var r := Schedule(m, caller.model, next);
    CacheOfInv(w, r, p);
    var s' := Resolve(w, s, p, caller, inputs, next);
    if Cached(s.cache, TokensOf(w, inputs)).Some? || !(caller.allowStale && s.cache.Some?) {
      TaskChanges(w, m, p, s'.tasks[p], s');
    } else {
      TaskChanges(w, r, p, s'.tasks[p], s');
    }
  }

  lemma CacheOfInv(w: World, s: State, p: TaskId)
    requires Inv(w, s) && p in s.tasks
    ensures CacheIsSound(w, s) && (s.lock == Some(p) <==> s.tasks[p].Building?)
    ensures IsRefresh(s.tasks[p]) && !IsDone(s.tasks[p]) ==> s.refreshTask == Some(p)
    ensures s.refreshTask == Some(p) ==> IsRefresh(s.tasks[p])
    ensures !s.tasks[p].Scheduled? && s.tasks[p].caller.isRefresh ==> !s.tasks[p].caller.allowStale
    ensures TaskIsSound(w, s, s.tasks[p])
  {
  }

  lemma EnterKeeps(w: World, s: State, p: TaskId)
    requires Inv(w, s) && p in s.tasks && s.tasks[p].Waiting? && s.lock == None
    ensures Inv(w, Enter(s, p))
  {
    hide IsSound, TokensOf;
    var t := s.tasks[p];
    var s' := Enter(s, p);
    assert TaskIsSound(w, s, t);
    if Cached(s.cache, t.tokens).Some? {
      TaskChanges(w, s, p, s'.tasks[p], s');
    } else {
      forall q | q in s'.tasks ensures TaskIsSound(w, s', s'.tasks[q]) {
        assert TaskIsSound(w, s, s.tasks[q]);
      }
    }
  }

  lemma FinishKeeps(w: World, s: State, p: TaskId, output: string)
    requires Inv(w, s) && p in s.tasks && s.tasks[p].Building?
    ensures Inv(w, Finish(w, s, p, output))
  {
    hide TokensOf;
    var s' := Finish(w, s, p, output);
    assert s.lock == Some(p);
    assert TaskIsSound(w, s, s.tasks[p]);
    forall q | q in s'.tasks ensures TaskIsSound(w, s', s'.tasks[q]) {
      if q != p {
        assert TaskIsSound(w, s, s.tasks[q]) && !s.tasks[q].Building?;
      }
    }
  }

  lemma SwapKeeps(w: World, s: State, model: string, clears: bool)
    requires Inv(w, s)
    ensures Inv(w, s.(modelCache := Some(model), cache := if clears then None else s.cache))
  {
    hide TokensOf;
    var s' := s.(modelCache := Some(model), cache := if clears then None else s.cache);
    forall q | q in s'.tasks ensures TaskIsSound(w, s', s'.tasks[q]) {
      assert TaskIsSound(w, s, s.tasks[q]);
    }
  }

  lemma StepKeepsInv(w: World, s: State, e: Event)
    requires Inv(w, s) && Enabled(s, e)
    ensures Inv(w, Step(w, s, e))
  {
    hide Inv, Resolve, Enter, Finish, TokensOf, IsSound;
    var s' := Step(w, s, e);
    match e
    case Call(p, _, _) =>
      NoLockFor(w, s, p);
      TaskChanges(w, s, p, s'.tasks[p], s');
    case StartRefresh(p) =>
      CacheOfInv(w, s, p);
      TaskChanges(w, s, p, s'.tasks[p], s');
    case Fetched(p, namespaces, objectTypes, next) =>
      ResolveKeeps(w, s, p, s.tasks[p].caller, Inputs(s.tasks[p].caller.model, namespaces, objectTypes), next);
    case Acquire(p) => EnterKeeps(w, s, p);
    case Built(p, output) => FinishKeeps(w, s, p, output);
    case Fails(p) =>
      CacheOfInv(w, s, p);
      TaskChanges(w, s, p, s'.tasks[p], s');
    case SwapModel(model, clears) => SwapKeeps(w, s, model, clears);
  }

  lemma NoLockFor(w: World, s: State, p: TaskId)
    requires Inv(w, s) && p !in s.tasks
    ensures s.lock != Some(p) && s.refreshTask != Some(p)
  {
  }

  lemma {:induction false} RunKeepsInv(w: World, events: seq<Event>)
    requires After(w, events).Some?
    ensures Inv(w, After(w, events).value)
    decreases |events|
  {
    if events != [] {
      RunKeepsInv(w, events[..|events| - 1]);
      StepKeepsInv(w, After(w, events[..|events| - 1]).value, events[|events| - 1]);
    }
  }

  // ----- What holds in every run -----

  // The cached context was built from exactly the inputs whose tokens are stored with it.
  lemma CachedContextMatchesItsTokens(w: World, events: seq<Event>)
    requires After(w, events).Some? && After(w, events).value.cache.Some?
    ensures var entry := After(w, events).value.cache.value;
      entry.tokens == TokensOf(w, entry.context.inputs) && entry.context in After(w, events).value.built
  {
    RunKeepsInv(w, events);
  }

  // At most one build runs, and none runs for inputs whose context is cached.
  lemma OneBuildUnderTheLock(w: World, events: seq<Event>, p: TaskId, q: TaskId)
    requires After(w, events).Some?
    requires var tasks := After(w, events).value.tasks;
      p in tasks && q in tasks && tasks[p].Building? && tasks[q].Building?
    ensures p == q && Cached(After(w, events).value.cache, TokensOf(w, After(w, events).value.tasks[p].inputs)) == None
  {
    RunKeepsInv(w, events);
    assert TaskIsSound(w, After(w, events).value, After(w, events).value.tasks[p]);
  }

  lemma OneRefreshInFlight(w: World, events: seq<Event>, p: TaskId, q: TaskId)
    requires After(w, events).Some?
    requires var tasks := After(w, events).value.tasks;
      p in tasks && q in tasks && IsRefresh(tasks[p]) && !IsDone(tasks[p]) && IsRefresh(tasks[q]) && !IsDone(tasks[q])
    ensures p == q
  {
    RunKeepsInv(w, events);
  }

  ghost predicate HashesAreInjective(w: World) {
    && (forall a, b :: w.modelRevision(a) == w.modelRevision(b) ==> a == b)
    && (forall a, b :: w.hashTypes(a) == w.hashTypes(b) ==> a == b)
  }

  // Inputs the tokens cannot tell apart: the same model, namespaces and type definitions.
  ghost predicate SameInputs(w: World, i: Inputs, k: Inputs) {
    i.model == k.model && i.namespaces == k.namespaces && w.definitions(i.objectTypes) == w.definitions(k.objectTypes)
  }

  // A caller that did not get a stale context got one built from its own inputs, and only a caller
  // that allows it gets a stale one; the recorded revision is the hash of what was served.
  lemma CallerGetsItsOwnContext(w: World, events: seq<Event>, p: TaskId)
    requires After(w, events).Some? && p in After(w, events).value.tasks && After(w, events).value.tasks[p].Served?
    ensures var t := After(w, events).value.tasks[p];
      && t.context in After(w, events).value.built && t.recorded == w.hashContext(t.context.output)
        && t.inputs.model == t.caller.model
      && (t.stale ==> t.caller.allowStale)
      && (!t.stale && HashesAreInjective(w) ==> SameInputs(w, t.context.inputs, t.inputs))
  {
    RunKeepsInv(w, events);
    assert TaskIsSound(w, After(w, events).value, After(w, events).value.tasks[p]);
  }

  // A stale answer leaves a refresh in flight.
  lemma StaleAnswerIsRefreshed(w: World, events: seq<Event>, e: Event)
    requires e.Fetched? && After(w, events).Some? && Enabled(After(w, events).value, e)
    requires var t := Step(w, After(w, events).value, e).tasks[e.p]; t.Served? && t.stale
    ensures RefreshInFlight(Step(w, After(w, events).value, e))
  {
    RunKeepsInv(w, events);
    var s := After(w, events).value;
    var caller := s.tasks[e.p].caller;
    MemoKeeps(w, s, e.objectTypes);
    var m := s.(memo := Some(Memoized(w, s.memo, e.objectTypes)));
    ScheduleKeeps(w, m, caller.model, e.next);
  }

  // The context getInstancesOfType reads without waiting.
  function ToolContext(w: World, s: State): Option<Context> {
    if s.modelCache.Some? && s.cache.Some? && s.cache.value.tokens.model == w.modelRevision(s.modelCache.value)
    then Some(s.cache.value.context) else None
  }

  lemma ToolContextIsForTheCachedModel(w: World, events: seq<Event>)
    requires After(w, events).Some? && ToolContext(w, After(w, events).value).Some?
    ensures var s := After(w, events).value;
      w.modelRevision(ToolContext(w, s).value.inputs.model) == w.modelRevision(s.modelCache.value)
  {
    RunKeepsInv(w, events);
  }
}
