// MCP sessions and their event streams, as atomic steps of the requests and stream generators.
module McpTransport {
  import opened Options

  type SessionId = string
  type ObjectId = nat
  type StreamId = nat

  datatype Entry = Msg(body: string) | Sentinel

  // Ended: the generator took the sentinel. Left: the client disconnected or the generator was closed.
  datatype Phase = Open | Ended | Left

  // framed is what the generator has yielded as messages. The history fields say from where to where the stream
  // was registered in its session's log and whether the sentinel was queued.
  datatype Stream = Stream(session: ObjectId, queue: seq<Entry>, framed: seq<string>, phase: Phase,
                           since: nat, until: nat, isSealed: bool)

  // published is the session's log, a history field.
  datatype Session = Session(version: string, streams: set<StreamId>, published: seq<string>)

  // ids is the application's dictionary; a session object outlives its entry while generators refer to it.
  datatype State = State(ids: map<SessionId, ObjectId>, sessions: map<ObjectId, Session>,
                         streams: map<StreamId, Stream>)

  const START := State(map[], map[], map[])
  const NOTIFICATIONS := "notifications/"

  datatype Event =
    | Initialize(id: SessionId, obj: ObjectId, version: string)
    | Publish(id: SessionId, name: string, render: string -> string)
    | Get(id: SessionId, stream: StreamId)
    | Delete(id: SessionId)
    | Shutdown
    | Take(stream: StreamId)
    | Idle(stream: StreamId, disconnected: bool)     // no message before the keepalive timeout
    | Abort(stream: StreamId)                        // the generator is cancelled or closed

  predicate IsOpen(s: State, stream: StreamId) {
    stream in s.streams && s.streams[stream].phase == Open
  }

  predicate Enabled(s: State, e: Event) {
    match e
    case Initialize(id, obj, _) => id !in s.ids && obj !in s.sessions      // uuid4 repeats no identifier
    case Get(_, stream) => stream !in s.streams
    case Take(stream) => IsOpen(s, stream) && s.streams[stream].queue != []
    case Idle(stream, _) => IsOpen(s, stream)
    case Abort(stream) => IsOpen(s, stream)
    case _ => true
  }

  predicate IsNotification(name: string) {
    NOTIFICATIONS <= name && |name| > |NOTIFICATIONS|
  }

  // put_nowait on each of some streams
  function PutAll(streams: map<StreamId, Stream>, targets: set<StreamId>, entry: Entry): map<StreamId, Stream> {
    map k | k in streams :: if k in targets then Put(streams[k], entry) else streams[k]
  }

  function Put(st: Stream, entry: Entry): Stream {
    match entry
    case Msg(_) => st.(queue := st.queue + [entry], until := st.until + 1)
    case Sentinel => st.(queue := st.queue + [entry], isSealed := true)
  }

  // publish_mcp_notification; an invalid method raises and changes nothing.
  function PublishTo(s: State, id: SessionId, name: string, render: string -> string): State
    requires id in s.ids ==> s.ids[id] in s.sessions
  {
    if !IsNotification(name) || id !in s.ids then s else
    var obj := s.ids[id];
    var session := s.sessions[obj];
    var body := render(name);
    s.(streams := PutAll(s.streams, session.streams, Msg(body)),
       sessions := s.sessions[obj := session.(published := session.published + [body])])
  }

  // mcp_get, from the lookup of the session to the registration of the stream
  function Register(s: State, id: SessionId, stream: StreamId): State
    requires id in s.ids ==> s.ids[id] in s.sessions
  {
    if id !in s.ids then s else
    var obj := s.ids[id];
    var session := s.sessions[obj];
    s.(streams := s.streams[stream := Stream(obj, [], [], Open, |session.published|, |session.published|, false)],
       sessions := s.sessions[obj := session.(streams := session.streams + {stream})])
  }

  // mcp_delete
  function Remove(s: State, id: SessionId): State
    requires id in s.ids ==> s.ids[id] in s.sessions
  {
    if id !in s.ids then s else
    s.(ids := s.ids - {id}, streams := PutAll(s.streams, s.sessions[s.ids[id]].streams, Sentinel))
  }

  // shutdown_mcp_transport
  function RemoveAll(s: State): State
    requires forall id :: id in s.ids ==> s.ids[id] in s.sessions
  {
    var targets := set id, k | id in s.ids && k in s.sessions[s.ids[id]].streams :: k;
    s.(ids := map[], streams := PutAll(s.streams, targets, Sentinel))
  }

  // The generator's finally clause.
  function Close(s: State, stream: StreamId, phase: Phase): State
    requires stream in s.streams && s.streams[stream].session in s.sessions
  {
    var obj := s.streams[stream].session;
    var session := s.sessions[obj];
    s.(streams := s.streams[stream := s.streams[stream].(phase := phase)],
       sessions := s.sessions[obj := session.(streams := session.streams - {stream})])
  }

  // stream.get() and what the generator does with the message
  function TakeFrom(s: State, stream: StreamId): State
    requires stream in s.streams && s.streams[stream].session in s.sessions && s.streams[stream].queue != []
  {
    var st := s.streams[stream];
    var rest := st.(queue := st.queue[1..]);
    match st.queue[0]
    case Msg(body) => s.(streams := s.streams[stream := rest.(framed := st.framed + [body])])
    case Sentinel => Close(s.(streams := s.streams[stream := rest]), stream, Ended)
  }

  ghost predicate Refers(s: State) {
    && (forall id :: id in s.ids ==> s.ids[id] in s.sessions)
    && (forall k :: k in s.streams ==> s.streams[k].session in s.sessions)
  }

  ghost function Step(s: State, e: Event): State
    requires Refers(s) && Enabled(s, e)
  {
    match e
    case Initialize(id, obj, version) =>
      s.(ids := s.ids[id := obj], sessions := s.sessions[obj := Session(version, {}, [])])
    case Publish(id, name, render) => PublishTo(s, id, name, render)
    case Get(id, stream) => Register(s, id, stream)
    case Delete(id) => Remove(s, id)
    case Shutdown => RemoveAll(s)
    case Take(stream) => TakeFrom(s, stream)
    case Idle(stream, disconnected) => if disconnected then Close(s, stream, Left) else s
    case Abort(stream) => Close(s, stream, Left)
  }

  // The state after a run, if every event was possible when it happened. Refers never stops a run: it is part
  // of the invariant that RunKeepsInv shows.
  ghost function After(events: seq<Event>): Option<State> {
    if events == [] then Some(START) else
    var before := After(events[..|events| - 1]);
    var e := events[|events| - 1];
    if before.Some? && Refers(before.value) && Enabled(before.value, e) then Some(Step(before.value, e)) else None
  }

  // ----- What every step keeps -----

  ghost function Entries(bodies: seq<string>): seq<Entry> {
    seq(|bodies|, i requires 0 <= i < |bodies| => Msg(bodies[i]))
  }

  predicate IsLive(s: State, obj: ObjectId) {
    exists id :: id in s.ids && s.ids[id] == obj
  }

  // What the generator has yielded and what still waits are the log between the two ends, then the sentinel.
  ghost predicate IsLog(st: Stream, published: seq<string>) {
    && st.since + |st.framed| <= st.until <= |published|
    && st.framed == published[st.since..st.since + |st.framed|]
    && st.queue ==
      Entries(published[st.since + |st.framed|..st.until]) +
      (if st.isSealed && st.phase != Ended then [Sentinel] else [])
    && (st.phase == Ended ==> st.isSealed && st.since + |st.framed| == st.until)
  }

  // An open stream is registered up to now, and sealed exactly if its session has been removed.
  ghost predicate StreamOk(s: State, k: StreamId)
    requires k in s.streams && s.streams[k].session in s.sessions
  {
    var st := s.streams[k];
    var session := s.sessions[st.session];
    && IsLog(st, session.published)
    && (st.phase == Open <==> k in session.streams)
    && (st.phase == Open ==> st.until == |session.published| && (st.isSealed <==> !IsLive(s, st.session)))
  }

  ghost predicate Registered(s: State) {
    forall o, k :: o in s.sessions && k in s.sessions[o].streams ==> k in s.streams && s.streams[k].session == o
  }

  ghost predicate OneIdEach(s: State) {
    forall i, j :: i in s.ids && j in s.ids && s.ids[i] == s.ids[j] ==> i == j
  }

  ghost predicate Inv(s: State) {
    && Refers(s) && OneIdEach(s) && Registered(s) && forall k :: k in s.streams ==> StreamOk(s, k)
  }

  lemma PutMessage(st: Stream, published: seq<string>, body: string)
    requires IsLog(st, published) && st.phase == Open && !st.isSealed && st.until == |published|
    ensures IsLog(Put(st, Msg(body)), published + [body])
  {
    var rest := published[st.since + |st.framed|..];
    assert (published + [body])[st.since + |st.framed|..] == rest + [body];
    assert Entries(rest + [body]) == Entries(rest) + [Msg(body)];
  }

  lemma LogGrows(st: Stream, published: seq<string>, body: string)
    requires IsLog(st, published)
    ensures IsLog(st, published + [body])
  {
    assert (published + [body])[st.since..st.since + |st.framed|] == published[st.since..st.since + |st.framed|];
    assert (published + [body])[st.since + |st.framed|..st.until] == published[st.since + |st.framed|..st.until];
  }

  lemma PutSentinel(st: Stream, published: seq<string>)
    requires IsLog(st, published) && st.phase == Open && !st.isSealed
    ensures IsLog(Put(st, Sentinel), published)
  {
  }

  lemma PublishKeeps(s: State, id: SessionId, name: string, render: string -> string)
    requires Inv(s)
    ensures Inv(PublishTo(s, id, name, render))
    ensures "notifications/" <= name && |name| > |"notifications/"| && id in s.ids ==>
      var streams := PublishTo(s, id, name, render).streams;
      && streams.Keys == s.streams.Keys
      && forall k :: k in s.streams ==>
           streams[k].queue == s.streams[k].queue +
             if s.streams[k].session == s.ids[id] && s.streams[k].phase == Open then [Msg(render(name))] else []
    ensures !("notifications/" <= name && |name| > |"notifications/"| && id in s.ids) ==>
      PublishTo(s, id, name, render) == s
  {
    hide IsLog;
    var s' := PublishTo(s, id, name, render);
    if IsNotification(name) && id in s.ids {
      var obj := s.ids[id];
      var published := s.sessions[obj].published;
      forall k | k in s'.streams ensures StreamOk(s', k) {
        assert StreamOk(s, k);
        if s.streams[k].session == obj {
          LogGrows(s.streams[k], published, render(name));
          if k in s.sessions[obj].streams {
            PutMessage(s.streams[k], published, render(name));
          }
        }
        SameLife(s, s', s.streams[k].session);
      }
    }
  }

  lemma SameLife(s: State, s': State, obj: ObjectId)
    requires s.ids == s'.ids
    ensures IsLive(s, obj) == IsLive(s', obj)
  {
  }

  lemma RegisterKeeps(s: State, id: SessionId, stream: StreamId)
    requires Inv(s) && stream !in s.streams
    ensures Inv(Register(s, id, stream))
  {
    var s' := Register(s, id, stream);
    if id in s.ids {
      forall k | k in s'.streams ensures StreamOk(s', k) {
        SameLife(s, s', s'.streams[k].session);
        if k != stream {
          assert StreamOk(s, k);
        }
      }
    }
  }

  // Removing identifiers queues the sentinel on exactly the streams of their sessions.
  lemma RemovalKeeps(s: State, targets: set<StreamId>, s': State)
    requires Inv(s) && s' == State(s'.ids, s.sessions, PutAll(s.streams, targets, Sentinel))
    requires s'.ids.Keys <= s.ids.Keys && forall id :: id in s'.ids ==> s'.ids[id] == s.ids[id]
    requires forall k :: k in targets <==>
      k in s.streams && s.streams[k].phase == Open && IsLive(s, s.streams[k].session)
        && !IsLive(s', s.streams[k].session)
    ensures Inv(s')
  {
    hide IsLog;
    forall k | k in s'.streams ensures StreamOk(s', k) {
      assert StreamOk(s, k);
      if k in targets {
        PutSentinel(s.streams[k], s.sessions[s.streams[k].session].published);
      }
    }
  }

  lemma RemoveKeeps(s: State, id: SessionId)
    requires Inv(s)
    ensures Inv(Remove(s, id))
  {
    hide IsLog;
    var s' := Remove(s, id);
    if id in s.ids {
      var targets := s.sessions[s.ids[id]].streams;
      forall k ensures k in targets <==>
        k in s.streams && s.streams[k].phase == Open && IsLive(s, s.streams[k].session)
          && !IsLive(s', s.streams[k].session)
      {
        if k in s.streams {
          assert StreamOk(s, k);
          RemovedLife(s, id, s.streams[k].session);
        }
      }
      RemovalKeeps(s, targets, s');
    }
  }

  lemma RemovedLife(s: State, id: SessionId, obj: ObjectId)
    requires OneIdEach(s) && id in s.ids && forall i :: i in s.ids ==> s.ids[i] in s.sessions
    ensures IsLive(s, obj) && !IsLive(Remove(s, id), obj) <==> obj == s.ids[id]
  {
    var s' := Remove(s, id);
    if obj != s.ids[id] && IsLive(s, obj) {
      var i :| i in s.ids && s.ids[i] == obj;
      assert i in s'.ids;
    }
  }

  lemma RemoveAllKeeps(s: State)
    requires Inv(s)
    ensures Inv(RemoveAll(s))
  {
    hide IsLog;
    var s' := RemoveAll(s);
    var targets := set id, k | id in s.ids && k in s.sessions[s.ids[id]].streams :: k;
    forall k ensures k in targets <==>
      k in s.streams && s.streams[k].phase == Open && IsLive(s, s.streams[k].session)
        && !IsLive(s', s.streams[k].session)
    {
      if k in s.streams {
        assert StreamOk(s, k);
      }
    }
    RemovalKeeps(s, targets, s');
  }

  lemma CloseKeeps(s: State, stream: StreamId, phase: Phase, s': State)
    requires Refers(s) && OneIdEach(s) && Registered(s) && stream in s.streams
      && stream in s.sessions[s.streams[stream].session].streams
    requires forall k :: k in s.streams && k != stream ==> StreamOk(s, k)
    requires phase != Open && IsLog(s.streams[stream].(phase := phase), s.sessions[s.streams[stream].session].published)
    requires s' == Close(s, stream, phase)
    ensures Inv(s')
  {
    hide IsLog;
    forall k | k in s'.streams ensures StreamOk(s', k) {
      SameLife(s, s', s'.streams[k].session);
    }
  }

  lemma FirstMessage(st: Stream, published: seq<string>)
    requires IsLog(st, published) && st.queue != [] && st.queue[0].Msg? && st.phase == Open
    ensures IsLog(st.(queue := st.queue[1..], framed := st.framed + [st.queue[0].body]), published)
  {
    var n := st.since + |st.framed|;
    var rest, tail := published[n..st.until], if st.isSealed then [Sentinel] else [];
    assert n < st.until;
    assert st.queue[0] == Entries(rest)[0] == Msg(published[n]);
    assert rest[1..] == published[n + 1..st.until];
    assert Entries(rest)[1..] == Entries(rest[1..]);
    assert st.queue[1..] == Entries(rest)[1..] + tail;
    assert published[st.since..n + 1] == published[st.since..n] + [published[n]];
  }

  lemma MessagesComeFirst(bodies: seq<string>, tail: seq<Entry>)
    ensures bodies == [] || (Entries(bodies) + tail)[0].Msg?
  {
  }

  lemma FirstSentinel(st: Stream, published: seq<string>)
    requires IsLog(st, published) && st.queue != [] && st.queue[0].Sentinel? && st.phase == Open
    ensures IsLog(st.(queue := st.queue[1..], phase := Ended), published)
  {
    var rest := published[st.since + |st.framed|..st.until];
    MessagesComeFirst(rest, if st.isSealed then [Sentinel] else []);
  }

  lemma TakeKeeps(s: State, stream: StreamId)
    requires Inv(s) && IsOpen(s, stream) && s.streams[stream].queue != []
    ensures Inv(TakeFrom(s, stream))
  {
    hide IsLog;
    var st := s.streams[stream];
    var s' := TakeFrom(s, stream);
    assert StreamOk(s, stream);
    match st.queue[0]
    case Msg(body) =>
      FirstMessage(st, s.sessions[st.session].published);
      forall k | k in s'.streams ensures StreamOk(s', k) {
        assert StreamOk(s, k);
        SameLife(s, s', s'.streams[k].session);
      }
    case Sentinel =>
      FirstSentinel(st, s.sessions[st.session].published);
      var t := s.(streams := s.streams[stream := st.(queue := st.queue[1..])]);
      forall k | k in t.streams && k != stream ensures StreamOk(t, k) {
        assert StreamOk(s, k);
        SameLife(s, t, s.streams[k].session);
      }
      CloseKeeps(t, stream, Ended, s');
  }

  lemma LeaveKeeps(s: State, stream: StreamId)
    requires Inv(s) && IsOpen(s, stream)
    ensures Inv(Close(s, stream, Left))
  {
    assert StreamOk(s, stream);
    CloseKeeps(s, stream, Left, Close(s, stream, Left));
  }

  lemma InitializeKeeps(s: State, id: SessionId, obj: ObjectId, version: string)
    requires Inv(s) && id !in s.ids && obj !in s.sessions
    ensures Inv(s.(ids := s.ids[id := obj], sessions := s.sessions[obj := Session(version, {}, [])]))
  {
    hide IsLog;
    var s' := s.(ids := s.ids[id := obj], sessions := s.sessions[obj := Session(version, {}, [])]);
    forall k | k in s'.streams ensures StreamOk(s', k) {
      assert StreamOk(s, k);
      assert IsLive(s, s.streams[k].session) == IsLive(s', s.streams[k].session) by {
        if i :| i in s.ids && s.ids[i] == s.streams[k].session {
          assert s'.ids[i] == s.streams[k].session;
        }
      }
    }
  }

  lemma StepKeepsInv(s: State, e: Event)
    requires Inv(s) && Enabled(s, e)
    ensures Inv(Step(s, e))
  {
    hide StreamOk, Registered, OneIdEach, PublishTo, Register, Remove, RemoveAll, TakeFrom, Close;
    match e
    case Initialize(id, obj, version) => InitializeKeeps(s, id, obj, version);
    case Publish(id, name, render) => PublishKeeps(s, id, name, render);
    case Get(id, stream) => RegisterKeeps(s, id, stream);
    case Delete(id) => RemoveKeeps(s, id);
    case Shutdown => RemoveAllKeeps(s);
    case Take(stream) => TakeKeeps(s, stream);
    case Idle(stream, disconnected) => if disconnected { LeaveKeeps(s, stream); }
    case Abort(stream) => LeaveKeeps(s, stream);
  }

  lemma {:induction false} RunKeepsInv(events: seq<Event>)
    requires After(events).Some?
    ensures Inv(After(events).value)
    decreases |events|
  {
    if events != [] {
      RunKeepsInv(events[..|events| - 1]);
      StepKeepsInv(After(events[..|events| - 1]).value, events[|events| - 1]);
    }
  }

  // ----- What holds in every run -----

  // The last entry queued on a registered stream of a removed session is the sentinel.
  lemma RemovedSessionsAreSealed(events: seq<Event>, o: ObjectId, k: StreamId)
    requires After(events).Some?
    requires var s := After(events).value; o in s.sessions && !IsLive(s, o) && k in s.sessions[o].streams
    ensures var s := After(events).value;
      k in s.streams && s.streams[k].queue != [] && s.streams[k].queue[|s.streams[k].queue| - 1] == Sentinel
  {
    RunKeepsInv(events);
    assert StreamOk(After(events).value, k);
  }

  // Nothing is queued behind a sentinel, whatever happens next.
  lemma NothingFollowsTheSentinel(events: seq<Event>, e: Event, k: StreamId)
    requires After(events).Some? && After(events + [e]).Some?
    requires k in After(events).value.streams && After(events).value.streams[k].isSealed
    ensures var before, after := After(events).value, After(events + [e]).value;
      && k in after.streams && after.streams[k].isSealed && after.streams[k].until == before.streams[k].until
      && (after.streams[k].queue == before.streams[k].queue
          || (before.streams[k].queue != [] && after.streams[k].queue == before.streams[k].queue[1..]))
  {
    hide IsLog;
    RunKeepsInv(events);
    var s := After(events).value;
    assert (events + [e])[..|events|] == events;
    assert StreamOk(s, k);
    assert forall id :: id in s.ids ==> k !in s.sessions[s.ids[id]].streams by {
      forall id | id in s.ids ensures k !in s.sessions[s.ids[id]].streams {
        assert IsLive(s, s.ids[id]);
      }
    }
  }
}
