// What the MCP event streams deliver, told by the events of a run alone.
module McpRuns {
  import opened Options
  import opened McpTransport

  // The session object an identifier leads to.
  ghost function Holder(events: seq<Event>, id: SessionId): Option<ObjectId> {
    if events == [] then None else
    var front := events[..|events| - 1];
    match events[|events| - 1]
    case Initialize(i, obj, _) => if i == id then Some(obj) else Holder(front, id)
    case Delete(i) => if i == id then None else Holder(front, id)
    case Shutdown => None
    case _ => Holder(front, id)
  }

  // The event publishes that message to the session: its method is a notification, and its identifier leads there.
  ghost predicate Publishes(front: seq<Event>, e: Event, o: ObjectId) {
    && e.Publish? && Holder(front, e.id) == Some(o)
    && "notifications/" <= e.name && |e.name| > |"notifications/"|
  }

  // Every message published to the session, oldest first.
  ghost function Published(events: seq<Event>, o: ObjectId): seq<string> {
    if events == [] then [] else
    var front, e := events[..|events| - 1], events[|events| - 1];
    if Publishes(front, e, o) then Published(front, o) + [e.render(e.name)] else Published(front, o)
  }

  // The session a stream was opened on.
  ghost function OpenedOn(events: seq<Event>, k: StreamId): Option<ObjectId> {
    if events == [] then None else
    var front, e := events[..|events| - 1], events[|events| - 1];
    if e.Get? && e.stream == k then Holder(front, e.id) else OpenedOn(front, k)
  }

  // The messages published to the stream's session since the stream was opened.
  ghost function PublishedSince(events: seq<Event>, k: StreamId): seq<string> {
    if events == [] then [] else
    var front, e := events[..|events| - 1], events[|events| - 1];
    if e.Get? && e.stream == k then []
    else if OpenedOn(front, k).Some? && Publishes(front, e, OpenedOn(front, k).value)
    then PublishedSince(front, k) + [e.render(e.name)]
    else PublishedSince(front, k)
  }

  ghost predicate IsRemoved(events: seq<Event>, o: ObjectId) {
    forall id :: Holder(events, id) != Some(o)
  }

  // ----- The fields of the state and the events -----

  ghost predicate StateFollows(s: State, events: seq<Event>) {
    && (forall id :: (if id in s.ids then Some(s.ids[id]) else None) == Holder(events, id))
    && (forall o :: (if o in s.sessions then s.sessions[o].published else []) == Published(events, o))
    && (forall k :: (if k in s.streams then Some(s.streams[k].session) else None) == OpenedOn(events, k))
    && (forall k :: k in s.streams ==> StreamFollows(s, events, k))
  }

  ghost predicate StreamFollows(s: State, events: seq<Event>, k: StreamId)
    requires k in s.streams
  {
    var st := s.streams[k];
    && st.since <= |Published(events, st.session)|
    && PublishedSince(events, k) == Published(events, st.session)[st.since..]
  }

  // A step changes the log of the session it publishes to, and no other.
  lemma StepLogs(s: State, e: Event, o: ObjectId)
    requires Inv(s) && Enabled(s, e)
    ensures var s' := Step(s, e);
      var before := if o in s.sessions then s.sessions[o].published else [];
      (if o in s'.sessions then s'.sessions[o].published else []) ==
        if e.Publish? && e.id in s.ids && s.ids[e.id] == o
           && "notifications/" <= e.name && |e.name| > |"notifications/"|
        then before + [e.render(e.name)] else before
  {
    hide IsLog;
  }

  lemma StepIds(s: State, e: Event, id: SessionId)
    requires Inv(s) && Enabled(s, e)
    ensures var ids := Step(s, e).ids;
      (if id in ids then Some(ids[id]) else None) ==
        match e
        case Initialize(i, obj, _) => if i == id then Some(obj) else if id in s.ids then Some(s.ids[id]) else None
        case Delete(i) => if i == id then None else if id in s.ids then Some(s.ids[id]) else None
        case Shutdown => None
        case _ => if id in s.ids then Some(s.ids[id]) else None
  {
    hide IsLog;
  }

  lemma StepStreams(s: State, e: Event, k: StreamId)
    requires Inv(s) && Enabled(s, e)
    ensures var streams := Step(s, e).streams;
      if e.Get? && e.stream == k then
        if e.id in s.ids then
          && k in streams && streams[k].session == s.ids[e.id]
          && streams[k].since == |s.sessions[s.ids[e.id]].published|
        else k !in streams
      else
        && (k in streams <==> k in s.streams)
        && (k in streams ==> streams[k].session == s.streams[k].session && streams[k].since == s.streams[k].since)
  {
    hide IsLog;
  }

  lemma FollowIds(s: State, front: seq<Event>, e: Event, id: SessionId)
    requires Inv(s) && Enabled(s, e) && StateFollows(s, front)
    ensures var ids := Step(s, e).ids; (if id in ids then Some(ids[id]) else None) == Holder(front + [e], id)
  {
    hide Inv, Step, StreamFollows;
    assert (front + [e])[..|front|] == front;
    StepIds(s, e, id);
  }

  lemma PublishesByState(s: State, front: seq<Event>, e: Event, o: ObjectId)
    requires StateFollows(s, front)
    ensures Publishes(front, e, o) <==>
      e.Publish? && e.id in s.ids && s.ids[e.id] == o && "notifications/" <= e.name && |e.name| > |"notifications/"|
  {
    hide StreamFollows;
    if e.Publish? {
      assert (if e.id in s.ids then Some(s.ids[e.id]) else None) == Holder(front, e.id);
    }
  }

  lemma FollowLogs(s: State, front: seq<Event>, e: Event, o: ObjectId)
    requires Inv(s) && Enabled(s, e) && StateFollows(s, front)
    ensures var sessions := Step(s, e).sessions;
      (if o in sessions then sessions[o].published else []) == Published(front + [e], o)
  {
    PublishesByState(s, front, e, o);
    StepLogs(s, e, o);
    hide Inv, Step, StreamFollows, Publishes;
    assert (front + [e])[..|front|] == front;
  }

  lemma FollowStreams(s: State, front: seq<Event>, e: Event, k: StreamId)
    requires Inv(s) && Enabled(s, e) && StateFollows(s, front)
    ensures var streams := Step(s, e).streams;
      (if k in streams then Some(streams[k].session) else None) == OpenedOn(front + [e], k)
  {
    hide Inv, Step, StreamFollows;
    assert (front + [e])[..|front|] == front;
    StepStreams(s, e, k);
  }

  lemma FollowSince(s: State, front: seq<Event>, e: Event, k: StreamId)
    requires Inv(s) && Enabled(s, e) && StateFollows(s, front) && k in Step(s, e).streams
    ensures StreamFollows(Step(s, e), front + [e], k)
  {
    hide OneIdEach, Registered, StreamOk, Step;
    assert (front + [e])[..|front|] == front;
    StepStreams(s, e, k);
    var st := Step(s, e).streams[k];
    FollowLogs(s, front, e, st.session);
    if e.Get? && e.stream == k {
      assert Published(front, st.session) == s.sessions[st.session].published;
      GetPublishesNothing(front, e, st.session);
    } else {
      assert StreamFollows(s, front, k) && OpenedOn(front, k) == Some(st.session);
      if Publishes(front, e, st.session) {
        var log, body := Published(front, st.session), e.render(e.name);
        assert (log + [body])[st.since..] == log[st.since..] + [body];
      }
    }
  }

  lemma GetPublishesNothing(front: seq<Event>, e: Event, o: ObjectId)
    requires e.Get?
    ensures Published(front + [e], o) == Published(front, o)
  {
    assert (front + [e])[..|front|] == front;
  }

  lemma {:induction false} RunFollows(events: seq<Event>)
    requires After(events).Some?
    ensures StateFollows(After(events).value, events)
    decreases |events|
  {
    if events != [] {
      var front, e := events[..|events| - 1], events[|events| - 1];
      RunFollows(front);
      RunKeepsInv(front);
      assert events == front + [e];
      FollowStep(After(front).value, front, e);
    }
  }

  lemma FollowStep(s: State, front: seq<Event>, e: Event)
    requires Inv(s) && Enabled(s, e) && StateFollows(s, front)
    ensures StateFollows(Step(s, e), front + [e])
  {
    hide Step, OneIdEach, Registered, StreamOk, Holder, Published, OpenedOn, StreamFollows;
    forall id { FollowIds(s, front, e, id); }
    forall o { FollowLogs(s, front, e, o); }
    forall k { FollowStreams(s, front, e, k); }
    forall k | k in Step(s, e).streams { FollowSince(s, front, e, k); }
  }

  // ----- Removed sessions stay removed -----

  // A sealed stream's session is gone, and nothing was published to it since the stream was last registered.
  ghost predicate SealedForGood(s: State) {
    forall k :: k in s.streams && s.streams[k].isSealed ==>
      && s.streams[k].session in s.sessions && !IsLive(s, s.streams[k].session)
      && s.streams[k].until == |s.sessions[s.streams[k].session].published|
  }

  lemma StepSeals(s: State, e: Event, k: StreamId)
    requires Inv(s) && Enabled(s, e) && k in Step(s, e).streams && Step(s, e).streams[k].isSealed
    ensures Step(s, e).streams[k].phase != Open ==> k in s.streams && s.streams[k].isSealed
    ensures k in s.streams && s.streams[k].isSealed && s.streams[k].phase != Open ==>
      Step(s, e).streams[k].phase != Open && Step(s, e).streams[k].until == s.streams[k].until
  {
    hide IsLog;
    if k in s.streams {
      assert StreamOk(s, k);
    }
  }

  lemma StepAfterSeal(s: State, e: Event, k: StreamId)
    requires Inv(s) && Enabled(s, e) && k in s.streams && s.streams[k].isSealed && s.streams[k].phase == Open
    ensures k in Step(s, e).streams && Step(s, e).streams[k].until == s.streams[k].until
  {
    hide IsLog;
    assert StreamOk(s, k);
    forall id | id in s.ids ensures k !in s.sessions[s.ids[id]].streams {
      assert IsLive(s, s.ids[id]);
    }
  }

  lemma NoneLeadsThere(s: State, o: ObjectId, id: SessionId)
    ensures IsLive(s, o) || id !in s.ids || s.ids[id] != o
  {
  }

  lemma DeadStaysDead(s: State, e: Event, o: ObjectId)
    requires Inv(s) && Enabled(s, e) && o in s.sessions && !IsLive(s, o)
    ensures var s' := Step(s, e);
      o in s'.sessions && !IsLive(s', o) && |s'.sessions[o].published| == |s.sessions[o].published|
  {
    hide IsLog, StreamOk;
    StepLogs(s, e, o);
    forall id ensures (id in Step(s, e).ids ==> Step(s, e).ids[id] != o) {
      StepIds(s, e, id);
      NoneLeadsThere(s, o, id);
    }
  }

  lemma StepKeepsSealed(s: State, e: Event)
    requires Inv(s) && Enabled(s, e) && SealedForGood(s)
    ensures SealedForGood(Step(s, e))
  {
    StepKeepsInv(s, e);
    var s' := Step(s, e);
    forall k | k in s'.streams && s'.streams[k].isSealed
      ensures s'.streams[k].session in s'.sessions && !IsLive(s', s'.streams[k].session)
      ensures s'.streams[k].until == |s'.sessions[s'.streams[k].session].published|
    {
      StepSeals(s, e, k);
      assert StreamOk(s', k);
      if s'.streams[k].phase != Open {
        StepStreams(s, e, k);
        DeadStaysDead(s, e, s.streams[k].session);
        if s.streams[k].phase == Open {
          StepAfterSeal(s, e, k);
        }
      }
    }
  }

  lemma {:induction false} RunKeepsSealed(events: seq<Event>)
    requires After(events).Some?
    ensures SealedForGood(After(events).value)
    decreases |events|
  {
    if events != [] {
      RunKeepsSealed(events[..|events| - 1]);
      RunKeepsInv(events[..|events| - 1]);
      StepKeepsSealed(After(events[..|events| - 1]).value, events[|events| - 1]);
    }
  }

  // ----- What the streams deliver -----

  lemma LiveByEvents(events: seq<Event>, o: ObjectId)
    requires After(events).Some?
    ensures IsLive(After(events).value, o) <==> !IsRemoved(events, o)
  {
    RunFollows(events);
    var s := After(events).value;
    hide StreamFollows;
    forall id ensures (id in s.ids && s.ids[id] == o) <==> Holder(events, id) == Some(o) {
      assert (if id in s.ids then Some(s.ids[id]) else None) == Holder(events, id);
    }
  }

  // The messages framed on a stream are, in order and once each, a prefix of those published to its session since it
  // was opened, and all of them when it ended through the sentinel, which only a removed session sends. The queue of an
  // open stream holds the rest of them, and the sentinel at the end once the session is removed.
  lemma FramedIsPrefixOfPublished(events: seq<Event>, k: StreamId)
    requires After(events).Some? && k in After(events).value.streams
    ensures var st := After(events).value.streams[k]; var since := PublishedSince(events, k);
      && OpenedOn(events, k) == Some(st.session)
      && st.framed <= since
      && (st.phase == Ended ==> st.framed == since && IsRemoved(events, st.session))
      && (st.phase == Open ==>
            st.queue == Entries(since[|st.framed|..]) + if IsRemoved(events, st.session) then [Sentinel] else [])
  {
    RunKeepsInv(events);
    RunKeepsSealed(events);
    RunFollows(events);
    var s := After(events).value;
    var st := s.streams[k];
    LiveByEvents(events, st.session);
    assert StreamOk(s, k) && StreamFollows(s, events, k);
    assert (if k in s.streams then Some(s.streams[k].session) else None) == OpenedOn(events, k);
    var log := s.sessions[st.session].published;
    assert (if st.session in s.sessions then log else []) == Published(events, st.session);
    LogSlices(log, st.since, |st.framed|, st.until);
  }

  lemma LogSlices(log: seq<string>, since: nat, n: nat, until: nat)
    requires since + n <= until <= |log|
    ensures log[since..since + n] <= log[since..]
    ensures until == |log| ==> log[since + n..until] == log[since..][n..]
    ensures until == |log| == since + n ==> log[since..since + n] == log[since..]
  {
  }

  // The generator takes the first entry of its queue: it frames a message and ends at the sentinel.
  lemma TakesTheFirst(events: seq<Event>, k: StreamId)
    requires After(events + [Take(k)]).Some?
    ensures After(events).Some?
    ensures var before, after := After(events).value, After(events + [Take(k)]).value;
      && k in before.streams && before.streams[k].phase == Open && before.streams[k].queue != [] && k in after.streams
      && var first := before.streams[k].queue[0];
         && after.streams[k].queue == before.streams[k].queue[1..]
         && (first.Msg? ==>
               after.streams[k].framed == before.streams[k].framed + [first.body] && after.streams[k].phase == Open)
         && (first.Sentinel? ==>
               after.streams[k].framed == before.streams[k].framed && after.streams[k].phase == Ended)
  {
    assert (events + [Take(k)])[..|events|] == events;
  }

  // A client that opens a stream on a session that is there gets one; on any other identifier it gets none.
  lemma OpensOnlyOnSessions(events: seq<Event>, id: SessionId, k: StreamId)
    requires After(events + [Get(id, k)]).Some?
    ensures var streams := After(events + [Get(id, k)]).value.streams;
      && (k in streams <==> Holder(events, id).Some?)
      && (k in streams ==> streams[k].phase == Open && Some(streams[k].session) == Holder(events, id))
  {
    assert (events + [Get(id, k)])[..|events|] == events;
    RunFollows(events);
    hide StreamFollows;
    assert (if id in After(events).value.ids then Some(After(events).value.ids[id]) else None) == Holder(events, id);
  }
}
