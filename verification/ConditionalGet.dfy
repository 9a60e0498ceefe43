// ModelRevisionMiddleware: what becomes of an application's response messages.
module ConditionalGet {
  import opened Options
  import opened HttpCaching
  import opened Texts

  type Headers = seq<(string, string)>     // lower-case names in order; a name may repeat
  datatype Message =
    | Start(status: nat, headers: Headers)
    | Body(body: string, more: bool)
    | Other(kind: string)

  // ----- Starlette's MutableHeaders -----

  function Without(headers: Headers, name: string): Headers {
    if headers == [] then [] else
    (if headers[0].0 == name then [] else [headers[0]]) + Without(headers[1..], name)
  }

  function Values(headers: Headers, name: string): seq<string> {
    if headers == [] then [] else
    (if headers[0].0 == name then [headers[0].1] else []) + Values(headers[1..], name)
  }

  // headers[name] = value: the first one is replaced, others are removed, a missing one is appended.
  function Set(headers: Headers, name: string, value: string): Headers {
    if headers == [] then [(name, value)]
    else if headers[0].0 == name then [(name, value)] + Without(headers[1..], name)
    else [headers[0]] + Set(headers[1..], name, value)
  }

  lemma {:induction false} WithoutValues(headers: Headers, name: string, other: string)
    ensures Values(Without(headers, name), other) == if other == name then [] else Values(headers, other)
  {
    if headers != [] {
      WithoutValues(headers[1..], name, other);
      ValuesJoin(if headers[0].0 == name then [] else [headers[0]], Without(headers[1..], name), other);
      ValuesOfOne(headers[0], other);
    }
  }

  lemma {:induction false} ValuesJoin(a: Headers, b: Headers, name: string)
    ensures Values(a + b, name) == Values(a, name) + Values(b, name)
  {
    if a == [] {
      assert a + b == b && Values(a, name) == [];
    } else {
      var header, rest := a[0], a[1..];
      ValuesJoin(rest, b, name);
      assert [header] + (rest + b) == a + b;
      calc {
        Values(a + b, name);
        { ValuesNext(header, rest + b, name); }
        (if header.0 == name then [header.1] else []) + (Values(rest, name) + Values(b, name));
        ((if header.0 == name then [header.1] else []) + Values(rest, name)) + Values(b, name);
        Values(a, name) + Values(b, name);
      }
    }
  }

  lemma ValuesNext(header: (string, string), rest: Headers, name: string)
    ensures Values([header] + rest, name) == (if header.0 == name then [header.1] else []) + Values(rest, name)
  {
    assert ([header] + rest)[1..] == rest;
  }

  lemma ValuesOfOne(header: (string, string), name: string)
    ensures Values([header], name) == if header.0 == name then [header.1] else []
  {
    assert [header][1..] == [];
  }

  lemma {:induction false} SetValues(headers: Headers, name: string, value: string, other: string)
    ensures Values(Set(headers, name, value), other) == if other == name then [value] else Values(headers, other)
  {
    ValuesOfOne((name, value), other);
    if headers != [] {
      ValuesOfOne(headers[0], other);
      if headers[0].0 == name {
        ValuesJoin([(name, value)], Without(headers[1..], name), other);
        WithoutValues(headers[1..], name, other);
      } else {
        SetValues(headers[1..], name, value, other);
        ValuesJoin([headers[0]], Set(headers[1..], name, value), other);
      }
    }
  }

  // ----- The middleware -----

  const REVISION := "i3x-model-revision"
  const ETAG := "etag"
  const CACHE_CONTROL := "cache-control"
  const BODY_HEADERS := ["content-length", "content-type", "content-encoding"]

  datatype Request = Request(lib: Lib, isRead: bool, ifNoneMatch: Option<string>)

  function TagOf(r: Request, parts: Parts): Option<string> {
    if r.isRead then Etag(r.lib, parts) else None
  }

  // A representation the client already has.
  predicate NotModified(r: Request, parts: Parts) {
    TagOf(r, parts).Some? && Matches(r.lib, r.ifNoneMatch, TagOf(r, parts).value)
  }

  function WithoutBody(headers: Headers): Headers {
    Without(Without(Without(headers, BODY_HEADERS[0]), BODY_HEADERS[1]), BODY_HEADERS[2])
  }

  function WithRevision(parts: Parts, headers: Headers): Headers {
    if "model" in parts && parts["model"] != "" then Set(headers, REVISION, parts["model"]) else headers
  }

  function Started(r: Request, parts: Parts, status: nat, headers: Headers): Message {
    var tag := TagOf(r, parts);
    var revised := WithRevision(parts, headers);
    if tag.Some? && (status == 200 || status == 304) then
      var tagged := Set(Set(revised, ETAG, tag.value), CACHE_CONTROL, "no-cache");
      var sent := if status == 200 && NotModified(r, parts) then 304 else status;
      Start(sent, if sent == 304 then WithoutBody(tagged) else tagged)
    else Start(status, revised)
  }

  // What is sent for one message of the application, if anything, and whether the body is dropped from then on.
  function Forward(r: Request, parts: Parts, drop: bool, m: Message): (bool, seq<Message>) {
    match m
    case Start(status, headers) =>
      (drop || (status == 200 && NotModified(r, parts)), [Started(r, parts, status, headers)])
    case Body(body, more) => (drop, if !drop then [m] else if more then [] else [Body("", false)])
    case Other(_) => (drop, [m])
  }

  class ModelRevisionMiddleware {
    const request: Request
    var parts: Parts
    var dropBody: bool
    var sent: seq<Message>

    constructor (request: Request)
      ensures this.request == request && parts == map[] && !dropBody && sent == []
    {
      this.request, parts, dropBody, sent := request, map[], false, [];
    }

    method RecordRevision(name: string, revision: string)
      modifies this`parts
      ensures parts == Recorded(old(parts), name, revision)
    {
      if revision != "" {
        parts := parts[name := revision];
      }
    }

    method SendWithRevision(message: Message)
      modifies this`dropBody, this`sent
      ensures dropBody == Forward(request, parts, old(dropBody), message).0
      ensures sent == old(sent) + Forward(request, parts, old(dropBody), message).1
    {
      var forwarded := message;
      match message {
        case Start(status, headers) =>
          var h := headers;
          if "model" in parts && parts["model"] != "" {
            h := Set(h, REVISION, parts["model"]);
          }
          var etag := if request.isRead then Etag(request.lib, parts) else None;
          var newStatus := status;
          if etag.Some? && (status == 200 || status == 304) {
            h := Set(h, ETAG, etag.value);
            h := Set(h, CACHE_CONTROL, "no-cache");
            if status == 200 && Matches(request.lib, request.ifNoneMatch, etag.value) {
              newStatus := 304;
              dropBody := true;
            }
            if newStatus == 304 {
              h := Without(h, BODY_HEADERS[0]);
              h := Without(h, BODY_HEADERS[1]);
              h := Without(h, BODY_HEADERS[2]);
            }
          }
          forwarded := Start(newStatus, h);
        case Body(_, more) =>
          if dropBody {
            if more {
              assert sent + [] == sent;
              return;
            }
            forwarded := Body("", false);
          }
        case Other(_) =>
      }
      sent := sent + [forwarded];
    }
  }

  // ----- Whole responses -----

  // What the application does under the middleware: it records revisions and sends messages.
  datatype Action = Record(name: string, revision: string) | Send(message: Message)

  function Run(r: Request, parts: Parts, drop: bool, actions: seq<Action>): seq<Message>
    decreases |actions|
  {
    if actions == [] then [] else
    match actions[0]
    case Record(name, revision) => Run(r, Recorded(parts, name, revision), drop, actions[1..])
    case Send(m) => Forward(r, parts, drop, m).1 + Run(r, parts, Forward(r, parts, drop, m).0, actions[1..])
  }

  function PartsAfter(parts: Parts, actions: seq<Action>): Parts
    decreases |actions|
  {
    if actions == [] then parts else
    var next := if actions[0].Record? then Recorded(parts, actions[0].name, actions[0].revision) else parts;
    PartsAfter(next, actions[1..])
  }

  function Sends(actions: seq<Action>): seq<Message> {
    if actions == [] then [] else (if actions[0].Send? then [actions[0].message] else []) + Sends(actions[1..])
  }

  predicate RecordsOnly(actions: seq<Action>) { forall i :: 0 <= i < |actions| ==> actions[i].Record? }

  // A whole body: body messages only, the last of them marked as such.
  predicate IsBody(messages: seq<Message>) {
    && |messages| > 0 && (forall i :: 0 <= i < |messages| ==> messages[i].Body?)
    && forall i :: 0 <= i < |messages| ==> (messages[i].more <==> i < |messages| - 1)
  }

  // What is left of messages when the body is dropped: an empty message for every final one, and every other kind.
  function Emptied(messages: seq<Message>): (r: seq<Message>)
    ensures forall m :: m in r <==>
      (m in messages && !m.Body?) || (m == Body("", false) && exists b :: b in messages && b.Body? && !b.more)
  {
    if messages == [] then [] else
    var first := messages[0];
    assert forall m :: m in messages <==> m == first || m in messages[1..];
    (if !first.Body? then [first] else if first.more then [] else [Body("", false)]) + Emptied(messages[1..])
  }

  lemma EmptiedNext(m: Message, rest: seq<Message>)
    ensures Emptied([m] + rest) == (if !m.Body? then [m] else if m.more then [] else [Body("", false)]) + Emptied(rest)
  {
    assert ([m] + rest)[1..] == rest;
  }

  lemma {:induction false} EmptiedBody(messages: seq<Message>)
    requires IsBody(messages)
    ensures Emptied(messages) == [Body("", false)]
  {
    assert messages[0].Body?;
    if |messages| > 1 {
      EmptiedBody(messages[1..]);
    }
  }

  method RunApplication(r: Request, actions: seq<Action>) returns (sent: seq<Message>)
    ensures sent == Run(r, map[], false, actions)
  {
    hide Forward, Run;
    var middleware := new ModelRevisionMiddleware(r);
    assert actions[0..] == actions;
    for i := 0 to |actions|
      invariant fresh(middleware) && middleware.request == r
      invariant Run(r, map[], false, actions) ==
        middleware.sent + Run(r, middleware.parts, middleware.dropBody, actions[i..])
    {
      RunStep(r, middleware.parts, middleware.dropBody, actions, i, middleware.sent);
      if actions[i].Record? {
        middleware.RecordRevision(actions[i].name, actions[i].revision);
      } else {
        middleware.SendWithRevision(actions[i].message);
      }
    }
    assert actions[|actions|..] == [];
    RunEnd(r, middleware.parts, middleware.dropBody, middleware.sent);
    sent := middleware.sent;
  }

  lemma RunStep(r: Request, parts: Parts, drop: bool, actions: seq<Action>, i: nat, sent: seq<Message>)
    requires i < |actions|
    ensures actions[i].Record? ==>
      sent + Run(r, parts, drop, actions[i..]) ==
        sent + Run(r, Recorded(parts, actions[i].name, actions[i].revision), drop, actions[i + 1..])
    ensures actions[i].Send? ==>
      var forwarded := Forward(r, parts, drop, actions[i].message);
      sent + Run(r, parts, drop, actions[i..]) == (sent + forwarded.1) + Run(r, parts, forwarded.0, actions[i + 1..])
  {
    hide Forward, Recorded;
    assert actions[i..][1..] == actions[i + 1..] && actions[i..][0] == actions[i];
  }

  lemma RunEnd(r: Request, parts: Parts, drop: bool, sent: seq<Message>)
    ensures sent + Run(r, parts, drop, []) == sent
  {
  }

  lemma {:induction false} RunAfterRecords(r: Request, parts: Parts, before: seq<Action>, after: seq<Action>)
    requires RecordsOnly(before)
    ensures Run(r, parts, false, before + after) == Run(r, PartsAfter(parts, before), false, after)
    decreases |before|
  {
    if before == [] {
      assert before + after == after;
    } else {
      RunAfterRecords(r, Recorded(parts, before[0].name, before[0].revision), before[1..], after);
      assert (before + after)[1..] == before[1..] + after;
    }
  }

  // Messages of a body that is kept are sent as they are.
  lemma {:induction false} KeptBody(r: Request, parts: Parts, actions: seq<Action>)
    requires forall m :: m in Sends(actions) ==> !m.Start?
    ensures Run(r, parts, false, actions) == Sends(actions)
    decreases |actions|
  {
    if actions != [] {
      assert actions[0].Send? ==> actions[0].message in Sends(actions);
      var parts' := if actions[0].Record? then Recorded(parts, actions[0].name, actions[0].revision) else parts;
      KeptBody(r, parts', actions[1..]);
    }
  }

  // Messages of a dropped body are emptied, and the others are sent as they are.
  lemma {:induction false} DroppedBody(r: Request, parts: Parts, actions: seq<Action>)
    requires forall m :: m in Sends(actions) ==> !m.Start?
    ensures Run(r, parts, true, actions) == Emptied(Sends(actions))
    decreases |actions|
  {
    if actions != [] {
      hide Emptied, Recorded;
      assert actions[0].Send? ==> actions[0].message in Sends(actions);
      var parts' := if actions[0].Record? then Recorded(parts, actions[0].name, actions[0].revision) else parts;
      DroppedBody(r, parts', actions[1..]);
      if actions[0].Send? {
        EmptiedNext(actions[0].message, Sends(actions[1..]));
      } else {
        assert Sends(actions) == Sends(actions[1..]);
      }
    }
  }

  // A response: revisions are recorded, the start is sent, and other messages follow, with more records in between.
  // It may be cut off anywhere.
  datatype Response = Response(before: seq<Action>, status: nat, headers: Headers, after: seq<Action>)

  predicate IsResponse(p: Response) {
    RecordsOnly(p.before) && forall m :: m in Sends(p.after) ==> !m.Start?
  }

  function Actions(p: Response): seq<Action> {
    p.before + ([Send(Start(p.status, p.headers))] + p.after)
  }

  function Recording(p: Response): Parts { PartsAfter(map[], p.before) }

  lemma ResponseRun(r: Request, p: Response)
    requires IsResponse(p)
    ensures var parts := Recording(p);
      Run(r, map[], false, Actions(p)) ==
      [Started(r, parts, p.status, p.headers)] + Run(r, parts, p.status == 200 && NotModified(r, parts), p.after)
  {
    hide Started, NotModified;
    RunAfterRecords(r, map[], p.before, [Send(Start(p.status, p.headers))] + p.after);
    assert ([Send(Start(p.status, p.headers))] + p.after)[1..] == p.after;
  }

  // A 200 response whose representation the client has becomes a 304 without a body: one empty message if the body is
  // whole, none if it is cut off. Any other response keeps its status and its messages.
  lemma ConditionalResponse(r: Request, p: Response)
    requires IsResponse(p)
    ensures var parts := Recording(p);
      var sent := Run(r, map[], false, Actions(p));
      && |sent| > 0 && sent[0].Start?
      && (if p.status == 200 && NotModified(r, parts)
          then && sent[0].status == 304 && sent[1..] == Emptied(Sends(p.after))
               && (IsBody(Sends(p.after)) ==> sent[1..] == [Body("", false)])
          else sent[0].status == p.status && sent[1..] == Sends(p.after))
  {
    hide NotModified, Run;
    ResponseRun(r, p);
    if p.status == 200 && NotModified(r, Recording(p)) {
      DroppedBody(r, Recording(p), p.after);
      if IsBody(Sends(p.after)) {
        EmptiedBody(Sends(p.after));
      }
    } else {
      KeptBody(r, Recording(p), p.after);
    }
    StartedStatus(r, Recording(p), p.status, p.headers);
  }

  lemma StartedStatus(r: Request, parts: Parts, status: nat, headers: Headers)
    ensures var m := Started(r, parts, status, headers);
      m.Start? && m.status == if status == 200 && NotModified(r, parts) then 304 else status
  {
    hide Etag, Matches;
  }

  // The headers of the start that is sent: the validators and the revision as recorded, no header about a body
  // in a 304, and every other header as the application sent it.
  lemma StartedHeaders(r: Request, parts: Parts, status: nat, headers: Headers, name: string)
    ensures var m := Started(r, parts, status, headers);
      var tagged := TagOf(r, parts).Some? && (status == 200 || status == 304);
      Values(m.headers, name) ==
        if tagged && m.status == 304 && name in ["content-length", "content-type", "content-encoding"] then []
        else if tagged && name == "etag" then [TagOf(r, parts).value]
        else if tagged && name == "cache-control" then ["no-cache"]
        else if name == "i3x-model-revision" && "model" in parts && parts["model"] != "" then [parts["model"]]
        else Values(headers, name)
  {
    hide Etag, Matches, Values, Set, Without;
    var revised := WithRevision(parts, headers);
    if "model" in parts { SetValues(headers, REVISION, parts["model"], name); }
    if TagOf(r, parts).Some? {
      var tag := TagOf(r, parts).value;
      SetValues(revised, ETAG, tag, name);
      SetValues(Set(revised, ETAG, tag), CACHE_CONTROL, "no-cache", name);
      var tagged := Set(Set(revised, ETAG, tag), CACHE_CONTROL, "no-cache");
      WithoutValues(tagged, BODY_HEADERS[0], name);
      WithoutValues(Without(tagged, BODY_HEADERS[0]), BODY_HEADERS[1], name);
      WithoutValues(Without(Without(tagged, BODY_HEADERS[0]), BODY_HEADERS[1]), BODY_HEADERS[2], name);
    }
  }

  // raise_if_not_modified, answered by an empty 304 response.
  function Early(before: seq<Action>): Response {
    Response(before, 304, [], [Send(Body("", false))])
  }

  // Raising early gives the same status, validators and empty body as building the representation,
  // when no revision is recorded in between.
  lemma EarlyAnswerIsTheSame(r: Request, p: Response)
    requires IsResponse(p) && IsBody(Sends(p.after)) && p.status == 200 && NotModified(r, Recording(p))
    ensures var early, late := Run(r, map[], false, Actions(Early(p.before))), Run(r, map[], false, Actions(p));
      && |early| == 2 && |late| == 2 && early[0].Start? && late[0].Start?
      && early[0].status == late[0].status == 304 && early[1] == late[1] == Body("", false)
      && forall name ::
           name in [ETAG, CACHE_CONTROL] || (name == REVISION && "model" in Recording(p) && Recording(p)["model"] != "")
           ==> Values(early[0].headers, name) == Values(late[0].headers, name)
  {
    hide Run, Started, Values, NotModified;
    var early := Early(p.before);
    assert Sends(early.after) == [Body("", false)] by {
      assert early.after[1..] == [];
    }
    var parts := Recording(p);
    ConditionalResponse(r, p);
    ConditionalResponse(r, early);
    ResponseRun(r, p);
    ResponseRun(r, early);
    StartedStatus(r, parts, 200, p.headers);
    StartedStatus(r, parts, 304, []);
    NotModifiedIsTagged(r, parts);
    forall name | name in [ETAG, CACHE_CONTROL] || (name == REVISION && "model" in parts && parts["model"] != "")
      ensures Values(Started(r, parts, 304, []).headers, name) ==
        Values(Started(r, parts, 200, p.headers).headers, name)
    {
      StartedHeaders(r, parts, 304, [], name);
      StartedHeaders(r, parts, 200, p.headers, name);
    }
  }

  lemma NotModifiedIsTagged(r: Request, parts: Parts)
    requires NotModified(r, parts)
    ensures TagOf(r, parts).Some?
  {
  }

  // ----- When a response is not modified -----

  // The last revision recorded under a name; an empty one is not recorded.
  ghost function LastRevision(records: seq<Action>, name: string): Option<string> {
    if records == [] then None else
    var last := records[|records| - 1];
    if last.Record? && last.name == name && last.revision != "" then Some(last.revision)
    else LastRevision(records[..|records| - 1], name)
  }

  ghost predicate IsPublic(name: string) { name == "" || name[0] != '_' }

  // The revisions that a tag stands for: the last ones under every name that does not start with an underscore.
  ghost predicate AreRevisions(revisions: Parts, records: seq<Action>) {
    forall name ::
      && (name in revisions <==> IsPublic(name) && LastRevision(records, name).Some?)
      && (name in revisions ==> Some(revisions[name]) == LastRevision(records, name))
  }

  // A read whose route is tagged, of which nothing was uncacheable and some revision was recorded.
  ghost predicate IsTagged(r: Request, records: seq<Action>) {
    && r.isRead && LastRevision(records, "_etag").Some? && LastRevision(records, "_not_cacheable").None?
    && exists name :: IsPublic(name) && LastRevision(records, name).Some?
  }

  lemma {:induction false} PartsAfterLast(parts: Parts, records: seq<Action>, last: Action)
    requires last.Record?
    ensures PartsAfter(parts, records + [last]) == Recorded(PartsAfter(parts, records), last.name, last.revision)
    decreases |records|
  {
    if records == [] {
      assert records + [last] == [last] && [last][1..] == [];
    } else {
      var first := records[0];
      var next := if first.Record? then Recorded(parts, first.name, first.revision) else parts;
      PartsAfterLast(next, records[1..], last);
      assert (records + [last])[1..] == records[1..] + [last];
    }
  }

  lemma {:induction false} RecordedLast(records: seq<Action>, name: string)
    requires RecordsOnly(records)
    ensures var parts := PartsAfter(map[], records);
      LastRevision(records, name) == if name in parts then Some(parts[name]) else None
    decreases |records|
  {
    if records != [] {
      var init, last := records[..|records| - 1], records[|records| - 1];
      assert records == init + [last];
      RecordedLast(init, name);
      PartsAfterLast(map[], init, last);
    }
  }

  lemma TagByRecords(r: Request, records: seq<Action>, revisions: Parts)
    requires RecordsOnly(records) && AreRevisions(revisions, records)
    ensures var parts := PartsAfter(map[], records);
      && Visible(parts) == revisions
      && TagOf(r, parts) == if IsTagged(r, records) then Some("W/\"" + r.lib.digest(revisions) + "\"") else None
  {
    hide LastRevision, PartsAfter;
    var parts := PartsAfter(map[], records);
    forall name ensures LastRevision(records, name) == if name in parts then Some(parts[name]) else None {
      RecordedLast(records, name);
    }
    forall name ensures "_" <= name <==> !IsPublic(name) {}
    assert Visible(parts) == revisions;
    assert (exists name :: name in revisions) <==> revisions != map[];
  }

  // A text that is an asterisk but for white space around it.
  ghost predicate IsStar(lib: Lib, text: string) {
    exists lead, trail :: AllSpace(lib, lead) && AllSpace(lib, trail) && text == lead + ("*" + trail)
  }

  ghost predicate AllSpace(lib: Lib, s: string) {
    forall i :: 0 <= i < |s| ==> lib.isSpace(s[i])
  }

  lemma StarIsStripped(lib: Lib, text: string)
    requires IsLib(lib) && IsStar(lib, text)
    ensures Strip(lib.isSpace, text) == "*"
  {
    var lead, trail :| AllSpace(lib, lead) && AllSpace(lib, trail) && text == lead + ("*" + trail);
    StripLeftSpace(lib.isSpace, lead, "*" + trail);
    assert StripLeft(lib.isSpace, "*" + trail) == "*" + trail;
    StripRightAfter(lib.isSpace, "*", trail);
    StripRightSpace(lib.isSpace, trail);
  }

  // Which 200 responses become 304: without a tag none. With one, those of a client that accepts any representation or
  // lists the tag of this one, and none of a client that says nothing. The tag sent is the hash of the revisions.
  lemma NotModifiedIff(r: Request, p: Response, revisions: Parts, elements: seq<Element>)
    requires IsLib(r.lib) && IsResponse(p) && p.status == 200 && AreRevisions(revisions, p.before)
    requires elements != [] && forall i :: 0 <= i < |elements| ==> IsElement(elements[i])
    ensures var sent := Run(r, map[], false, Actions(p));
      && |sent| > 0 && sent[0].Start?
      && (!IsTagged(r, p.before) || r.ifNoneMatch == None || r.ifNoneMatch == Some("") ==> sent[0].status == 200)
      && (IsTagged(r, p.before) && r.ifNoneMatch.Some? && IsStar(r.lib, r.ifNoneMatch.value) ==> sent[0].status == 304)
      && (IsTagged(r, p.before) && r.ifNoneMatch == Some(ListText(elements)) && ListText(elements) != "" ==>
            (sent[0].status == 304 <==>
             exists i :: 0 <= i < |elements| && elements[i].tag.Some?
                         && elements[i].tag.value.opaquePart == r.lib.digest(revisions)))
      && (IsTagged(r, p.before) ==>
            Values(sent[0].headers, "etag") == ["W/\"" + r.lib.digest(revisions) + "\""])
  {
    hide Run, IsTagged, IsStar, Strip, ListText, AreRevisions, Matches, Etag, Visible;
    var parts := Recording(p);
    ConditionalResponse(r, p);
    ResponseRun(r, p);
    TagByRecords(r, p.before, revisions);
    StartedStatus(r, parts, p.status, p.headers);
    StartedHeaders(r, parts, p.status, p.headers, ETAG);
    MatchCases(r.lib, r.ifNoneMatch, TagOf(r, parts));
    if IsTagged(r, p.before) {
      CommaSplitIsWeakComparison(r.lib, elements, parts);
    }
  }

  lemma MatchCases(lib: Lib, ifNoneMatch: Option<string>, tag: Option<string>)
    requires IsLib(lib)
    ensures tag.Some? && (ifNoneMatch == None || ifNoneMatch == Some("")) ==> !Matches(lib, ifNoneMatch, tag.value)
    ensures tag.Some? && ifNoneMatch.Some? && IsStar(lib, ifNoneMatch.value) ==> Matches(lib, ifNoneMatch, tag.value)
  {
    if ifNoneMatch.Some? && IsStar(lib, ifNoneMatch.value) {
      StarIsStripped(lib, ifNoneMatch.value);
    }
  }
}
