// The event stream as text: the frames the server prints and the client that reads them back.
module EventStreamText {
  import opened Options
  import opened SubscriptionStream

  // ----- The printer -----

  // encode stands for json.dumps of the mapped updates, which never holds a line break.
  ghost predicate OnOneLine(encode: seq<Update> -> string) {
    forall updates :: '\n' !in encode(updates) && '\r' !in encode(updates)
  }

  function FrameLines(encode: seq<Update> -> string, e: Event): seq<string> {
    match e
    case Connected => [": connected"]
    case Keepalive => [": keepalive"]
    case Close => ["event: close", "data: {}"]
    case Batch(updates) => ["data: " + encode(updates)]
  }

  function Joined(lines: seq<string>): string {
    if lines == [] then "" else lines[0] + "\n" + Joined(lines[1..])
  }

  // A frame: its lines and an empty one.
  function Frame(encode: seq<Update> -> string, e: Event): string {
    Joined(FrameLines(encode, e)) + "\n"
  }

  function Print(encode: seq<Update> -> string, events: seq<Event>): string {
    if events == [] then "" else Frame(encode, events[0]) + Print(encode, events[1..])
  }

  // ----- Lines -----

  // Lines as a reader delivers them: each with its line break, the last one perhaps without.
  function Lines(text: string): seq<string>
    decreases |text|
  {
    if text == "" then [] else
    var k := LineEnd(text);
    if k == |text| then [text] else [text[..k + 1]] + Lines(text[k + 1..])
  }

  function LineEnd(text: string): (k: nat)
    ensures k <= |text| && '\n' !in text[..k] && (k < |text| ==> text[k] == '\n')
  {
    if text == "" || text[0] == '\n' then 0 else
    var k := LineEnd(text[1..]);
    assert text[..1 + k] == [text[0]] + text[1..][..k];
    1 + k
  }

  lemma {:induction false} LineEndAfter(line: string, rest: string)
    requires '\n' !in line
    ensures LineEnd(line + "\n" + rest) == |line|
  {
    if line != "" {
      LineEndAfter(line[1..], rest);
      assert (line + "\n" + rest)[1..] == line[1..] + "\n" + rest;
    }
  }

  lemma LinesAfter(line: string, rest: string)
    requires '\n' !in line
    ensures Lines(line + "\n" + rest) == [line + "\n"] + Lines(rest)
  {
    hide LineEnd;
    var text := line + "\n" + rest;
    LineEndAfter(line, rest);
    assert text[..|line| + 1] == line + "\n" && text[|line| + 1..] == rest;
  }

  // rstrip("\r\n")
  function Bare(line: string): string {
    if line != "" && (line[|line| - 1] == '\r' || line[|line| - 1] == '\n') then Bare(line[..|line| - 1]) else line
  }

  predicate IsLine(line: string) {
    line != "" && '\n' !in line && '\r' !in line
  }

  lemma BareLine(line: string)
    requires '\n' !in line && '\r' !in line
    ensures Bare(line + "\n") == line && Bare(line) == line
  {
    assert (line + "\n")[..|line|] == line;
  }

  // ----- The sample client -----

  datatype Parsed = Parsed(event: string, data: string)
  datatype Client = Client(event: string, data: seq<string>)

  const FRESH := Client("message", [])

  function JoinData(data: seq<string>): string {
    if data == [] then "" else if |data| == 1 then data[0] else data[0] + "\n" + JoinData(data[1..])
  }

  // line.partition(":") and the removal of one leading space
  function Field(line: string): (string, string) {
    if line == "" then ("", "")
    else if line[0] == ':' then ("", if |line| > 1 && line[1] == ' ' then line[2..] else line[1..])
    else var rest := Field(line[1..]); ([line[0]] + rest.0, rest.1)
  }

  // One line of _sse_events.
  function ClientStep(c: Client, rawLine: string): (Client, seq<Parsed>) {
    var line := Bare(rawLine);
    if line == "" then (FRESH, if c.data != [] || c.event == "close" then [Parsed(c.event, JoinData(c.data))] else [])
    else if line[0] == ':' then (c, [])
    else
      var field := Field(line);
      if field.0 == "event" then (c.(event := field.1), [])
      else if field.0 == "data" then (c.(data := c.data + [field.1]), [])
      else (c, [])
  }

  function ClientRun(c: Client, lines: seq<string>): (Client, seq<Parsed>)
    decreases |lines|
  {
    if lines == [] then (c, []) else
    var step := ClientStep(c, lines[0]);
    var rest := ClientRun(step.0, lines[1..]);
    (rest.0, step.1 + rest.1)
  }

  lemma {:induction false} ClientRunJoin(c: Client, a: seq<string>, b: seq<string>)
    ensures var first := ClientRun(c, a);
      ClientRun(c, a + b) == (ClientRun(first.0, b).0, first.1 + ClientRun(first.0, b).1)
    decreases |a|
  {
    hide ClientStep;
    if a == [] {
      assert a + b == b && [] + ClientRun(c, b).1 == ClientRun(c, b).1;
    } else {
      var step := ClientStep(c, a[0]);
      ClientRunJoin(step.0, a[1..], b);
      assert (a + b)[1..] == a[1..] + b;
      var first := ClientRun(step.0, a[1..]);
      assert step.1 + (first.1 + ClientRun(first.0, b).1) == step.1 + first.1 + ClientRun(first.0, b).1;
    }
  }

  method SseEvents(lines: seq<string>) returns (events: seq<Parsed>)
    ensures events == ClientRun(FRESH, lines).1
  {
    hide ClientRun, Bare, Field;
    events := [];
    var event: string, data: seq<string> := "message", [];
    NoLines(FRESH);
    assert lines[..0] == [];
    for i := 0 to |lines|
      invariant ClientRun(FRESH, lines[..i]) == (Client(event, data), events)
    {
      ClientRunJoin(FRESH, lines[..i], [lines[i]]);
      OneLine(Client(event, data), lines[i]);
      assert lines[..i + 1] == lines[..i] + [lines[i]];
      var line := Bare(lines[i]);
      assert events + [] == events;
      if line == "" {
        if data != [] || event == "close" {
          events := events + [Parsed(event, JoinData(data))];
        }
        event, data := "message", [];
      } else if line[0] != ':' {
        var field := Field(line);
        if field.0 == "event" {
          event := field.1;
        } else if field.0 == "data" {
          data := data + [field.1];
        }
      }
    }
    assert lines[..|lines|] == lines;
  }

  lemma NoLines(c: Client)
    ensures ClientRun(c, []) == (c, [])
  {
  }

  lemma OneLine(c: Client, line: string)
    ensures ClientRun(c, [line]) == ClientStep(c, line)
  {
    hide ClientStep;
    assert [line][1..] == [];
    NoLines(ClientStep(c, line).0);
    assert ClientStep(c, line).1 + [] == ClientStep(c, line).1;
  }

  // ----- The client reads back what was printed -----

  // What a subscriber is meant to see of the events.
  function Visible(encode: seq<Update> -> string, events: seq<Event>): seq<Parsed> {
    if events == [] then [] else VisibleOf(encode, events[0]) + Visible(encode, events[1..])
  }

  function VisibleOf(encode: seq<Update> -> string, e: Event): seq<Parsed> {
    match e
    case Batch(updates) => [Parsed("message", encode(updates))]
    case Close => [Parsed("close", "{}")]
    case _ => []
  }

  lemma FieldFirst(line: string)
    requires line != "" && line[0] != ':'
    ensures Field(line) == ([line[0]] + Field(line[1..]).0, Field(line[1..]).1)
  {
  }

  lemma NoName(value: string)
    ensures Field(": " + value) == ("", value)
  {
    assert (": " + value)[2..] == value;
  }

  lemma {:induction false} FieldOf(name: string, value: string)
    requires ':' !in name
    ensures Field(name + ": " + value) == (name, value)
  {
    hide Field;
    if name == "" {
      NoName(value);
      assert "" + ": " + value == ": " + value;
    } else {
      FieldOf(name[1..], value);
      FieldFirst(name + ": " + value);
      assert (name + ": " + value)[1..] == name[1..] + ": " + value;
      assert [name[0]] + name[1..] == name;
    }
  }

  lemma FrameLinesAreLines(encode: seq<Update> -> string, e: Event)
    requires OnOneLine(encode)
    ensures forall i :: 0 <= i < |FrameLines(encode, e)| ==> IsLine(FrameLines(encode, e)[i])
  {
  }

  // Each line with its line break.
  function Ended(lines: seq<string>): seq<string> {
    seq(|lines|, i requires 0 <= i < |lines| => lines[i] + "\n")
  }

  lemma JoinedHead(lines: seq<string>)
    requires lines != []
    ensures Joined(lines) == lines[0] + "\n" + Joined(lines[1..])
  {
  }

  lemma Regroup(a: string, b: string, c: string)
    ensures a + b + "\n" + c == a + (b + "\n" + c)
  {
  }

  lemma JoinedStep(lines: seq<string>, rest: string)
    requires lines != []
    ensures Joined(lines) + "\n" + rest == lines[0] + "\n" + (Joined(lines[1..]) + "\n" + rest)
  {
    hide Joined;
    JoinedHead(lines);
    Regroup(lines[0] + "\n", Joined(lines[1..]), rest);
  }

  lemma EndedStep(lines: seq<string>)
    requires lines != []
    ensures Ended(lines) == [lines[0] + "\n"] + Ended(lines[1..])
  {
  }

  lemma {:induction false} LinesOfJoined(lines: seq<string>, rest: string)
    requires forall i :: 0 <= i < |lines| ==> IsLine(lines[i])
    ensures Lines(Joined(lines) + "\n" + rest) == Ended(lines) + ["\n"] + Lines(rest)
    decreases |lines|
  {
    hide Lines, Joined, Ended;
    if lines == [] {
      NothingJoined();
      LinesAfter("", rest);
      assert "" + "\n" + rest == "\n" + rest && "" + "\n" == "\n";
    } else {
      LinesOfJoined(lines[1..], rest);
      LinesAfter(lines[0], Joined(lines[1..]) + "\n" + rest);
      JoinedStep(lines, rest);
      EndedStep(lines);
    }
  }

  lemma NothingJoined()
    ensures Joined([]) == "" && Ended([]) == []
  {
  }

  lemma FrameIsRead(encode: seq<Update> -> string, e: Event)
    requires OnOneLine(encode)
    ensures ClientRun(FRESH, Ended(FrameLines(encode, e)) + ["\n"]) == (FRESH, VisibleOf(encode, e))
  {
    NothingBefore(VisibleOf(encode, e));
    hide Bare, Field;
    FrameLinesAreLines(encode, e);
    var lines := Ended(FrameLines(encode, e)) + ["\n"];
    BareLine(FrameLines(encode, e)[0]);
    BareLine("");
    assert "" + "\n" == "\n";
    match e
    case Connected =>
      ReadTwo(FRESH, lines);
      assert ": connected"[0] == ':' && lines[0] == ": connected" + "\n";
    case Keepalive =>
      ReadTwo(FRESH, lines);
      assert ": keepalive"[0] == ':' && lines[0] == ": keepalive" + "\n";
    case Batch(updates) =>
      FieldOf("data", encode(updates));
      assert "data" + ": " + encode(updates) == "data: " + encode(updates);
      assert ("data: " + encode(updates))[0] == 'd';
      ReadTwo(FRESH, lines);
    case Close =>
      BareLine(FrameLines(encode, e)[1]);
      FieldOf("event", "close");
      FieldOf("data", "{}");
      assert "event" + ": " + "close" == "event: close" && "data" + ": " + "{}" == "data: {}";
      assert lines[1..] == [lines[1], lines[2]];
      ReadTwo(ClientStep(FRESH, lines[0]).0, lines[1..]);
  }

  lemma NothingBefore(events: seq<Parsed>)
    ensures [] + events == events
  {
  }

  lemma ReadTwo(c: Client, lines: seq<string>)
    requires |lines| == 2
    ensures ClientRun(c, lines) ==
      (ClientStep(ClientStep(c, lines[0]).0, lines[1]).0,
       ClientStep(c, lines[0]).1 + ClientStep(ClientStep(c, lines[0]).0, lines[1]).1)
  {
    hide ClientStep;
    assert lines[1..] == [lines[1]];
    OneLine(ClientStep(c, lines[0]).0, lines[1]);
  }

  // ----- A stream cut off anywhere -----

  lemma {:induction false} BlankFree(c: Client, lines: seq<string>)
    requires forall i :: 0 <= i < |lines| ==> Bare(lines[i]) != ""
    ensures ClientRun(c, lines).1 == []
    decreases |lines|
  {
    if lines != [] {
      BlankFree(ClientStep(c, lines[0]).0, lines[1..]);
    }
  }

  // No line of a part of some lines is blank.
  lemma {:induction false} PartIsBlankFree(lines: seq<string>, part: string)
    requires (forall i :: 0 <= i < |lines| ==> IsLine(lines[i])) && part <= Joined(lines)
    ensures forall i :: 0 <= i < |Lines(part)| ==> Bare(Lines(part)[i]) != ""
    decreases |lines|
  {
    if part != "" {
      var line := lines[0];
      if |part| <= |line| {
        assert part == line[..|part|];
        LastLine(part);
        BareLine(part);
      } else {
        var rest := part[|line| + 1..];
        assert Joined(lines)[..|line|] == line && Joined(lines)[|line|] == '\n'
          && Joined(lines)[|line| + 1..] == Joined(lines[1..]);
        assert part == line + "\n" + rest;
        LinesAfter(line, rest);
        BareLine(line);
        PartIsBlankFree(lines[1..], rest);
      }
    }
  }

  lemma LastLine(part: string)
    requires '\n' !in part && part != ""
    ensures Lines(part) == [part]
  {
  }

  // Whole frames and a part of the next one: the client sees exactly the events of the whole frames.
  lemma {:induction false} CutStreamIsReadBack(encode: seq<Update> -> string, events: seq<Event>, e: Event,
                                               part: string)
    requires OnOneLine(encode) && part <= Joined(FrameLines(encode, e))
    ensures ClientRun(FRESH, Lines(Print(encode, events) + part)).1 == Visible(encode, events)
  {
    hide ClientRun, Lines, FrameLines;
    if events == [] {
      assert Print(encode, events) + part == part;
      FrameLinesAreLines(encode, e);
      PartIsBlankFree(FrameLines(encode, e), part);
      BlankFree(FRESH, Lines(part));
    } else {
      var lines := FrameLines(encode, events[0]);
      var rest := Print(encode, events[1..]) + part;
      assert Print(encode, events) + part == Joined(lines) + "\n" + rest;
      FrameLinesAreLines(encode, events[0]);
      LinesOfJoined(lines, rest);
      FrameIsRead(encode, events[0]);
      ClientRunJoin(FRESH, Ended(lines) + ["\n"], Lines(rest));
      CutStreamIsReadBack(encode, events[1..], e, part);
    }
  }

  // The generator, the printer and the client composed: a subscriber sees the emitted batches in order and,
  // at the end, the close if there is one.
  lemma StreamIsReadBack(encode: seq<Update> -> string, service: (nat, int) -> Reply, n: nat, acknowledged: seq<Update>,
                         start: int, limit: nat)
    requires OnOneLine(encode) && KeepsContract(service) && Ascending(acknowledged, start)
    ensures var events := Emitted(service, n, acknowledged, start, limit);
      && ClientRun(FRESH, Lines(Print(encode, events))).1 == Visible(encode, events)
      && Ascending(Sent(events), start)
      && forall i :: 0 <= i < |events| - 1 ==> events[i] != Close
  {
    var events := Emitted(service, n, acknowledged, start, limit);
    assert Print(encode, events) + "" == Print(encode, events);
    CutStreamIsReadBack(encode, events, Connected, "");
    SequencesIncrease(service, n, acknowledged, start, limit);
    CloseIsLast(service, n, acknowledged, start, limit);
  }

  // ----- The standard's interpretation, section 9.2.6 of the WHATWG HTML Standard -----

  // The event type and data buffers; the last event ID and the reconnection time are not part of this model.
  datatype Buffers = Buffers(eventType: string, data: string)

  const EMPTY := Buffers("", "")

  // A line without its line break: dispatch, ignore a comment, or process a field.
  function StandardStep(b: Buffers, line: string): (Buffers, seq<Parsed>) {
    if line == "" then
      (EMPTY, if b.data == "" then [] else
              [Parsed(if b.eventType == "" then "message" else b.eventType,
                      if b.data[|b.data| - 1] == '\n' then b.data[..|b.data| - 1] else b.data)])
    else if line[0] == ':' then (b, [])
    else
      var field := Field(line);
      if field.0 == "event" then (b.(eventType := field.1), [])
      else if field.0 == "data" then (b.(data := b.data + field.1 + "\n"), [])
      else (b, [])
  }

  function StandardRun(b: Buffers, lines: seq<string>): (Buffers, seq<Parsed>)
    decreases |lines|
  {
    if lines == [] then (b, []) else
    var step := StandardStep(b, lines[0]);
    var rest := StandardRun(step.0, lines[1..]);
    (rest.0, step.1 + rest.1)
  }

  // Lines end at a line feed, a carriage return, or both together.
  function StandardLines(text: string): seq<string>
    decreases |text|
  {
    if text == "" then [] else
    var k := BreakAt(text);
    if k == |text| then [text]
    else if text[k] == '\r' && k + 1 < |text| && text[k + 1] == '\n' then [text[..k]] + StandardLines(text[k + 2..])
    else [text[..k]] + StandardLines(text[k + 1..])
  }

  function BreakAt(text: string): (k: nat)
    ensures k <= |text|
  {
    if text == "" || text[0] == '\n' || text[0] == '\r' then 0 else 1 + BreakAt(text[1..])
  }

  lemma {:induction false} BreakIsLineEnd(text: string)
    requires '\r' !in text
    ensures BreakAt(text) == LineEnd(text)
  {
    if text != "" && text[0] != '\n' {
      BreakIsLineEnd(text[1..]);
    }
  }

  lemma FirstLine(text: string)
    requires text != ""
    ensures var k := LineEnd(text);
      Lines(text) == if k == |text| then [text] else [text[..k + 1]] + Lines(text[k + 1..])
  {
    hide LineEnd;
  }

  lemma FirstStandardLine(text: string)
    requires text != "" && '\r' !in text
    ensures var k := LineEnd(text);
      StandardLines(text) == if k == |text| then [text] else [text[..k]] + StandardLines(text[k + 1..])
  {
    hide LineEnd, BreakAt;
    BreakIsLineEnd(text);
  }

  lemma NoText()
    ensures Lines("") == [] && StandardLines("") == []
  {
  }

  // Without carriage returns the reader's lines are the standard's.
  lemma {:induction false} LinesAreStandard(text: string)
    requires '\r' !in text
    ensures |StandardLines(text)| == |Lines(text)|
    ensures forall i :: 0 <= i < |Lines(text)| ==> Bare(Lines(text)[i]) == StandardLines(text)[i]
    decreases |text|
  {
    hide Lines, StandardLines, Bare, LineEnd;
    if text == "" {
      NoText();
    } else {
      FirstLine(text);
      FirstStandardLine(text);
      var k := LineEnd(text);
      BareLine(text[..k]);
      if k < |text| {
        assert text[..k + 1] == text[..k] + "\n";
        LinesAreStandard(text[k + 1..]);
      } else {
        assert text[..k] == text;
      }
    }
  }

  // The client and the standard hold the same event.
  ghost predicate SameEvent(c: Client, b: Buffers) {
    c.event == (if b.eventType == "" then "message" else b.eventType) && b.data == Terminated(c.data)
  }

  function Terminated(data: seq<string>): string {
    if data == [] then "" else Terminated(data[..|data| - 1]) + (data[|data| - 1] + "\n")
  }

  lemma TerminatedBack(data: seq<string>)
    requires data != []
    ensures Terminated(data) == Terminated(data[..|data| - 1]) + (data[|data| - 1] + "\n")
  {
  }

  lemma {:induction false} TerminatedFront(data: seq<string>)
    requires data != []
    ensures Terminated(data) == data[0] + "\n" + Terminated(data[1..])
  {
    hide Terminated;
    TerminatedBack(data);
    if |data| == 1 {
      assert data[..0] == [] && data[1..] == [];
      NoData();
    } else {
      var init, last := data[..|data| - 1], data[|data| - 1] + "\n";
      TerminatedFront(init);
      TerminatedBack(data[1..]);
      assert init[1..] == data[1..][..|data| - 2];
      assert data[0] + "\n" + Terminated(init[1..]) + last == data[0] + "\n" + (Terminated(init[1..]) + last);
    }
  }

  lemma NoData()
    ensures Terminated([]) == ""
  {
  }

  lemma {:induction false} TerminatedIsJoined(data: seq<string>)
    requires data != []
    ensures Terminated(data) == JoinData(data) + "\n"
  {
    TerminatedFront(data);
    if |data| == 1 {
      assert data[1..] == [] && data[0] + "\n" + "" == data[0] + "\n";
    } else {
      TerminatedIsJoined(data[1..]);
      assert data[0] + "\n" + (JoinData(data[1..]) + "\n") == data[0] + "\n" + JoinData(data[1..]) + "\n";
    }
  }

  // Where the two differ: an event field without a value, and a close event without data.
  predicate TheyDiffer(c: Client, line: string) {
    if line == "" then c.event == "close" && c.data == [] else line[0] != ':' && Field(line) == ("event", "")
  }

  lemma StepsAgree(c: Client, b: Buffers, rawLine: string)
    requires SameEvent(c, b)
    ensures !TheyDiffer(c, Bare(rawLine)) <==>
      (ClientStep(c, rawLine).1 == StandardStep(b, Bare(rawLine)).1
       && SameEvent(ClientStep(c, rawLine).0, StandardStep(b, Bare(rawLine)).0))
  {
    hide Bare;
    var line := Bare(rawLine);
    if line == "" {
      if c.data != [] {
        TerminatedIsJoined(c.data);
        assert (JoinData(c.data) + "\n")[..|JoinData(c.data)|] == JoinData(c.data);
      }
    } else if line[0] != ':' && Field(line).0 == "data" {
      assert (c.data + [Field(line).1])[..|c.data|] == c.data;
    }
  }

  // The client follows the standard on every text without carriage returns in which no step differs.
  ghost predicate NeverDiffer(c: Client, lines: seq<string>)
    decreases |lines|
  {
    lines == [] || (!TheyDiffer(c, Bare(lines[0])) && NeverDiffer(ClientStep(c, lines[0]).0, lines[1..]))
  }

  lemma {:induction false} RunsAgree(c: Client, b: Buffers, lines: seq<string>, bare: seq<string>)
    requires SameEvent(c, b) && NeverDiffer(c, lines)
    requires |bare| == |lines| && forall i :: 0 <= i < |lines| ==> bare[i] == Bare(lines[i])
    ensures ClientRun(c, lines).1 == StandardRun(b, bare).1
    decreases |lines|
  {
    hide Bare, SameEvent, TheyDiffer, ClientStep, StandardStep;
    if lines != [] {
      assert bare[0] == Bare(lines[0]);
      StepsAgree(c, b, lines[0]);
      RunsAgree(ClientStep(c, lines[0]).0, StandardStep(b, bare[0]).0, lines[1..], bare[1..]);
    }
  }

  lemma {:induction false} NeverDifferJoin(c: Client, a: seq<string>, b: seq<string>)
    requires NeverDiffer(c, a) && NeverDiffer(ClientRun(c, a).0, b)
    ensures NeverDiffer(c, a + b)
    decreases |a|
  {
    if a == [] {
      assert a + b == b;
    } else {
      NeverDifferJoin(ClientStep(c, a[0]).0, a[1..], b);
      assert (a + b)[1..] == a[1..] + b && (a + b)[0] == a[0];
    }
  }

  lemma FrameNeverDiffers(encode: seq<Update> -> string, e: Event)
    requires OnOneLine(encode)
    ensures NeverDiffer(FRESH, Ended(FrameLines(encode, e)) + ["\n"])
  {
    hide Bare, Field;
    FrameLinesAreLines(encode, e);
    var lines := Ended(FrameLines(encode, e)) + ["\n"];
    BareLine(FrameLines(encode, e)[0]);
    BareLine("");
    assert "" + "\n" == "\n";
    match e
    case Connected => TwoNeverDiffer(FRESH, lines);
    case Keepalive => TwoNeverDiffer(FRESH, lines);
    case Batch(updates) =>
      FieldOf("data", encode(updates));
      assert "data" + ": " + encode(updates) == "data: " + encode(updates);
      TwoNeverDiffer(FRESH, lines);
    case Close =>
      BareLine(FrameLines(encode, e)[1]);
      FieldOf("event", "close");
      FieldOf("data", "{}");
      assert "event" + ": " + "close" == "event: close" && "data" + ": " + "{}" == "data: {}";
      assert lines[1..] == [lines[1], lines[2]];
      TwoNeverDiffer(ClientStep(FRESH, lines[0]).0, lines[1..]);
  }

  lemma TwoNeverDiffer(c: Client, lines: seq<string>)
    requires |lines| == 2 && !TheyDiffer(c, Bare(lines[0])) && !TheyDiffer(ClientStep(c, lines[0]).0, Bare(lines[1]))
    ensures NeverDiffer(c, lines)
  {
    hide ClientStep, TheyDiffer;
    var d := ClientStep(c, lines[0]).0;
    assert lines[1..] == [lines[1]] && lines[1..][1..] == [];
    assert NeverDiffer(d, lines[1..]);
  }

  lemma {:induction false} PrintedNeverDiffers(encode: seq<Update> -> string, events: seq<Event>)
    requires OnOneLine(encode)
    ensures NeverDiffer(FRESH, Lines(Print(encode, events))) && '\r' !in Print(encode, events)
  {
    hide NeverDiffer, Lines, FrameLines, ClientRun;
    if events == [] {
      NothingDiffers();
    } else {
      var lines := FrameLines(encode, events[0]);
      var rest := Print(encode, events[1..]);
      assert Print(encode, events) == Joined(lines) + "\n" + rest;
      FrameLinesAreLines(encode, events[0]);
      LinesOfJoined(lines, rest);
      FrameNeverDiffers(encode, events[0]);
      FrameIsRead(encode, events[0]);
      PrintedNeverDiffers(encode, events[1..]);
      NeverDifferJoin(FRESH, Ended(lines) + ["\n"], Lines(rest));
      NoReturns(lines);
    }
  }

  lemma NothingDiffers()
    ensures NeverDiffer(FRESH, Lines(""))
  {
  }

  lemma {:induction false} NoReturns(lines: seq<string>)
    requires forall i :: 0 <= i < |lines| ==> IsLine(lines[i])
    ensures '\r' !in Joined(lines)
  {
    if lines != [] {
      NoReturns(lines[1..]);
    }
  }

  // On every printed stream the client does what the standard says.
  lemma ClientFollowsTheStandard(encode: seq<Update> -> string, events: seq<Event>)
    requires OnOneLine(encode)
    ensures var text := Print(encode, events);
      StandardRun(EMPTY, StandardLines(text)).1 == ClientRun(FRESH, Lines(text)).1
  {
    hide StandardRun, ClientRun, StandardLines, Lines, NeverDiffer;
    PrintedNeverDiffers(encode, events);
    var text := Print(encode, events);
    LinesAreStandard(text);
    RunsAgree(FRESH, EMPTY, Lines(text), StandardLines(text));
  }
}
