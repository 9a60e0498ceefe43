// iter_stream_events: the events of one subscription stream, against any service that keeps its contract.
module SubscriptionStream {
  import opened Options

  datatype Update = Update(sequence: int, content: string)
  datatype Event = Connected | Batch(updates: seq<Update>) | Keepalive | Close

  // What the service does in one round of the loop: is_stream_active is false, wait_for_updates finds no
  // subscription, it returns updates, or one of the two is interrupted.
  datatype Reply = Inactive | Gone | Updates(updates: seq<Update>) | Interrupted

  // The sequence number in front of position i.
  function Before(updates: seq<Update>, i: int, after: int): int
    requires 0 <= i < |updates|
  {
    if i == 0 then after else updates[i - 1].sequence
  }

  ghost predicate Ascending(updates: seq<Update>, after: int) {
    forall i :: 0 <= i < |updates| ==> Before(updates, i, after) < updates[i].sequence
  }

  // Every update returned is newer than the sequence number asked for, and they ascend.
  ghost predicate KeepsContract(service: (nat, int) -> Reply) {
    forall n, after :: service(n, after).Updates? ==> Ascending(service(n, after).updates, after)
  }

  // The session a stream reads from, with the number of times it has been deactivated.
  class StreamService {
    const reply: (nat, int) -> Reply
    var round: nat
    var deactivations: nat

    constructor (reply: (nat, int) -> Reply)
      ensures this.reply == reply && round == 0 && deactivations == 0
    {
      this.reply, round, deactivations := reply, 0, 0;
    }

    method NextRound(after: int) returns (r: Reply)
      modifies this`round
      ensures r == reply(old(round), after) && round == old(round) + 1
    {
      r := reply(round, after);
      round := round + 1;
    }

    method DeactivateStream()
      modifies this`deactivations
      ensures deactivations == old(deactivations) + 1
    {
      deactivations := deactivations + 1;
    }
  }

  // ----- Which events are emitted -----

  // The loop from round n on, for a consumer that closes the generator at its limit-th event.
  function Rounds(service: (nat, int) -> Reply, n: nat, last: int, limit: nat): seq<Event>
    decreases limit
  {
    if limit == 0 then [] else
    match service(n, last)
    case Inactive => [Close]
    case Gone => [Close]
    case Interrupted => []
    case Updates(updates) =>
      if updates == [] then [Keepalive] + Rounds(service, n + 1, last, limit - 1)
      else [Batch(updates)] + Rounds(service, n + 1, updates[|updates| - 1].sequence, limit - 1)
  }

  function Acknowledged(sequence: Option<int>): int {
    if sequence.Some? then sequence.value else 0
  }

  function LastOf(updates: seq<Update>, start: int): int {
    if updates == [] then start else updates[|updates| - 1].sequence
  }

  function Opening(acknowledged: seq<Update>): seq<Event> {
    [Connected] + if acknowledged == [] then [] else [Batch(acknowledged)]
  }

  function Emitted(service: (nat, int) -> Reply, n: nat, acknowledged: seq<Update>, start: int,
                   limit: nat): seq<Event> {
    var opening := Opening(acknowledged);
    if limit <= |opening| then opening[..limit]
    else opening + Rounds(service, n, LastOf(acknowledged, start), limit - |opening|)
  }

  // One round of the loop, in front of the rounds that follow it.
  lemma RoundsStep(service: (nat, int) -> Reply, n: nat, last: int, limit: nat, events: seq<Event>)
    requires limit > 0
    ensures var r := service(n, last);
      events + Rounds(service, n, last, limit) ==
      match r
      case Inactive => events + [Close]
      case Gone => events + [Close]
      case Interrupted => events
      case Updates(updates) =>
        events + [if updates == [] then Keepalive else Batch(updates)] +
          Rounds(service, n + 1, LastOf(updates, last), limit - 1)
  {
    assert events + [] == events;
  }

  lemma NoRounds(service: (nat, int) -> Reply, n: nat, last: int, events: seq<Event>)
    ensures events + Rounds(service, n, last, 0) == events
  {
  }

  lemma EmittedStarts(service: (nat, int) -> Reply, n: nat, acknowledged: seq<Update>, start: int, limit: nat)
    ensures limit == 0 ==> Emitted(service, n, acknowledged, start, limit) == []
    ensures limit == 1 ==> Emitted(service, n, acknowledged, start, limit) == [Connected]
    ensures limit == 2 && acknowledged != [] ==>
      Emitted(service, n, acknowledged, start, limit) == [Connected, Batch(acknowledged)]
    ensures var opening := if acknowledged == [] then [Connected] else [Connected, Batch(acknowledged)];
      limit > |opening| ==>
        Emitted(service, n, acknowledged, start, limit) ==
          opening + Rounds(service, n, LastOf(acknowledged, start), limit - |opening|)
  {
    assert Opening(acknowledged) == if acknowledged == [] then [Connected] else [Connected, Batch(acknowledged)];
  }

  // The generator, driven by a consumer that closes it at its limit-th event. A generator that is never
  // advanced never starts, so its finally clause does not run.
  method IterStreamEvents(service: StreamService, acknowledged: seq<Update>, acknowledge: Option<int>, limit: nat)
    returns (events: seq<Event>)
    modifies service
    ensures events == Emitted(service.reply, old(service.round), acknowledged, Acknowledged(acknowledge), limit)
    ensures service.deactivations == old(service.deactivations) + if limit == 0 then 0 else 1
  {
    hide Rounds, Emitted, Opening;
    EmittedStarts(service.reply, service.round, acknowledged, Acknowledged(acknowledge), limit);
    events := [];
    if limit == 0 {
      return;
    }
    var lastSequence := Acknowledged(acknowledge);
    label body: {
      events := [Connected];
      if |events| == limit { break body; }
      if acknowledged != [] {
        lastSequence := acknowledged[|acknowledged| - 1].sequence;
        events := events + [Batch(acknowledged)];
        if |events| == limit { break body; }
      }
      assert events == if acknowledged == [] then [Connected] else [Connected, Batch(acknowledged)];
      while true
        invariant |events| < limit && service.deactivations == old(service.deactivations)
        invariant Emitted(service.reply, old(service.round), acknowledged, Acknowledged(acknowledge), limit)
               == events + Rounds(service.reply, service.round, lastSequence, limit - |events|)
        decreases limit - |events|
      {
        RoundsStep(service.reply, service.round, lastSequence, limit - |events|, events);
        var reply := service.NextRound(lastSequence);
        if reply.Interrupted? {
          break body;
        }
        if reply.Inactive? || reply.Gone? {
          events := events + [Close];
          break body;
        }
        if reply.updates == [] {
          events := events + [Keepalive];
        } else {
          lastSequence := reply.updates[|reply.updates| - 1].sequence;
          events := events + [Batch(reply.updates)];
        }
        NoRounds(service.reply, service.round, lastSequence, events);
        if |events| == limit { break body; }
      }
    }
    service.DeactivateStream();
  }

  // ----- What holds of every stream -----

  function Sent(events: seq<Event>): seq<Update> {
    if events == [] then [] else (if events[0].Batch? then events[0].updates else []) + Sent(events[1..])
  }

  lemma AscendingJoin(a: seq<Update>, b: seq<Update>, after: int)
    requires Ascending(a, after) && Ascending(b, LastOf(a, after))
    ensures Ascending(a + b, after)
  {
    forall i | 0 <= i < |a + b| ensures Before(a + b, i, after) < (a + b)[i].sequence {
      if i >= |a| {
        assert Before(a + b, i, after) == Before(b, i - |a|, LastOf(a, after));
      } else {
        assert Before(a + b, i, after) == Before(a, i, after);
      }
    }
  }

  lemma {:induction false} RoundsAscend(service: (nat, int) -> Reply, n: nat, last: int, limit: nat)
    requires KeepsContract(service)
    ensures Ascending(Sent(Rounds(service, n, last, limit)), last)
    decreases limit
  {
    if limit > 0 && service(n, last).Updates? {
      var updates := service(n, last).updates;
      var next := LastOf(updates, last);
      RoundsAscend(service, n + 1, next, limit - 1);
      assert Rounds(service, n, last, limit)[1..] == Rounds(service, n + 1, next, limit - 1);
      AscendingJoin(updates, Sent(Rounds(service, n + 1, next, limit - 1)), last);
    }
  }

  // Sequence numbers strictly increase over the whole stream.
  lemma SequencesIncrease(service: (nat, int) -> Reply, n: nat, acknowledged: seq<Update>, start: int, limit: nat)
    requires KeepsContract(service) && Ascending(acknowledged, start)
    ensures Ascending(Sent(Emitted(service, n, acknowledged, start, limit)), start)
  {
    var opening := Opening(acknowledged);
    SentOfOpening(acknowledged);
    if limit <= |opening| {
      assert limit == |opening| ==> opening[..limit] == opening;
      assert limit == 1 ==> Sent(opening[..limit]) == [] by {
        if limit == 1 {
          assert opening[..1] == [Connected] && [Connected][1..] == [];
        }
      }
    } else {
      var rest := Rounds(service, n, LastOf(acknowledged, start), limit - |opening|);
      RoundsAscend(service, n, LastOf(acknowledged, start), limit - |opening|);
      SentJoin(opening, rest);
      AscendingJoin(acknowledged, Sent(rest), start);
    }
  }

  lemma SentOfOpening(acknowledged: seq<Update>)
    ensures Sent(Opening(acknowledged)) == acknowledged
  {
    if acknowledged == [] {
      assert Opening(acknowledged)[1..] == [];
    } else {
      assert Opening(acknowledged)[1..] == [Batch(acknowledged)] && [Batch(acknowledged)][1..] == [];
      assert Sent([Batch(acknowledged)]) == acknowledged + Sent([]);
    }
  }

  lemma {:induction false} SentJoin(a: seq<Event>, b: seq<Event>)
    ensures Sent(a + b) == Sent(a) + Sent(b)
  {
    if a == [] {
      assert a + b == b;
    } else {
      SentJoin(a[1..], b);
      assert (a + b)[1..] == a[1..] + b;
    }
  }

  lemma {:induction false} RoundsCloseLast(service: (nat, int) -> Reply, n: nat, last: int, limit: nat)
    ensures var r := Rounds(service, n, last, limit); |r| <= limit && forall i :: 0 <= i < |r| - 1 ==> r[i] != Close
    decreases limit
  {
    if limit > 0 && service(n, last).Updates? {
      var next := LastOf(service(n, last).updates, last);
      RoundsCloseLast(service, n + 1, next, limit - 1);
      assert Rounds(service, n, last, limit)[1..] == Rounds(service, n + 1, next, limit - 1);
    }
  }

  // At most one close is emitted, and nothing after it.
  lemma CloseIsLast(service: (nat, int) -> Reply, n: nat, acknowledged: seq<Update>, start: int, limit: nat)
    ensures var events := Emitted(service, n, acknowledged, start, limit);
      |events| <= limit && forall i :: 0 <= i < |events| - 1 ==> events[i] != Close
  {
    var opening := Opening(acknowledged);
    if limit > |opening| {
      RoundsCloseLast(service, n, LastOf(acknowledged, start), limit - |opening|);
    }
  }

  // ----- What each event answers -----

  // The sequence number after which the stream asks, once it has emitted some events: that of the last update sent, or
  // else the one acknowledged, or else 0.
  ghost function AsksAfter(events: seq<Event>, acknowledge: Option<int>): int {
    if events == [] then
      match acknowledge
      case None => 0
      case Some(sequence) => sequence
    else
      var last := events[|events| - 1];
      if last.Batch? && last.updates != [] then last.updates[|last.updates| - 1].sequence
      else AsksAfter(events[..|events| - 1], acknowledge)
  }

  // The j-th event is what the service replies to the question the events before it lead to; a close is the last.
  ghost predicate IsAnswer(service: (nat, int) -> Reply, n: nat, before: seq<Event>, acknowledge: Option<int>,
                           events: seq<Event>, j: nat)
    requires j < |events|
  {
    match service(n + j, AsksAfter(before + events[..j], acknowledge))
    case Updates(updates) => events[j] == if updates == [] then Keepalive else Batch(updates)
    case Interrupted => false
    case _ => events[j] == Close && j == |events| - 1
  }

  // The stream ends at its limit, with a close, or when it is interrupted.
  ghost predicate EndsRightly(service: (nat, int) -> Reply, n: nat, before: seq<Event>, acknowledge: Option<int>,
                              events: seq<Event>, limit: nat) {
    || |events| == limit
    || (|events| < limit && events != [] && events[|events| - 1] == Close)
    || (|events| < limit && service(n + |events|, AsksAfter(before + events, acknowledge)) == Interrupted)
  }

  ghost predicate AnswersService(service: (nat, int) -> Reply, n: nat, before: seq<Event>, acknowledge: Option<int>,
                                 events: seq<Event>, limit: nat) {
    && (forall j: nat :: j < |events| ==> IsAnswer(service, n, before, acknowledge, events, j))
    && EndsRightly(service, n, before, acknowledge, events, limit)
  }

  lemma AsksAfterOne(before: seq<Event>, e: Event, acknowledge: Option<int>)
    ensures AsksAfter(before + [e], acknowledge) ==
      if e.Batch? && e.updates != [] then e.updates[|e.updates| - 1].sequence else AsksAfter(before, acknowledge)
  {
    assert (before + [e])[..|before|] == before;
  }

  lemma AnswersOneMore(service: (nat, int) -> Reply, n: nat, before: seq<Event>, acknowledge: Option<int>, e: Event,
                       rest: seq<Event>, limit: nat)
    requires limit > 0 && service(n, AsksAfter(before, acknowledge)).Updates?
    requires e == var u := service(n, AsksAfter(before, acknowledge)).updates; if u == [] then Keepalive else Batch(u)
    requires AnswersService(service, n + 1, before + [e], acknowledge, rest, limit - 1)
    ensures AnswersService(service, n, before, acknowledge, [e] + rest, limit)
  {
    hide AsksAfter;
    var events := [e] + rest;
    forall j: nat | j < |events| ensures IsAnswer(service, n, before, acknowledge, events, j) {
      if j == 0 {
        assert before + events[..0] == before;
      } else {
        var k := j - 1;
        assert before + events[..j] == before + [e] + rest[..k] && events[j] == rest[k];
        assert IsAnswer(service, n + 1, before + [e], acknowledge, rest, k);
      }
    }
    assert before + events == before + [e] + rest;
  }

  lemma {:induction false} RoundsAnswer(service: (nat, int) -> Reply, n: nat, before: seq<Event>,
                                        acknowledge: Option<int>, limit: nat)
    ensures AnswersService(service, n, before, acknowledge, Rounds(service, n, AsksAfter(before, acknowledge), limit),
                           limit)
    decreases limit
  {
    hide AsksAfter;
    var asked := AsksAfter(before, acknowledge);
    assert before + [] == before;
    if limit > 0 {
      if service(n, asked).Updates? {
        hide AnswersService;
        var updates := service(n, asked).updates;
        var e := if updates == [] then Keepalive else Batch(updates);
        AsksAfterOne(before, e, acknowledge);
        RoundsAnswer(service, n + 1, before + [e], acknowledge, limit - 1);
        var rest := Rounds(service, n + 1, AsksAfter(before + [e], acknowledge), limit - 1);
        AnswersOneMore(service, n, before, acknowledge, e, rest, limit);
        assert Rounds(service, n, asked, limit) == [e] + rest;
      } else {
        assert before + [Close][..0] == before;
      }
    }
  }

  lemma AsksAfterOpening(acknowledged: seq<Update>, acknowledge: Option<int>)
    ensures AsksAfter(Opening(acknowledged), acknowledge) == LastOf(acknowledged, Acknowledged(acknowledge))
  {
    AsksAfterOne([], Connected, acknowledge);
    assert [] + [Connected] == [Connected];
    if acknowledged != [] {
      AsksAfterOne([Connected], Batch(acknowledged), acknowledge);
      assert [Connected] + [Batch(acknowledged)] == Opening(acknowledged);
    } else {
      assert Opening(acknowledged) == [Connected];
    }
  }

  // A stream starts with its connection and the acknowledged updates, if there are any, and then answers the service
  // round by round.
  lemma EachEventAnswersTheService(service: (nat, int) -> Reply, n: nat, acknowledged: seq<Update>,
                                   acknowledge: Option<int>, limit: nat)
    ensures var events := Emitted(service, n, acknowledged, Acknowledged(acknowledge), limit);
      var opening := [Connected] + if acknowledged == [] then [] else [Batch(acknowledged)];
      if limit <= |opening| then events == opening[..limit]
      else
        && |events| >= |opening| && events[..|opening|] == opening
        && AnswersService(service, n, opening, acknowledge, events[|opening|..], limit - |opening|)
  {
    hide AnswersService, Rounds, AsksAfter;
    var opening := Opening(acknowledged);
    if limit > |opening| {
      AsksAfterOpening(acknowledged, acknowledge);
      RoundsAnswer(service, n, opening, acknowledge, limit - |opening|);
      var rounds := Rounds(service, n, LastOf(acknowledged, Acknowledged(acknowledge)), limit - |opening|);
      assert (opening + rounds)[..|opening|] == opening && (opening + rounds)[|opening|..] == rounds;
    }
  }
}
