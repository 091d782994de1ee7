/** One WebSocket data frame: reassembly, two duplicate checks, at most one forward and at
    most one acknowledgement. */
module FeishuConnection {
  import opened Text
  import opened Reassembly
  import opened Utf8
  import Dedup

  const DEDUP_CACHE_SIZE: nat := 1000

  /** A chat message; its content is whatever the event said. */
  datatype Message = Message(platformId: string, content: string)

  /** A decoded event: its id and the message it carries, where it has them. */
  datatype Event = Event(id: Option<string>, message: Option<Message>)

  datatype Frame = Frame(headers: seq<Header>, payload: Option<Bytes>)

  datatype Effect = Forward(message: Message) | Ack(code: nat)

  /** The decoder is a parameter: `None` stands for a payload that does not parse. */
  type Decoder = Bytes -> Option<Event>

  /** The partial messages of the connection, and the adapter's two caches, which outlive it. */
  datatype State = State(parts: Parts, events: seq<string>, messages: seq<string>)

  /** What a completed payload does. The acknowledgement is skipped when the receiver is gone. */
  function HandleEvent(st: State, payload: Bytes, decode: Decoder, receiverOpen: bool): (State, seq<Effect>) {
    match decode(payload)
    case None => (st, [Ack(500)])
    case Some(event) =>
      var (repeated, events) :=
        if event.id.Some? then Dedup.Insert(st.events, DEDUP_CACHE_SIZE, event.id.value)
        else (false, st.events);
      var st' := st.(events := events);
      if repeated || event.message.None? then (st', [Ack(200)])
      else
        var m := event.message.value;
        var (known, messages) := Dedup.Insert(st.messages, DEDUP_CACHE_SIZE, m.platformId);
        var st'' := st'.(messages := messages);
        if known then (st'', [Ack(200)])
        else if !receiverOpen then (st'', [])
        else (st'', [Forward(m), Ack(200)])
  }

  function HandleFrame(st: State, frame: Frame, decode: Decoder, receiverOpen: bool): (State, seq<Effect>) {
    if WsHeader(frame.headers, "type") != Some("event") || frame.payload.None? then (st, [])
    else
      var (payload, parts) := Combine(frame.headers, frame.payload.value, st.parts);
      var st' := st.(parts := parts);
      if payload.None? then (st', [])
      else HandleEvent(st', payload.value, decode, receiverOpen)
  }

  class Connection {
    const reassembler: Reassembler
    const eventDedup: Dedup.DedupCache
    const messageDedup: Dedup.DedupCache

    constructor (events: Dedup.DedupCache, messages: Dedup.DedupCache)
      ensures eventDedup == events && messageDedup == messages
      ensures fresh(reassembler) && reassembler.frameParts == map[]
    {
      eventDedup, messageDedup := events, messages;
      reassembler := new Reassembler();
    }

    ghost predicate Valid()
      reads eventDedup, messageDedup
    {
      eventDedup != messageDedup
      && eventDedup.maxSize == DEDUP_CACHE_SIZE && messageDedup.maxSize == DEDUP_CACHE_SIZE
    }

    ghost function Abstract(): State
      reads reassembler, eventDedup, messageDedup
    {
      State(reassembler.frameParts, eventDedup.ids, messageDedup.ids)
    }

    /** `ackSends` says whether sending an acknowledgement works; a failed send ends the
        connection. */
    method HandleDataFrame(frame: Frame, decode: Decoder, receiverOpen: bool, ackSends: bool)
      returns (effects: seq<Effect>, alive: bool)
      requires Valid()
      modifies reassembler, eventDedup, messageDedup
      ensures Valid()
      ensures (Abstract(), effects) == HandleFrame(old(Abstract()), frame, decode, receiverOpen)
      ensures alive == (ackSends || Acks(effects) == 0)
    {
      hide Combine, WsHeader;
      effects, alive := [], true;
      var frameType := WsHeader(frame.headers, "type");
      if frameType != Some("event") { return; }
      if frame.payload.None? { return; }
      var payload := reassembler.CombinePayload(frame.headers, frame.payload.value);
      if payload.None? { return; }
      var code := 200;
      var parsed := decode(payload.value);
      match parsed {
        case Some(event) =>
          if event.id.Some? {
            var repeated := eventDedup.CheckAndInsert(event.id.value);
            if repeated { return [Ack(code)], ackSends; }
          }
          if event.message.Some? {
            var known := messageDedup.CheckAndInsert(event.message.value.platformId);
            if !known {
              if !receiverOpen { return; }
              effects := [Forward(event.message.value)];
            }
          }
        case None => code := 500;
      }
      effects := effects + [Ack(code)];
      alive := ackSends;
      assert [] + [Ack(code)] == [Ack(code)];
      assert parsed.Some? && parsed.value.message.Some? ==>
          [Forward(parsed.value.message.value)] + [Ack(code)] == [Forward(parsed.value.message.value), Ack(code)];
    }
  }

  // One frame

  function Acks(effects: seq<Effect>): nat {
    if effects == [] then 0 else (if effects[0].Ack? then 1 else 0) + Acks(effects[1..])
  }

  /** The frame completes an event payload. */
  predicate Completed(st: State, frame: Frame) {
    && WsHeader(frame.headers, "type") == Some("event") && frame.payload.Some?
    && Combine(frame.headers, frame.payload.value, st.parts).0.Some?
  }

  /** The message of a completed event that passes both caches, if there is one. */
  function FreshMessage(st: State, frame: Frame, decode: Decoder): Option<Message>
    requires Completed(st, frame)
  {
    match decode(Combine(frame.headers, frame.payload.value, st.parts).0.value)
    case None => None
    case Some(event) =>
      if event.id.Some? && event.id.value in st.events then None
      else if event.message.Some? && event.message.value.platformId !in st.messages then event.message
      else None
  }

  /** A completed event is acknowledged once, with 500 if it does not parse and else with 200, unless
      its message is new and the receiver is gone; anything else is not acknowledged. A message is
      forwarded exactly when it is new to both caches and the receiver is there, and always before
      the acknowledgement. */
  lemma FrameEffects(st: State, frame: Frame, decode: Decoder, receiverOpen: bool)
    ensures var effects := HandleFrame(st, frame, decode, receiverOpen).1;
            if !Completed(st, frame) then effects == []
            else
              var m := FreshMessage(st, frame, decode);
              && Acks(effects) == (if m.Some? && !receiverOpen then 0 else 1)
              && (m.Some? ==> effects == if receiverOpen then [Forward(m.value), Ack(200)] else [])
              && (m.None? ==> effects == [Ack(if EventOf(st, frame, decode).None? then 500 else 200)])
  {
    hide Combine, WsHeader;
  }

  /** The id of a completed event that the event cache does not have, if there is one. */
  function FreshEvent(st: State, frame: Frame, decode: Decoder): Option<string>
    requires Completed(st, frame)
  {
    match decode(Combine(frame.headers, frame.payload.value, st.parts).0.value)
    case None => None
    case Some(event) => if event.id.Some? && event.id.value !in st.events then event.id else None
  }

  // Runs, across any number of connections

  datatype Input =
    | Received(frame: Frame, receiverOpen: bool, ackSends: bool)
    | Reconnected

  /** The state with its logs: every message id and every event id that its cache let through, and
      which of the messages were forwarded, by their position in the log. */
  datatype History = History(st: State, log: seq<string>, forwards: seq<nat>, eventLog: seq<string>)

  /** A frame whose acknowledgement cannot be sent ends the connection. */
  predicate Ends(h: History, input: Input, decode: Decoder) {
    input.Reconnected?
    || (!input.ackSends && Acks(HandleFrame(h.st, input.frame, decode, input.receiverOpen).1) > 0)
  }

  /** Partial messages do not outlive their connection; the caches do. */
  function NextHistory(h: History, input: Input, decode: Decoder): History {
    match input
    case Reconnected => h.(st := h.st.(parts := map[]))
    case Received(frame, receiverOpen, _) =>
      var (st', effects) := HandleFrame(h.st, frame, decode, receiverOpen);
      var message := if Completed(h.st, frame) then FreshMessage(h.st, frame, decode) else None;
      var event := if Completed(h.st, frame) then FreshEvent(h.st, frame, decode) else None;
      History(if Ends(h, input, decode) then st'.(parts := map[]) else st',
              if message.Some? then h.log + [message.value.platformId] else h.log,
              if Forwarded(effects).Some? then h.forwards + [|h.log|] else h.forwards,
              if event.Some? then h.eventLog + [event.value] else h.eventLog)
  }

  function Forwarded(effects: seq<Effect>): Option<Message> {
    if effects != [] && effects[0].Forward? then Some(effects[0].message) else None
  }

  function RunHistory(inputs: seq<Input>, decode: Decoder): History {
    if inputs == [] then History(State(map[], [], []), [], [], [])
    else NextHistory(RunHistory(inputs[..|inputs| - 1], decode), inputs[|inputs| - 1], decode)
  }

  /** Each cache and its log are those of a run of the cache, and each forward names its own entry
      of the log. */
  ghost predicate Inv(h: History) {
    && Dedup.Inv(Dedup.Trace(h.st.messages, h.log), DEDUP_CACHE_SIZE)
    && Dedup.Inv(Dedup.Trace(h.st.events, h.eventLog), DEDUP_CACHE_SIZE)
    && (forall k :: 0 <= k < |h.forwards| ==> h.forwards[k] < |h.log|)
    && (forall j, k :: 0 <= j < k < |h.forwards| ==> h.forwards[j] < h.forwards[k])
  }

  lemma NextKeepsInv(h: History, input: Input, decode: Decoder)
    requires Inv(h)
    ensures Inv(NextHistory(h, input, decode))
  {
    hide Completed, FreshMessage, FreshEvent, HandleFrame, Ends, Dedup.Inv, Dedup.Insert;
    if input.Received? {
      var frame := input.frame;
      FrameMessages(h.st, frame, decode, input.receiverOpen);
      FrameEvents(h.st, frame, decode, input.receiverOpen);
      ForwardedFresh(h.st, frame, decode, input.receiverOpen);
      if Completed(h.st, frame) && FreshMessage(h.st, frame, decode).Some? {
        var id := FreshMessage(h.st, frame, decode).value.platformId;
        FreshIsUnknown(h.st, frame, decode);
        Dedup.StepKeepsInv(Dedup.Trace(h.st.messages, h.log), DEDUP_CACHE_SIZE, id);
      }
      if Completed(h.st, frame) && FreshEvent(h.st, frame, decode).Some? {
        var id := FreshEvent(h.st, frame, decode).value;
        FreshEventIsUnknown(h.st, frame, decode);
        Dedup.StepKeepsInv(Dedup.Trace(h.st.events, h.eventLog), DEDUP_CACHE_SIZE, id);
      }
    }
  }

  lemma FreshIsUnknown(st: State, frame: Frame, decode: Decoder)
    requires Completed(st, frame) && FreshMessage(st, frame, decode).Some?
    ensures var id := FreshMessage(st, frame, decode).value.platformId;
            !Dedup.Insert(st.messages, DEDUP_CACHE_SIZE, id).0
  {
    hide Combine, WsHeader;
  }

  lemma FreshEventIsUnknown(st: State, frame: Frame, decode: Decoder)
    requires Completed(st, frame) && FreshEvent(st, frame, decode).Some?
    ensures !Dedup.Insert(st.events, DEDUP_CACHE_SIZE, FreshEvent(st, frame, decode).value).0
  {
    hide Combine, WsHeader;
  }

  lemma ForwardedFresh(st: State, frame: Frame, decode: Decoder, receiverOpen: bool)
    ensures Forwarded(HandleFrame(st, frame, decode, receiverOpen).1).Some?
            ==> Completed(st, frame) && FreshMessage(st, frame, decode).Some?
  {
    FrameEffects(st, frame, decode, receiverOpen);
    hide HandleFrame, FreshMessage, Completed;
  }

  /** The message cache changes by one insertion of the fresh id, or not at all. */
  lemma FrameMessages(st: State, frame: Frame, decode: Decoder, receiverOpen: bool)
    ensures HandleFrame(st, frame, decode, receiverOpen).0.messages
         == if Completed(st, frame) && FreshMessage(st, frame, decode).Some?
            then Dedup.Insert(st.messages, DEDUP_CACHE_SIZE, FreshMessage(st, frame, decode).value.platformId).1
            else st.messages
  {
    hide Combine, WsHeader;
  }

  /** So does the event cache. */
  lemma FrameEvents(st: State, frame: Frame, decode: Decoder, receiverOpen: bool)
    ensures HandleFrame(st, frame, decode, receiverOpen).0.events
         == if Completed(st, frame) && FreshEvent(st, frame, decode).Some?
            then Dedup.Insert(st.events, DEDUP_CACHE_SIZE, FreshEvent(st, frame, decode).value).1
            else st.events
  {
    hide Combine, WsHeader;
  }

  lemma StartInv()
    ensures Inv(History(State(map[], [], []), [], [], []))
  {}

  lemma {:induction false} RunKeepsInv(inputs: seq<Input>, decode: Decoder)
    ensures Inv(RunHistory(inputs, decode))
  {
    hide NextHistory, Inv;
    StartInv();
    if inputs == [] {
    } else {
      RunKeepsInv(inputs[..|inputs| - 1], decode);
      NextKeepsInv(RunHistory(inputs[..|inputs| - 1], decode), inputs[|inputs| - 1], decode);
    }
  }

  /** In every run, over any number of connections, a message id that is forwarded twice has
      more than 500 other ids let through in between. */
  lemma ForwardedOnce(inputs: seq<Input>, decode: Decoder)
    ensures var h := RunHistory(inputs, decode);
            && (forall k :: 0 <= k < |h.forwards| ==> h.forwards[k] < |h.log|)
            && forall j, k :: 0 <= j < k < |h.forwards| && h.log[h.forwards[j]] == h.log[h.forwards[k]]
                              ==> h.forwards[k] > h.forwards[j] + 1 + 500
  {
    RunKeepsInv(inputs, decode);
  }

  lemma StillRemembered(t: Dedup.Trace, i: nat)
    requires Dedup.Inv(t, DEDUP_CACHE_SIZE) && i < |t.log| && |t.log| - 1 - i <= 500
    ensures t.log[i] in t.ids
  {
    hide Dedup.Distinct, Dedup.Spaced;
    var j := i - (|t.log| - |t.ids|);
    assert 0 <= j < |t.ids|;
    assert t.ids[j] == t.log[i];
  }

  /** The event that a completed frame carries. */
  function EventOf(st: State, frame: Frame, decode: Decoder): Option<Event>
    requires Completed(st, frame)
  {
    decode(Combine(frame.headers, frame.payload.value, st.parts).0.value)
  }

  lemma KnownOnlyAcked(st: State, frame: Frame, decode: Decoder, receiverOpen: bool)
    requires Completed(st, frame)
    requires var event := EventOf(st, frame, decode);
             event.Some? && event.value.message.Some? && event.value.message.value.platformId in st.messages
    ensures HandleFrame(st, frame, decode, receiverOpen).1 == [Ack(200)]
  {
    hide Combine, WsHeader;
  }

  lemma KnownEventOnlyAcked(st: State, frame: Frame, decode: Decoder, receiverOpen: bool)
    requires Completed(st, frame)
    requires var event := EventOf(st, frame, decode);
             event.Some? && event.value.id.Some? && event.value.id.value in st.events
    ensures var (st', effects) := HandleFrame(st, frame, decode, receiverOpen);
            effects == [Ack(200)] && st'.messages == st.messages && st'.events == st.events
  {
    hide Combine, WsHeader;
  }

  /** The bound holds for what has been let through so far, too: as long as at most 500 other
      ids were, the message is not forwarded again, only acknowledged. */
  lemma RedeliveryOnlyAcked(inputs: seq<Input>, decode: Decoder, frame: Frame, receiverOpen: bool, i: nat)
    requires var h := RunHistory(inputs, decode);
             && i < |h.log| && |h.log| - 1 - i <= 500
             && Completed(h.st, frame)
             && var event := EventOf(h.st, frame, decode);
                event.Some? && event.value.message.Some? && event.value.message.value.platformId == h.log[i]
    ensures HandleFrame(RunHistory(inputs, decode).st, frame, decode, receiverOpen).1 == [Ack(200)]
  {
    hide Combine, WsHeader, RunHistory, HandleFrame, Dedup.Inv;
    var h := RunHistory(inputs, decode);
    RunKeepsInv(inputs, decode);
    StillRemembered(Dedup.Trace(h.st.messages, h.log), i);
    KnownOnlyAcked(h.st, frame, decode, receiverOpen);
  }

  /** The same for event ids, whatever messages came in between: an event that is redelivered after
      at most 500 other events is only acknowledged, and does not touch the message cache. */
  lemma RedeliveredEventOnlyAcked(inputs: seq<Input>, decode: Decoder, frame: Frame, receiverOpen: bool, i: nat)
    requires var h := RunHistory(inputs, decode);
             && i < |h.eventLog| && |h.eventLog| - 1 - i <= 500
             && Completed(h.st, frame)
             && var event := EventOf(h.st, frame, decode);
                event.Some? && event.value.id == Some(h.eventLog[i])
    ensures var h := RunHistory(inputs, decode);
            var (st', effects) := HandleFrame(h.st, frame, decode, receiverOpen);
            effects == [Ack(200)] && st'.messages == h.st.messages && st'.events == h.st.events
  {
    hide Combine, WsHeader, RunHistory, HandleFrame, Dedup.Inv;
    var h := RunHistory(inputs, decode);
    RunKeepsInv(inputs, decode);
    StillRemembered(Dedup.Trace(h.st.events, h.eventLog), i);
    KnownEventOnlyAcked(h.st, frame, decode, receiverOpen);
  }

  // Acknowledgements and completed messages

  predicate IsEventFrame(frame: Frame) {
    WsHeader(frame.headers, "type") == Some("event") && frame.payload.Some?
  }

  /** The frame carries a whole event. */
  predicate IsSingle(frame: Frame) { IsEventFrame(frame) && ParsedHeader(frame.headers, "sum", 1) <= 1 }

  /** The frame carries one of several parts, and says of what. */
  predicate IsFragment(frame: Frame) {
    && IsEventFrame(frame) && ParsedHeader(frame.headers, "sum", 1) >= 2
    && WsHeader(frame.headers, "message_id").Some?
  }

  function FragmentOf(frame: Frame): Fragment
    requires IsFragment(frame)
  {
    Fragment(WsHeader(frame.headers, "message_id").value, ParsedHeader(frame.headers, "sum", 1),
             ParsedHeader(frame.headers, "seq", 0), frame.payload.value)
  }

  lemma CombineFrame(frame: Frame, parts: Parts)
    requires IsEventFrame(frame)
    ensures var (out, parts') := Combine(frame.headers, frame.payload.value, parts);
            if IsFragment(frame) then (out, parts') == FragmentStep(FragmentOf(frame), parts)
            else parts' == parts && out == if IsSingle(frame) then frame.payload else None
  {
    hide WsHeader, ParsedHeader, CombineFragment;
  }

  /** The fragments received since the connection was last opened. */
  function Fragments(inputs: seq<Input>, decode: Decoder): seq<Fragment> {
    if inputs == [] then []
    else
      var front, last := inputs[..|inputs| - 1], inputs[|inputs| - 1];
      if Ends(RunHistory(front, decode), last, decode) then []
      else Fragments(front, decode) + if IsFragment(last.frame) then [FragmentOf(last.frame)] else []
  }

  lemma FrameParts(st: State, frame: Frame, decode: Decoder, receiverOpen: bool)
    ensures HandleFrame(st, frame, decode, receiverOpen).0.parts
         == if IsFragment(frame) then FragmentStep(FragmentOf(frame), st.parts).1 else st.parts
  {
    if IsEventFrame(frame) { CombineFrame(frame, st.parts); }
    hide Combine, WsHeader, ParsedHeader, FragmentStep, FragmentOf;
  }

  /** The table of partial messages is the one that the fragments of this connection build. */
  lemma {:induction false} PartsAreTable(inputs: seq<Input>, decode: Decoder)
    ensures RunHistory(inputs, decode).st.parts == Table(Fragments(inputs, decode))
  {
    hide IsFragment, FragmentOf, FragmentStep, HandleFrame, Ends, Completed, FreshMessage, FreshEvent;
    if inputs == [] {
    } else {
      var front, last := inputs[..|inputs| - 1], inputs[|inputs| - 1];
      var h := RunHistory(front, decode);
      PartsAreTable(front, decode);
      if !Ends(h, last, decode) {
        EndsOnReconnect(h, last, decode);
        FrameParts(h.st, last.frame, decode, last.receiverOpen);
        var run := Fragments(inputs, decode);
        if IsFragment(last.frame) {
          assert run == Fragments(front, decode) + [FragmentOf(last.frame)];
          assert run[..|run| - 1] == Fragments(front, decode) && run[|run| - 1] == FragmentOf(last.frame);
        } else {
          assert run == Fragments(front, decode);
        }
      }
    }
  }

  lemma EndsOnReconnect(h: History, input: Input, decode: Decoder)
    requires !Ends(h, input, decode)
    ensures input.Received?
  {}

  /** Every fragment is one of the sender's. */
  ghost predicate SentOnly(inputs: seq<Input>, sent: Sent) {
    forall i :: 0 <= i < |inputs| && inputs[i].Received? && IsFragment(inputs[i].frame)
                ==> From(FragmentOf(inputs[i].frame), sent)
  }

  lemma {:induction false} FragmentsFrom(inputs: seq<Input>, decode: Decoder, sent: Sent)
    requires SentOnly(inputs, sent)
    ensures AllFrom(Fragments(inputs, decode), sent)
  {
    hide IsFragment, FragmentOf, Ends, RunHistory, From;
    if inputs == [] {
    } else {
      var front, last := inputs[..|inputs| - 1], inputs[|inputs| - 1];
      assert SentOnly(front, sent);
      FragmentsFrom(front, decode, sent);
      if !Ends(RunHistory(front, decode), last, decode) {
        EndsOnReconnect(RunHistory(front, decode), last, decode);
        assert inputs[|inputs| - 1] == last;
      }
    }
  }

  /** The next frame brings a whole event, or the part its message was waiting for. */
  ghost predicate Brings(inputs: seq<Input>, decode: Decoder, frame: Frame, sent: Sent)
    requires SentOnly(inputs, sent) && (IsFragment(frame) ==> From(FragmentOf(frame), sent))
  {
    FragmentsFrom(inputs, decode, sent);
    if IsFragment(frame) then Completes(Fragments(inputs, decode) + [FragmentOf(frame)], sent)
    else IsSingle(frame)
  }

  /** In every run of fragments of sent messages, a frame counts as completed exactly when it
      brings a whole event, or the last missing part since its message was last completed on this
      connection; what is decoded then is the frame's own payload, or that message. */
  lemma CompletedIff(inputs: seq<Input>, decode: Decoder, frame: Frame, sent: Sent)
    requires SentOnly(inputs, sent) && (IsFragment(frame) ==> From(FragmentOf(frame), sent))
    ensures var st := RunHistory(inputs, decode).st;
            && (Completed(st, frame) <==> Brings(inputs, decode, frame, sent))
            && (Completed(st, frame) && IsFragment(frame)
                ==> EventOf(st, frame, decode) == decode(Concat(sent[FragmentOf(frame).id])))
            && (IsSingle(frame) ==> Completed(st, frame) && EventOf(st, frame, decode) == decode(frame.payload.value))
  {
    var st, run := RunHistory(inputs, decode).st, Fragments(inputs, decode);
    hide RunHistory, Fragments;
    PartsAreTable(inputs, decode);
    FragmentsFrom(inputs, decode, sent);
    if IsEventFrame(frame) { CombineFrame(frame, st.parts); }
    hide Combine, WsHeader, ParsedHeader, FragmentStep, Completes, Table, FragmentOf, From;
    if IsFragment(frame) {
      var longer := run + [FragmentOf(frame)];
      assert AllFrom(longer, sent);
      CompletionExact(longer, sent);
      assert longer[..|longer| - 1] == run && longer[|longer| - 1] == FragmentOf(frame);
    }
  }

  /** The payload that a frame hands to the decoder, if it completes one. */
  function Handed(st: State, frame: Frame): seq<Bytes> {
    if Completed(st, frame) then [Combine(frame.headers, frame.payload.value, st.parts).0.value] else []
  }

  /** All payloads handed to the decoder, in order. */
  function AllHanded(inputs: seq<Input>, decode: Decoder): seq<Bytes> {
    if inputs == [] then []
    else
      var front, last := inputs[..|inputs| - 1], inputs[|inputs| - 1];
      AllHanded(front, decode)
      + if last.Received? then Handed(RunHistory(front, decode).st, last.frame) else []
  }

  /** What the sender meant them to be: each whole event as it was framed, and each message, its
      parts put together, where the last missing one comes in. */
  ghost function AllMeant(inputs: seq<Input>, decode: Decoder, sent: Sent): seq<Bytes>
    requires SentOnly(inputs, sent)
  {
    if inputs == [] then []
    else
      var front, last := inputs[..|inputs| - 1], inputs[|inputs| - 1];
      assert forall i :: 0 <= i < |front| ==> front[i] == inputs[i];
      AllMeant(front, decode, sent)
      + if last.Received? && Brings(front, decode, last.frame, sent)
        then [if IsFragment(last.frame) then Concat(sent[FragmentOf(last.frame).id]) else last.frame.payload.value]
        else []
  }

  lemma HandedIsMeant(inputs: seq<Input>, decode: Decoder, frame: Frame, sent: Sent)
    requires SentOnly(inputs, sent) && (IsFragment(frame) ==> From(FragmentOf(frame), sent))
    ensures Handed(RunHistory(inputs, decode).st, frame)
         == if !Brings(inputs, decode, frame, sent) then []
            else [if IsFragment(frame) then Concat(sent[FragmentOf(frame).id]) else frame.payload.value]
  {
    var st, run := RunHistory(inputs, decode).st, Fragments(inputs, decode);
    hide RunHistory, Fragments;
    PartsAreTable(inputs, decode);
    FragmentsFrom(inputs, decode, sent);
    if IsEventFrame(frame) { CombineFrame(frame, st.parts); }
    hide Combine, WsHeader, ParsedHeader, FragmentStep, Completes, Table, FragmentOf, From;
    if IsFragment(frame) {
      var longer := run + [FragmentOf(frame)];
      assert AllFrom(longer, sent);
      CompletionExact(longer, sent);
      assert longer[..|longer| - 1] == run && longer[|longer| - 1] == FragmentOf(frame);
    }
  }

  /** In every run, over any number of connections, the decoder is handed exactly these payloads. */
  lemma {:induction false} PayloadsAreMeant(inputs: seq<Input>, decode: Decoder, sent: Sent)
    requires SentOnly(inputs, sent)
    ensures AllHanded(inputs, decode) == AllMeant(inputs, decode, sent)
  {
    hide RunHistory, Handed, Brings, IsFragment, From, FragmentOf;
    if inputs == [] {
    } else {
      var front, last := inputs[..|inputs| - 1], inputs[|inputs| - 1];
      assert forall i :: 0 <= i < |front| ==> front[i] == inputs[i];
      PayloadsAreMeant(front, decode, sent);
      if last.Received? { HandedIsMeant(front, decode, last.frame, sent); }
    }
  }

  function AckCount(inputs: seq<Input>, decode: Decoder): nat {
    if inputs == [] then 0
    else
      var front, last := inputs[..|inputs| - 1], inputs[|inputs| - 1];
      AckCount(front, decode)
      + if last.Received?
        then Acks(HandleFrame(RunHistory(front, decode).st, last.frame, decode, last.receiverOpen).1)
        else 0
  }

  /** How often a whole event or the last missing part of a message came in. */
  ghost function CompletionCount(inputs: seq<Input>, decode: Decoder, sent: Sent): nat
    requires SentOnly(inputs, sent)
  {
    if inputs == [] then 0
    else
      var front, last := inputs[..|inputs| - 1], inputs[|inputs| - 1];
      assert forall i :: 0 <= i < |front| ==> front[i] == inputs[i];
      CompletionCount(front, decode, sent)
      + if last.Received? && Brings(front, decode, last.frame, sent) then 1 else 0
  }

  /** While the receiver is there, the acknowledgements of a run are as many as the completions:
      one for each, over any number of connections. */
  lemma {:induction false} AcksAreCompletions(inputs: seq<Input>, decode: Decoder, sent: Sent)
    requires SentOnly(inputs, sent)
    requires forall i :: 0 <= i < |inputs| && inputs[i].Received? ==> inputs[i].receiverOpen
    ensures AckCount(inputs, decode) == CompletionCount(inputs, decode, sent)
  {
    hide RunHistory, HandleFrame, Completed, FreshMessage, Brings, Acks, IsFragment, From, FragmentOf;
    if inputs == [] {
    } else {
      var front, last := inputs[..|inputs| - 1], inputs[|inputs| - 1];
      assert forall i :: 0 <= i < |front| ==> front[i] == inputs[i];
      AcksAreCompletions(front, decode, sent);
      if last.Received? {
        FrameEffects(RunHistory(front, decode).st, last.frame, decode, true);
        NoAcks();
        CompletedIff(front, decode, last.frame, sent);
      }
    }
  }

  lemma NoAcks()
    ensures Acks([]) == 0
  {}
}
