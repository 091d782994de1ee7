/** The loop that forwards an agent's stream to a WebSocket, collecting text for up to 100 ms. */
module Debounce {
  import opened Text
  import opened Utf8

  /** Milliseconds. */
  type Time = nat

  const DEBOUNCE_MS: nat := 100
  const DEBOUNCE_CHARS: nat := 200
  const DAY_MS: nat := 86_400_000

  /** A stream event. `ToolStart` also shows a typing indicator; the JSON that it and the other
      events map to, if any, is decided elsewhere. */
  datatype StreamEvent =
    | TextDelta(text: Bytes)
    | ContentComplete
    | ToolStart(name: string, json: Option<string>)
    | Other(json: Option<string>)

  datatype Frame = Text(content: Bytes) | TypingTool(name: string) | Json(value: string)

  /** One turn of the loop. `sendFails` says whether sending the mapped event fails. */
  datatype Turn =
    | Received(event: StreamEvent, sendFails: bool)
    | Ended
    | TimerFired

  datatype State = State(
    buffer: Bytes, accumulated: Bytes, usageSeen: bool, deadline: Time, running: bool, sent: seq<Frame>)

  function Start(far: Time): State { State([], [], false, far, true, []) }

  function Flushed(buffer: Bytes, sent: seq<Frame>): seq<Frame> {
    if buffer == [] then sent else sent + [Text(buffer)]
  }

  function Emitted(event: StreamEvent): seq<Frame> {
    match event
    case ToolStart(name, json) => [TypingTool(name)] + (if json.Some? then [Json(json.value)] else [])
    case Other(json) => if json.Some? then [Json(json.value)] else []
    case _ => []
  }

  function HasJson(event: StreamEvent): bool {
    (event.ToolStart? || event.Other?) && event.json.Some?
  }

  function Step(st: State, turn: Turn, now: Time, far: Time): State {
    if !st.running then st
    else
      match turn
      case Ended => st.(buffer := [], sent := Flushed(st.buffer, st.sent), running := false)
      case TimerFired => st.(buffer := [], sent := Flushed(st.buffer, st.sent), deadline := far)
      case Received(event, sendFails) =>
        match event
        case ContentComplete => st.(usageSeen := true)
        case TextDelta(text) =>
          var st' := st.(buffer := st.buffer + text, accumulated := st.accumulated + text);
          if |st'.buffer| >= DEBOUNCE_CHARS then
            st'.(buffer := [], sent := Flushed(st'.buffer, st.sent), deadline := far)
          else if st.deadline >= far then st'.(deadline := now + DEBOUNCE_MS)
          else st'
        case _ =>
          st.(buffer := [], sent := Flushed(st.buffer, st.sent) + Emitted(event), deadline := far,
              running := !(HasJson(event) && sendFails))
  }

  class StreamTask {
    var textBuffer: Bytes
    var accumulatedText: Bytes
    var usageSeen: bool
    var flushDeadline: Time
    var running: bool
    var sent: seq<Frame>
    const farFuture: Time

    constructor (now: Time)
      ensures farFuture == now + 86_400_000 && Abstract() == Start(farFuture)
    {
      textBuffer, accumulatedText, usageSeen := [], [], false;
      farFuture := now + DAY_MS;
      flushDeadline := now + DAY_MS;
      running, sent := true, [];
    }

    ghost function Abstract(): State
      reads this
    {
      State(textBuffer, accumulatedText, usageSeen, flushDeadline, running, sent)
    }

    method FlushTextBuffer()
      modifies this`textBuffer, this`sent
      ensures textBuffer == [] && sent == Flushed(old(textBuffer), old(sent))
    {
      if textBuffer == [] { return; }
      sent := sent + [Text(textBuffer)];
      textBuffer := [];
    }

    method Handle(turn: Turn, now: Time)
      modifies this
      ensures Abstract() == Step(old(Abstract()), turn, now, farFuture)
    {
      if !running { return; }
      match turn {
        case Ended =>
          FlushTextBuffer();
          running := false;
        case TimerFired =>
          FlushTextBuffer();
          flushDeadline := farFuture;
        case Received(event, sendFails) =>
          match event {
            case ContentComplete => usageSeen := true;
            case TextDelta(text) =>
              accumulatedText := accumulatedText + text;
              textBuffer := textBuffer + text;
              if |textBuffer| >= DEBOUNCE_CHARS {
                FlushTextBuffer();
                flushDeadline := farFuture;
              } else if flushDeadline >= farFuture {
                flushDeadline := now + DEBOUNCE_MS;
              }
            case ToolStart(name, json) =>
              FlushTextBuffer();
              flushDeadline := farFuture;
              sent := sent + [TypingTool(name)];
              SendMapped(json, sendFails);
              assert sent == Flushed(old(textBuffer), old(sent)) + Emitted(event);
            case Other(json) =>
              FlushTextBuffer();
              flushDeadline := farFuture;
              SendMapped(json, sendFails);
              assert sent == Flushed(old(textBuffer), old(sent)) + Emitted(event);
          }
      }
    }

    /** Sends the mapped event, if there is one; a failed send ends the loop. */
    method SendMapped(json: Option<string>, sendFails: bool)
      modifies this`sent, this`running
      ensures sent == old(sent) + (if json.Some? then [Json(json.value)] else [])
      ensures running == (old(running) && !(json.Some? && sendFails))
    {
      if json.Some? {
        sent := sent + [Json(json.value)];
        if sendFails { running := false; }
      }
    }
  }

  // Runs

  function Run(turns: seq<(Turn, Time)>, far: Time): State {
    if turns == [] then Start(far)
    else
      var (turn, now) := turns[|turns| - 1];
      Step(Run(turns[..|turns| - 1], far), turn, now, far)
  }

  // Order and completeness

  /** A byte of text, or a frame that is not text. */
  datatype Token = Byte(b: byte) | Item(frame: Frame)

  function TextTokens(text: Bytes): seq<Token> {
    seq(|text|, i requires 0 <= i < |text| => Byte(text[i]))
  }

  function FrameTokens(frame: Frame): seq<Token> {
    if frame.Text? then TextTokens(frame.content) else [Item(frame)]
  }

  function Tokens(frames: seq<Frame>): seq<Token> {
    if frames == [] then [] else Tokens(frames[..|frames| - 1]) + FrameTokens(frames[|frames| - 1])
  }

  /** What one turn asks to be shown. */
  function Asked(turn: Turn): seq<Token> {
    if turn.Received? then
      match turn.event
      case TextDelta(text) => TextTokens(text)
      case ContentComplete => []
      case ToolStart(name, json) =>
        [Item(TypingTool(name))] + if json.Some? then [Item(Json(json.value))] else []
      case Other(json) => if json.Some? then [Item(Json(json.value))] else []
    else []
  }

  /** What the turns asked for while the loop was running. */
  function AllAsked(turns: seq<(Turn, Time)>, far: Time): seq<Token> {
    if turns == [] then []
    else
      var front := turns[..|turns| - 1];
      AllAsked(front, far) + if Run(front, far).running then Asked(turns[|turns| - 1].0) else []
  }

  lemma {:induction false} TokensAppend(a: seq<Frame>, b: seq<Frame>)
    ensures Tokens(a + b) == Tokens(a) + Tokens(b)
  {
    if b == [] {
      assert a + b == a;
    } else {
      hide FrameTokens;
      var front, last := b[..|b| - 1], FrameTokens(b[|b| - 1]);
      assert (a + b)[..|a + b| - 1] == a + front;
      TokensAppend(a, front);
      assert (Tokens(a) + Tokens(front)) + last == Tokens(a) + (Tokens(front) + last);
    }
  }

  lemma FlushedTokens(buffer: Bytes, sent: seq<Frame>)
    ensures Tokens(Flushed(buffer, sent)) == Tokens(sent) + TextTokens(buffer)
  {
    if buffer == [] {
      assert TextTokens(buffer) == [];
    } else {
      assert (sent + [Text(buffer)])[..|sent|] == sent;
    }
  }

  lemma TextTokensAppend(a: Bytes, b: Bytes)
    ensures TextTokens(a + b) == TextTokens(a) + TextTokens(b)
  {}

  lemma StepTokens(st: State, turn: Turn, now: Time, far: Time)
    requires st.running
    ensures var st' := Step(st, turn, now, far);
            Tokens(st'.sent) + TextTokens(st'.buffer) == Tokens(st.sent) + TextTokens(st.buffer) + Asked(turn)
  {
    hide Tokens, TextTokens, Emitted, Flushed;
    var st' := Step(st, turn, now, far);
    NoText();
    FlushedTokens(st.buffer, st.sent);
    if turn.Received? {
      match turn.event
      case ContentComplete => EmittedTokens(turn.event);
      case TextDelta(text) =>
        TextTokensAppend(st.buffer, text);
        FlushedTokens(st.buffer + text, st.sent);
      case _ =>
        TokensAppend(Flushed(st.buffer, st.sent), Emitted(turn.event));
        EmittedTokens(turn.event);
    }
  }

  lemma NoText()
    ensures TextTokens([]) == []
  {}

  lemma EmittedTokens(event: StreamEvent)
    requires !event.TextDelta?
    ensures Tokens(Emitted(event)) == Asked(Received(event, false))
  {
    var frames := Emitted(event);
    TokensOne(frames[..if frames == [] then 0 else 1]);
    if |frames| == 2 {
      assert frames[..1] == [frames[0]];
    } else {
      assert frames[..|frames|] == frames;
    }
  }

  lemma TokensOne(frames: seq<Frame>)
    requires |frames| <= 1
    ensures Tokens(frames) == if frames == [] then [] else FrameTokens(frames[0])
  {
    if frames != [] { assert frames[..0] == []; }
  }

  /** In every run, for every interleaving of deltas, other events and timer firings, the sent
      frames followed by the buffer are exactly what was asked to be shown, byte for byte and
      event for event, in order; only the grouping of text into frames changes. */
  lemma {:induction false} OrderKept(turns: seq<(Turn, Time)>, far: Time)
    ensures var st := Run(turns, far);
            Tokens(st.sent) + TextTokens(st.buffer) == AllAsked(turns, far)
  {
    if turns != [] {
      hide Step, Tokens, TextTokens, Asked;
      var front := turns[..|turns| - 1];
      var (turn, now) := turns[|turns| - 1];
      OrderKept(front, far);
      if Run(front, far).running {
        StepTokens(Run(front, far), turn, now, far);
      } else {
        Stopped(Run(front, far), turn, now, far);
      }
    } else {
      NoText();
    }
  }

  lemma Stopped(st: State, turn: Turn, now: Time, far: Time)
    requires !st.running
    ensures Step(st, turn, now, far) == st
  {}

  function SentText(frames: seq<Frame>): Bytes {
    if frames == [] then []
    else
      var last := frames[|frames| - 1];
      SentText(frames[..|frames| - 1]) + if last.Text? then last.content else []
  }

  lemma {:induction false} SentTextAppend(a: seq<Frame>, b: seq<Frame>)
    ensures SentText(a + b) == SentText(a) + SentText(b)
  {
    if b == [] {
      assert a + b == a;
    } else {
      assert (a + b)[..|a + b| - 1] == a + b[..|b| - 1];
      SentTextAppend(a, b[..|b| - 1]);
    }
  }

  lemma FlushedText(buffer: Bytes, sent: seq<Frame>)
    ensures SentText(Flushed(buffer, sent)) == SentText(sent) + buffer
    ensures Text([]) !in sent ==> Text([]) !in Flushed(buffer, sent)
  {
    if buffer != [] { assert (sent + [Text(buffer)])[..|sent|] == sent; }
  }

  lemma EmittedHasNoText(event: StreamEvent)
    ensures SentText(Emitted(event)) == [] && Text([]) !in Emitted(event)
  {
    var frames := Emitted(event);
    if |frames| == 2 { assert SentText(frames[..1]) == []; }
  }

  /** The text sent and the text buffered are the text accumulated, the buffer stays under 200
      bytes between turns, no empty text frame is sent, and nothing is left once the loop ends. */
  lemma {:induction false} TextConserved(turns: seq<(Turn, Time)>, far: Time)
    ensures var st := Run(turns, far);
            && SentText(st.sent) + st.buffer == st.accumulated
            && |st.buffer| < 200
            && (!st.running ==> st.buffer == [])
            && Text([]) !in st.sent
  {
    if turns == [] {
    } else {
      var front := turns[..|turns| - 1];
      var (turn, now) := turns[|turns| - 1];
      TextConserved(front, far);
      StepText(Run(front, far), turn, now, far);
      hide Step, SentText;
    }
  }

  lemma StepText(st: State, turn: Turn, now: Time, far: Time)
    requires SentText(st.sent) + st.buffer == st.accumulated && |st.buffer| < DEBOUNCE_CHARS
    requires (!st.running ==> st.buffer == []) && Text([]) !in st.sent
    ensures var st' := Step(st, turn, now, far);
            && SentText(st'.sent) + st'.buffer == st'.accumulated && |st'.buffer| < DEBOUNCE_CHARS
            && (!st'.running ==> st'.buffer == []) && Text([]) !in st'.sent
  {
    hide SentText, Flushed, Emitted, HasJson;
    FlushedText(st.buffer, st.sent);
    if turn.Received? {
      if turn.event.TextDelta? { FlushedText(st.buffer + turn.event.text, st.sent); }
      EmittedHasNoText(turn.event);
      SentTextAppend(Flushed(st.buffer, st.sent), Emitted(turn.event));
    }
  }

  // When the loop ends

  /** The stream has ended, or an event could not be sent. */
  predicate Fatal(turn: Turn) {
    match turn
    case Ended => true
    case TimerFired => false
    case Received(event, sendFails) =>
      match event
      case ToolStart(_, json) => sendFails && json.Some?
      case Other(json) => sendFails && json.Some?
      case _ => false
  }

  /** The loop runs exactly until the stream ends or an event cannot be sent. */
  lemma {:induction false} RunningIff(turns: seq<(Turn, Time)>, far: Time)
    ensures Run(turns, far).running <==> forall i :: 0 <= i < |turns| ==> !Fatal(turns[i].0)
  {
    if turns != [] {
      var front := turns[..|turns| - 1];
      RunningIff(front, far);
      var (turn, now) := turns[|turns| - 1];
      StepRuns(Run(front, far), turn, now, far);
      hide Step, Fatal;
      assert forall i :: 0 <= i < |front| ==> front[i] == turns[i];
    }
  }

  lemma StepRuns(st: State, turn: Turn, now: Time, far: Time)
    ensures Step(st, turn, now, far).running <==> st.running && !Fatal(turn)
    ensures Step(st, turn, now, far).usageSeen
       <==> st.usageSeen || (st.running && turn.Received? && turn.event.ContentComplete?)
  {}

  /** The turn completes the content while the loop runs. */
  ghost predicate CompletesAt(turns: seq<(Turn, Time)>, far: Time, i: nat)
    requires i < |turns|
  {
    Run(turns[..i], far).running && turns[i].0.Received? && turns[i].0.event.ContentComplete?
  }

  /** Usage was reported exactly if a turn completed the content while the loop ran. */
  lemma {:induction false} UsageSeenIff(turns: seq<(Turn, Time)>, far: Time)
    ensures Run(turns, far).usageSeen <==> exists i: nat :: i < |turns| && CompletesAt(turns, far, i)
  {
    if turns != [] {
      var front := turns[..|turns| - 1];
      UsageSeenIff(front, far);
      var (turn, now) := turns[|turns| - 1];
      StepRuns(Run(front, far), turn, now, far);
      assert Run(turns, far) == Step(Run(front, far), turn, now, far);
      forall i: nat | i < |front| ensures CompletesAt(front, far, i) <==> CompletesAt(turns, far, i) {
        assert front[..i] == turns[..i];
      }
      assert CompletesAt(turns, far, |front|)
        <==> Run(front, far).running && turn.Received? && turn.event.ContentComplete?;
      hide Step, Run, CompletesAt;
    }
  }

  /** Whether the turn of the agent counts as silent: usage was reported but no text came. */
  predicate IsSilent(st: State) { st.accumulated == [] && st.usageSeen }

  lemma {:induction false} NoTextFrames(frames: seq<Frame>)
    requires SentText(frames) == [] && Text([]) !in frames
    ensures forall i :: 0 <= i < |frames| ==> !frames[i].Text?
  {
    if frames == [] {
    } else {
      var last := frames[|frames| - 1];
      assert last in frames;
      NoTextFrames(frames[..|frames| - 1]);
    }
  }

  /** A client of a silent turn has been shown no text at all. */
  lemma SilentShowsNoText(turns: seq<(Turn, Time)>, far: Time)
    requires IsSilent(Run(turns, far))
    ensures forall i :: 0 <= i < |Run(turns, far).sent| ==> !Run(turns, far).sent[i].Text?
  {
    TextConserved(turns, far);
    NoTextFrames(Run(turns, far).sent);
  }

  // Delay

  /** When the oldest text in the buffer arrived, if there is any. */
  function OldestAt(turns: seq<(Turn, Time)>, far: Time): Time {
    if turns == [] then 0
    else
      var front := turns[..|turns| - 1];
      if Run(front, far).buffer == [] then turns[|turns| - 1].1 else OldestAt(front, far)
  }

  /** Clocks run forwards, and a timer that is due is served at most `late` after it fell due,
      though the loop may take other events that are ready before it. */
  ghost predicate Timely(turns: seq<(Turn, Time)>, far: Time, late: nat) {
    forall i :: 0 <= i < |turns| ==>
      && turns[i].1 <= Run(turns[..i], far).deadline + late
      && (i > 0 ==> turns[i - 1].1 <= turns[i].1)
  }

  /** While there is text, the timer is due within 100 ms of the oldest of it, or not before the
      day is over. */
  ghost predicate Due(st: State, oldest: Time, far: Time) {
    st.buffer != [] ==> st.deadline <= oldest + DEBOUNCE_MS || far <= oldest + DEBOUNCE_MS
  }

  lemma {:induction false} AlwaysDue(turns: seq<(Turn, Time)>, far: Time)
    requires forall i :: 0 < i < |turns| ==> turns[i - 1].1 <= turns[i].1
    ensures Due(Run(turns, far), OldestAt(turns, far), far)
    ensures turns != [] ==> OldestAt(turns, far) <= turns[|turns| - 1].1
    ensures Run(turns, far).buffer == [] && Run(turns, far).deadline < far && turns != []
            ==> Run(turns, far).deadline <= turns[|turns| - 1].1 + DEBOUNCE_MS
  {
    if turns == [] {
    } else {
      var front := turns[..|turns| - 1];
      var (turn, now) := turns[|turns| - 1];
      forall i | 0 < i < |front| ensures front[i - 1].1 <= front[i].1 {
        assert turns[i - 1].1 <= turns[i].1;
      }
      AlwaysDue(front, far);
      if front == [] {
      } else {
        assert turns[|turns| - 2].1 <= turns[|turns| - 1].1;
      }
    }
  }

  /** When a turn happens, text has waited for at most 100 ms and the lateness of the timer. */
  ghost predicate Prompt(turns: seq<(Turn, Time)>, far: Time, late: nat) {
    forall i :: 0 <= i < |turns| && Run(turns[..i], far).buffer != []
                ==> turns[i].1 <= OldestAt(turns[..i], far) + 100 + late
  }

  lemma PromptWithinDay(turns: seq<(Turn, Time)>, far: Time, late: nat)
    requires Timely(turns, far, late) && forall i :: 0 <= i < |turns| ==> turns[i].1 <= far + late
    ensures Prompt(turns, far, late)
  {
    forall i | 0 <= i < |turns| && Run(turns[..i], far).buffer != []
      ensures turns[i].1 <= OldestAt(turns[..i], far) + DEBOUNCE_MS + late
    {
      var front := turns[..i];
      forall j | 0 < j < |front| ensures front[j - 1].1 <= front[j].1 {
        assert turns[j - 1].1 <= turns[j].1;
      }
      AlwaysDue(front, far);
    }
  }

  /** However late the timer is served, text waits longer than 100 ms by that lateness at most, in
      any run that ends by time `last`, exactly when `last` is within the day after the loop
      started and that lateness. After that a due time counts as unset, and each new delta puts
      it off. */
  lemma PromptIff(last: Time, far: Time, late: nat)
    requires far >= DAY_MS
    ensures (forall turns: seq<(Turn, Time)> ::
               Timely(turns, far, late) && (forall i :: 0 <= i < |turns| ==> turns[i].1 <= last)
               ==> Prompt(turns, far, late))
            <==> last <= far + late
  {
    if last <= far + late {
      forall turns: seq<(Turn, Time)>
        | Timely(turns, far, late) && forall i :: 0 <= i < |turns| ==> turns[i].1 <= last
        ensures Prompt(turns, far, late)
      {
        PromptWithinDay(turns, far, late);
      }
    } else {
      PutOffRun(far, late);
    }
  }

  /** Two deltas around the end of the day: the second puts the first off. */
  function PutOff(far: Time, late: nat): seq<(Turn, Time)>
    requires far >= 100
  {
    var delta := Received(TextDelta([97]), false);
    [(delta, far - 100), (delta, far - 99), (TimerFired, far + 1 + late)]
  }

  lemma PutOffRun(far: Time, late: nat)
    requires far >= DAY_MS
    ensures Timely(PutOff(far, late), far, late) && !Prompt(PutOff(far, late), far, late)
    ensures forall i :: 0 <= i < |PutOff(far, late)| ==> PutOff(far, late)[i].1 <= far + late + 1
  {
    var turns := PutOff(far, late);
    var none: seq<(Turn, Time)> := [];
    assert turns[..0] == none && turns[..1][..0] == none && turns[..2][..1] == turns[..1];
    assert Run(turns[..1], far) == State([97], [97], false, far, true, []);
    assert Run(turns[..2], far).deadline == far + 1 && Run(turns[..2], far).buffer == [97, 97];
    assert OldestAt(turns[..1], far) == far - 100;
    assert OldestAt(turns[..2], far) == far - 100;
  }
}
