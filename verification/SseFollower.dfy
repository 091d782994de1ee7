/** One client of an event stream and the task that serves it: a subscription whose queue fills
    while the task is busy, replay or snapshot on connecting, keepalives, reconnection with the
    last id the client saw, and restarts of the server, whose ids begin anew. */
module SseFollower {
  import opened Text
  import opened SseHandle

  /** A receiver that is further behind loses the oldest events of its queue. */
  const BROADCAST_CAPACITY: nat := 128

  /** What the client has: everything up to `base`, from a snapshot or because it was told to
      start over there, and the events it was sent since. `lastSeen` is the id of the last frame.
      It is `stale` if all this is from before a restart, and `mixed` if it was sent later events on
      top of it. */
  datatype Client = Client(base: nat, held: seq<Event>, lastSeen: Option<nat>, stale: bool, mixed: bool) {
    function Top(): nat { base + |held| }
  }

  /** A client that was told to start over, or sent a snapshot. */
  function Anew(base: nat, latest: nat): Client { Client(base, [], Some(latest), false, false) }

  /** Where the serving task stands between two of its waits. */
  datatype Phase =
    | Loading(replay: Replay)
    | Resetting
    | Snapshotting
    | Adopting
    | Replaying(events: seq<Event>)
    | Settling
    | LagReset
    | Reloading
    | Listening

  /** `loaded` is the latest id when the snapshot was read, `delivered` the id up to which queued
      events are skipped. */
  datatype Conn =
    | Away
    | Subscribed(queue: seq<Event>)
    | Open(queue: seq<Event>, phase: Phase, loaded: nat, delivered: nat)

  datatype World = World(run: Run, conn: Conn, client: Client) {
    function Latest(): nat { run.st.nextId }
  }

  /** Frames reach the client in the step that sends them: a frame that is lost with its
      connection is one that the task did not get to send. */
  datatype Turn =
    | Publish(op: Op)
    | Subscribe
    | AskReplay
    | Proceed(loads: bool)
    | Receive
    | Keepalive
    | Disconnect
    | Restart

  function NoRun(): Run { Run(State([], 0, map[]), []) }

  function Start(): World { World(NoRun(), Away, Client(0, [], None, false, false)) }

  function Enqueued(conn: Conn, news: seq<Event>): Conn {
    match conn
    case Away => Away
    case Subscribed(queue) => Subscribed(queue + news)
    case Open(queue, phase, loaded, delivered) => Open(queue + news, phase, loaded, delivered)
  }

  function Take(c: Client, e: Event): Client {
    Client(c.base, c.held + [e], Some(e.id), c.stale, c.mixed || c.stale)
  }

  /** The next frame or read of the serving task; `loads` says whether reading a snapshot works. */
  function Advance(w: World, loads: bool): World
    requires w.conn.Open?
  {
    var conn, c, latest := w.conn, w.client, w.Latest();
    match conn.phase
    case Loading(replay) =>
      if !loads then w.(conn := Away)
      else
        var phase :=
          if replay.resetRequired then Resetting
          else if c.lastSeen.None? then Snapshotting
          else if replay.events == [] then Settling
          else Replaying(replay.events);
        w.(conn := conn.(phase := phase, loaded := latest))
    case Resetting => w.(conn := conn.(phase := Snapshotting), client := Anew(latest, latest))
    case Snapshotting => w.(conn := conn.(phase := Adopting), client := Anew(conn.loaded, latest))
    case Adopting => w.(conn := conn.(phase := Listening, delivered := latest))
    case Replaying(events) =>
      if events == [] then w.(conn := conn.(phase := Listening))
      else
        var phase := if |events| == 1 then Listening else Replaying(events[1..]);
        w.(conn := conn.(phase := phase, delivered := events[0].id), client := Take(c, events[0]))
    case Settling => w.(conn := conn.(phase := Listening, delivered := Min(conn.delivered, latest)))
    case LagReset => w.(conn := conn.(phase := Reloading), client := Anew(latest, latest))
    case Reloading =>
      w.(conn := if loads then conn.(phase := Snapshotting, loaded := latest) else conn.(phase := Adopting))
    case Listening => w
  }

  /** The task takes one event off its queue, unless it has fallen too far behind. */
  function Received(w: World): World
    requires w.conn.Open?
  {
    var conn := w.conn;
    if conn.queue == [] then w
    else if |conn.queue| > BROADCAST_CAPACITY then
      w.(conn := conn.(queue := conn.queue[|conn.queue| - BROADCAST_CAPACITY..], phase := LagReset))
    else
      var e, rest := conn.queue[0], conn.queue[1..];
      if e.id <= conn.delivered then w.(conn := conn.(queue := rest))
      else w.(conn := conn.(queue := rest, delivered := e.id), client := Take(w.client, e))
  }

  function Max(a: nat, b: nat): nat { if a >= b then a else b }

  /** A turn that is not possible changes nothing. */
  function Next(w: World, turn: Turn, capacity: nat): World {
    match turn
    case Publish(op) =>
      var run := SseHandle.Step(w.run, op, capacity);
      var news := if |w.run.log| <= |run.log| then run.log[|w.run.log|..] else [];
      World(run, Enqueued(w.conn, news), w.client)
    case Subscribe => if w.conn.Away? then w.(conn := Subscribed([])) else w
    case AskReplay =>
      if w.conn.Subscribed? then
        var k := if w.client.lastSeen.Some? then w.client.lastSeen.value else 0;
        w.(conn := Open(w.conn.queue, Loading(ReplayAfter(w.run.st.history, w.client.lastSeen)), 0, k))
      else w
    case Proceed(loads) => if w.conn.Open? then Advance(w, loads) else w
    case Receive => if w.conn.Open? && w.conn.phase.Listening? then Received(w) else w
    case Keepalive =>
      if w.conn.Open? && w.conn.phase.Listening? then
        w.(client := w.client.(lastSeen := Some(Max(w.Latest(), w.conn.delivered))))
      else w
    case Disconnect => w.(conn := Away)
    case Restart => World(NoRun(), Away, w.client.(stale := w.client.stale || w.client.Top() > 0))
  }

  function After(w: World, turns: seq<Turn>, capacity: nat): World {
    if turns == [] then w
    else Next(After(w, turns[..|turns| - 1], capacity), turns[|turns| - 1], capacity)
  }

  // What the client may rely on

  /** The client has a stretch of the log without a gap. */
  ghost predicate Contiguous(c: Client, log: seq<Event>) {
    c.Top() <= |log| && c.held == log[c.base..c.Top()]
  }

  /** A turn that sends or notes the latest id although something was published that the client
      has not got: a keepalive over an undelivered event, a snapshot that is older than its id,
      or a mark that is set past the last frame. */
  predicate RiskyFrame(w: World, turn: Turn) {
    w.conn.Open? && !w.client.stale &&
    match w.conn.phase
    case Listening => turn.Keepalive? && w.conn.delivered < w.Latest()
    case Snapshotting => turn.Proceed? && w.conn.loaded < w.Latest()
    case Adopting => turn.Proceed? && w.client.Top() < w.Latest()
    case _ => false
  }

  /** A client with an id from before a restart is not told to start over, although it is replayed
      something or can follow the queue. */
  predicate RiskyAnswer(w: World, turn: Turn) {
    turn.AskReplay? && w.conn.Subscribed? && w.client.stale &&
    var replay := ReplayAfter(w.run.st.history, w.client.lastSeen);
    !replay.resetRequired && (replay.events != [] || |w.conn.queue| <= BROADCAST_CAPACITY)
  }

  predicate Risky(w: World, turn: Turn) { RiskyFrame(w, turn) || RiskyAnswer(w, turn) }

  predicate Careful(w: World, turns: seq<Turn>, capacity: nat) {
    turns == []
    || (var front := turns[..|turns| - 1];
        Careful(w, front, capacity) && !Risky(After(w, front, capacity), turns[|turns| - 1]))
  }

  /** The queue is the end of the log. */
  ghost predicate IsEnd(queue: seq<Event>, log: seq<Event>) {
    |queue| <= |log| && queue == log[|log| - |queue|..]
  }

  /** `events` are the ones that follow what the client has, and the queue starts among or right
      after them. */
  ghost predicate Follows(events: seq<Event>, c: Client, queue: seq<Event>, log: seq<Event>) {
    && c.Top() + |events| <= |log|
    && events == log[c.Top()..c.Top() + |events|]
    && |log| - |queue| <= c.Top() + |events|
  }

  ghost predicate ConnGood(conn: Conn, c: Client, log: seq<Event>) {
    match conn
    case Away => true
    case Subscribed(queue) => IsEnd(queue, log)
    case Open(queue, phase, loaded, delivered) =>
      && IsEnd(queue, log) && loaded <= |log|
      && match phase
         case Loading(replay) =>
           if c.lastSeen.None? then !replay.resetRequired
           else delivered == c.Top() && (replay.resetRequired || Follows(replay.events, c, queue, log))
         case Replaying(events) => c.lastSeen.Some? && delivered == c.Top() && Follows(events, c, queue, log)
         case Settling => c.lastSeen.Some? && delivered == c.Top() && Follows([], c, queue, log)
         case Listening => c.lastSeen.Some? && delivered == c.Top() && Follows([], c, queue, log)
         case Adopting => c.lastSeen.Some?
         case Reloading => c.lastSeen.Some?
         case _ => true
  }

  /** The last id the client saw is the last one it has. */
  predicate Honest(c: Client) {
    !c.mixed && if c.lastSeen.None? then c.Top() == 0 else c.lastSeen.value == c.Top()
  }

  /** A client from before a restart is on its way to be told to start over: by the answer it got,
      or because its queue is too long to be followed. */
  ghost predicate StaleGood(conn: Conn, c: Client, log: seq<Event>) {
    && c.lastSeen.Some? && c.lastSeen.value > 0 && !c.mixed
    && match conn
       case Away => true
       case Subscribed(queue) => IsEnd(queue, log)
       case Open(queue, phase, loaded, delivered) =>
         && IsEnd(queue, log)
         && match phase
            case Loading(replay) => replay.resetRequired || (replay.events == [] && |queue| > BROADCAST_CAPACITY)
            case Settling => loaded <= |log| && |queue| > BROADCAST_CAPACITY
            case Listening => loaded <= |log| && |queue| > BROADCAST_CAPACITY
            case Resetting => loaded <= |log|
            case LagReset => loaded <= |log|
            case _ => false
  }

  ghost predicate Good(w: World, capacity: nat) {
    && SseHandle.Inv(w.run, capacity)
    && if w.client.stale then StaleGood(w.conn, w.client, w.run.log)
       else Contiguous(w.client, w.run.log) && Honest(w.client) && ConnGood(w.conn, w.client, w.run.log)
  }

  lemma GrownSlice(log: seq<Event>, longer: seq<Event>, a: nat, b: nat)
    requires log <= longer && a <= b <= |log|
    ensures longer[a..b] == log[a..b]
  {}

  lemma PublishGood(w: World, op: Op, capacity: nat)
    requires Good(w, capacity) && !w.client.stale
    ensures Good(Next(w, Publish(op), capacity), capacity)
  {
    hide SseHandle.Inv, SseHandle.Step, Contiguous, ConnGood, Enqueued;
    SseHandle.StepKeepsInv(w.run, op, capacity);
    var log, longer := w.run.log, SseHandle.Step(w.run, op, capacity).log;
    StillContiguous(w.client, log, longer);
    ConnStaysGood(w.conn, w.client, log, longer);
  }

  lemma StillContiguous(c: Client, log: seq<Event>, longer: seq<Event>)
    requires Contiguous(c, log) && log <= longer
    ensures Contiguous(c, longer)
  {
    GrownSlice(log, longer, c.base, c.Top());
  }

  lemma EndStays(queue: seq<Event>, log: seq<Event>, longer: seq<Event>)
    requires IsEnd(queue, log) && log <= longer
    ensures IsEnd(queue + longer[|log|..], longer)
  {
    assert longer == log + longer[|log|..];
    assert queue + longer[|log|..] == longer[|log| - |queue|..];
  }

  lemma FollowsStill(events: seq<Event>, c: Client, queue: seq<Event>, log: seq<Event>, longer: seq<Event>)
    requires Follows(events, c, queue, log) && log <= longer
    ensures Follows(events, c, queue + longer[|log|..], longer)
  {
    GrownSlice(log, longer, c.Top(), c.Top() + |events|);
  }

  lemma ConnStaysGood(conn: Conn, c: Client, log: seq<Event>, longer: seq<Event>)
    requires ConnGood(conn, c, log) && log <= longer
    ensures ConnGood(Enqueued(conn, longer[|log|..]), c, longer)
  {
    hide IsEnd, Follows;
    if !conn.Away? { EndStays(conn.queue, log, longer); }
    if conn.Open? {
      match conn.phase
      case Loading(replay) =>
        if c.lastSeen.Some? && !replay.resetRequired { FollowsStill(replay.events, c, conn.queue, log, longer); }
      case Replaying(events) => FollowsStill(events, c, conn.queue, log, longer);
      case Settling => FollowsStill([], c, conn.queue, log, longer);
      case Listening => FollowsStill([], c, conn.queue, log, longer);
      case _ =>
    }
  }

  lemma AskGood(w: World, capacity: nat)
    requires Good(w, capacity) && !w.client.stale && capacity >= 1 && w.conn.Subscribed?
    ensures Good(Next(w, AskReplay, capacity), capacity)
  {
    if w.client.lastSeen.Some? {
      SseHandle.ReplayExact(w.run, capacity, w.client.Top());
    }
  }

  /** The head of what follows extends what the client has. */
  lemma TakeGood(c: Client, e: Event, rest: seq<Event>, queue: seq<Event>, log: seq<Event>)
    requires Contiguous(c, log) && Follows([e] + rest, c, queue, log) && !c.stale && !c.mixed
    requires forall i :: 0 <= i < |log| ==> log[i].id == i + 1
    ensures var c' := Take(c, e);
            Contiguous(c', log) && Honest(c') && e.id == c'.Top() && Follows(rest, c', queue, log)
  {
    var all, top := [e] + rest, c.Top();
    assert all == log[top..top + |all|];
    assert e == all[0] == log[top];
    assert rest == all[1..] == log[top + 1..top + |all|];
    assert log[c.base..top + 1] == log[c.base..top] + [log[top]];
  }

  lemma AdvanceGood(w: World, loads: bool, capacity: nat)
    requires Good(w, capacity) && !w.client.stale && w.conn.Open? && !Risky(w, Proceed(loads))
    ensures Good(Next(w, Proceed(loads), capacity), capacity)
  {
    hide SseHandle.Evict;
    var conn, c, log := w.conn, w.client, w.run.log;
    match conn.phase
    case Replaying(events) =>
      if events != [] {
        assert events == [events[0]] + events[1..];
        TakeGood(c, events[0], events[1..], conn.queue, log);
      }
    case _ =>
  }

  lemma QueueHead(queue: seq<Event>, log: seq<Event>)
    requires IsEnd(queue, log) && queue != []
    ensures var first := |log| - |queue|;
            && 0 <= first < |log| && queue[0] == log[first] && IsEnd(queue[1..], log)
            && [queue[0]] + [] == log[first..first + 1]
  {}

  lemma QueueEnd(queue: seq<Event>, log: seq<Event>, n: nat)
    requires IsEnd(queue, log) && n <= |queue|
    ensures IsEnd(queue[|queue| - n..], log)
  {}

  lemma ReceiveGood(w: World, capacity: nat)
    requires Good(w, capacity) && !w.client.stale && w.conn.Open? && w.conn.phase.Listening?
    ensures Good(Next(w, Receive, capacity), capacity)
  {
    hide SseHandle.Evict, IsEnd;
    var queue, c, log := w.conn.queue, w.client, w.run.log;
    if |queue| > BROADCAST_CAPACITY {
      QueueEnd(queue, log, BROADCAST_CAPACITY);
    } else if queue != [] {
      QueueHead(queue, log);
      if queue[0].id > w.conn.delivered {
        assert |log| - |queue| == c.Top() && |[queue[0]] + []| == 1;
        TakeGood(c, queue[0], [], queue[1..], log);
      }
    }
  }

  // A client from before a restart

  lemma StalePublishGood(w: World, op: Op, capacity: nat)
    requires Good(w, capacity) && w.client.stale
    ensures Good(Next(w, Publish(op), capacity), capacity)
  {
    hide SseHandle.Inv, SseHandle.Step, IsEnd;
    SseHandle.StepKeepsInv(w.run, op, capacity);
    if !w.conn.Away? { EndStays(w.conn.queue, w.run.log, SseHandle.Step(w.run, op, capacity).log); }
  }

  lemma StaleReceiveGood(w: World, capacity: nat)
    requires Good(w, capacity) && w.client.stale
    ensures Good(Next(w, Receive, capacity), capacity)
  {
    hide SseHandle.Inv, IsEnd;
    if w.conn.Open? && w.conn.phase.Listening? { QueueEnd(w.conn.queue, w.run.log, BROADCAST_CAPACITY); }
  }

  lemma StaleAskGood(w: World, capacity: nat)
    requires Good(w, capacity) && w.client.stale && !Risky(w, AskReplay)
    ensures Good(Next(w, AskReplay, capacity), capacity)
  {
    hide SseHandle.Inv, ReplayAfter, IsEnd;
  }

  lemma StaleAdvanceGood(w: World, loads: bool, capacity: nat)
    requires Good(w, capacity) && w.client.stale
    ensures Good(Next(w, Proceed(loads), capacity), capacity)
  {
    LatestIsLength(w.run, capacity);
    hide SseHandle.Inv, IsEnd;
  }

  lemma StaleTurnGood(w: World, turn: Turn, capacity: nat)
    requires Good(w, capacity) && w.client.stale && !Risky(w, turn)
    ensures Good(Next(w, turn, capacity), capacity)
  {
    hide Good, Next, Risky;
    match turn
    case Publish(op) => StalePublishGood(w, op, capacity);
    case AskReplay => StaleAskGood(w, capacity);
    case Proceed(loads) => StaleAdvanceGood(w, loads, capacity);
    case Receive => StaleReceiveGood(w, capacity);
    case Restart => RestartGood(w, capacity);
    case _ => StaleWaitGood(w, turn, capacity);
  }

  lemma StaleWaitGood(w: World, turn: Turn, capacity: nat)
    requires Good(w, capacity) && w.client.stale && (turn.Subscribe? || turn.Keepalive? || turn.Disconnect?)
    ensures Good(Next(w, turn, capacity), capacity)
  {
    LatestIsLength(w.run, capacity);
    hide SseHandle.Inv, ReplayAfter;
  }

  lemma RestartGood(w: World, capacity: nat)
    requires Good(w, capacity)
    ensures Good(Next(w, Restart, capacity), capacity)
  {
    SseHandle.StartInv(capacity);
    StandsAway(w.client);
    if w.client.stale { StaleKnows(w); } else { assert Contiguous(w.client, w.run.log) && Honest(w.client); }
    hide SseHandle.Inv, ConnGood, StaleGood, IsEnd;
  }

  lemma StandsAway(c: Client)
    ensures ConnGood(Away, c, [])
    ensures c.lastSeen.Some? && c.lastSeen.value > 0 && !c.mixed ==> StaleGood(Away, c, [])
  {}

  lemma StaleKnows(w: World)
    requires StaleGood(w.conn, w.client, w.run.log)
    ensures w.client.lastSeen.Some? && w.client.lastSeen.value > 0 && !w.client.mixed
  {}

  /** Every turn that is not risky keeps the client without a gap and its last id honest. */
  lemma TurnKeepsGood(w: World, turn: Turn, capacity: nat)
    requires Good(w, capacity) && capacity >= 1 && !Risky(w, turn)
    ensures Good(Next(w, turn, capacity), capacity)
  {
    if turn.Restart? {
      RestartGood(w, capacity);
    } else if w.client.stale {
      StaleTurnGood(w, turn, capacity);
    } else {
      match turn
      case Publish(op) => PublishGood(w, op, capacity);
      case AskReplay => if w.conn.Subscribed? { AskGood(w, capacity); }
      case Proceed(loads) => if w.conn.Open? { AdvanceGood(w, loads, capacity); }
      case Receive => if w.conn.Open? && w.conn.phase.Listening? { ReceiveGood(w, capacity); }
      case _ => hide SseHandle.Evict;
    }
  }

  lemma StartGood(capacity: nat)
    ensures Good(Start(), capacity)
  {}

  /** In every careful run, with any number of reconnections at any moment, the client has a
      stretch of the log without a gap, and its last id is the last one it has. */
  lemma {:induction false} CarefulKeepsGood(turns: seq<Turn>, capacity: nat)
    requires capacity >= 1 && Careful(Start(), turns, capacity)
    ensures Good(After(Start(), turns, capacity), capacity)
  {
    hide Good, Risky, Next;
    if turns == [] {
      StartGood(capacity);
    } else {
      var front := turns[..|turns| - 1];
      CarefulKeepsGood(front, capacity);
      TurnKeepsGood(After(Start(), front, capacity), turns[|turns| - 1], capacity);
    }
  }

  // When an event is lost

  /** The client misses an event that it was not told about, or mixes the events of two processes. */
  ghost predicate Gap(w: World) { if w.client.stale then w.client.mixed else !Contiguous(w.client, w.run.log) }

  lemma {:induction false} AfterAppend(w: World, a: seq<Turn>, b: seq<Turn>, capacity: nat)
    ensures After(w, a + b, capacity) == After(After(w, a, capacity), b, capacity)
    ensures Careful(w, a + b, capacity) <==> Careful(w, a, capacity) && Careful(After(w, a, capacity), b, capacity)
  {
    hide Next, Risky;
    if b == [] {
      assert a + b == a;
    } else {
      assert (a + b)[..|a + b| - 1] == a + b[..|b| - 1];
      AfterAppend(w, a, b[..|b| - 1], capacity);
    }
  }

  lemma Follow(w: World, turns: seq<Turn>, turn: Turn, capacity: nat)
    requires Careful(w, turns, capacity) && !Risky(After(w, turns, capacity), turn)
    ensures After(w, turns + [turn], capacity) == Next(After(w, turns, capacity), turn, capacity)
    ensures Careful(w, turns + [turn], capacity)
  {
    hide Next, Risky;
    assert (turns + [turn])[..|turns|] == turns;
  }

  const PUBLISH := Publish(Always("", ""))

  /** A reconnection, and one more event. */
  function Reconnection(): seq<Turn> {
    [] + [Disconnect] + [Subscribe] + [AskReplay] + [Proceed(true)] + [Proceed(true)] + [PUBLISH] + [Receive]
  }

  /** Nothing is replayed to a client whose last id is the latest one. */
  lemma NothingReplayed(r: Run, capacity: nat)
    requires SseHandle.Inv(r, capacity) && capacity >= 1
    ensures ReplayAfter(r.st.history, Some(|r.log|)) == Replay(false, [])
  {
    SseHandle.ReplayExact(r, capacity, |r.log|);
  }

  /** A client that claims the latest id without having what it stands for is served on without
      a reset, and its next event leaves a gap. */
  lemma DishonestLoses(w: World, capacity: nat)
    requires SseHandle.Inv(w.run, capacity) && capacity >= 1
    requires w.client.lastSeen == Some(|w.run.log|) && w.client.Top() < |w.run.log| && !w.client.stale
    ensures Careful(w, Reconnection(), capacity) && Gap(After(w, Reconnection(), capacity))
  {
    hide Careful, After, SseHandle.Inv, SseHandle.Evict;
    var t6 := [] + [Disconnect] + [Subscribe] + [AskReplay] + [Proceed(true)] + [Proceed(true)];
    var v := Reconnected(w, capacity);
    var e := OneMore(v, capacity);
    AfterAppend(w, t6, [] + [PUBLISH] + [Receive], capacity);
    assert Reconnection() == t6 + ([] + [PUBLISH] + [Receive]);
    LastIsLater(w.client, w.run, e, capacity);
  }

  lemma Reconnected(w: World, capacity: nat) returns (v: World)
    requires SseHandle.Inv(w.run, capacity) && capacity >= 1
    requires w.client.lastSeen == Some(|w.run.log|) && w.client.Top() < |w.run.log| && !w.client.stale
    ensures v == World(w.run, Open([], Listening, |w.run.log|, |w.run.log|), w.client)
    ensures var t6 := [] + [Disconnect] + [Subscribe] + [AskReplay] + [Proceed(true)] + [Proceed(true)];
            Careful(w, t6, capacity) && After(w, t6, capacity) == v
  {
    hide Careful, After, SseHandle.Inv, SseHandle.Evict;
    var c, r, k := w.client, w.run, |w.run.log|;
    assert r.st.nextId == k by { LatestIsLength(r, capacity); }
    NothingSoFar(w, capacity);
    NothingReplayed(r, capacity);
    Follow(w, [], Disconnect, capacity);
    Follow(w, [] + [Disconnect], Subscribe, capacity);
    var t3 := [] + [Disconnect] + [Subscribe];
    Follow(w, t3, AskReplay, capacity);
    assert After(w, t3 + [AskReplay], capacity) == World(r, Open([], Loading(Replay(false, [])), 0, k), c);
    Follow(w, t3 + [AskReplay], Proceed(true), capacity);
    var t5 := t3 + [AskReplay] + [Proceed(true)];
    assert After(w, t5, capacity) == World(r, Open([], Settling, k, k), c);
    Follow(w, t5, Proceed(true), capacity);
    v := After(w, t5 + [Proceed(true)], capacity);
  }

  lemma NothingSoFar(w: World, capacity: nat)
    ensures After(w, [], capacity) == w && Careful(w, [], capacity)
  {}

  lemma LatestIsLength(r: Run, capacity: nat)
    requires SseHandle.Inv(r, capacity)
    ensures r.st.nextId == |r.log|
  {}

  lemma HeldAt(c: Client, log: seq<Event>, k: nat)
    requires Contiguous(c, log) && k < |c.held|
    ensures c.held[k] == log[c.base + k]
  {}

  lemma LastIsLater(c: Client, r: Run, e: Event, capacity: nat)
    requires SseHandle.Inv(r, capacity) && c.Top() < |r.log| && e.id == |r.log| + 1
    ensures !Contiguous(Take(c, e), r.log + [e])
  {
    hide Contiguous;
    if Contiguous(Take(c, e), r.log + [e]) { HeldAt(Take(c, e), r.log + [e], |c.held|); }
  }

  /** A risky keepalive or snapshot leaves the client with a latest id it does not have. */
  lemma RiskyFrameEnds(w: World, turn: Turn, capacity: nat)
    requires Good(w, capacity) && RiskyFrame(w, turn) && !w.conn.phase.Adopting?
    ensures var w' := Next(w, turn, capacity);
            && w'.run == w.run && !w'.client.stale
            && w'.client.lastSeen == Some(|w.run.log|) && w'.client.Top() < |w.run.log|
  {
    hide SseHandle.Evict;
  }

  /** A risky mark does so with the next keepalive. */
  lemma RiskyMark(w: World, turn: Turn, capacity: nat)
    requires Good(w, capacity) && RiskyFrame(w, turn) && w.conn.phase.Adopting?
    ensures var w' := Next(w, turn, capacity);
            var w'' := Next(w', Keepalive, capacity);
            && !Risky(w', Keepalive)
            && w''.run == w.run && !w''.client.stale
            && w''.client.lastSeen == Some(|w.run.log|) && w''.client.Top() < |w.run.log|
  {
    hide SseHandle.Evict;
  }

  /** While nothing newer waits, the task takes events off the queue and sends none. */
  lemma {:induction false} Drains(w: World, n: nat, capacity: nat) returns (more: seq<Turn>)
    requires SseHandle.Inv(w.run, capacity) && w.client.stale
    requires w.conn.Open? && w.conn.phase.Listening? && w.conn.delivered == |w.run.log|
    requires IsEnd(w.conn.queue, w.run.log) && |w.conn.queue| == n <= BROADCAST_CAPACITY
    ensures Careful(w, more, capacity) && After(w, more, capacity) == w.(conn := w.conn.(queue := []))
    decreases n
  {
    hide SseHandle.Evict, Careful, After;
    NothingSoFar(w, capacity);
    if n == 0 {
      more := [];
    } else {
      QueueHead(w.conn.queue, w.run.log);
      Follow(w, [], Receive, capacity);
      var next := w.(conn := w.conn.(queue := w.conn.queue[1..]));
      assert After(w, [] + [Receive], capacity) == next;
      var rest := Drains(next, n - 1, capacity);
      AfterAppend(w, [] + [Receive], rest, capacity);
      more := [] + [Receive] + rest;
    }
  }

  /** The next event is sent to it as if it had those before. */
  lemma StaleFollows(w: World, capacity: nat) returns (more: seq<Turn>)
    requires SseHandle.Inv(w.run, capacity) && capacity >= 1 && w.client.stale
    requires w.conn.Open? && w.conn.phase.Listening? && w.conn.delivered == |w.run.log|
    requires IsEnd(w.conn.queue, w.run.log) && |w.conn.queue| <= BROADCAST_CAPACITY
    ensures Careful(w, more, capacity) && Gap(After(w, more, capacity))
  {
    var first := Drains(w, |w.conn.queue|, capacity);
    hide Careful, After, SseHandle.Evict, SseHandle.Inv;
    var v := w.(conn := w.conn.(queue := []));
    var e := OneMore(v, capacity);
    AfterAppend(w, first, [] + [PUBLISH] + [Receive], capacity);
    more := first + ([] + [PUBLISH] + [Receive]);
  }

  /** The next event that is published reaches a client whose queue is empty. */
  lemma OneMore(w: World, capacity: nat) returns (e: Event)
    requires SseHandle.Inv(w.run, capacity)
    requires w.conn.Open? && w.conn.phase.Listening? && w.conn.delivered == |w.run.log| && w.conn.queue == []
    ensures e.id == |w.run.log| + 1
    ensures var more := [] + [PUBLISH] + [Receive];
            && Careful(w, more, capacity)
            && After(w, more, capacity).client == Take(w.client, e)
            && After(w, more, capacity).run.log == w.run.log + [e]
  {
    LatestIsLength(w.run, capacity);
    hide Careful, After, SseHandle.Evict, SseHandle.Inv;
    var r, k := w.run, |w.run.log|;
    NothingSoFar(w, capacity);
    Follow(w, [], PUBLISH, capacity);
    e := Event(k + 1, "", "");
    var next := Published(w, capacity);
    Follow(w, [] + [PUBLISH], Receive, capacity);
  }

  lemma Published(w: World, capacity: nat) returns (next: World)
    requires w.conn.Open? && w.conn.queue == [] && w.run.st.nextId == |w.run.log|
    ensures var e := Event(|w.run.log| + 1, "", "");
            && next == Next(w, PUBLISH, capacity)
            && next.conn == w.conn.(queue := [e]) && next.client == w.client && next.run.log == w.run.log + [e]
  {
    hide SseHandle.Evict;
    next := Next(w, PUBLISH, capacity);
    var e := Event(|w.run.log| + 1, "", "");
    assert (w.run.log + [e])[|w.run.log|..] == [e] && [] + [e] == [e];
  }

  /** The task loads the snapshot, and then sends the first replayed event or, without one, listens. */
  lemma TwoSteps(w: World, replay: SseHandle.Replay, capacity: nat) returns (v: World)
    requires w.conn.Open? && w.conn.phase == Loading(replay) && !replay.resetRequired
    requires w.client.stale && w.client.lastSeen.Some?
    ensures var two := [] + [Proceed(true)] + [Proceed(true)];
            Careful(w, two, capacity) && v == After(w, two, capacity)
    ensures v.run == w.run
    ensures replay.events != [] ==> v.client == Take(w.client, replay.events[0])
    ensures replay.events == [] ==> v.client == w.client && v.conn.Open? && v.conn.phase.Listening?
                                    && v.conn.queue == w.conn.queue
                                    && v.conn.delivered == Min(w.conn.delivered, w.Latest())
  {
    hide Careful, After;
    NothingSoFar(w, capacity);
    var first := Next(w, Proceed(true), capacity);
    Follow(w, [], Proceed(true), capacity);
    Follow(w, [] + [Proceed(true)], Proceed(true), capacity);
    v := Next(first, Proceed(true), capacity);
  }

  /** A client with an old id that is not told to start over is soon sent later events. */
  lemma AnswerLoses(w: World, capacity: nat) returns (more: seq<Turn>)
    requires Good(w, capacity) && capacity >= 1 && RiskyAnswer(w, AskReplay)
    ensures var w' := Next(w, AskReplay, capacity); Careful(w', more, capacity) && Gap(After(w', more, capacity))
  {
    var k, replay := w.client.lastSeen.value, ReplayAfter(w.run.st.history, w.client.lastSeen);
    SseHandle.AnswerToAny(w.run, capacity, k);
    LatestIsLength(w.run, capacity);
    var w' := Next(w, AskReplay, capacity);
    hide Careful, After, SseHandle.Evict, ReplayAfter;
    var v := TwoSteps(w', replay, capacity);
    var two := [] + [Proceed(true)] + [Proceed(true)];
    if replay.events != [] {
      more := two;
    } else {
      var rest := StaleFollows(v, capacity);
      AfterAppend(w', two, rest, capacity);
      more := two + rest;
    }
  }

  /** After a risky turn there is a way to go on, without another one, that ends in a gap. */
  lemma RiskLoses(w: World, turn: Turn, capacity: nat) returns (more: seq<Turn>)
    requires Good(w, capacity) && capacity >= 1 && Risky(w, turn)
    ensures var w' := Next(w, turn, capacity); Careful(w', more, capacity) && Gap(After(w', more, capacity))
  {
    hide Next, RiskyFrame, Gap, Careful, After, Reconnection, RiskyAnswer;
    var w' := Next(w, turn, capacity);
    if !RiskyFrame(w, turn) {
      AnswerIsAsked(w, turn);
      more := AnswerLoses(w, capacity);
      return;
    }
    assert SseHandle.Inv(w.run, capacity);
    hide Good;
    if w.conn.Open? && w.conn.phase.Adopting? {
      RiskyMark(w, turn, capacity);
      NothingSoFar(w', capacity);
      Follow(w', [], Keepalive, capacity);
      DishonestLoses(After(w', [] + [Keepalive], capacity), capacity);
      AfterAppend(w', [] + [Keepalive], Reconnection(), capacity);
      more := [] + [Keepalive] + Reconnection();
    } else {
      RiskyIsOpen(w, turn);
      RiskyFrameEnds(w, turn, capacity);
      DishonestLoses(w', capacity);
      more := Reconnection();
    }
  }

  lemma AnswerIsAsked(w: World, turn: Turn)
    requires RiskyAnswer(w, turn)
    ensures turn == AskReplay
  {}

  lemma RiskyIsOpen(w: World, turn: Turn)
    requires RiskyFrame(w, turn)
    ensures w.conn.Open?
  {}

  /** From some moment of the run on, `more` loses an event. */
  ghost predicate LosesFrom(turns: seq<Turn>, i: nat, more: seq<Turn>, capacity: nat)
    requires i <= |turns|
  {
    var w := After(Start(), turns[..i], capacity);
    Careful(w, more, capacity) && Gap(After(w, more, capacity))
  }

  /** The exact condition: some moment of the run can be continued, without another risky turn, to
      a client that misses an event it was not told about, if and only if the run has a risky
      turn. */
  lemma {:induction false} LossIff(turns: seq<Turn>, capacity: nat)
    requires capacity >= 1
    ensures (exists i: nat, more :: i <= |turns| && LosesFrom(turns, i, more, capacity))
       <==> !Careful(Start(), turns, capacity)
  {
    hide Good, Risky, Next, Gap;
    if Careful(Start(), turns, capacity) {
      forall i: nat, more | i <= |turns| ensures !LosesFrom(turns, i, more, capacity) {
        var front, w := turns[..i], After(Start(), turns[..i], capacity);
        assert turns == front + turns[i..];
        AfterAppend(Start(), front, turns[i..], capacity);
        if Careful(w, more, capacity) {
          AfterAppend(Start(), front, more, capacity);
          CarefulKeepsGood(front + more, capacity);
          GoodHasNoGap(After(w, more, capacity), capacity);
        }
      }
    } else {
      var front, last := turns[..|turns| - 1], turns[|turns| - 1];
      if Careful(Start(), front, capacity) {
        CarefulKeepsGood(front, capacity);
        var more := RiskLoses(After(Start(), front, capacity), last, capacity);
        assert turns[..|turns|] == turns;
        assert LosesFrom(turns, |turns|, more, capacity);
      } else {
        LossIff(front, capacity);
        var i: nat, more :| i <= |front| && LosesFrom(front, i, more, capacity);
        assert turns[..i] == front[..i];
        assert LosesFrom(turns, i, more, capacity);
      }
    }
  }

  lemma GoodHasNoGap(w: World, capacity: nat)
    requires Good(w, capacity)
    ensures !Gap(w)
  {}

  /** It happens: a first connection, one event, and a keepalive before the event is taken. */
  lemma KeepaliveLoses(capacity: nat) returns (more: seq<Turn>)
    requires capacity >= 1
    ensures var turns := [Subscribe, AskReplay, Proceed(true), Proceed(true), Proceed(true), PUBLISH, Keepalive];
            LosesFrom(turns, 7, more, capacity)
  {
    hide Careful, After, SseHandle.Evict, Gap, Good;
    var w := Start();
    var t5 := Opened(capacity);
    Follow(w, t5, PUBLISH, capacity);
    var t6 := t5 + [PUBLISH];
    CarefulKeepsGood(t6, capacity);
    var w6 := After(w, t6, capacity);
    assert Risky(w6, Keepalive);
    more := RiskLoses(w6, Keepalive, capacity);
    var turns := [Subscribe, AskReplay, Proceed(true), Proceed(true), Proceed(true), PUBLISH, Keepalive];
    assert turns == t6 + [Keepalive];
    LastTurn(w, t6, Keepalive, capacity);
    assert turns[..7] == turns;
  }

  /** So does this: an event is seen, the server restarts and publishes one of its own, and the
      client reconnects with the id that both have. */
  lemma RestartLoses(capacity: nat) returns (more: seq<Turn>)
    requires capacity >= 1
    ensures var turns := [Subscribe, AskReplay, Proceed(true), Proceed(true), Proceed(true), PUBLISH, Receive,
                          Restart, PUBLISH, Subscribe, AskReplay];
            LosesFrom(turns, 11, more, capacity)
  {
    hide Careful, After, SseHandle.Evict, Gap, Good, Next;
    var t7 := [] + [Subscribe] + [AskReplay] + [Proceed(true)] + [Proceed(true)] + [Proceed(true)] + [PUBLISH]
              + [Receive];
    var w7 := SeenOne(capacity);
    var back := [] + [Restart] + [PUBLISH] + [Subscribe];
    ComesBack(w7, capacity);
    AfterAppend(Start(), t7, back, capacity);
    var t10 := t7 + back;
    var w10 := After(Start(), t10, capacity);
    CarefulKeepsGood(t10, capacity);
    more := RiskLoses(w10, AskReplay, capacity);
    LastTurn(Start(), t10, AskReplay, capacity);
    var turns := [Subscribe, AskReplay, Proceed(true), Proceed(true), Proceed(true), PUBLISH, Receive,
                  Restart, PUBLISH, Subscribe, AskReplay];
    assert turns == t10 + [AskReplay] && turns[..11] == turns;
  }

  /** The server restarts and publishes an event, and the client subscribes again. */
  lemma ComesBack(w: World, capacity: nat)
    requires capacity >= 1 && !w.client.stale && w.client.Top() == 1 && w.client.lastSeen == Some(1)
    ensures var back := [] + [Restart] + [PUBLISH] + [Subscribe];
            Careful(w, back, capacity) && RiskyAnswer(After(w, back, capacity), AskReplay)
  {
    hide Careful, After, Next, Risky, RiskyAnswer, SseHandle.Step;
    var t1 := [] + [Restart];
    NothingSoFar(w, capacity);
    OneInRing(capacity);
    BackSteps(w, capacity);
    Follow(w, [], Restart, capacity);
    Follow(w, t1, PUBLISH, capacity);
    Follow(w, t1 + [PUBLISH], Subscribe, capacity);
    AnsweredNothing(1);
    IsServedOn(After(w, t1 + [PUBLISH] + [Subscribe], capacity));
  }

  lemma BackSteps(w: World, capacity: nat)
    requires w.client.Top() == 1
    ensures var c, run := w.client.(stale := true), SseHandle.Step(NoRun(), Always("", ""), capacity);
            && Next(w, Restart, capacity) == World(NoRun(), Away, c)
            && Next(World(NoRun(), Away, c), PUBLISH, capacity) == World(run, Away, c)
            && Next(World(run, Away, c), Subscribe, capacity) == World(run, Subscribed([]), c)
            && !Risky(w, Restart) && !Risky(World(NoRun(), Away, c), PUBLISH) && !Risky(World(run, Away, c), Subscribe)
  {
    hide SseHandle.Step, ReplayAfter;
  }

  lemma IsServedOn(w: World)
    requires w.conn == Subscribed([]) && w.client.stale
    requires ReplayAfter(w.run.st.history, w.client.lastSeen) == Replay(false, [])
    ensures RiskyAnswer(w, AskReplay)
  {
    hide ReplayAfter;
  }

  lemma AnsweredNothing(k: nat)
    requires k >= 1
    ensures ReplayAfter([Event(k, "", "")], Some(k)) == Replay(false, [])
  {
    SseHandle.NothingNewer([Event(k, "", "")], k);
  }

  lemma OneInRing(capacity: nat)
    requires capacity >= 1
    ensures SseHandle.Step(NoRun(), Always("", ""), capacity).st.history == [Event(1, "", "")]
  {
    assert [] + [Event(1, "", "")] == [Event(1, "", "")];
  }

  /** A first connection, and one event that is sent. */
  lemma SeenOne(capacity: nat) returns (w: World)
    requires capacity >= 1
    ensures var turns := [] + [Subscribe] + [AskReplay] + [Proceed(true)] + [Proceed(true)] + [Proceed(true)]
                         + [PUBLISH] + [Receive];
            Careful(Start(), turns, capacity) && After(Start(), turns, capacity) == w
    ensures !w.client.stale && w.client.Top() == 1 && w.client.lastSeen == Some(1)
  {
    hide Careful, After, SseHandle.Evict, Gap, Good;
    var t5 := Opened(capacity);
    var w5 := World(NoRun(), Open([], Listening, 0, 0), Client(0, [], Some(0), false, false));
    SseHandle.StartInv(capacity);
    var e := OneMore(w5, capacity);
    AfterAppend(Start(), t5, [] + [PUBLISH] + [Receive], capacity);
    var turns := t5 + [PUBLISH] + [Receive];
    assert t5 + ([] + [PUBLISH] + [Receive]) == turns;
    w := After(Start(), turns, capacity);
  }

  /** A first connection to a stream without events. */
  lemma Opened(capacity: nat) returns (turns: seq<Turn>)
    requires capacity >= 1
    ensures turns == [] + [Subscribe] + [AskReplay] + [Proceed(true)] + [Proceed(true)] + [Proceed(true)]
    ensures Careful(Start(), turns, capacity)
    ensures After(Start(), turns, capacity)
         == World(NoRun(), Open([], Listening, 0, 0), Client(0, [], Some(0), false, false))
  {
    hide Careful, After, SseHandle.Evict, Gap, Good;
    var w := Start();
    NothingSoFar(w, capacity);
    Follow(w, [], Subscribe, capacity);
    Follow(w, [] + [Subscribe], AskReplay, capacity);
    var t2 := [] + [Subscribe] + [AskReplay];
    Follow(w, t2, Proceed(true), capacity);
    var t3 := t2 + [Proceed(true)];
    assert After(w, t3, capacity) == World(NoRun(), Open([], Snapshotting, 0, 0), Client(0, [], None, false, false));
    Follow(w, t3, Proceed(true), capacity);
    Follow(w, t3 + [Proceed(true)], Proceed(true), capacity);
    turns := t3 + [Proceed(true)] + [Proceed(true)];
  }

  lemma LastTurn(w: World, turns: seq<Turn>, turn: Turn, capacity: nat)
    ensures After(w, turns + [turn], capacity) == Next(After(w, turns, capacity), turn, capacity)
  {
    hide Next;
    assert (turns + [turn])[..|turns|] == turns;
  }
}
