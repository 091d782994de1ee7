/** The grammar of a dispatch: an automaton that accepts every trace, and what every accepted
    trace has in common. */
module DispatchGrammar {
  import opened Text
  import opened Dispatch

  datatype Stage =
    | Idle
    | Commanded
    | Adopted(agent: Agent)
    | Chosen(agent: Agent)
    | Refused
    | Ready(agent: Agent)
    | AutoReplied(agent: Agent)
    | Typed(agent: Agent)
    | QueuedUp(agent: Agent)
    | Thought(agent: Agent)
    | After(agent: Agent, reply: Reply, reacting: bool, retried: bool)
    | Moved(agent: Agent, reacting: bool)
    | Settled(agent: Agent, reply: Reply)
    | Told(agent: Agent, ok: bool)
    | Permitted
    | Casting
    | Closed

  /** Where a conversation goes once its last reply is in and its reaction, if any, is sent. */
  function Ending(agent: Agent, reply: Reply, e: Effect, sanitize: string -> string): Option<Stage> {
    match e
    case Response(text) =>
      if text == (if reply.Ok? then reply.text else sanitize(reply.error)) then Some(Told(agent, reply.Ok?)) else None
    case Delivered(a, success) => if a == agent && !success && reply.Err? then Some(Closed) else None
    case _ => None
  }

  function Next(g: Stage, e: Effect, sanitize: string -> string): Option<Stage> {
    match g
    case Idle =>
      (match e
       case Response(_) => Some(Closed)
       case CommandRun(_, _) => Some(Commanded)
       case UserDefault(a) => Some(Adopted(a))
       case Routed(a) => Some(Chosen(a))
       case Permit(granted) => Some(if granted then Permitted else Refused)
       case _ => None)
    case Commanded => if e.Response? then Some(Closed) else None
    case Adopted(a) => if e == Routed(a) then Some(Chosen(a)) else None
    case Chosen(a) => if e.Permit? then Some(if e.granted then Ready(a) else Refused) else None
    case Refused => if e.Response? then Some(Closed) else None
    case Ready(a) =>
      if e.Response? then Some(AutoReplied(a)) else if e == Typing then Some(Typed(a)) else None
    case AutoReplied(a) => if e == Delivered(a, true) then Some(Closed) else None
    case Typed(a) =>
      if e == React(Queued) then Some(QueuedUp(a))
      else if e.Called? && e.agent == a then Some(After(a, e.reply, false, false))
      else None
    case QueuedUp(a) => if e == React(Thinking) then Some(Thought(a)) else None
    case Thought(a) => if e.Called? && e.agent == a then Some(After(a, e.reply, true, false)) else None
    case After(a, reply, reacting, retried) =>
      if e.Rerouted? then
        if reply.Err? && IsNotFound(reply.error) && !retried then Some(Moved(e.agent, reacting)) else None
      else if reacting then
        if e == React(if reply.Ok? then Done else Error) then Some(Settled(a, reply)) else None
      else Ending(a, reply, e, sanitize)
    case Moved(a, reacting) => if e.Called? && e.agent == a then Some(After(a, e.reply, reacting, true)) else None
    case Settled(a, reply) => Ending(a, reply, e, sanitize)
    case Told(a, ok) => if e == Delivered(a, ok) then Some(Closed) else None
    case Permitted => if e == Typing then Some(Casting) else None
    case Casting => if e.Called? then Some(Casting) else if e.Response? then Some(Closed) else None
    case Closed => None
  }

  function Walk(g: Stage, t: seq<Effect>, sanitize: string -> string): Option<Stage> {
    if t == [] then Some(g)
    else
      match Walk(g, t[..|t| - 1], sanitize)
      case None => None
      case Some(h) => Next(h, t[|t| - 1], sanitize)
  }

  /** A silent drop, or a run to the end. */
  predicate Accepts(t: seq<Effect>, sanitize: string -> string) {
    Walk(Idle, t, sanitize) in {Some(Idle), Some(Closed)}
  }

  // The traces are in the grammar

  lemma {:induction false} WalkAppend(g: Stage, a: seq<Effect>, b: seq<Effect>, sanitize: string -> string)
    ensures Walk(g, a + b, sanitize)
         == if Walk(g, a, sanitize).None? then None else Walk(Walk(g, a, sanitize).value, b, sanitize)
  {
    if b == [] {
      assert a + b == a;
    } else {
      assert (a + b)[..|a + b| - 1] == a + b[..|b| - 1];
      WalkAppend(g, a, b[..|b| - 1], sanitize);
    }
  }

  lemma WalkOne(g: Stage, e: Effect, sanitize: string -> string)
    ensures Walk(g, [e], sanitize) == Next(g, e, sanitize)
  {
    assert [e][..0] == [];
  }

  lemma WalkTwo(g: Stage, e: Effect, f: Effect, sanitize: string -> string)
    ensures Walk(g, [e, f], sanitize)
         == if Next(g, e, sanitize).None? then None else Next(Next(g, e, sanitize).value, f, sanitize)
  {
    assert [e, f][..1] == [e];
    WalkOne(g, e, sanitize);
  }

  lemma WalkFinish(env: Env, agent: Agent, reply: Reply, retried: bool)
    ensures Walk(After(agent, reply, Reacts(env), retried), Finish(env, agent, reply), env.sanitize) == Some(Closed)
  {
    hide Walk, Reacts;
    var g := After(agent, reply, Reacts(env), retried);
    var reaction := if reply.Ok? then React(Done) else React(Error);
    var told := Response(if reply.Ok? then reply.text else env.sanitize(reply.error));
    var delivered := Delivered(agent, reply.Ok?);
    var tail := if reply.Err? && env.suppressErrors then [delivered] else [told, delivered];
    var h := if Reacts(env) then Settled(agent, reply) else g;
    WalkOne(g, reaction, env.sanitize);
    WalkOne(h, delivered, env.sanitize);
    WalkTwo(h, told, delivered, env.sanitize);
    WalkAppend(g, [reaction], tail, env.sanitize);
    assert Finish(env, agent, reply) == (if Reacts(env) then [reaction] else []) + tail;
    assert [] + tail == tail;
  }

  lemma WalkConverse(env: Env, agent: Agent, g: Stage, payload: string, retryPayload: string)
    requires g == if Reacts(env) then Thought(agent) else Typed(agent)
    ensures Walk(g, Converse(env, agent, payload, retryPayload), env.sanitize) == Some(Closed)
  {
    hide Walk, Finish, Reacts, IsNotFound;
    var call := Called(agent, payload, env.reply);
    WalkOne(g, call, env.sanitize);
    var other := if env.reply.Err? then Reresolved(env, env.reply.error) else None;
    if other.Some? {
      var again := Called(other.value, retryPayload, env.retryReply);
      WalkTwo(After(agent, env.reply, Reacts(env), false), Rerouted(other.value), again, env.sanitize);
      WalkFinish(env, other.value, env.retryReply, true);
      WalkAppend(After(agent, env.reply, Reacts(env), false), [Rerouted(other.value), again],
                 Finish(env, other.value, env.retryReply), env.sanitize);
      WalkAppend(g, [call], [Rerouted(other.value), again] + Finish(env, other.value, env.retryReply), env.sanitize);
    } else {
      WalkFinish(env, agent, env.reply, false);
      WalkAppend(g, [call], Finish(env, agent, env.reply), env.sanitize);
    }
  }

  lemma WalkOpening(env: Env, agent: Agent)
    ensures Walk(Ready(agent), Opening(env), env.sanitize)
         == Some(if Reacts(env) then Thought(agent) else Typed(agent))
  {
    hide Walk, Reacts;
    WalkOne(Ready(agent), Typing, env.sanitize);
    WalkTwo(Typed(agent), React(Queued), React(Thinking), env.sanitize);
    WalkAppend(Ready(agent), [Typing], [React(Queued), React(Thinking)], env.sanitize);
    assert [Typing] + [] == [Typing];
  }

  lemma WalkRoute(env: Env)
    ensures var (routing, agent) := Route(env);
            Walk(Idle, routing, env.sanitize) == Some(if agent.Some? then Chosen(agent.value) else Closed)
  {
    hide Walk;
    var (routing, agent) := Route(env);
    if env.resolved.Some? {
      WalkOne(Idle, Routed(agent.value), env.sanitize);
    } else if agent.Some? {
      WalkTwo(Idle, UserDefault(agent.value), Routed(agent.value), env.sanitize);
    } else {
      WalkOne(Idle, Response(NO_AGENTS), env.sanitize);
    }
  }

  lemma WalkDirect(env: Env, mayAutoReply: bool, payload: string, retryPayload: string)
    ensures Walk(Idle, Direct(env, mayAutoReply, payload, retryPayload), env.sanitize) == Some(Closed)
  {
    hide Walk, Route, Converse, Opening;
    var (routing, agent) := Route(env);
    WalkRoute(env);
    if agent.Some? {
      var a := agent.value;
      if env.denied.Some? {
        var denial := Response("Access denied: " + env.denied.value);
        WalkTwo(Chosen(a), Permit(false), denial, env.sanitize);
        WalkAppend(Idle, routing, [Permit(false), denial], env.sanitize);
      } else if mayAutoReply && env.autoReply.Some? {
        var rest := [Response(env.autoReply.value), Delivered(a, true)];
        WalkOne(Chosen(a), Permit(true), env.sanitize);
        WalkTwo(Ready(a), rest[0], rest[1], env.sanitize);
        WalkAppend(Idle, routing, [Permit(true)], env.sanitize);
        WalkAppend(Idle, routing + [Permit(true)], rest, env.sanitize);
        assert routing + [Permit(true)] + rest
            == routing + [Permit(true), Response(env.autoReply.value), Delivered(a, true)];
      } else {
        WalkOne(Chosen(a), Permit(true), env.sanitize);
        WalkOpening(env, a);
        WalkConverse(env, a, if Reacts(env) then Thought(a) else Typed(a), payload, retryPayload);
        WalkAppend(Idle, routing, [Permit(true)], env.sanitize);
        WalkAppend(Idle, routing + [Permit(true)], Opening(env), env.sanitize);
        var talk := Converse(env, a, payload, retryPayload);
        WalkAppend(Idle, routing + [Permit(true)] + Opening(env), talk, env.sanitize);
      }
    }
  }

  lemma WalkEmpty(sanitize: string -> string)
    ensures Walk(Casting, [], sanitize) == Some(Casting)
  {}

  lemma WalkTarget(env: Env, text: string, i: nat)
    requires i < |env.broadcast|
    ensures Walk(Casting, OneTarget(env, text, i).0, env.sanitize) == Some(Casting)
  {
    hide Line;
    var call := OneTarget(env, text, i).0;
    if call != [] {
      assert call == [call[0]];
      WalkOne(Casting, call[0], env.sanitize);
    }
  }

  lemma {:induction false} WalkCalls(env: Env, text: string, i: nat)
    requires i <= |env.broadcast|
    ensures Walk(Casting, Broadcast(env, text, i).0, env.sanitize) == Some(Casting)
    decreases |env.broadcast| - i
  {
    hide Walk, OneTarget;
    assert Walk(Casting, [], env.sanitize) == Some(Casting) by { WalkEmpty(env.sanitize); }
    if i < |env.broadcast| {
      WalkCalls(env, text, i + 1);
      WalkTarget(env, text, i);
      WalkAppend(Casting, OneTarget(env, text, i).0, Broadcast(env, text, i + 1).0, env.sanitize);
    }
  }

  lemma WalkBroadcast(env: Env, text: string)
    ensures Walk(Idle, BroadcastTrace(env, text), env.sanitize) == Some(Closed)
  {
    hide Walk;
    if env.denied.Some? {
      WalkTwo(Idle, Permit(false), Response("Access denied: " + env.denied.value), env.sanitize);
    } else {
      hide Broadcast;
      var (calls, lines) := Broadcast(env, text, 0);
      var last := Response(Join(lines, "\n\n"));
      WalkTwo(Idle, Permit(true), Typing, env.sanitize);
      WalkCalls(env, text, 0);
      WalkOne(Casting, last, env.sanitize);
      WalkAppend(Idle, [Permit(true), Typing], calls, env.sanitize);
      WalkAppend(Idle, [Permit(true), Typing] + calls, [last], env.sanitize);
    }
  }

  /** Every dispatch, whatever the outside answers, follows the grammar. */
  lemma EveryTraceAccepted(m: Message, env: Env)
    ensures Accepts(Trace(m, env), env.sanitize)
  {
    hide Walk, Direct, BroadcastTrace, Describe, Prefixed, FirstWord, RestOf, SplitWhitespace;
    if Ignored(m, env.overrides) {
      WalkNothing(env.sanitize);
    } else if Limited(env) {
      WalkOne(Idle, Response(env.rateLimited.value), env.sanitize);
    } else if m.content.Command? {
      WalkTwo(Idle, CommandRun(m.content.name, m.content.args), Response(env.commandResult), env.sanitize);
    } else if m.content.Image? && env.imageBlocks.Some? {
      WalkDirect(env, false, env.imageBlocks.value, env.imageBlocks.value);
    } else {
      var text := Describe(m.content);
      if IsSlash(text) { FirstWordSlash(text); }
      WalkTwo(Idle, CommandRun(if IsSlash(text) then FirstWord(text)[1..] else "", SplitWhitespace(RestOf(text))),
              Response(env.commandResult), env.sanitize);
      WalkBroadcast(env, text);
      WalkDirect(env, true, Prefixed(m, text), text);
    }
  }

  lemma WalkNothing(sanitize: string -> string)
    ensures Walk(Idle, [], sanitize) == Some(Idle)
  {}

  // What accepted traces have in common

  function Responses(t: seq<Effect>): nat {
    if t == [] then 0 else Responses(t[..|t| - 1]) + if t[|t| - 1].Response? then 1 else 0
  }

  function Deliveries(t: seq<Effect>): nat {
    if t == [] then 0 else Deliveries(t[..|t| - 1]) + if t[|t| - 1].Delivered? then 1 else 0
  }

  function Calls(t: seq<Effect>): nat {
    if t == [] then 0 else Calls(t[..|t| - 1]) + if t[|t| - 1].Called? then 1 else 0
  }

  lemma {:induction false} ResponsesAtStage(t: seq<Effect>, sanitize: string -> string)
    requires Walk(Idle, t, sanitize).Some?
    ensures var g := Walk(Idle, t, sanitize).value;
            && Responses(t) <= (if g.AutoReplied? || g.Told? || g.Closed? then 1 else 0)
            && Deliveries(t) <= (if g.Closed? then 1 else 0)
  {
    if t == [] {
    } else {
      ResponsesAtStage(t[..|t| - 1], sanitize);
    }
  }

  predicate NeedsPermission(g: Stage) {
    !(g.Idle? || g.Commanded? || g.Adopted? || g.Chosen? || g.Refused? || g.Closed?)
  }

  lemma {:induction false} PermissionGranted(t: seq<Effect>, sanitize: string -> string)
    requires Walk(Idle, t, sanitize).Some? && NeedsPermission(Walk(Idle, t, sanitize).value)
    ensures Permit(true) in t
  {
    if t == [] {
    } else {
      var front := t[..|t| - 1];
      if NeedsPermission(Walk(Idle, front, sanitize).value) { PermissionGranted(front, sanitize); }
    }
  }

  lemma {:induction false} PrefixWalks(t: seq<Effect>, i: nat, sanitize: string -> string)
    requires Walk(Idle, t, sanitize).Some? && i <= |t|
    ensures Walk(Idle, t[..i], sanitize).Some?
    ensures i < |t| ==> Next(Walk(Idle, t[..i], sanitize).value, t[i], sanitize).Some?
  {
    hide Next;
    if i < |t| {
      var front := t[..|t| - 1];
      assert front[..i] == t[..i];
      PrefixWalks(front, i, sanitize);
    } else {
      assert t[..i] == t;
    }
  }

  lemma WalkPrefix(t: seq<Effect>, i: nat, sanitize: string -> string)
    requires Walk(Idle, t, sanitize).Some? && i < |t|
    ensures Walk(Idle, t[..i], sanitize).Some?
    ensures Walk(Idle, t[..i + 1], sanitize) == Next(Walk(Idle, t[..i], sanitize).value, t[i], sanitize)
  {
    PrefixWalks(t, i, sanitize);
    assert t[..i + 1][..i] == t[..i];
  }

  lemma DeliveryCloses(g: Stage, e: Effect, sanitize: string -> string)
    requires e.Delivered? && Next(g, e, sanitize).Some?
    ensures Next(g, e, sanitize) == Some(Closed)
  {}

  /** A delivery record is the last effect. */
  lemma DeliveryIsLast(t: seq<Effect>, i: nat, sanitize: string -> string)
    requires Walk(Idle, t, sanitize).Some? && i < |t| && t[i].Delivered?
    ensures i == |t| - 1
  {
    hide Walk, Next;
    PrefixWalks(t, i, sanitize);
    WalkPrefix(t, i, sanitize);
    DeliveryCloses(Walk(Idle, t[..i], sanitize).value, t[i], sanitize);
    if i + 1 < |t| {
      PrefixWalks(t, i + 1, sanitize);
      NothingAfterClosed(t[i + 1], sanitize);
    }
  }

  lemma NothingAfterClosed(e: Effect, sanitize: string -> string)
    ensures Next(Closed, e, sanitize).None?
  {}

  /** At most one response and at most one delivery record, and the record is the last effect. */
  lemma OneResponseOneDelivery(t: seq<Effect>, sanitize: string -> string)
    requires Walk(Idle, t, sanitize).Some?
    ensures Responses(t) <= 1 && Deliveries(t) <= 1
    ensures RecordIsLast(t)
  {
    hide Walk;
    ResponsesAtStage(t, sanitize);
    forall i | 0 <= i < |t| && t[i].Delivered? ensures i == |t| - 1 { DeliveryIsLast(t, i, sanitize); }
  }

  /** No agent is called before authorization succeeded. */
  lemma CallsArePermitted(t: seq<Effect>, sanitize: string -> string, i: nat)
    requires Walk(Idle, t, sanitize).Some? && i < |t| && t[i].Called?
    ensures Permit(true) in t[..i]
  {
    PrefixWalks(t, i, sanitize);
    PermissionGranted(t[..i], sanitize);
  }

  /** An agent was chosen for the whole message: this is not a broadcast. */
  ghost predicate OnStandardPath(t: seq<Effect>) { exists i :: 0 <= i < |t| && t[i].Routed? }

  /** The number of calls at each stage, given whether an agent was chosen. */
  predicate CallsAt(g: Stage, calls: nat, chosen: bool) {
    match g
    case After(_, _, _, retried) => calls == if retried then 2 else 1
    case Moved(_, _) => calls == 1
    case Settled(_, _) => 1 <= calls <= 2
    case Told(_, _) => 1 <= calls <= 2
    case Casting => !chosen
    case Permitted => calls == 0 && !chosen
    case Closed => calls <= 2 || !chosen
    case _ => calls == 0 && (g.Idle? || g.Commanded? || g.Adopted? ==> !chosen)
  }

  lemma NextKeepsCalls(g: Stage, e: Effect, calls: nat, chosen: bool, sanitize: string -> string)
    requires CallsAt(g, calls, chosen) && Next(g, e, sanitize).Some?
    ensures CallsAt(Next(g, e, sanitize).value, calls + if e.Called? then 1 else 0, chosen || e.Routed?)
  {
    hide IsNotFound;
  }

  lemma {:induction false} CallsAtStage(t: seq<Effect>, sanitize: string -> string)
    requires Walk(Idle, t, sanitize).Some?
    ensures CallsAt(Walk(Idle, t, sanitize).value, Calls(t), OnStandardPath(t))
  {
    if t == [] {
    } else {
      hide Next, CallsAt;
      var front, last := t[..|t| - 1], t[|t| - 1];
      CallsAtStage(front, sanitize);
      NextKeepsCalls(Walk(Idle, front, sanitize).value, last, Calls(front), OnStandardPath(front), sanitize);
      assert forall i :: 0 <= i < |front| ==> front[i] == t[i];
    }
  }

  /** On the standard path there are at most two calls. */
  lemma AtMostTwoCalls(t: seq<Effect>, sanitize: string -> string)
    requires Walk(Idle, t, sanitize).Some? && OnStandardPath(t)
    ensures Calls(t) <= 2
  {
    hide Walk, Calls, OnStandardPath;
    CallsAtStage(t, sanitize);
  }

  /** A second call on the standard path goes to the agent re-resolved just before it, and only
      after the first call failed because its agent was not found. */
  lemma SecondCallIsRetry(t: seq<Effect>, sanitize: string -> string, j: nat)
    requires Walk(Idle, t, sanitize).Some? && j < |t| && t[j].Called? && Calls(t[..j]) > 0
    requires OnStandardPath(t[..j])
    ensures Calls(t[..j]) == 1 && j >= 2 && t[j - 1] == Rerouted(t[j].agent)
    ensures t[j - 2].Called? && t[j - 2].reply.Err? && IsNotFound(t[j - 2].reply.error)
  {
    hide Next, Walk, IsNotFound, Calls;
    var before, earlier := t[..j], t[..j - 1];
    PrefixWalks(t, j, sanitize);
    CallsAtStage(before, sanitize);
    CallStages(Walk(Idle, before, sanitize).value, t[j], sanitize);
    assert earlier == before[..|before| - 1];
    MovedFollowsReroute(before, sanitize);
    PrefixWalks(t, j - 1, sanitize);
    ReroutedStages(Walk(Idle, earlier, sanitize).value, t[j - 1], sanitize);
    AfterFollowsCall(earlier, sanitize);
  }

  lemma CallStages(g: Stage, e: Effect, sanitize: string -> string)
    requires e.Called? && Next(g, e, sanitize).Some?
    ensures g.Typed? || g.Thought? || g.Casting? || (g.Moved? && g.agent == e.agent)
  {}

  lemma ReroutedStages(g: Stage, e: Effect, sanitize: string -> string)
    requires e.Rerouted? && Next(g, e, sanitize).Some?
    ensures g.After? && g.reply.Err? && IsNotFound(g.reply.error)
  {
    hide IsNotFound;
  }

  lemma AfterStages(g: Stage, e: Effect, sanitize: string -> string)
    ensures var h := Next(g, e, sanitize);
            && (h.Some? && h.value.After? ==> e.Called? && e.reply == h.value.reply)
            && (h.Some? && h.value.Moved? ==> e == Rerouted(h.value.agent))
  {
    hide IsNotFound;
  }

  lemma AfterFollowsCall(t: seq<Effect>, sanitize: string -> string)
    requires Walk(Idle, t, sanitize).Some? && Walk(Idle, t, sanitize).value.After?
    ensures t != [] && t[|t| - 1].Called? && t[|t| - 1].reply == Walk(Idle, t, sanitize).value.reply
  {
    hide Next;
    if t != [] { AfterStages(Walk(Idle, t[..|t| - 1], sanitize).value, t[|t| - 1], sanitize); }
  }

  lemma MovedFollowsReroute(t: seq<Effect>, sanitize: string -> string)
    requires Walk(Idle, t, sanitize).Some? && Walk(Idle, t, sanitize).value.Moved?
    ensures t != [] && t[|t| - 1] == Rerouted(Walk(Idle, t, sanitize).value.agent)
  {
    hide Next;
    if t != [] { AfterStages(Walk(Idle, t[..|t| - 1], sanitize).value, t[|t| - 1], sanitize); }
  }

  function Count(t: seq<Effect>, e: Effect): nat {
    if t == [] then 0 else Count(t[..|t| - 1], e) + if t[|t| - 1] == e then 1 else 0
  }

  /** How often each reaction was sent at each stage, given the last effect. */
  ghost predicate ReactionsAt(g: Stage, thinking: nat, done: nat, failed: nat, last: Option<Effect>) {
    match g
    case Thought(_) => thinking == 1 && done == 0 && failed == 0
    case After(_, _, reacting, _) => thinking == (if reacting then 1 else 0) && done == 0 && failed == 0
    case Moved(_, reacting) => thinking == (if reacting then 1 else 0) && done == 0 && failed == 0
    case Settled(_, reply) => thinking <= 1 && done == (if reply.Ok? then thinking else 0) && done + failed == thinking
    case Told(_, ok) => thinking <= 1 && done == (if ok then thinking else 0) && done + failed == thinking
    case Closed =>
      && thinking <= 1 && done + failed == thinking
      && (thinking == 1 ==> last.Some? && last.value.Delivered? && (last.value.success <==> done == 1))
    case _ => thinking == 0 && done == 0 && failed == 0
  }

  lemma NextKeepsReactions(g: Stage, e: Effect, thinking: nat, done: nat, failed: nat, last: Option<Effect>,
                           sanitize: string -> string)
    requires ReactionsAt(g, thinking, done, failed, last) && Next(g, e, sanitize).Some?
    ensures ReactionsAt(Next(g, e, sanitize).value,
                        thinking + if e == React(Thinking) then 1 else 0,
                        done + if e == React(Done) then 1 else 0,
                        failed + if e == React(Error) then 1 else 0, Some(e))
  {
    hide IsNotFound;
  }

  function Last(t: seq<Effect>): Option<Effect> { if t == [] then None else Some(t[|t| - 1]) }

  lemma {:induction false} ReactionsAtStage(t: seq<Effect>, sanitize: string -> string)
    requires Walk(Idle, t, sanitize).Some?
    ensures ReactionsAt(Walk(Idle, t, sanitize).value,
                        Count(t, React(Thinking)), Count(t, React(Done)), Count(t, React(Error)), Last(t))
  {
    if t == [] {
    } else {
      hide Next, ReactionsAt;
      var front := t[..|t| - 1];
      ReactionsAtStage(front, sanitize);
      NextKeepsReactions(Walk(Idle, front, sanitize).value, t[|t| - 1],
                         Count(front, React(Thinking)), Count(front, React(Done)), Count(front, React(Error)),
                         Last(front), sanitize);
    }
  }

  predicate IsOutcome(e: Effect) { e == React(Done) || e == React(Error) }

  lemma OutcomeStages(g: Stage, e: Effect, sanitize: string -> string)
    requires IsOutcome(e) && Next(g, e, sanitize).Some?
    ensures g.After? && g.reacting
  {}

  /** Done and Error come only after Thinking. */
  lemma OutcomeFollowsThinking(t: seq<Effect>, j: nat, sanitize: string -> string)
    requires Walk(Idle, t, sanitize).Some? && j < |t| && IsOutcome(t[j])
    ensures React(Thinking) in t[..j]
  {
    hide Walk, Next, Count;
    PrefixWalks(t, j, sanitize);
    OutcomeStages(Walk(Idle, t[..j], sanitize).value, t[j], sanitize);
    ReactionsAtStage(t[..j], sanitize);
    CountIn(t[..j], React(Thinking));
  }

  lemma OutcomesComeLater(t: seq<Effect>, sanitize: string -> string)
    requires Walk(Idle, t, sanitize).Some?
    ensures OutcomesFollow(t)
  {
    hide Walk;
    forall j | 0 <= j < |t| && IsOutcome(t[j]) ensures React(Thinking) in t[..j] {
      OutcomeFollowsThinking(t, j, sanitize);
    }
  }

  /** After Thinking exactly one of Done and Error follows, and the trace ends with a delivery
      record of the matching success. */
  lemma ThinkingIsResolved(t: seq<Effect>, sanitize: string -> string)
    requires Accepts(t, sanitize) && React(Thinking) in t
    ensures OutcomesFollow(t) && Resolved(t)
  {
    ReactionsAtStage(t, sanitize);
    CountIn(t, React(Thinking));
    CountIn(t, React(Done));
    CountIn(t, React(Error));
    hide Walk, Count, OutcomesFollow;
    OutcomesComeLater(t, sanitize);
  }

  lemma {:induction false} CountIn(t: seq<Effect>, e: Effect)
    ensures Count(t, e) > 0 <==> e in t
  {
    if t == [] {
    } else {
      CountIn(t[..|t| - 1], e);
      assert t == t[..|t| - 1] + [t[|t| - 1]];
    }
  }

  /** The call at `j` is the second of the standard path: a retry with the agent re-resolved just
      before, after the first call did not find its agent. */
  ghost predicate IsRetry(t: seq<Effect>, j: nat)
    requires j < |t| && t[j].Called?
  {
    && Calls(t[..j]) == 1 && j >= 2 && t[j - 1] == Rerouted(t[j].agent)
    && t[j - 2].Called? && t[j - 2].reply.Err? && IsNotFound(t[j - 2].reply.error)
  }

  /** A delivery record is the last effect. */
  ghost predicate RecordIsLast(t: seq<Effect>) {
    forall i :: 0 <= i < |t| && t[i].Delivered? ==> i == |t| - 1
  }

  ghost predicate CallsPermitted(t: seq<Effect>) {
    forall i :: 0 <= i < |t| && t[i].Called? ==> Permit(true) in t[..i]
  }

  ghost predicate OutcomesFollow(t: seq<Effect>) {
    forall j :: 0 <= j < |t| && IsOutcome(t[j]) ==> React(Thinking) in t[..j]
  }

  /** On the standard path every call but the first is the retry. */
  ghost predicate RetriesOnly(t: seq<Effect>) {
    forall j :: 0 <= j < |t| && t[j].Called? && Calls(t[..j]) > 0 && OnStandardPath(t[..j]) ==> IsRetry(t, j)
  }

  /** The end of the trace tells the outcome that was shown. */
  ghost predicate Resolved(t: seq<Effect>) {
    && Count(t, React(Done)) + Count(t, React(Error)) == 1
    && t != [] && t[|t| - 1].Delivered?
    && React(if t[|t| - 1].success then Done else Error) in t
  }

  lemma OnlyRetries(t: seq<Effect>, sanitize: string -> string)
    requires Walk(Idle, t, sanitize).Some?
    ensures RetriesOnly(t)
  {
    hide Walk, Calls, OnStandardPath, IsNotFound;
    forall j | 0 <= j < |t| && t[j].Called? && Calls(t[..j]) > 0 && OnStandardPath(t[..j]) ensures IsRetry(t, j) {
      SecondCallIsRetry(t, sanitize, j);
    }
  }

  lemma AllCallsPermitted(t: seq<Effect>, sanitize: string -> string)
    requires Walk(Idle, t, sanitize).Some?
    ensures CallsPermitted(t)
  {
    hide Walk;
    forall i | 0 <= i < |t| && t[i].Called? ensures Permit(true) in t[..i] { CallsArePermitted(t, sanitize, i); }
  }

  /** All of it, for every message and every environment. */
  lemma DispatchSafe(m: Message, env: Env)
    ensures var t := Trace(m, env);
            && Responses(t) <= 1 && Deliveries(t) <= 1 && RecordIsLast(t)
            && CallsPermitted(t)
            && (OnStandardPath(t) ==> Calls(t) <= 2)
            && RetriesOnly(t)
            && OutcomesFollow(t)
            && (React(Thinking) in t ==> Resolved(t))
  {
    hide Trace, Walk, Calls, Count, Responses, Deliveries, OnStandardPath;
    hide CallsPermitted, RetriesOnly, OutcomesFollow, RecordIsLast, Resolved;
    var t := Trace(m, env);
    EveryTraceAccepted(m, env);
    OneResponseOneDelivery(t, env.sanitize);
    AllCallsPermitted(t, env.sanitize);
    if OnStandardPath(t) { AtMostTwoCalls(t, env.sanitize); }
    OnlyRetries(t, env.sanitize);
    OutcomesComeLater(t, env.sanitize);
    if React(Thinking) in t { ThinkingIsResolved(t, env.sanitize); }
  }
}
