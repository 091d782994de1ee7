/** What a dispatch says: the text each agent is called with, the reply that is told, and who gets it. */
module DispatchContent {
  import opened Text
  import opened Dispatch
  import opened DispatchGrammar

  // Which way a message goes

  /** The message comes as content blocks. */
  predicate AsBlocks(m: Message, env: Env) { m.content.Image? && env.imageBlocks.Some? }

  /** The message is a command, or a text that spells one. */
  predicate AsCommand(m: Message, env: Env) {
    m.content.Command?
    || (!AsBlocks(m, env) && IsSlash(Describe(m.content)) && env.isCommand(FirstWord(Describe(m.content))[1..]))
  }

  predicate Slowed(m: Message, env: Env) { !Ignored(m, env.overrides) && Limited(env) }

  /** Agents are to answer. */
  predicate ForAgents(m: Message, env: Env) {
    !Ignored(m, env.overrides) && !Limited(env) && !AsCommand(m, env)
  }

  predicate ForMany(m: Message, env: Env) { ForAgents(m, env) && !AsBlocks(m, env) && env.broadcast != [] }

  predicate ForOne(m: Message, env: Env) { ForAgents(m, env) && (AsBlocks(m, env) || env.broadcast == []) }

  /** The agent that is bound to the sender, else the assistant, else the first one there is. */
  function Target(env: Env): Option<Agent> {
    if env.resolved.Some? then env.resolved
    else if env.assistant.Some? then env.assistant
    else env.firstAgent
  }

  // Calls

  /** The calls in a trace, in order. */
  function CallsOf(t: seq<Effect>): seq<Effect> {
    if t == [] then [] else CallsOf(t[..|t| - 1]) + if t[|t| - 1].Called? then [t[|t| - 1]] else []
  }

  lemma {:induction false} CallsAppend(a: seq<Effect>, b: seq<Effect>)
    ensures CallsOf(a + b) == CallsOf(a) + CallsOf(b)
  {
    if b == [] {
      assert a + b == a;
    } else {
      assert (a + b)[..|a + b| - 1] == a + b[..|b| - 1];
      CallsAppend(a, b[..|b| - 1]);
    }
  }

  /** No call among these. */
  ghost predicate Quiet(t: seq<Effect>) { forall i :: 0 <= i < |t| ==> !t[i].Called? }

  lemma {:induction false} QuietCalls(t: seq<Effect>)
    requires Quiet(t)
    ensures CallsOf(t) == []
  {
    if t != [] { QuietCalls(t[..|t| - 1]); }
  }

  lemma OneCall(before: seq<Effect>, call: Effect, after: seq<Effect>)
    requires Quiet(before) && Quiet(after) && call.Called?
    ensures CallsOf(before + [call] + after) == [call]
  {
    QuietCalls(before);
    QuietCalls(after);
    CallsAppend(before, [call]);
    CallsAppend(before + [call], after);
    assert [call][..0] == [];
  }

  /** A call is found among the calls at its number. */
  lemma {:induction false} CallAt(t: seq<Effect>, i: nat)
    requires i < |t|
    ensures |CallsOf(t)| == Calls(t)
    ensures t[i].Called? ==> Calls(t[..i]) < |CallsOf(t)| && CallsOf(t)[Calls(t[..i])] == t[i]
    decreases |t|
  {
    var front := t[..|t| - 1];
    if i < |front| {
      assert front[..i] == t[..i];
      CallAt(front, i);
    } else {
      CallCount(front);
    }
  }

  lemma {:induction false} CallCount(t: seq<Effect>)
    ensures |CallsOf(t)| == Calls(t)
  {
    if t != [] { CallCount(t[..|t| - 1]); }
  }

  // The conversation with one agent

  /** The agent that is asked again. */
  function Again(env: Env): Option<Agent> {
    if env.reply.Err? && IsNotFound(env.reply.error) && env.defaultName.Some? then env.found else None
  }

  function LastReply(env: Env): Reply { if Again(env).Some? then env.retryReply else env.reply }

  lemma QuietFinish(env: Env, agent: Agent, reply: Reply)
    ensures Quiet(Finish(env, agent, reply))
  {}

  lemma CallsOfConverse(env: Env, agent: Agent, payload: string, again: string)
    ensures CallsOf(Converse(env, agent, payload, again))
         == [Called(agent, payload, env.reply)]
            + if Again(env).Some? then [Called(Again(env).value, again, env.retryReply)] else []
  {
    hide CallsOf, Finish, IsNotFound;
    var first := Called(agent, payload, env.reply);
    if Again(env).Some? {
      var other := Again(env).value;
      var second := Called(other, again, env.retryReply);
      var end := Finish(env, other, env.retryReply);
      QuietFinish(env, other, env.retryReply);
      OneCall([], first, [Rerouted(other)]);
      OneCall([], second, end);
      CallsAppend([] + [first] + [Rerouted(other)], [] + [second] + end);
      assert Converse(env, agent, payload, again) == [] + [first] + [Rerouted(other)] + ([] + [second] + end);
    } else {
      QuietFinish(env, agent, env.reply);
      OneCall([], first, Finish(env, agent, env.reply));
      assert Converse(env, agent, payload, again) == [] + [first] + Finish(env, agent, env.reply);
    }
  }

  /** No agent is asked: access is denied, or an automatic reply is given to a text. */
  predicate Unasked(env: Env, mayAutoReply: bool) { env.denied.Some? || (mayAutoReply && env.autoReply.Some?) }

  lemma CallsOfDirect(env: Env, mayAutoReply: bool, payload: string, again: string)
    ensures CallsOf(Direct(env, mayAutoReply, payload, again))
         == if Target(env).None? || Unasked(env, mayAutoReply) then []
            else [Called(Target(env).value, payload, env.reply)]
                 + if Again(env).Some? then [Called(Again(env).value, again, env.retryReply)] else []
  {
    hide CallsOf, Converse;
    var (routing, agent) := Route(env);
    var t := Direct(env, mayAutoReply, payload, again);
    if Target(env).None? || Unasked(env, mayAutoReply) {
      QuietCalls(t);
    } else {
      CallsOfConverse(env, agent.value, payload, again);
      QuietCalls(routing + [Permit(true)] + Opening(env));
      CallsAppend(routing + [Permit(true)] + Opening(env), Converse(env, agent.value, payload, again));
    }
  }

  // What every call carries

  /** The sender in brackets, with an address if there is one; nothing for a sender without a name. */
  function SenderTag(m: Message): string {
    var address := if m.senderEmail.Some? then " <" + m.senderEmail.value + ">" else "";
    if m.senderName != "" then "[From: " + m.senderName + address + "] " else ""
  }

  /** What an agent is asked first, and what it is asked again. */
  function First(m: Message, env: Env): string
    requires !m.content.Command?
  {
    if AsBlocks(m, env) then env.imageBlocks.value else SenderTag(m) + Describe(m.content)
  }

  function Second(m: Message, env: Env): string
    requires !m.content.Command?
  {
    if AsBlocks(m, env) then env.imageBlocks.value else Describe(m.content)
  }

  lemma TagAgrees(m: Message, text: string)
    ensures Prefixed(m, text) == SenderTag(m) + text
  {
    if m.senderEmail.Some? {
      assert "[From: " + m.senderName + (" <" + m.senderEmail.value + ">") + "] " + text
          == "[From: " + m.senderName + " <" + m.senderEmail.value + ">] " + text;
    } else {
      assert "[From: " + m.senderName + "" + "] " + text == "[From: " + m.senderName + "] " + text;
    }
  }

  lemma ForOneTrace(m: Message, env: Env)
    requires ForOne(m, env)
    ensures Trace(m, env) == Direct(env, !AsBlocks(m, env), First(m, env), Second(m, env))
  {
    hide Ignored, Limited, Direct, BroadcastTrace, Describe, Prefixed, FirstWord, RestOf, SplitWhitespace, SenderTag;
    if !AsBlocks(m, env) { TagAgrees(m, Describe(m.content)); }
  }

  lemma ForManyTrace(m: Message, env: Env)
    requires ForMany(m, env)
    ensures Trace(m, env) == BroadcastTrace(env, Describe(m.content))
  {
    hide Ignored, Limited, Direct, BroadcastTrace, Describe, Prefixed, FirstWord, RestOf, SplitWhitespace;
  }

  lemma NobodyIsCalled(m: Message, env: Env)
    requires !ForAgents(m, env)
    ensures CallsOf(Trace(m, env)) == [] && !OnStandardPath(Trace(m, env))
  {
    hide Ignored, Limited, Direct, BroadcastTrace, Describe, Prefixed, FirstWord, RestOf, SplitWhitespace;
    QuietCalls(Trace(m, env));
  }

  /** The agent is first called with the text after the name of its sender, and again with the
      text alone; with content blocks both times as they are. */
  lemma CallsToOne(m: Message, env: Env)
    requires ForOne(m, env)
    ensures CallsOf(Trace(m, env))
         == if Target(env).None? || Unasked(env, !AsBlocks(m, env)) then []
            else [Called(Target(env).value, First(m, env), env.reply)]
                 + if Again(env).Some? then [Called(Again(env).value, Second(m, env), env.retryReply)] else []
  {
    hide Trace, Direct, CallsOf, First, Second;
    ForOneTrace(m, env);
    CallsOfDirect(env, !AsBlocks(m, env), First(m, env), Second(m, env));
  }

  // The calls of a broadcast

  /** The places from `i` to `n` that pass the test, in order. */
  function Places(test: nat -> bool, i: nat, n: nat): seq<nat>
    requires i <= n
    decreases n - i
  {
    if i == n then [] else (if test(i) then [i] else []) + Places(test, i + 1, n)
  }

  lemma {:induction false} PlacesMeaning(test: nat -> bool, i: nat, n: nat)
    requires i <= n
    ensures var r := Places(test, i, n);
            && (forall p: nat :: p in r <==> i <= p < n && test(p))
            && (forall k, l :: 0 <= k < l < |r| ==> r[k] < r[l])
    decreases n - i
  {
    if i < n {
      PlacesMeaning(test, i + 1, n);
      hide Places;
      PlacesFirst(if test(i) then [i] else [], Places(test, i + 1, n), i);
    }
  }

  lemma PlacesFirst(first: seq<nat>, rest: seq<nat>, i: nat)
    requires first == [] || first == [i]
    requires (forall p: nat :: p in rest ==> i < p) && (forall k, l :: 0 <= k < l < |rest| ==> rest[k] < rest[l])
    ensures var r := first + rest; forall k, l :: 0 <= k < l < |r| ==> r[k] < r[l]
  {
    assert forall k :: 0 <= k < |rest| ==> rest[k] in rest;
  }

  /** The target is a running agent. */
  predicate Running(env: Env, i: nat) { i < |env.broadcast| && env.broadcast[i].1.Some? }

  /** The target's answer is in: only a parallel task can break off. */
  predicate Answered(env: Env, i: nat) {
    Running(env, i) && (env.strategy.Sequential? || env.parallelReply(i).Some?)
  }

  function RunningFrom(env: Env, i: nat): seq<nat>
    requires i <= |env.broadcast|
  {
    Places((p: nat) => Running(env, p), i, |env.broadcast|)
  }

  function AnsweredFrom(env: Env, i: nat): seq<nat>
    requires i <= |env.broadcast|
  {
    Places((p: nat) => Answered(env, p), i, |env.broadcast|)
  }

  function ReplyOf(env: Env, i: nat): Reply {
    if env.strategy.Sequential? then env.sequentialReply(i)
    else if env.parallelReply(i).Some? then env.parallelReply(i).value
    else Err("")
  }

  function Asks(env: Env, text: string, places: seq<nat>): seq<Effect>
    requires forall k :: 0 <= k < |places| ==> Running(env, places[k])
  {
    seq(|places|, k requires 0 <= k < |places| => Ask(env, text, places[k]))
  }

  function Ask(env: Env, text: string, i: nat): Effect
    requires Running(env, i)
  {
    Called(env.broadcast[i].1.value, text, ReplyOf(env, i))
  }

  function Tells(env: Env, places: seq<nat>): seq<string>
    requires forall k :: 0 <= k < |places| ==> Answered(env, places[k])
  {
    seq(|places|, k requires 0 <= k < |places| => Told(env, places[k]))
  }

  /** One line of the combined answer: who, and what the agent said or why it failed. */
  function Told(env: Env, i: nat): string
    requires Answered(env, i)
  {
    var reply := ReplyOf(env, i);
    "[" + env.broadcast[i].0 + "]: " + if reply.Ok? then reply.text else "Error: " + reply.error
  }

  lemma ToldIsLine(env: Env, i: nat)
    requires Answered(env, i)
    ensures Told(env, i) == Line(env.broadcast[i].0, ReplyOf(env, i))
  {
    var name, reply := env.broadcast[i].0, ReplyOf(env, i);
    if reply.Err? {
      assert "[" + name + "]: " + ("Error: " + reply.error) == "[" + name + "]: Error: " + reply.error;
    }
  }

  lemma OneOfMany(env: Env, text: string, i: nat)
    requires i < |env.broadcast|
    ensures OneTarget(env, text, i).0
         == if Running(env, i) then [Ask(env, text, i)] else []
    ensures OneTarget(env, text, i).1 == if Answered(env, i) then [Told(env, i)] else []
  {
    hide Line, Told;
    if Answered(env, i) { ToldIsLine(env, i); }
  }

  lemma FromMeaning(env: Env, i: nat)
    requires i <= |env.broadcast|
    ensures Runs(env, RunningFrom(env, i)) && AllTold(env, AnsweredFrom(env, i))
    ensures i < |env.broadcast| ==>
              && RunningFrom(env, i) == (if Running(env, i) then [i] else []) + RunningFrom(env, i + 1)
              && AnsweredFrom(env, i) == (if Answered(env, i) then [i] else []) + AnsweredFrom(env, i + 1)
  {
    var r, a := RunningFrom(env, i), AnsweredFrom(env, i);
    PlacesMeaning((p: nat) => Running(env, p), i, |env.broadcast|);
    PlacesMeaning((p: nat) => Answered(env, p), i, |env.broadcast|);
    assert forall k :: 0 <= k < |r| ==> r[k] in r;
    assert forall k :: 0 <= k < |a| ==> a[k] in a;
  }

  lemma {:induction false} BroadcastIs(env: Env, text: string, i: nat)
    requires i <= |env.broadcast|
    ensures Runs(env, RunningFrom(env, i)) && AllTold(env, AnsweredFrom(env, i))
    ensures Broadcast(env, text, i).0 == Asks(env, text, RunningFrom(env, i))
    ensures Broadcast(env, text, i).1 == Tells(env, AnsweredFrom(env, i))
    decreases |env.broadcast| - i
  {
    hide OneTarget, Told, RunningFrom, AnsweredFrom;
    FromMeaning(env, i);
    if i == |env.broadcast| {
      NoneFrom(env);
    } else {
      BroadcastIs(env, text, i + 1);
      OneOfMany(env, text, i);
      if Running(env, i) { AsksFirst(env, text, i, RunningFrom(env, i + 1)); }
      if Answered(env, i) { TellsFirst(env, i, AnsweredFrom(env, i + 1)); }
    }
  }

  lemma NoneFrom(env: Env)
    ensures RunningFrom(env, |env.broadcast|) == [] && AnsweredFrom(env, |env.broadcast|) == []
  {}

  predicate Runs(env: Env, places: seq<nat>) { forall k :: 0 <= k < |places| ==> Running(env, places[k]) }

  predicate AllTold(env: Env, places: seq<nat>) { forall k :: 0 <= k < |places| ==> Answered(env, places[k]) }

  lemma AsksFirst(env: Env, text: string, i: nat, rest: seq<nat>)
    requires Running(env, i) && Runs(env, rest)
    ensures Asks(env, text, [i] + rest)
         == [Ask(env, text, i)] + Asks(env, text, rest)
  {}

  lemma TellsFirst(env: Env, i: nat, rest: seq<nat>)
    requires Answered(env, i) && AllTold(env, rest)
    ensures Tells(env, [i] + rest) == [Told(env, i)] + Tells(env, rest)
  {}

  lemma {:induction false} AllCalls(t: seq<Effect>)
    requires forall i :: 0 <= i < |t| ==> t[i].Called?
    ensures CallsOf(t) == t
  {
    if t != [] {
      AllCalls(t[..|t| - 1]);
      assert t == t[..|t| - 1] + [t[|t| - 1]];
    }
  }

  /** Every running target is called once with the text as it is, in order. */
  lemma CallsToMany(m: Message, env: Env)
    requires ForMany(m, env)
    ensures Runs(env, RunningFrom(env, 0))
    ensures CallsOf(Trace(m, env))
         == if env.denied.Some? then [] else Asks(env, Describe(m.content), RunningFrom(env, 0))
  {
    hide Trace, CallsOf, Broadcast, RunningFrom, AnsweredFrom, Tells, Join, Describe, Ignored, Limited, FirstWord;
    ForManyTrace(m, env);
    BroadcastIs(env, Describe(m.content), 0);
    var t := Trace(m, env);
    if env.denied.Some? {
      QuietCalls(t);
    } else {
      var calls := Asks(env, Describe(m.content), RunningFrom(env, 0));
      AllCalls(calls);
      QuietCalls([Permit(true), Typing]);
      QuietCalls(t[|t| - 1..]);
      CallsAppend([Permit(true), Typing], calls);
      CallsAppend([Permit(true), Typing] + calls, t[|t| - 1..]);
      assert t == [Permit(true), Typing] + calls + t[|t| - 1..];
    }
  }

  // Main results

  /** One agent is chosen exactly for a message that is for one agent, if there is an agent. */
  lemma PathIff(m: Message, env: Env)
    ensures OnStandardPath(Trace(m, env)) <==> ForOne(m, env) && Target(env).Some?
  {
    hide Trace, Direct, BroadcastTrace, ForOne, ForMany, First, Second, Describe, Ignored, Limited;
    ForOneIs(m, env);
    ForManyIs(m, env);
    if ForOne(m, env) {
      ForOneTrace(m, env);
      DirectRoutes(env, !AsBlocks(m, env), First(m, env), Second(m, env));
    } else if ForMany(m, env) {
      ForManyTrace(m, env);
      BroadcastRoutes(env, Describe(m.content));
    } else {
      NobodyElse(m, env);
      NobodyIsCalled(m, env);
    }
  }

  lemma NobodyElse(m: Message, env: Env)
    ensures ForAgents(m, env) <==> ForOne(m, env) || ForMany(m, env)
    ensures !(ForOne(m, env) && ForMany(m, env))
  {
    hide Describe, Ignored, Limited, FirstWord;
  }

  lemma DirectRoutes(env: Env, mayAutoReply: bool, payload: string, again: string)
    ensures OnStandardPath(Direct(env, mayAutoReply, payload, again)) <==> Target(env).Some?
  {
    hide Converse, Opening;
    var (routing, agent) := Route(env);
    var t := Direct(env, mayAutoReply, payload, again);
    if agent.Some? { assert t[|routing| - 1] == Routed(agent.value); }
  }

  lemma BroadcastRoutes(env: Env, text: string)
    ensures !OnStandardPath(BroadcastTrace(env, text))
  {
    hide Broadcast, Join;
    BroadcastIs(env, text, 0);
  }

  /** Every call, of every dispatch. Content blocks are handed on as they are. Otherwise the agent
      gets the described text: the first agent of the standard path after the sender's tag, the
      agent that is asked again and all agents of a broadcast without it. */
  lemma PayloadsMeant(m: Message, env: Env, i: nat)
    requires i < |Trace(m, env)| && Trace(m, env)[i].Called?
    ensures var t := Trace(m, env);
            && !m.content.Command?
            && (m.content.Image? && env.imageBlocks.Some? ==> t[i].payload == env.imageBlocks.value)
            && (!(m.content.Image? && env.imageBlocks.Some?) ==>
                  t[i].payload == (if OnStandardPath(t) && Calls(t[..i]) == 0 then SenderTag(m) else "")
                                  + Describe(m.content))
  {
    hide Trace, CallsOf, Calls, OnStandardPath, Describe, SenderTag, Running, Unasked, Again, Target;
    hide ForOne, ForMany, ForAgents, RunningFrom;
    var t := Trace(m, env);
    CallAt(t, i);
    PathIff(m, env);
    NobodyElse(m, env);
    if ForOne(m, env) {
      CallsToOne(m, env);
      ForOneIs(m, env);
    } else if ForMany(m, env) {
      CallsToMany(m, env);
      ForManyIs(m, env);
    } else {
      NobodyIsCalled(m, env);
    }
  }

  lemma ForOneIs(m: Message, env: Env)
    ensures ForOne(m, env) ==> !m.content.Command?
  {
    hide Describe, Ignored, Limited, FirstWord;
  }

  lemma ForManyIs(m: Message, env: Env)
    ensures ForMany(m, env) ==> !m.content.Command? && !AsBlocks(m, env)
  {
    hide Describe, Ignored, Limited, FirstWord;
  }

  /** The routing of a message for one agent: a fallback becomes the sender's default, and without
      any agent this is all that is said. */
  lemma RouteMeant(m: Message, env: Env)
    requires ForOne(m, env)
    ensures var t := Trace(m, env);
            && (forall a :: Routed(a) in t <==> Target(env) == Some(a))
            && (forall a :: UserDefault(a) in t <==> env.resolved.None? && Target(env) == Some(a))
            && (Target(env).None? <==> t == [Response(NO_AGENTS)])
  {
    hide Trace, ForOne, First, Second, Direct;
    ForOneIs(m, env);
    ForOneTrace(m, env);
    RouteOf(env, !AsBlocks(m, env), First(m, env), Second(m, env));
  }

  lemma RouteOf(env: Env, mayAutoReply: bool, payload: string, again: string)
    ensures var t := Direct(env, mayAutoReply, payload, again);
            && (forall a :: Routed(a) in t <==> Target(env) == Some(a))
            && (forall a :: UserDefault(a) in t <==> env.resolved.None? && Target(env) == Some(a))
            && (Target(env).None? <==> t == [Response(NO_AGENTS)])
  {
    hide Converse, Opening;
    var (routing, agent) := Route(env);
    RouteIs(env);
    hide Route;
    if agent.Some? {
      ConverseTells(env, agent.value, payload, again);
      OpeningTells(env);
      assert forall e <- Direct(env, mayAutoReply, payload, again) :: e in routing || (!e.Routed? && !e.UserDefault?);
      assert routing <= Direct(env, mayAutoReply, payload, again);
      assert Direct(env, mayAutoReply, payload, again)[|routing|].Permit?;
    }
  }

  lemma RouteIs(env: Env)
    ensures var (t, agent) := Route(env);
            && agent == Target(env)
            && (forall a :: Routed(a) in t <==> Target(env) == Some(a))
            && (forall a :: UserDefault(a) in t <==> env.resolved.None? && Target(env) == Some(a))
            && (agent.None? ==> t == [Response(NO_AGENTS)])
  {}

  lemma OpeningTells(env: Env)
    ensures forall e <- Opening(env) :: e.Typing? || e.React?
  {}

  /** Whom the last call went to. */
  function Asked(env: Env): Option<Agent> { if Again(env).Some? then Again(env) else Target(env) }

  predicate Reacting(env: Env) { env.overrides.None? || env.overrides.value.lifecycleReactions }

  /** What the last reply makes of it: nothing for a failure on a channel that suppresses errors. */
  function Answer(env: Env): Option<string> {
    var reply := LastReply(env);
    if reply.Ok? then Some(reply.text) else if env.suppressErrors then None else Some(env.sanitize(reply.error))
  }

  lemma FinishTells(env: Env, agent: Agent, reply: Reply)
    ensures var t := Finish(env, agent, reply);
            && (forall p :: React(p) in t <==> Reacting(env) && p == if reply.Ok? then Done else Error)
            && (forall x :: Response(x) in t <==>
                  if reply.Ok? then x == reply.text else !env.suppressErrors && x == env.sanitize(reply.error))
            && (forall a, s :: Delivered(a, s) in t <==> a == agent && s == reply.Ok?)
            && (forall e <- t :: e.React? || e.Response? || e.Delivered?)
  {}

  lemma ConverseTells(env: Env, agent: Agent, payload: string, again: string)
    ensures var t := Converse(env, agent, payload, again);
            && (forall p :: React(p) in t <==> Reacting(env) && p == if LastReply(env).Ok? then Done else Error)
            && (forall x :: Response(x) in t <==> Answer(env) == Some(x))
            && (forall a, s :: Delivered(a, s) in t <==>
                  a == (if Again(env).Some? then Again(env).value else agent) && s == LastReply(env).Ok?)
            && (forall a :: Rerouted(a) in t <==> Again(env) == Some(a))
            && (forall e <- t :: e.React? || e.Response? || e.Delivered? || e.Called? || e.Rerouted?)
  {
    hide Finish, IsNotFound, Reacting;
    var other := Again(env);
    var last := if other.Some? then other.value else agent;
    FinishTells(env, last, LastReply(env));
    var head := [Called(agent, payload, env.reply)]
      + if other.Some? then [Rerouted(last), Called(last, again, env.retryReply)] else [];
    assert Converse(env, agent, payload, again) == head + Finish(env, last, LastReply(env));
  }

  /** Automatic replies are for texts only. */
  predicate Automatic(m: Message, env: Env) { env.denied.None? && !AsBlocks(m, env) && env.autoReply.Some? }

  /** What the sender and the records get from a message for one agent. */
  lemma OutcomeMeant(m: Message, env: Env)
    requires ForOne(m, env) && Target(env).Some?
    ensures var t, asked := Trace(m, env), env.denied.None? && !Automatic(m, env);
            && (forall g :: Permit(g) in t <==> g == env.denied.None?)
            && (Typing in t <==> asked)
            && (forall p :: React(p) in t <==>
                  asked && Reacting(env) && p in {Queued, Thinking, if LastReply(env).Ok? then Done else Error})
            && (forall x :: Response(x) in t <==>
                  if env.denied.Some? then x == "Access denied: " + env.denied.value
                  else if Automatic(m, env) then x == env.autoReply.value
                  else Answer(env) == Some(x))
            && (forall a, s :: Delivered(a, s) in t <==>
                  && env.denied.None? && s == (Automatic(m, env) || LastReply(env).Ok?)
                  && a == if Automatic(m, env) || Again(env).None? then Target(env).value else Again(env).value)
            && (forall a :: Rerouted(a) in t <==> asked && Again(env) == Some(a))
  {
    hide Trace, ForOne, First, Second, Direct, Converse, Answer, Again, LastReply, Reacting;
    ForOneIs(m, env);
    ForOneTrace(m, env);
    if env.denied.None? && !Automatic(m, env) {
      AskedTells(env, !AsBlocks(m, env), First(m, env), Second(m, env));
    } else {
      UnaskedTells(env, !AsBlocks(m, env), First(m, env), Second(m, env));
    }
  }

  lemma UnaskedTells(env: Env, mayAutoReply: bool, payload: string, again: string)
    requires Target(env).Some? && Unasked(env, mayAutoReply)
    ensures var t := Direct(env, mayAutoReply, payload, again);
            && (forall g :: Permit(g) in t <==> g == env.denied.None?)
            && (forall x :: Response(x) in t <==>
                  x == if env.denied.Some? then "Access denied: " + env.denied.value else env.autoReply.value)
            && (forall a, s :: Delivered(a, s) in t <==> env.denied.None? && s && a == Target(env).value)
            && (forall e <- t :: !e.Typing? && !e.React? && !e.Rerouted?)
  {}

  lemma AskedTells(env: Env, mayAutoReply: bool, payload: string, again: string)
    requires Target(env).Some? && !Unasked(env, mayAutoReply)
    ensures var t := Direct(env, mayAutoReply, payload, again);
            && (forall g :: Permit(g) in t <==> g) && Typing in t
            && (forall p :: React(p) in t <==>
                  Reacting(env) && p in {Queued, Thinking, if LastReply(env).Ok? then Done else Error})
            && (forall x :: Response(x) in t <==> Answer(env) == Some(x))
            && (forall a, s :: Delivered(a, s) in t <==>
                  s == LastReply(env).Ok? && a == if Again(env).None? then Target(env).value else Again(env).value)
            && (forall a :: Rerouted(a) in t <==> Again(env) == Some(a))
  {
    hide Converse, Answer, Again, LastReply;
    var (routing, agent) := Route(env);
    var head := routing + [Permit(true)] + Opening(env);
    HeadTells(env);
    ConverseTells(env, agent.value, payload, again);
    hide Route, Opening;
    assert Direct(env, mayAutoReply, payload, again) == head + Converse(env, agent.value, payload, again);
  }

  lemma HeadTells(env: Env)
    requires Target(env).Some?
    ensures var t := Route(env).0 + [Permit(true)] + Opening(env);
            && Route(env).1 == Target(env) && (forall g :: Permit(g) in t <==> g) && Typing in t
            && (forall p :: React(p) in t <==> Reacting(env) && p in {Queued, Thinking})
            && (forall e <- t :: !e.Called? && !e.Response? && !e.Delivered? && !e.Rerouted?)
  {}

  /** A broadcast is refused, or it is answered once, by the lines of the targets whose answers are
      in, a blank line apart. It has no reactions, records or routing. */
  lemma BroadcastMeant(m: Message, env: Env)
    requires ForMany(m, env)
    ensures AllTold(env, AnsweredFrom(env, 0))
    ensures var t := Trace(m, env);
            && (forall g :: Permit(g) in t <==> g == env.denied.None?)
            && (Typing in t <==> env.denied.None?)
            && (forall x :: Response(x) in t <==>
                  x == if env.denied.Some? then "Access denied: " + env.denied.value
                       else Join(Tells(env, AnsweredFrom(env, 0)), "\n\n"))
            && (forall e <- t :: e.Permit? || e.Typing? || e.Response? || e.Called?)
  {
    hide Trace, ForMany, Broadcast, Tells, AnsweredFrom, RunningFrom, Describe, Join, Running;
    ForManyIs(m, env);
    ForManyTrace(m, env);
    BroadcastIs(env, Describe(m.content), 0);
  }

  /** A message is passed over in silence exactly by the policy of its channel. */
  lemma SilentIff(m: Message, env: Env)
    ensures Trace(m, env) == [] <==>
              && env.overrides.Some?
              && var ov := env.overrides.value;
                 if !m.isGroup then ov.dmPolicy.IgnoreDm?
                 else
                   || ov.groupPolicy.IgnoreGroup?
                   || (ov.groupPolicy.CommandsOnly?
                       && !m.content.Command? && !(m.content.TextContent? && "/" <= m.content.text))
                   || (ov.groupPolicy.MentionOnly? && !m.wasMentioned && !m.content.Command?)
  {
    hide Limited, Direct, BroadcastTrace, Describe, Prefixed, FirstWord, RestOf, SplitWhitespace;
    NeverSilent(env, false, "", "");
    forall auto, p, q { NeverSilent(env, auto, p, q); }
    forall text { BroadcastSpeaks(env, text); }
  }

  lemma NeverSilent(env: Env, mayAutoReply: bool, payload: string, again: string)
    ensures Direct(env, mayAutoReply, payload, again) != []
  {
    hide Converse, Opening;
  }

  lemma BroadcastSpeaks(env: Env, text: string)
    ensures BroadcastTrace(env, text) != []
  {
    hide Broadcast, Join;
  }

  // Commands

  ghost predicate Blank(s: string) { forall i :: 0 <= i < |s| ==> IsWhitespace(s[i]) }

  ghost predicate Word(s: string) { s != "" && forall i :: 0 <= i < |s| ==> !IsWhitespace(s[i]) }

  /** Words with blanks before, between and after them. */
  function Spread(words: seq<string>, gaps: seq<string>): string
    requires |gaps| == |words| + 1
  {
    gaps[0] + if words == [] then "" else words[0] + Spread(words[1..], gaps[1..])
  }

  ghost predicate Separated(words: seq<string>, gaps: seq<string>) {
    && |gaps| == |words| + 1
    && (forall k :: 0 <= k < |words| ==> Word(words[k]))
    && (forall k :: 0 <= k < |gaps| ==> Blank(gaps[k]) && (0 < k < |words| ==> gaps[k] != ""))
  }

  function Inked(): char -> bool { c => !IsWhitespace(c) }

  lemma {:induction false} SkipBlank(gap: string, s: string)
    requires Blank(gap) && (s == "" || !IsWhitespace(s[0]))
    ensures TrimStart(gap + s) == s
  {
    hide IsWhitespace;
    if gap == "" {
      assert gap + s == s;
    } else {
      assert (gap + s)[0] == gap[0] && (gap + s)[1..] == gap[1..] + s;
      SkipBlank(gap[1..], s);
    }
  }

  lemma {:induction false} TakeWord(word: string, s: string)
    requires (forall i :: 0 <= i < |word| ==> !IsWhitespace(word[i])) && (s == "" || IsWhitespace(s[0]))
    ensures TakeWhile(word + s, c => !IsWhitespace(c)) == word
  {
    hide IsWhitespace;
    if word == "" {
      assert word + s == s;
    } else {
      assert (word + s)[0] == word[0] && (word + s)[1..] == word[1..] + s;
      TakeWord(word[1..], s);
    }
  }

  /** What is split is the words, whatever blanks are between them. */
  lemma {:induction false} SplitOfSpread(words: seq<string>, gaps: seq<string>)
    requires Separated(words, gaps)
    ensures SplitWhitespace(Spread(words, gaps)) == words
    decreases |words|
  {
    hide IsWhitespace;
    if words == [] {
      SkipBlank(gaps[0], "");
      assert gaps[0] + "" == gaps[0];
    } else {
      var rest := Spread(words[1..], gaps[1..]);
      SplitOfSpread(words[1..], gaps[1..]);
      SkipBlank(gaps[0], words[0] + rest);
      RestStarts(words, gaps);
      TakeWord(words[0], rest);
      assert (words[0] + rest)[|words[0]|..] == rest;
    }
  }

  lemma RestStarts(words: seq<string>, gaps: seq<string>)
    requires Separated(words, gaps) && words != []
    ensures var rest := Spread(words[1..], gaps[1..]); rest == "" || IsWhitespace(rest[0])
  {
    if |words| == 1 {
      assert Spread(words[1..], gaps[1..]) == gaps[1] + "";
    }
  }

  /** Every text is made of the words it is split into. */
  lemma {:induction false} SplitMeaning(s: string) returns (gaps: seq<string>)
    ensures Separated(SplitWhitespace(s), gaps) && Spread(SplitWhitespace(s), gaps) == s
    decreases |s|
  {
    hide IsWhitespace;
    var t := TrimStart(s);
    DropStartMeaning(s, IsWhitespace);
    var gap := s[..|s| - |t|];
    assert s == gap + t;
    if t == "" {
      gaps := [gap];
      assert gap + "" == gap;
    } else {
      var word := TakeWhile(t, c => !IsWhitespace(c));
      var rest := t[|word|..];
      var more := SplitMeaning(rest);
      gaps := [gap] + more;
      assert word + rest == t;
      hide TakeWhile, SplitWhitespace, Spread;
      OneMore(gap, word, SplitWhitespace(rest), more);
    }
  }

  lemma OneMore(gap: string, word: string, words: seq<string>, gaps: seq<string>)
    requires Blank(gap) && Word(word) && Separated(words, gaps)
    requires var s := Spread(words, gaps); s == "" || IsWhitespace(s[0])
    ensures Separated([word] + words, [gap] + gaps)
    ensures Spread([word] + words, [gap] + gaps) == gap + (word + Spread(words, gaps))
  {
    hide IsWhitespace;
    assert ([word] + words)[1..] == words && ([gap] + gaps)[1..] == gaps;
    FirstGap(words, gaps);
  }

  /** Words without a gap before them start the text. */
  lemma FirstGap(words: seq<string>, gaps: seq<string>)
    requires Separated(words, gaps)
    ensures words != [] && gaps[0] == "" ==> Spread(words, gaps) != "" && !IsWhitespace(Spread(words, gaps)[0])
  {
    hide IsWhitespace;
    if words != [] && gaps[0] == "" {
      assert Spread(words, gaps)[0] == words[0][0];
    }
  }

  /** The text of a command: a slash, a name without spaces and what follows the first space. */
  function CommandText(name: string, rest: Option<string>): string {
    "/" + name + if rest.Some? then " " + rest.value else ""
  }

  /** A text is a command exactly if it starts with a slash and a known name; it is run with that
      name and the words after it. */
  lemma CommandMeant(m: Message, env: Env, name: string, rest: Option<string>)
    requires m.content == TextContent(CommandText(name, rest)) && ' ' !in name
    ensures AsCommand(m, env) <==> env.isCommand(name)
    ensures !Ignored(m, env.overrides) && !Limited(env) && env.isCommand(name) ==>
              Trace(m, env) == [CommandRun(name, if rest.Some? then SplitWhitespace(rest.value) else []),
                                Response(env.commandResult)]
  {
    hide Ignored, Limited, Direct, BroadcastTrace, Prefixed, FirstWord, RestOf, SplitWhitespace, CommandText, Find;
    NameAndRest(name, rest);
    NoWords();
    assert Describe(m.content) == CommandText(name, rest);
    assert ("/" + name)[1..] == name;
  }

  lemma NoWords()
    ensures SplitWhitespace("") == []
  {}

  lemma NameAndRest(name: string, rest: Option<string>)
    requires ' ' !in name
    ensures var t := CommandText(name, rest);
            && IsSlash(t) && FirstWord(t) == "/" + name
            && RestOf(t) == if rest.Some? then rest.value else ""
  {
    var t := CommandText(name, rest);
    var k := |name| + 1;
    forall i | 0 <= i < k ensures !StartsAt(t, i, " ") {
      assert t[i..i + 1] == [t[i]] && (i > 0 ==> t[i] == name[i - 1] && t[i] in name);
    }
    if rest.Some? {
      assert t[k..k + 1] == " " && StartsAt(t, k, " ");
      assert Find(t, " ", 0) == Some(k);
      assert t[..k] == "/" + name && t[k + 1..] == rest.value;
    } else {
      assert t == "/" + name;
      assert Find(t, " ", 0).None?;
    }
  }

  /** Only texts can spell commands; what a bot command brings is run as it is. */
  lemma NoCommand(m: Message, env: Env)
    ensures m.content.TextContent? && !("/" <= m.content.text) ==> !AsCommand(m, env)
    ensures !m.content.TextContent? && !m.content.Command? ==> !AsCommand(m, env)
    ensures m.content.Command? && !Ignored(m, env.overrides) && !Limited(env) ==>
              Trace(m, env) == [CommandRun(m.content.name, m.content.args), Response(env.commandResult)]
    ensures !Ignored(m, env.overrides) && Limited(env) ==> Trace(m, env) == [Response(env.rateLimited.value)]
  {
    hide Ignored, Direct, BroadcastTrace, Prefixed, FirstWord, RestOf, SplitWhitespace;
  }

  /** What agents are told of contents that are not texts. */
  lemma DescriptionExamples()
    ensures Describe(TextContent("hi")) == "hi"
    ensures Describe(Image("u", None)) == "[User sent a photo: u]"
    ensures Describe(Image("u", Some("c"))) == "[User sent a photo: u]" + "\nCaption: c"
    ensures Describe(File("u", "f")) == "[User sent a file (f): u]"
  {}

  lemma MoreDescriptions()
    ensures Describe(Voice("u", "5")) == "[User sent a voice message (5s): u]"
    ensures Describe(Location("1.5", "2.5")) == "[User shared location: 1.5, 2.5]"
    ensures Describe(FileData("f")) == "[User sent a local file: f]"
  {}

  /** From `i` on the text spells the words, in any case of letters. */
  ghost predicate SaysAt(s: string, i: nat, words: string) {
    && i + |words| <= |s|
    && forall k :: 0 <= k < |words| ==>
        s[i + k] == words[k] || ('A' <= s[i + k] <= 'Z' && s[i + k] as int + 32 == words[k] as int)
  }

  /** The error says in any case of letters that the agent was not found. */
  lemma NotFoundIff(error: string)
    ensures IsNotFound(error) <==> exists i: nat :: SaysAt(error, i, "agent not found")
  {
    var words := "agent not found";
    var lower := AsciiLower(error);
    forall i: nat ensures StartsAt(lower, i, words) <==> SaysAt(error, i, words) { SaysIsStarts(error, i, words); }
  }

  lemma SaysIsStarts(s: string, i: nat, words: string)
    requires forall k :: 0 <= k < |words| ==> !('A' <= words[k] <= 'Z')
    ensures StartsAt(AsciiLower(s), i, words) <==> SaysAt(s, i, words)
  {
    var lower := AsciiLower(s);
    if StartsAt(lower, i, words) {
      forall k | 0 <= k < |words|
        ensures s[i + k] == words[k] || ('A' <= s[i + k] <= 'Z' && s[i + k] as int + 32 == words[k] as int)
      {
        assert lower[i + k] == lower[i..i + |words|][k];
      }
    }
    if SaysAt(s, i, words) { assert lower[i..i + |words|] == words; }
  }
}
