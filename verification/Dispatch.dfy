/** Dispatch of one incoming channel message: what it does to the outside, for every answer
    the outside may give. */
module Dispatch {
  import opened Text

  type Agent = string

  datatype Content =
    | TextContent(text: string)
    | Command(name: string, args: seq<string>)
    | Image(url: string, caption: Option<string>)
    | File(url: string, filename: string)
    | Voice(url: string, seconds: string)
    | Location(lat: string, lon: string)
    | FileData(filename: string)

  datatype Message = Message(
    content: Content, isGroup: bool, wasMentioned: bool, senderName: string, senderEmail: Option<string>)

  datatype GroupPolicy = IgnoreGroup | CommandsOnly | MentionOnly | AllGroup
  datatype DmPolicy = IgnoreDm | AllowedOnly | Respond

  datatype Overrides = Overrides(
    groupPolicy: GroupPolicy, dmPolicy: DmPolicy, rateLimitPerUser: nat, lifecycleReactions: bool)

  datatype Reply = Ok(text: string) | Err(error: string)

  datatype Strategy = Parallel | Sequential

  /** Everything the outside answers. The limiter, the command handler, the router, the kernel and
      the adapter are all behind it. */
  datatype Env = Env(
    overrides: Option<Overrides>,
    rateLimited: Option<string>,
    isCommand: string -> bool,
    commandResult: string,
    imageBlocks: Option<string>,
    broadcast: seq<(string, Option<Agent>)>,
    strategy: Strategy,
    parallelReply: nat -> Option<Reply>,
    sequentialReply: nat -> Reply,
    resolved: Option<Agent>,
    assistant: Option<Agent>,
    firstAgent: Option<Agent>,
    denied: Option<string>,
    autoReply: Option<string>,
    reply: Reply,
    defaultName: Option<string>,
    found: Option<Agent>,
    retryReply: Reply,
    sanitize: string -> string,
    suppressErrors: bool)

  datatype Phase = Queued | Thinking | Done | Error

  /** What the outside sees, in order. */
  datatype Effect =
    | CommandRun(name: string, args: seq<string>)
    | UserDefault(agent: Agent)
    | Routed(agent: Agent)
    | Permit(granted: bool)
    | Typing
    | React(phase: Phase)
    | Called(agent: Agent, payload: string, reply: Reply)
    | Rerouted(agent: Agent)
    | Response(text: string)
    | Delivered(agent: Agent, success: bool)

  const NO_AGENTS := "No agents available. Start the dashboard at http://127.0.0.1:4200 to create one."

  // Policies

  predicate IsSlash(text: string) { text != "" && text[0] == '/' }

  predicate Ignored(m: Message, ov: Option<Overrides>) {
    ov.Some? &&
    if m.isGroup then
      match ov.value.groupPolicy
      case IgnoreGroup => true
      case CommandsOnly => !(m.content.Command? || (m.content.TextContent? && IsSlash(m.content.text)))
      case MentionOnly => !m.wasMentioned && !m.content.Command?
      case AllGroup => false
    else ov.value.dmPolicy == IgnoreDm
  }

  predicate Limited(env: Env) {
    env.overrides.Some? && env.overrides.value.rateLimitPerUser > 0 && env.rateLimited.Some?
  }

  predicate Reacts(env: Env) { env.overrides.Some? ==> env.overrides.value.lifecycleReactions }

  /** The text an agent gets for content that is not a command. */
  function Describe(c: Content): string
    requires !c.Command?
  {
    match c
    case TextContent(t) => t
    case Image(url, caption) =>
      "[User sent a photo: " + url + "]" + if caption.Some? then "\nCaption: " + caption.value else ""
    case File(url, filename) => "[User sent a file (" + filename + "): " + url + "]"
    case Voice(url, seconds) => "[User sent a voice message (" + seconds + "s): " + url + "]"
    case Location(lat, lon) => "[User shared location: " + lat + ", " + lon + "]"
    case FileData(filename) => "[User sent a local file: " + filename + "]"
  }

  /** The text before the first space. */
  function FirstWord(text: string): string {
    match Find(text, " ", 0)
    case None => text
    case Some(k) => text[..k]
  }

  function RestOf(text: string): string {
    match Find(text, " ", 0)
    case None => ""
    case Some(k) => text[k + 1..]
  }

  /** Maximal pieces without white space. */
  function SplitWhitespace(s: string): seq<string>
    decreases |s|
  {
    var t := TrimStart(s);
    if t == "" then []
    else
      var word := TakeWhile(t, c => !IsWhitespace(c));
      DropStartMeaning(s, IsWhitespace);
      assert word != [];
      [word] + SplitWhitespace(t[|word|..])
  }

  /** "[From: name <email>] text", when the sender has a name. */
  function Prefixed(m: Message, text: string): string {
    if m.senderName == "" then text
    else if m.senderEmail.Some? then
      "[From: " + m.senderName + " <" + m.senderEmail.value + ">] " + text
    else "[From: " + m.senderName + "] " + text
  }

  /** Case does not matter. No letter outside ASCII has a letter of this phrase as its lower case. */
  predicate IsNotFound(error: string) { Find(AsciiLower(error), "agent not found", 0).Some? }

  /** The agent that a stale channel default is re-resolved to. */
  function Reresolved(env: Env, error: string): Option<Agent> {
    if IsNotFound(error) && env.defaultName.Some? then env.found else None
  }

  // Traces

  /** The end of a call: reaction, response, delivery record. */
  function Finish(env: Env, agent: Agent, reply: Reply): seq<Effect> {
    match reply
    case Ok(text) =>
      (if Reacts(env) then [React(Done)] else []) + [Response(text), Delivered(agent, true)]
    case Err(error) =>
      (if Reacts(env) then [React(Error)] else [])
      + (if env.suppressErrors then [] else [Response(env.sanitize(error))])
      + [Delivered(agent, false)]
  }

  /** The calls to the agent, with one retry at most. */
  function Converse(env: Env, agent: Agent, payload: string, retryPayload: string): seq<Effect> {
    [Called(agent, payload, env.reply)] +
    match env.reply
    case Ok(_) => Finish(env, agent, env.reply)
    case Err(error) =>
      match Reresolved(env, error)
      case Some(other) =>
        [Rerouted(other), Called(other, retryPayload, env.retryReply)] + Finish(env, other, env.retryReply)
      case None => Finish(env, agent, env.reply)
  }

  function Opening(env: Env): seq<Effect> {
    [Typing] + if Reacts(env) then [React(Queued), React(Thinking)] else []
  }

  /** The agent for the standard path; a fallback becomes the user's default. */
  function Route(env: Env): (seq<Effect>, Option<Agent>) {
    if env.resolved.Some? then ([Routed(env.resolved.value)], env.resolved)
    else
      var fallback := if env.assistant.Some? then env.assistant else env.firstAgent;
      if fallback.Some? then ([UserDefault(fallback.value), Routed(fallback.value)], fallback)
      else ([Response(NO_AGENTS)], None)
  }

  function Direct(env: Env, mayAutoReply: bool, payload: string, retryPayload: string): seq<Effect> {
    var (routing, agent) := Route(env);
    if agent.None? then routing
    else if env.denied.Some? then routing + [Permit(false), Response("Access denied: " + env.denied.value)]
    else if mayAutoReply && env.autoReply.Some? then
      routing + [Permit(true), Response(env.autoReply.value), Delivered(agent.value, true)]
    else routing + [Permit(true)] + Opening(env) + Converse(env, agent.value, payload, retryPayload)
  }

  /** What one target of a broadcast adds: nothing if no such agent is running. */
  function OneTarget(env: Env, text: string, i: nat): (seq<Effect>, seq<string>)
    requires i < |env.broadcast|
  {
    var (name, target) := env.broadcast[i];
    if target.None? then ([], [])
    else
      match env.strategy
      case Sequential =>
        var reply := env.sequentialReply(i);
        ([Called(target.value, text, reply)], [Line(name, reply)])
      case Parallel =>
        match env.parallelReply(i)
        case None => ([Called(target.value, text, Err(""))], [])
        case Some(reply) => ([Called(target.value, text, reply)], [Line(name, reply)])
  }

  /** The calls of a broadcast and the lines of the combined answer. */
  function Broadcast(env: Env, text: string, i: nat): (seq<Effect>, seq<string>)
    requires i <= |env.broadcast|
    decreases |env.broadcast| - i
  {
    if i == |env.broadcast| then ([], [])
    else
      var (call, line) := OneTarget(env, text, i);
      var (calls, lines) := Broadcast(env, text, i + 1);
      (call + calls, line + lines)
  }

  function Line(name: string, reply: Reply): string {
    match reply
    case Ok(text) => "[" + name + "]: " + text
    case Err(error) => "[" + name + "]: Error: " + error
  }

  function BroadcastTrace(env: Env, text: string): seq<Effect> {
    if env.denied.Some? then [Permit(false), Response("Access denied: " + env.denied.value)]
    else
      var (calls, lines) := Broadcast(env, text, 0);
      [Permit(true), Typing] + calls + [Response(Join(lines, "\n\n"))]
  }

  function TextTrace(m: Message, env: Env, text: string): seq<Effect> {
    var command := if IsSlash(text) then FirstWord(text)[1..] else "";
    if IsSlash(text) && env.isCommand(command) then
      [CommandRun(command, SplitWhitespace(RestOf(text))), Response(env.commandResult)]
    else if env.broadcast != [] then BroadcastTrace(env, text)
    else Direct(env, true, Prefixed(m, text), text)
  }

  function Trace(m: Message, env: Env): seq<Effect> {
    if Ignored(m, env.overrides) then []
    else if Limited(env) then [Response(env.rateLimited.value)]
    else if m.content.Command? then
      [CommandRun(m.content.name, m.content.args), Response(env.commandResult)]
    else if m.content.Image? && env.imageBlocks.Some? then
      Direct(env, false, env.imageBlocks.value, env.imageBlocks.value)
    else TextTrace(m, env, Describe(m.content))
  }

  // The dispatcher, one effect at a time

  class Dispatcher {
    var trace: seq<Effect>

    constructor ()
      ensures trace == []
    {
      trace := [];
    }

    method Emit(e: Effect)
      modifies this
      ensures trace == old(trace) + [e]
    {
      trace := trace + [e];
    }

    method FinishCall(env: Env, agent: Agent, reply: Reply)
      modifies this
      ensures trace == old(trace) + Finish(env, agent, reply)
    {
      match reply {
        case Ok(text) =>
          if Reacts(env) { Emit(React(Done)); }
          Emit(Response(text));
          Emit(Delivered(agent, true));
        case Err(error) =>
          if Reacts(env) { Emit(React(Error)); }
          if !env.suppressErrors { Emit(Response(env.sanitize(error))); }
          Emit(Delivered(agent, false));
      }
    }

    method CallAgent(env: Env, agent: Agent, payload: string, retryPayload: string)
      modifies this
      ensures trace == old(trace) + Converse(env, agent, payload, retryPayload)
    {
      Emit(Called(agent, payload, env.reply));
      if env.reply.Err? {
        var other := Reresolved(env, env.reply.error);
        if other.Some? {
          Emit(Rerouted(other.value));
          Emit(Called(other.value, retryPayload, env.retryReply));
          FinishCall(env, other.value, env.retryReply);
          return;
        }
      }
      FinishCall(env, agent, env.reply);
    }

    method RouteMessage(env: Env) returns (agent: Option<Agent>)
      modifies this
      ensures trace == old(trace) + Route(env).0 && agent == Route(env).1
    {
      agent := env.resolved;
      if agent.None? {
        var fallback := env.assistant;
        if fallback.None? { fallback := env.firstAgent; }
        if fallback.None? {
          Emit(Response(NO_AGENTS));
          return;
        }
        agent := fallback;
        Emit(UserDefault(agent.value));
      }
      Emit(Routed(agent.value));
    }

    method Open(env: Env)
      modifies this
      ensures trace == old(trace) + Opening(env)
    {
      Emit(Typing);
      if Reacts(env) {
        Emit(React(Queued));
        Emit(React(Thinking));
      }
    }

    /** The standard path, for text and for content blocks. */
    method DispatchDirect(env: Env, mayAutoReply: bool, payload: string, retryPayload: string)
      modifies this
      ensures trace == old(trace) + Direct(env, mayAutoReply, payload, retryPayload)
    {
      hide Converse, Opening, Route;
      var agent := RouteMessage(env);
      if agent.None? { return; }
      if env.denied.Some? {
        Emit(Permit(false));
        Emit(Response("Access denied: " + env.denied.value));
        return;
      }
      Emit(Permit(true));
      if mayAutoReply && env.autoReply.Some? {
        Emit(Response(env.autoReply.value));
        Emit(Delivered(agent.value, true));
        return;
      }
      Open(env);
      CallAgent(env, agent.value, payload, retryPayload);
    }

    method DispatchBroadcast(env: Env, text: string)
      modifies this
      ensures trace == old(trace) + BroadcastTrace(env, text)
    {
      hide Line, Join, Broadcast;
      if env.denied.Some? {
        Emit(Permit(false));
        Emit(Response("Access denied: " + env.denied.value));
        return;
      }
      Emit(Permit(true));
      Emit(Typing);
      var responses := CallAll(env, text);
      Emit(Response(Join(responses, "\n\n")));
    }

    /** The calls of a broadcast, and the lines its answers make. */
    method CallAll(env: Env, text: string) returns (responses: seq<string>)
      modifies this
      ensures trace == old(trace) + Broadcast(env, text, 0).0
      ensures responses == Broadcast(env, text, 0).1
    {
      hide OneTarget;
      responses := [];
      var i := 0;
      while i < |env.broadcast|
        invariant i <= |env.broadcast|
        invariant trace + Broadcast(env, text, i).0 == old(trace) + Broadcast(env, text, 0).0
        invariant responses + Broadcast(env, text, i).1 == Broadcast(env, text, 0).1
      {
        var line := CallOne(env, text, i);
        responses := responses + line;
        i := i + 1;
      }
      assert responses + [] == responses && trace + [] == trace;
    }

    method CallOne(env: Env, text: string, i: nat) returns (line: seq<string>)
      requires i < |env.broadcast|
      modifies this
      ensures trace == old(trace) + OneTarget(env, text, i).0
      ensures line == OneTarget(env, text, i).1
    {
      hide Line;
      line := [];
      var (name, target) := env.broadcast[i];
      if target.Some? {
        match env.strategy {
          case Sequential =>
            var reply := env.sequentialReply(i);
            Emit(Called(target.value, text, reply));
            line := [Line(name, reply)];
          case Parallel =>
            var joined := env.parallelReply(i);
            Emit(Called(target.value, text, if joined.Some? then joined.value else Err("")));
            if joined.Some? { line := [Line(name, joined.value)]; }
        }
      }
    }

    method DispatchMessage(m: Message, env: Env)
      modifies this
      ensures trace == old(trace) + Trace(m, env)
    {
      hide Ignored, Limited, Direct, BroadcastTrace, Describe, Prefixed, FirstWord, RestOf, SplitWhitespace;
      if Ignored(m, env.overrides) { return; }
      if Limited(env) {
        LimitedHasText(env);
        Emit(Response(env.rateLimited.value));
        return;
      }
      if m.content.Command? {
        Emit(CommandRun(m.content.name, m.content.args));
        Emit(Response(env.commandResult));
        return;
      }
      if m.content.Image? && env.imageBlocks.Some? {
        DispatchDirect(env, false, env.imageBlocks.value, env.imageBlocks.value);
        return;
      }
      var text := Describe(m.content);
      if IsSlash(text) {
        FirstWordSlash(text);
        var command := FirstWord(text)[1..];
        if env.isCommand(command) {
          Emit(CommandRun(command, SplitWhitespace(RestOf(text))));
          Emit(Response(env.commandResult));
          return;
        }
      }
      if env.broadcast != [] {
        DispatchBroadcast(env, text);
        return;
      }
      DispatchDirect(env, true, Prefixed(m, text), text);
    }
  }

  lemma LimitedHasText(env: Env)
    ensures Limited(env) ==> env.rateLimited.Some?
  {}

  lemma FirstWordSlash(text: string)
    requires IsSlash(text)
    ensures FirstWord(text) != ""
  {}
}
