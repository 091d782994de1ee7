/** The bounded event stream handle: a replay ring with suppression of unchanged publishes. */
module SseHandle {
  import opened Text

  datatype Event = Event(id: nat, name: string, data: string)

  datatype Replay = Replay(resetRequired: bool, events: seq<Event>)

  datatype State = State(history: seq<Event>, nextId: nat, prints: map<string, string>)

  function Evict(history: seq<Event>, capacity: nat): seq<Event> {
    if |history| > capacity then Evict(history[1..], capacity) else history
  }

  function Publish(st: State, capacity: nat, name: string, data: string): (Event, State) {
    var e := Event(st.nextId + 1, name, data);
    (e, st.(nextId := st.nextId + 1, history := Evict(st.history + [e], capacity)))
  }

  function PublishIfChanged(st: State, capacity: nat, key: string, print_: string, name: string, data: string)
    : (Option<Event>, State)
  {
    if key in st.prints && st.prints[key] == print_ then (None, st)
    else
      var (e, st') := Publish(st.(prints := st.prints[key := print_]), capacity, name, data);
      (Some(e), st')
  }

  /** The events with an id above `k`. */
  function Newer(history: seq<Event>, k: nat): seq<Event> {
    if history == [] then []
    else
      var last := history[|history| - 1];
      Newer(history[..|history| - 1], k) + if last.id > k then [last] else []
  }

  function ReplayAfter(history: seq<Event>, lastEventId: Option<nat>): Replay {
    match lastEventId
    case None => Replay(false, [])
    case Some(k) =>
      if history == [] then Replay(k > 0, [])
      else if k + 1 < history[0].id then Replay(true, [])
      else Replay(false, Newer(history, k))
  }

  class BoundedSseHandle {
    var history: seq<Event>
    var nextEventId: nat
    var fingerprints: map<string, string>
    const capacity: nat

    constructor (capacity: nat)
      ensures Abstract() == State([], 0, map[]) && this.capacity == capacity
    {
      history, nextEventId, fingerprints := [], 0, map[];
      this.capacity := capacity;
    }

    ghost function Abstract(): State
      reads this
    {
      State(history, nextEventId, fingerprints)
    }

    method PublishEvent(name: string, data: string) returns (event: Event)
      modifies this
      ensures (event, Abstract()) == Publish(old(Abstract()), capacity, name, data)
    {
      event := Event(nextEventId + 1, name, data);
      nextEventId := nextEventId + 1;
      history := history + [event];
      ghost var full := history;
      while |history| > capacity
        invariant Evict(history, capacity) == Evict(full, capacity)
        invariant nextEventId == event.id && fingerprints == old(fingerprints)
      {
        history := history[1..];
      }
    }

    method PublishChanged(key: string, fingerprint: string, name: string, data: string)
      returns (event: Option<Event>)
      modifies this
      ensures (event, Abstract()) == PublishIfChanged(old(Abstract()), capacity, key, fingerprint, name, data)
    {
      if key in fingerprints && fingerprints[key] == fingerprint { return None; }
      fingerprints := fingerprints[key := fingerprint];
      var e := PublishEvent(name, data);
      return Some(e);
    }

    method Replays(lastEventId: Option<nat>) returns (replay: Replay)
      ensures replay == ReplayAfter(history, lastEventId)
    {
      if lastEventId.None? { return Replay(false, []); }
      var k := lastEventId.value;
      if history == [] { return Replay(k > 0, []); }
      var oldest := history[0].id;
      if k < (if oldest == 0 then 0 else oldest - 1) { return Replay(true, []); }
      var events: seq<Event> := [];
      for i := 0 to |history|
        invariant events == Newer(history[..i], k)
      {
        assert history[..i + 1][..i] == history[..i];
        if history[i].id > k { events := events + [history[i]]; }
      }
      assert history[..|history|] == history;
      return Replay(false, events);
    }
  }

  // Runs of serial publishes

  datatype Op =
    | Always(name: string, data: string)
    | Changed(key: string, fingerprint: string, name: string, data: string)

  /** The handle's state with the log of everything it ever published. */
  datatype Run = Run(st: State, log: seq<Event>)

  function Step(r: Run, op: Op, capacity: nat): Run {
    match op
    case Always(name, data) =>
      var (e, st) := Publish(r.st, capacity, name, data);
      Run(st, r.log + [e])
    case Changed(key, fingerprint, name, data) =>
      var (e, st) := PublishIfChanged(r.st, capacity, key, fingerprint, name, data);
      Run(st, if e.Some? then r.log + [e.value] else r.log)
  }

  function RunOf(ops: seq<Op>, capacity: nat): Run {
    if ops == [] then Run(State([], 0, map[]), [])
    else Step(RunOf(ops[..|ops| - 1], capacity), ops[|ops| - 1], capacity)
  }

  function Min(a: nat, b: nat): nat { if a <= b then a else b }

  /** Ids count up from one without a gap, and the ring is the end of the log. */
  ghost predicate Inv(r: Run, capacity: nat) {
    && r.st.nextId == |r.log|
    && (forall i :: 0 <= i < |r.log| ==> r.log[i].id == i + 1)
    && |r.st.history| == Min(capacity, |r.log|)
    && r.st.history == r.log[|r.log| - |r.st.history|..]
  }

  lemma {:induction false} EvictKeepsEnd(history: seq<Event>, capacity: nat)
    ensures Evict(history, capacity) == history[|history| - Min(capacity, |history|)..]
  {
    if |history| > capacity { EvictKeepsEnd(history[1..], capacity); }
  }

  /** Appending to the end of a log and evicting gives the end of the longer log. */
  lemma EndGrows(history: seq<Event>, log: seq<Event>, e: Event, capacity: nat)
    requires |history| == Min(capacity, |log|) && history == log[|log| - |history|..]
    ensures var n := Min(capacity, |log| + 1);
            Evict(history + [e], capacity) == (log + [e])[|log| + 1 - n..]
  {
    hide Evict;
    EvictKeepsEnd(history + [e], capacity);
    assert history + [e] == (log + [e])[|log| - |history|..];
  }

  lemma PublishKeepsInv(r: Run, capacity: nat, prints: map<string, string>, name: string, data: string)
    requires Inv(r, capacity)
    ensures var (e, st) := Publish(r.st.(prints := prints), capacity, name, data);
            Inv(Run(st, r.log + [e]), capacity)
  {
    hide Evict;
    var e := Event(r.st.nextId + 1, name, data);
    EndGrows(r.st.history, r.log, e, capacity);
  }

  lemma StepKeepsInv(r: Run, op: Op, capacity: nat)
    requires Inv(r, capacity)
    ensures Inv(Step(r, op, capacity), capacity)
    ensures var log := Step(r, op, capacity).log; r.log <= log && |log| <= |r.log| + 1
  {
    hide Inv, Evict;
    match op
    case Always(name, data) => PublishKeepsInv(r, capacity, r.st.prints, name, data);
    case Changed(key, f, name, data) => PublishKeepsInv(r, capacity, r.st.prints[key := f], name, data);
  }

  lemma StartInv(capacity: nat)
    ensures Inv(Run(State([], 0, map[]), []), capacity)
  {}

  lemma {:induction false} RunKeepsInv(ops: seq<Op>, capacity: nat)
    ensures Inv(RunOf(ops, capacity), capacity)
  {
    hide Inv, Step;
    if ops == [] {
      StartInv(capacity);
    } else {
      RunKeepsInv(ops[..|ops| - 1], capacity);
      StepKeepsInv(RunOf(ops[..|ops| - 1], capacity), ops[|ops| - 1], capacity);
    }
  }

  // Replay

  lemma {:induction false} NewerOfEnd(log: seq<Event>, from: nat, k: nat)
    requires forall i :: 0 <= i < |log| ==> log[i].id == i + 1
    requires from <= k <= |log|
    ensures Newer(log[from..], k) == log[k..]
    decreases |log|
  {
    hide Newer;
    if |log| == k {
      NothingNewer(log[from..], k);
    } else {
      var front, last := log[..|log| - 1], log[|log| - 1];
      NewerOfEnd(front, from, k);
      assert log[from..] == front[from..] + [last];
      NewerLast(front[from..], last, k);
      assert log[k..] == front[k..] + [last];
    }
  }

  lemma NewerLast(events: seq<Event>, last: Event, k: nat)
    requires last.id > k
    ensures Newer(events + [last], k) == Newer(events, k) + [last]
  {
    assert (events + [last])[..|events|] == events;
  }

  lemma {:induction false} NothingNewer(events: seq<Event>, k: nat)
    requires forall i :: 0 <= i < |events| ==> events[i].id <= k
    ensures Newer(events, k) == []
  {
    if events == [] {
    } else {
      NothingNewer(events[..|events| - 1], k);
    }
  }

  /** A reset exactly when the event after `k` was evicted, and otherwise every event after `k`. */
  ghost predicate Exact(r: Run, k: nat)
    requires k <= |r.log|
  {
    var replay := ReplayAfter(r.st.history, Some(k));
    if k < |r.log| - |r.st.history| then replay.resetRequired
    else replay == Replay(false, r.log[k..])
  }

  lemma ReplayExact(r: Run, capacity: nat, k: nat)
    requires Inv(r, capacity) && capacity >= 1 && k <= |r.log|
    ensures Exact(r, k)
  {
    var from := |r.log| - |r.st.history|;
    if r.st.history != [] {
      assert r.st.history[0] == r.log[from];
      if from <= k { NewerOfEnd(r.log, from, k); }
    }
  }

  /** The answer to any id, also to one that this process has not handed out: a client that saw
      something is told to start over exactly while nothing has been published, and later exactly
      when the event after its id was evicted. A client whose id is not below the latest one is
      served on without an event and without being told. */
  lemma AnswerToAny(r: Run, capacity: nat, k: nat)
    requires Inv(r, capacity) && capacity >= 1
    ensures var replay, latest := ReplayAfter(r.st.history, Some(k)), |r.log|;
            && (replay.resetRequired <==> if r.log == [] then k > 0 else k < latest - |r.st.history|)
            && (!replay.resetRequired ==> replay.events == if k < latest then r.log[k..] else [])
  {
    var from := |r.log| - |r.st.history|;
    if r.st.history != [] {
      assert r.st.history[0] == r.log[from];
      if from <= k <= |r.log| { NewerOfEnd(r.log, from, k); }
      if k > |r.log| { NothingNewer(r.st.history, k); }
    }
  }

  /** A client without an id is never told to start over, and is replayed nothing. */
  lemma AnswerToNone(history: seq<Event>)
    ensures ReplayAfter(history, None) == Replay(false, [])
  {}

  /** Replay is exact in every run and for every id handed out so far, exactly when the ring
      has room for an event. */
  lemma ReplayExactIff(capacity: nat)
    ensures (forall ops: seq<Op>, k: nat :: k <= |RunOf(ops, capacity).log| ==> Exact(RunOf(ops, capacity), k))
            <==> capacity >= 1
  {
    if capacity >= 1 {
      forall ops: seq<Op>, k: nat | k <= |RunOf(ops, capacity).log| ensures Exact(RunOf(ops, capacity), k) {
        RunKeepsInv(ops, capacity);
        ReplayExact(RunOf(ops, capacity), capacity, k);
      }
    } else {
      var ops := [Always("a", "b")];
      RunKeepsInv(ops, capacity);
      assert ops[..0] == [];
      assert |RunOf(ops, capacity).log| == 1;
      var first: nat := 0;
      assert first <= |RunOf(ops, capacity).log| && !Exact(RunOf(ops, capacity), first);
    }
  }

  // Suppression of unchanged publishes

  /** The fingerprints one key was called with. */
  function Called(ops: seq<Op>, key: string): seq<string> {
    if ops == [] then []
    else
      var last := ops[|ops| - 1];
      Called(ops[..|ops| - 1], key) + if last.Changed? && last.key == key then [last.fingerprint] else []
  }

  /** The fingerprints under which that key was published. */
  function Published(ops: seq<Op>, capacity: nat, key: string): seq<string> {
    if ops == [] then []
    else
      var front, last := ops[..|ops| - 1], ops[|ops| - 1];
      var grew := |RunOf(ops, capacity).log| > |RunOf(front, capacity).log|;
      Published(front, capacity, key)
      + if grew && last.Changed? && last.key == key then [last.fingerprint] else []
  }

  /** Runs of equal neighbours cut to one. */
  function Collapse(s: seq<string>): seq<string> {
    if s == [] then []
    else
      var front, last := s[..|s| - 1], s[|s| - 1];
      if front != [] && front[|front| - 1] == last then Collapse(front) else Collapse(front) + [last]
  }

  lemma CollapseLast(calls: seq<string>, last: string)
    ensures Collapse(calls + [last])
         == if calls != [] && calls[|calls| - 1] == last then Collapse(calls)
            else Collapse(calls) + [last]
  {
    var all := calls + [last];
    assert all[..|all| - 1] == calls && all[|all| - 1] == last;
  }

  lemma {:induction false} LastPrint(ops: seq<Op>, capacity: nat, key: string)
    ensures var calls, prints := Called(ops, key), RunOf(ops, capacity).st.prints;
            && (key in prints <==> calls != [])
            && (calls != [] ==> prints[key] == calls[|calls| - 1])
  {
    if ops == [] {
    } else {
      hide Evict;
      LastPrint(ops[..|ops| - 1], capacity, key);
    }
  }

  /** However the calls of different keys are interleaved with each other and with plain
      publishes, a key's published fingerprints are its calls with equal neighbours
      collapsed. */
  lemma {:induction false} ChangesOnly(ops: seq<Op>, capacity: nat, key: string)
    ensures Published(ops, capacity, key) == Collapse(Called(ops, key))
  {
    if ops == [] {
    } else {
      hide Evict, Collapse, RunOf;
      var front, last := ops[..|ops| - 1], ops[|ops| - 1];
      ChangesOnly(front, capacity, key);
      LastPrint(front, capacity, key);
      LastGrows(ops, capacity);
      var calls := Called(front, key);
      assert calls + [] == calls && Published(front, capacity, key) + [] == Published(front, capacity, key);
      if last.Changed? && last.key == key { CollapseLast(calls, last.fingerprint); }
    }
  }

  /** The last step publishes unless it is a call with the stored fingerprint. */
  lemma LastGrows(ops: seq<Op>, capacity: nat)
    requires ops != []
    ensures var before, last := RunOf(ops[..|ops| - 1], capacity), ops[|ops| - 1];
            |RunOf(ops, capacity).log| > |before.log|
            <==> !(last.Changed? && last.key in before.st.prints && before.st.prints[last.key] == last.fingerprint)
  {
    hide Evict;
  }

  /** A suppressed call consumes no id and leaves the handle as it was. */
  lemma SuppressedIsFree(st: State, capacity: nat, key: string, fingerprint: string, name: string, data: string)
    ensures PublishIfChanged(st, capacity, key, fingerprint, name, data).0.None?
        <==> PublishIfChanged(st, capacity, key, fingerprint, name, data).1 == st
  {}
}
