/** Concurrent publishers on one stream handle. An id is allocated before the lock on the
    ring is taken, so allocation and insertion are two steps that other publishers may
    come between. */
module SsePublishers {
  import opened Text
  import SseHandle

  /** `pending` holds the ids that are allocated but not yet in the ring. */
  datatype State = State(nextId: nat, pending: set<nat>, ring: seq<SseHandle.Event>, evicted: set<nat>)

  datatype Step = Allocate | Insert(id: nat, name: string, data: string)

  predicate Enabled(st: State, step: Step) {
    step.Insert? ==> step.id in st.pending
  }

  function Next(st: State, step: Step, capacity: nat): State
    requires Enabled(st, step)
  {
    match step
    case Allocate => st.(nextId := st.nextId + 1, pending := st.pending + {st.nextId + 1})
    case Insert(id, name, data) =>
      var longer := st.ring + [SseHandle.Event(id, name, data)];
      var ring := SseHandle.Evict(longer, capacity);
      var gone := Ids(longer[..|longer| - SseHandle.Min(capacity, |longer|)]);
      State(st.nextId, st.pending - {id}, ring, st.evicted + gone)
  }

  function Ids(events: seq<SseHandle.Event>): set<nat> {
    set i | 0 <= i < |events| :: events[i].id
  }

  /** The state after an interleaving, if each of its insertions has an allocated id to insert. */
  function After(steps: seq<Step>, capacity: nat): Option<State> {
    if steps == [] then Some(State(0, {}, [], {}))
    else
      match After(steps[..|steps| - 1], capacity)
      case None => None
      case Some(st) =>
        var last := steps[|steps| - 1];
        if Enabled(st, last) then Some(Next(st, last, capacity)) else None
  }

  ghost predicate Inv(st: State, capacity: nat) {
    |st.ring| <= capacity && Places(st)
  }

  /** Every allocated id is in exactly one place, and in one place of the ring at most. */
  ghost predicate Places(st: State) {
    && (forall i :: 0 <= i < |st.ring| ==> st.ring[i].id !in st.pending && st.ring[i].id !in st.evicted)
    && (forall i, j :: 0 <= i < j < |st.ring| ==> st.ring[i].id != st.ring[j].id)
    && st.pending !! st.evicted
    && (forall k: nat :: 1 <= k <= st.nextId <==> k in st.pending || k in st.evicted || k in Ids(st.ring))
  }

  lemma NextKeepsInv(st: State, step: Step, capacity: nat)
    requires Inv(st, capacity) && Enabled(st, step)
    ensures Inv(Next(st, step, capacity), capacity)
  {
    if step.Insert? {
      var e := SseHandle.Event(step.id, step.name, step.data);
      var longer := st.ring + [e];
      var from := |longer| - SseHandle.Min(capacity, |longer|);
      SseHandle.EvictKeepsEnd(longer, capacity);
      InsertKeepsPlaces(st, e);
      CutKeepsPlaces(State(st.nextId, st.pending - {e.id}, longer, st.evicted), from);
    }
  }

  lemma CutKeepsPlaces(st: State, from: nat)
    requires Places(st) && from <= |st.ring|
    ensures Places(State(st.nextId, st.pending, st.ring[from..], st.evicted + Ids(st.ring[..from])))
  {
    var ring, gone := st.ring[from..], Ids(st.ring[..from]);
    IdsSplit(st.ring, from);
    forall i | 0 <= i < |ring| ensures ring[i].id !in st.pending && ring[i].id !in st.evicted + gone {
      assert ring[i] == st.ring[from + i];
    }
  }

  lemma InsertKeepsPlaces(st: State, e: SseHandle.Event)
    requires Places(st) && e.id in st.pending
    ensures Places(State(st.nextId, st.pending - {e.id}, st.ring + [e], st.evicted))
  {
    IdsAppend(st.ring, e);
  }

  lemma IdsAppend(ring: seq<SseHandle.Event>, e: SseHandle.Event)
    ensures Ids(ring + [e]) == Ids(ring) + {e.id}
  {
    var longer := ring + [e];
    forall k | k in Ids(ring) ensures k in Ids(longer) {
      var i :| 0 <= i < |ring| && ring[i].id == k;
      assert longer[i].id == k;
    }
    assert longer[|ring|].id == e.id;
  }

  lemma IdsSplit(events: seq<SseHandle.Event>, from: nat)
    requires from <= |events|
    ensures Ids(events) == Ids(events[..from]) + Ids(events[from..])
  {
    forall k | k in Ids(events) ensures k in Ids(events[..from]) + Ids(events[from..]) {
      var i :| 0 <= i < |events| && events[i].id == k;
      if i < from { assert events[..from][i].id == k; } else { assert events[from..][i - from].id == k; }
    }
  }

  /** For every interleaving of publishers: ids in the ring are unique, the ring is bounded, and
      every allocated id is either waiting, in the ring, or evicted, and only one of these. */
  lemma {:induction false} InterleavedInv(steps: seq<Step>, capacity: nat)
    ensures After(steps, capacity).Some? ==> Inv(After(steps, capacity).value, capacity)
  {
    if steps != [] {
      hide Inv, Next;
      var front := steps[..|steps| - 1];
      InterleavedInv(front, capacity);
      if After(steps, capacity).Some? {
        NextKeepsInv(After(front, capacity).value, steps[|steps| - 1], capacity);
      }
    } else {
      StartInv(capacity);
    }
  }

  lemma StartInv(capacity: nat)
    ensures Inv(State(0, {}, [], {}), capacity)
  {}

  const FIRST := SseHandle.Event(1, "a", "")
  const LATE := SseHandle.Event(2, "b", "")
  const EARLY := SseHandle.Event(3, "c", "")
  const OVERTAKING: seq<Step> :=
    [Allocate, Insert(1, "a", ""), Allocate, Allocate, Insert(3, "c", "")]

  /** What serial publishing promises does not survive: an event can overtake one with a smaller
      id. A client that has event 1 is then handed event 3 and not told to reset, and event 2,
      which enters the ring afterwards, is never replayed to it. */
  lemma InterleavingLosesOne()
    ensures var st, st' := After(OVERTAKING, 50), After(OVERTAKING + [Insert(2, "b", "")], 50);
            && st.Some? && SseHandle.ReplayAfter(st.value.ring, Some(1)) == SseHandle.Replay(false, [EARLY])
            && st'.Some? && LATE in st'.value.ring
            && SseHandle.ReplayAfter(st'.value.ring, Some(3)) == SseHandle.Replay(false, [])
  {
    hide After, OVERTAKING, Next;
    FirstSteps();
    var s5 := State(3, {2}, [FIRST, EARLY], {});
    var s6 := State(3, {}, [FIRST, EARLY, LATE], {});
    InsertedOne(s5, 2, "b", s6);
    Follow(s5, OVERTAKING, Insert(2, "b", ""), OVERTAKING + [Insert(2, "b", "")], s6);
    Replays();
  }

  lemma Replays()
    ensures SseHandle.ReplayAfter([FIRST, EARLY], Some(1)) == SseHandle.Replay(false, [EARLY])
    ensures SseHandle.ReplayAfter([FIRST, EARLY, LATE], Some(3)) == SseHandle.Replay(false, [])
  {
    SseHandle.NothingNewer([FIRST, EARLY, LATE], 3);
    SseHandle.NothingNewer([FIRST], 1);
    assert [FIRST, EARLY][..1] == [FIRST];
    assert SseHandle.Newer([FIRST, EARLY], 1) == [EARLY];
  }

  lemma FirstSteps()
    ensures After(OVERTAKING, 50) == Some(State(3, {2}, [FIRST, EARLY], {}))
  {
    hide Next;
    var s0, s1, s2 := State(0, {}, [], {}), State(1, {1}, [], {}), State(1, {}, [FIRST], {});
    var s3, s4 := State(2, {2}, [FIRST], {}), State(3, {2, 3}, [FIRST], {});
    Allocated(s0, s1);
    InsertedOne(s1, 1, "a", s2);
    Allocated(s2, s3);
    Allocated(s3, s4);
    InsertedOne(s4, 3, "c", State(3, {2}, [FIRST, EARLY], {}));
    var t2: seq<Step> := [Allocate, Insert(1, "a", "")];
    Follow(s0, [], Allocate, [Allocate], s1);
    Follow(s1, [Allocate], Insert(1, "a", ""), t2, s2);
    Follow(s2, t2, Allocate, t2 + [Allocate], s3);
    Follow(s3, t2 + [Allocate], Allocate, t2 + [Allocate, Allocate], s4);
    Follow(s4, t2 + [Allocate, Allocate], Insert(3, "c", ""), OVERTAKING, State(3, {2}, [FIRST, EARLY], {}));
  }

  lemma Follow(st: State, steps: seq<Step>, step: Step, steps': seq<Step>, st': State)
    requires After(steps, 50) == Some(st) && Enabled(st, step) && st' == Next(st, step, 50) && steps' == steps + [step]
    ensures After(steps', 50) == Some(st')
  {
    hide Next;
    assert steps'[..|steps'| - 1] == steps;
  }

  lemma Allocated(st: State, st': State)
    requires st' == st.(nextId := st.nextId + 1, pending := st.pending + {st.nextId + 1})
    ensures Next(st, Allocate, 50) == st'
  {}

  lemma InsertedOne(st: State, id: nat, name: string, st': State)
    requires id in st.pending && |st.ring| < 50 && st'.evicted == st.evicted
    requires st' == State(st.nextId, st.pending - {id}, st.ring + [SseHandle.Event(id, name, "")], st'.evicted)
    ensures Next(st, Insert(id, name, ""), 50) == st'
  {
    var longer := st.ring + [SseHandle.Event(id, name, "")];
    assert longer[..0] == [];
  }

  // When interleaving does no harm

  /** Each insertion takes the smallest id that waits. */
  predicate InOrder(steps: seq<Step>, capacity: nat) {
    steps == []
    || (var front, last := steps[..|steps| - 1], steps[|steps| - 1];
        && InOrder(front, capacity)
        && (After(front, capacity).Some? ==> TakesLeast(After(front, capacity).value, last)))
  }

  predicate TakesLeast(st: State, step: Step) {
    step.Insert? ==> forall k :: k in st.pending ==> step.id <= k
  }

  /** What was inserted, in the order of insertion. */
  function Inserted(steps: seq<Step>): seq<SseHandle.Event> {
    if steps == [] then []
    else
      var last := steps[|steps| - 1];
      Inserted(steps[..|steps| - 1]) + if last.Insert? then [SseHandle.Event(last.id, last.name, last.data)] else []
  }

  /** The run of a serial publisher that has published `log` and has this ring. */
  function Serial(st: State, log: seq<SseHandle.Event>): SseHandle.Run {
    SseHandle.Run(SseHandle.State(st.ring, |log|, map[]), log)
  }

  /** The state is one of serial publishing, with some more ids allocated. */
  ghost predicate LikeSerial(st: State, log: seq<SseHandle.Event>, capacity: nat) {
    && SseHandle.Inv(Serial(st, log), capacity)
    && |log| <= st.nextId
    && (forall k: nat :: k in st.pending <==> |log| < k <= st.nextId)
  }

  lemma NextLikeSerial(st: State, log: seq<SseHandle.Event>, step: Step, capacity: nat)
    requires LikeSerial(st, log, capacity) && Enabled(st, step) && TakesLeast(st, step)
    ensures LikeSerial(Next(st, step, capacity), log + Inserted([step]), capacity)
  {
    hide SseHandle.Evict, SseHandle.Inv;
    assert [step][..0] == [];
    if step.Insert? {
      assert |log| + 1 in st.pending;
      assert step.id == |log| + 1;
      SseHandle.PublishKeepsInv(Serial(st, log), capacity, map[], step.name, step.data);
      var e := SseHandle.Event(step.id, step.name, step.data);
      assert Inserted([step]) == [e];
      assert Serial(Next(st, step, capacity), log + [e])
          == SseHandle.Run(SseHandle.State(SseHandle.Evict(st.ring + [e], capacity), |log| + 1, map[]), log + [e]);
    } else {
      assert log + [] == log;
    }
  }

  lemma StartLikeSerial(capacity: nat)
    ensures LikeSerial(State(0, {}, [], {}), [], capacity)
  {}

  /** In-order interleavings refine serial publishing: whatever was allocated in between, the ring
      is that of a serial publisher of the same events. */
  lemma {:induction false} InOrderIsSerial(steps: seq<Step>, capacity: nat)
    requires After(steps, capacity).Some? && InOrder(steps, capacity)
    ensures LikeSerial(After(steps, capacity).value, Inserted(steps), capacity)
  {
    hide LikeSerial, Next, Enabled;
    if steps == [] {
      StartLikeSerial(capacity);
    } else {
      var front, last := steps[..|steps| - 1], steps[|steps| - 1];
      InOrderIsSerial(front, capacity);
      NextLikeSerial(After(front, capacity).value, Inserted(front), last, capacity);
      assert [last][..0] == [];
      assert Inserted([last]) == if last.Insert? then [SseHandle.Event(last.id, last.name, last.data)] else [];
    }
  }

  /** The ring holds an id above one that is still to come. */
  ghost predicate Overtaken(st: State) {
    exists i, k :: 0 <= i < |st.ring| && k in st.pending && k < st.ring[i].id
  }

  lemma SerialNotOvertaken(st: State, log: seq<SseHandle.Event>, capacity: nat)
    requires LikeSerial(st, log, capacity)
    ensures !Overtaken(st)
  {
    forall i | 0 <= i < |st.ring| ensures st.ring[i].id <= |log| {
      assert st.ring[i] == log[|log| - |st.ring| + i];
    }
  }

  /** An insertion past a smaller id that waits leaves that id overtaken, by the last event of
      the ring. */
  lemma SkippingOvertakes(st: State, step: Step, capacity: nat) returns (k: nat)
    requires Enabled(st, step) && step.Insert? && !TakesLeast(st, step) && capacity >= 1
    ensures var st' := Next(st, step, capacity);
            && k in st'.pending && k < step.id
            && st'.ring != [] && st'.ring[|st'.ring| - 1].id == step.id
            && Overtaken(st')
  {
    k :| k in st.pending && k < step.id;
    var longer := st.ring + [SseHandle.Event(step.id, step.name, step.data)];
    hide SseHandle.Evict;
    SseHandle.EvictKeepsEnd(longer, capacity);
    var ring := Next(st, step, capacity).ring;
    assert ring[|ring| - 1] == longer[|longer| - 1];
  }

  ghost predicate OvertakenAt(steps: seq<Step>, i: nat, capacity: nat)
    requires i <= |steps|
  {
    After(steps[..i], capacity).Some? && Overtaken(After(steps[..i], capacity).value)
  }

  /** No id is ever overtaken exactly when every insertion takes the smallest id that waits. */
  lemma {:induction false} NeverOvertakenIff(steps: seq<Step>, capacity: nat)
    requires capacity >= 1 && After(steps, capacity).Some?
    ensures InOrder(steps, capacity) <==> forall i: nat :: i <= |steps| ==> !OvertakenAt(steps, i, capacity)
  {
    hide Next, Enabled, LikeSerial, Overtaken, TakesLeast;
    if InOrder(steps, capacity) {
      forall i: nat | i <= |steps| ensures !OvertakenAt(steps, i, capacity) {
        PrefixInOrder(steps, i, capacity);
        InOrderIsSerial(steps[..i], capacity);
        SerialNotOvertaken(After(steps[..i], capacity).value, Inserted(steps[..i]), capacity);
      }
    } else {
      var n := FirstSkip(steps, capacity);
      NextAfter(steps, n, capacity);
      var k := SkippingOvertakes(After(steps[..n], capacity).value, steps[n], capacity);
      assert OvertakenAt(steps, n + 1, capacity);
    }
  }

  lemma {:induction false} PrefixInOrder(steps: seq<Step>, i: nat, capacity: nat)
    requires i <= |steps| && After(steps, capacity).Some?
    ensures After(steps[..i], capacity).Some?
    ensures InOrder(steps, capacity) ==> InOrder(steps[..i], capacity)
  {
    hide Next, Enabled, TakesLeast;
    if i == |steps| {
      assert steps[..i] == steps;
    } else {
      assert steps[..|steps| - 1][..i] == steps[..i];
      PrefixInOrder(steps[..|steps| - 1], i, capacity);
    }
  }

  lemma NextAfter(steps: seq<Step>, n: nat, capacity: nat)
    requires n < |steps| && After(steps, capacity).Some?
    ensures After(steps[..n], capacity).Some? && Enabled(After(steps[..n], capacity).value, steps[n])
    ensures After(steps[..n + 1], capacity) == Some(Next(After(steps[..n], capacity).value, steps[n], capacity))
  {
    hide Next, Enabled;
    PrefixInOrder(steps, n + 1, capacity);
    assert steps[..n + 1][..n] == steps[..n];
  }

  /** The first insertion that does not take the smallest id. */
  lemma {:induction false} FirstSkip(steps: seq<Step>, capacity: nat) returns (n: nat)
    requires After(steps, capacity).Some? && !InOrder(steps, capacity)
    ensures n < |steps| && InOrder(steps[..n], capacity) && After(steps[..n], capacity).Some?
    ensures steps[n].Insert? && !TakesLeast(After(steps[..n], capacity).value, steps[n])
  {
    hide Next, Enabled;
    var front := steps[..|steps| - 1];
    if InOrder(front, capacity) {
      n := |front|;
    } else {
      n := FirstSkip(front, capacity);
      assert front[..n] == steps[..n];
    }
  }

  // What a replay misses

  /** The ids a client may have seen. */
  ghost predicate Seen(st: State, k: nat) { k == 0 || k in Ids(st.ring) || k in st.evicted }

  function LastId(events: seq<SseHandle.Event>, k: nat): nat {
    if events == [] then k else events[|events| - 1].id
  }

  /** A client that saw `k` is told to reset, or gets the events `k + 1`, `k + 2` and so on, and
      nothing that is still to come has an id up to the last one it then has. */
  ghost predicate NothingMissed(st: State, k: nat) {
    var replay := SseHandle.ReplayAfter(st.ring, Some(k));
    replay.resetRequired
    || ((forall i :: 0 <= i < |replay.events| ==> replay.events[i].id == k + 1 + i)
        && forall p :: p in st.pending ==> p > LastId(replay.events, k))
  }

  ghost predicate NothingMissedAt(steps: seq<Step>, i: nat, k: nat, capacity: nat)
    requires i <= |steps|
  {
    After(steps[..i], capacity).Some? && Seen(After(steps[..i], capacity).value, k)
    ==> NothingMissed(After(steps[..i], capacity).value, k)
  }

  lemma SerialMissesNothing(st: State, log: seq<SseHandle.Event>, k: nat, capacity: nat)
    requires LikeSerial(st, log, capacity) && capacity >= 1 && k <= |log|
    ensures NothingMissed(st, k)
  {
    SseHandle.ReplayExact(Serial(st, log), capacity, k);
    var replay := SseHandle.ReplayAfter(st.ring, Some(k));
    if !replay.resetRequired {
      forall i | 0 <= i < |replay.events| ensures replay.events[i].id == k + 1 + i {
        assert replay.events[i] == log[k + i];
      }
    }
  }

  lemma SeenIsInserted(st: State, log: seq<SseHandle.Event>, k: nat, capacity: nat)
    requires LikeSerial(st, log, capacity) && Inv(st, capacity) && Seen(st, k)
    ensures k <= |log|
  {
    hide SseHandle.Inv;
    if k > 0 {
      if k in Ids(st.ring) { var i :| 0 <= i < |st.ring| && st.ring[i].id == k; }
      assert 1 <= k <= st.nextId && k !in st.pending;
    }
  }

  /** A client that has the last event of the ring is not told of the smaller id that comes
      later. */
  lemma OvertakerMisses(st: State, k: nat)
    requires st.ring != [] && st.ring[0].id <= st.ring[|st.ring| - 1].id
    requires k in st.pending && k < st.ring[|st.ring| - 1].id
    ensures var last := st.ring[|st.ring| - 1].id; Seen(st, last) && !NothingMissed(st, last)
  {
    var last := st.ring[|st.ring| - 1].id;
    assert last in Ids(st.ring);
    var replay := SseHandle.ReplayAfter(st.ring, Some(last));
    hide SseHandle.Newer, SseHandle.ReplayAfter;
    if NothingMissed(st, last) {
      NotReset(st.ring, last);
      LastIdGrows(replay.events, last);
    }
  }

  lemma NotReset(ring: seq<SseHandle.Event>, k: nat)
    requires ring != [] && ring[0].id <= k
    ensures !SseHandle.ReplayAfter(ring, Some(k)).resetRequired
  {}

  lemma LastIdGrows(events: seq<SseHandle.Event>, k: nat)
    requires forall i :: 0 <= i < |events| ==> events[i].id == k + 1 + i
    ensures LastId(events, k) >= k
  {}

  /** The exact condition: at no moment of the run can a client reconnect with an id it saw and
      silently miss an event, if and only if every insertion takes the smallest id that waits. */
  lemma MissesNothingIff(steps: seq<Step>, capacity: nat)
    requires capacity >= 1 && After(steps, capacity).Some?
    ensures InOrder(steps, capacity)
       <==> forall i: nat, k: nat :: i <= |steps| ==> NothingMissedAt(steps, i, k, capacity)
  {
    hide Next, Enabled, LikeSerial, Overtaken, TakesLeast, NothingMissed, Seen, Inv;
    if InOrder(steps, capacity) {
      forall i: nat, k: nat | i <= |steps| ensures NothingMissedAt(steps, i, k, capacity) {
        PrefixInOrder(steps, i, capacity);
        InOrderIsSerial(steps[..i], capacity);
        InterleavedInv(steps[..i], capacity);
        var st, log := After(steps[..i], capacity).value, Inserted(steps[..i]);
        if Seen(st, k) {
          SeenIsInserted(st, log, k, capacity);
          SerialMissesNothing(st, log, k, capacity);
        }
      }
    } else {
      var n := FirstSkip(steps, capacity);
      NextAfter(steps, n, capacity);
      InOrderIsSerial(steps[..n], capacity);
      var st, st' := After(steps[..n], capacity).value, After(steps[..n + 1], capacity).value;
      var k := SkippingOvertakes(st, steps[n], capacity);
      RingStartsBelow(st, Inserted(steps[..n]), steps[n], capacity);
      OvertakerMisses(st', k);
      assert !NothingMissedAt(steps, n + 1, st'.ring[|st'.ring| - 1].id, capacity);
    }
  }

  lemma RingStartsBelow(st: State, log: seq<SseHandle.Event>, step: Step, capacity: nat)
    requires LikeSerial(st, log, capacity) && Enabled(st, step) && step.Insert? && capacity >= 1
    ensures var ring := Next(st, step, capacity).ring; ring != [] && ring[0].id <= ring[|ring| - 1].id
  {
    hide SseHandle.Evict;
    var longer := st.ring + [SseHandle.Event(step.id, step.name, step.data)];
    SseHandle.EvictKeepsEnd(longer, capacity);
    var ring := Next(st, step, capacity).ring;
    var from := |longer| - |ring|;
    assert ring[0] == longer[from] && ring[|ring| - 1] == longer[|longer| - 1];
    if from < |st.ring| { assert st.ring[from] == log[|log| - |st.ring| + from]; }
  }
}
