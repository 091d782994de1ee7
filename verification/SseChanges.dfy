/** Publishing on changes by callers that interleave. A call stores its fingerprint under a lock
    and publishes after it has released the lock, so other calls may come in between. */
module SseChanges {
  import opened Text
  import SseHandle

  /** A call that was not suppressed, with its number among them. */
  datatype Change = Change(key: string, fingerprint: string, number: nat)

  /** `accepted` are all such calls, `waiting` those that have not published yet. */
  datatype State = State(
    stored: map<string, string>, accepted: seq<Change>, waiting: seq<Change>, published: seq<Change>)

  datatype Step = Call(key: string, fingerprint: string) | Publish(i: nat)

  function Next(st: State, step: Step): State {
    match step
    case Call(key, fingerprint) =>
      if key in st.stored && st.stored[key] == fingerprint then st
      else
        var change := Change(key, fingerprint, |st.accepted|);
        State(st.stored[key := fingerprint], st.accepted + [change], st.waiting + [change], st.published)
    case Publish(i) =>
      if i >= |st.waiting| then st
      else st.(waiting := st.waiting[..i] + st.waiting[i + 1..], published := st.published + [st.waiting[i]])
  }

  function After(steps: seq<Step>): State {
    if steps == [] then State(map[], [], [], [])
    else Next(After(steps[..|steps| - 1]), steps[|steps| - 1])
  }

  /** The changes of one key. */
  function Of(changes: seq<Change>, key: string): seq<Change> {
    if changes == [] then []
    else
      var last := changes[|changes| - 1];
      Of(changes[..|changes| - 1], key) + if last.key == key then [last] else []
  }

  lemma {:induction false} OfAppend(a: seq<Change>, b: seq<Change>, key: string)
    ensures Of(a + b, key) == Of(a, key) + Of(b, key)
  {
    if b == [] {
      assert a + b == a;
    } else {
      var front, last := b[..|b| - 1], b[|b| - 1];
      assert (a + b)[..|a + b| - 1] == a + front;
      OfAppend(a, front, key);
      var more := if last.key == key then [last] else [];
      assert (Of(a, key) + Of(front, key)) + more == Of(a, key) + (Of(front, key) + more);
    }
  }

  lemma OfOne(c: Change, key: string)
    ensures Of([c], key) == if c.key == key then [c] else []
  {
    assert [c][..0] == [];
  }

  // What is accepted

  function Fingerprints(changes: seq<Change>): seq<string> {
    seq(|changes|, i requires 0 <= i < |changes| => changes[i].fingerprint)
  }

  function Calls(steps: seq<Step>, key: string): seq<string> {
    if steps == [] then []
    else
      var last := steps[|steps| - 1];
      Calls(steps[..|steps| - 1], key) + if last.Call? && last.key == key then [last.fingerprint] else []
  }

  lemma {:induction false} StoredIsLast(steps: seq<Step>, key: string)
    ensures var st, calls := After(steps), Calls(steps, key);
            && (key in st.stored <==> calls != [])
            && (calls != [] ==> st.stored[key] == calls[|calls| - 1])
  {
    if steps == [] {
    } else {
      StoredIsLast(steps[..|steps| - 1], key);
    }
  }

  lemma FingerprintsAppend(a: seq<Change>, c: Change)
    ensures Fingerprints(a + [c]) == Fingerprints(a) + [c.fingerprint]
  {}

  /** The calls of a key that were not suppressed are its calls with equal neighbours collapsed. */
  lemma {:induction false} AcceptedIsCollapsed(steps: seq<Step>, key: string)
    ensures Fingerprints(Of(After(steps).accepted, key)) == SseHandle.Collapse(Calls(steps, key))
  {
    if steps == [] {
    } else {
      var front, last := steps[..|steps| - 1], steps[|steps| - 1];
      AcceptedIsCollapsed(front, key);
      StoredIsLast(front, key);
      LastAccepted(After(front), last, key);
      var calls := Calls(front, key);
      assert calls + [] == calls;
      hide Fingerprints, SseHandle.Collapse, Of, Next;
      if last.Call? && last.key == key { SseHandle.CollapseLast(calls, last.fingerprint); }
    }
  }

  /** A step accepts a call of the key if its fingerprint is not the one stored. */
  lemma LastAccepted(st: State, step: Step, key: string)
    ensures Fingerprints(Of(Next(st, step).accepted, key))
         == Fingerprints(Of(st.accepted, key))
            + if step.Call? && step.key == key && !(key in st.stored && st.stored[key] == step.fingerprint)
              then [step.fingerprint] else []
  {
    hide Fingerprints, Of;
    var prints := Fingerprints(Of(st.accepted, key));
    assert prints + [] == prints;
    if step.Call? {
      var change := Change(step.key, step.fingerprint, |st.accepted|);
      OfAppend(st.accepted, [change], key);
      OfOne(change, key);
      FingerprintsAppend(Of(st.accepted, key), change);
      assert Of(st.accepted, key) + [] == Of(st.accepted, key);
    }
  }

  // What is published

  /** The change at `i` is the first of its key that waits. */
  predicate TakesFirst(st: State, step: Step) {
    step.Publish? && step.i < |st.waiting| ==> Of(st.waiting[..step.i], st.waiting[step.i].key) == []
  }

  predicate InOrder(steps: seq<Step>) {
    steps == []
    || (var front := steps[..|steps| - 1]; InOrder(front) && TakesFirst(After(front), steps[|steps| - 1]))
  }

  /** The published and the waiting changes of every key are its accepted ones in order. */
  ghost predicate Ordered(st: State) {
    && (forall key :: Of(st.published, key) + Of(st.waiting, key) == Of(st.accepted, key))
    && (forall i :: 0 <= i < |st.waiting| ==> st.waiting[i].number < |st.accepted|)
    && (forall i, j :: 0 <= i < j < |st.waiting| ==> st.waiting[i].number != st.waiting[j].number)
  }

  lemma OfWaiting(waiting: seq<Change>, i: nat, key: string)
    requires i < |waiting|
    ensures Of(waiting, key)
         == Of(waiting[..i], key) + (if waiting[i].key == key then [waiting[i]] else []) + Of(waiting[i + 1..], key)
    ensures Of(waiting[..i] + waiting[i + 1..], key) == Of(waiting[..i], key) + Of(waiting[i + 1..], key)
  {
    assert waiting == waiting[..i] + [waiting[i]] + waiting[i + 1..];
    OfAppend(waiting[..i] + [waiting[i]], waiting[i + 1..], key);
    OfAppend(waiting[..i], [waiting[i]], key);
    OfOne(waiting[i], key);
    OfAppend(waiting[..i], waiting[i + 1..], key);
  }

  lemma CallOrdered(st: State, key: string, fingerprint: string)
    requires Ordered(st)
    ensures Ordered(Next(st, Call(key, fingerprint)))
  {
    hide Of;
    var change := Change(key, fingerprint, |st.accepted|);
    forall k ensures Of(st.published, k) + Of(st.waiting + [change], k) == Of(st.accepted + [change], k) {
      OfAppend(st.waiting, [change], k);
      OfAppend(st.accepted, [change], k);
      assert (Of(st.published, k) + Of(st.waiting, k)) + Of([change], k)
          == Of(st.published, k) + (Of(st.waiting, k) + Of([change], k));
    }
  }

  lemma PublishOrdered(st: State, i: nat)
    requires Ordered(st) && TakesFirst(st, Publish(i)) && i < |st.waiting|
    ensures Ordered(Next(st, Publish(i)))
  {
    hide Of;
    var c, rest := st.waiting[i], st.waiting[..i] + st.waiting[i + 1..];
    forall k ensures Of(st.published + [c], k) + Of(rest, k) == Of(st.accepted, k) {
      OfWaiting(st.waiting, i, k);
      OfAppend(st.published, [c], k);
      OfOne(c, k);
      if c.key == k {
        assert Of(st.published, k) + ([] + [c] + Of(st.waiting[i + 1..], k))
            == (Of(st.published, k) + [c]) + ([] + Of(st.waiting[i + 1..], k));
      } else {
        assert Of(st.published, k) + [] == Of(st.published, k);
        assert Of(st.waiting[..i], k) + [] + Of(st.waiting[i + 1..], k)
            == Of(st.waiting[..i], k) + Of(st.waiting[i + 1..], k);
      }
    }
  }

  lemma {:induction false} InOrderOrdered(steps: seq<Step>)
    requires InOrder(steps)
    ensures Ordered(After(steps))
  {
    hide Ordered, Next, TakesFirst;
    if steps == [] {
      StartOrdered();
    } else {
      var front, last := steps[..|steps| - 1], steps[|steps| - 1];
      InOrderOrdered(front);
      match last
      case Call(key, fingerprint) => CallOrdered(After(front), key, fingerprint);
      case Publish(i) =>
        if i < |After(front).waiting| { PublishOrdered(After(front), i); } else { NothingToPublish(After(front), i); }
    }
  }

  lemma NothingToPublish(st: State, i: nat)
    requires i >= |st.waiting|
    ensures Next(st, Publish(i)) == st
  {}

  lemma StartOrdered()
    ensures Ordered(State(map[], [], [], []))
  {}

  /** The published changes of every key are its first accepted ones. */
  ghost predicate Faithful(st: State) {
    forall key :: Of(st.published, key) <= Of(st.accepted, key)
  }

  /** A change that overtakes one of its key is published out of its place. */
  lemma OvertakingShows(st: State, i: nat)
    requires Ordered(st) && !TakesFirst(st, Publish(i))
    ensures !Faithful(Next(st, Publish(i)))
  {
    hide Of;
    var c := st.waiting[i];
    var ahead := Of(st.waiting[..i], c.key);
    OfWaiting(st.waiting, i, c.key);
    OfAppend(st.published, [c], c.key);
    OfOne(c, c.key);
    OfMembers(st.waiting[..i], c.key);
    var p := Of(st.published, c.key);
    assert (p + [c])[|p|] == c && Of(st.accepted, c.key)[|p|] == ahead[0];
    assert Of(st.published + [c], c.key) == p + [c];
    assert ahead[0] in st.waiting[..i];
    assert ahead[0] != c;
  }

  lemma {:induction false} OfMembers(changes: seq<Change>, key: string)
    ensures forall c :: c in Of(changes, key) ==> c in changes
  {
    if changes == [] {
    } else {
      OfMembers(changes[..|changes| - 1], key);
    }
  }

  lemma {:induction false} InOrderPrefix(steps: seq<Step>, n: nat)
    requires InOrder(steps) && n <= |steps|
    ensures InOrder(steps[..n])
  {
    if n == |steps| {
      assert steps[..n] == steps;
    } else {
      InOrderPrefix(steps[..|steps| - 1], n);
      assert steps[..|steps| - 1][..n] == steps[..n];
    }
  }

  lemma OrderedFaithful(st: State)
    requires Ordered(st)
    ensures Faithful(st)
  {
    hide Of;
    forall key ensures Of(st.published, key) <= Of(st.accepted, key) {
      assert Of(st.published, key) + Of(st.waiting, key) == Of(st.accepted, key);
    }
  }

  /** At every moment each key has been published in the order its calls were accepted, exactly when
      every publication takes the first waiting change of its key. */
  lemma {:induction false} FaithfulIff(steps: seq<Step>)
    ensures InOrder(steps) <==> forall n: nat :: n <= |steps| ==> Faithful(After(steps[..n]))
  {
    hide Ordered, Next, Faithful;
    if InOrder(steps) {
      forall n: nat | n <= |steps| ensures Faithful(After(steps[..n])) {
        InOrderPrefix(steps, n);
        InOrderOrdered(steps[..n]);
        OrderedFaithful(After(steps[..n]));
      }
    } else {
      var front, last := steps[..|steps| - 1], steps[|steps| - 1];
      if InOrder(front) {
        InOrderOrdered(front);
        OvertakingShows(After(front), last.i);
        assert steps[..|steps|] == steps;
      } else {
        FaithfulIff(front);
        var n: nat :| n <= |front| && !Faithful(After(front[..n]));
        assert front[..n] == steps[..n];
      }
    }
  }

  /** Once all have published in order, the last that clients were sent for a key is what is stored. */
  lemma SettledIsCurrent(steps: seq<Step>, key: string)
    requires InOrder(steps) && After(steps).waiting == [] && Calls(steps, key) != []
    ensures var st := After(steps);
            var sent := Of(st.published, key);
            sent != [] && key in st.stored && sent[|sent| - 1].fingerprint == st.stored[key]
  {
    hide After, InOrder, Calls, SseHandle.Collapse, Fingerprints;
    InOrderOrdered(steps);
    AcceptedIsCollapsed(steps, key);
    StoredIsLast(steps, key);
    var st := After(steps);
    assert Of(st.waiting, key) == [];
    assert Of(st.published, key) + [] == Of(st.accepted, key);
    hide Of, Ordered;
    CollapseEnds(Calls(steps, key));
    LastFingerprint(Of(st.accepted, key));
  }

  lemma LastFingerprint(changes: seq<Change>)
    ensures |Fingerprints(changes)| == |changes|
    ensures changes != [] ==> Fingerprints(changes)[|changes| - 1] == changes[|changes| - 1].fingerprint
  {}

  lemma {:induction false} CollapseEnds(s: seq<string>)
    requires s != []
    ensures SseHandle.Collapse(s) != [] && SseHandle.Collapse(s)[|SseHandle.Collapse(s)| - 1] == s[|s| - 1]
  {
    var front := s[..|s| - 1];
    if front != [] { CollapseEnds(front); }
  }

  /** Otherwise it need not be, and it stays so: two calls that publish in the opposite order leave
      the older state as the last one sent, and the newer is suppressed from then on. */
  lemma StaleStays(key: string)
    ensures var steps := [Call(key, "a"), Call(key, "b"), Publish(1), Publish(0)];
            var st := After(steps);
            && st.waiting == [] && st.stored == map[key := "b"]
            && |st.published| == 2 && st.published[1].fingerprint == "a"
            && After(steps + [Call(key, "b")]) == st
  {
    var steps := [Call(key, "a"), Call(key, "b"), Publish(1), Publish(0)];
    var a, b := Change(key, "a", 0), Change(key, "b", 1);
    assert steps[..3][..2][..1] == [Call(key, "a")] && steps[..3][..2] == [Call(key, "a"), Call(key, "b")];
    assert [Call(key, "a")][..0] == [];
    var more := steps + [Call(key, "b")];
    assert more[..4] == steps;
    assert After([Call(key, "a")]) == State(map[key := "a"], [a], [a], []);
    assert After(steps[..3][..2]) == State(map[key := "b"], [a, b], [a, b], []);
    assert [a, b][..1] + [a, b][2..] == [a];
    assert After(steps[..3]) == State(map[key := "b"], [a, b], [a], [b]);
    assert [a][..0] + [a][1..] == [];
  }
}
