/** A limiter that remembers the times of the admitted messages of the last minute. */
module SlidingWindow {

  /** Milliseconds of a monotone clock. */
  type Time = nat

  const WINDOW: nat := 60_000

  /** Elapsed time, zero for a time that is not in the past. */
  function DurationSince(now: Time, t: Time): nat { if now > t then now - t else 0 }

  function Prune(times: seq<Time>, now: Time): seq<Time> {
    if times == [] then []
    else
      var last := times[|times| - 1];
      Prune(times[..|times| - 1], now) + if DurationSince(now, last) < WINDOW then [last] else []
  }

  /** One check of a bucket: whether the message is admitted, and the new bucket. */
  function Check(bucket: seq<Time>, now: Time, max: nat): (bool, seq<Time>) {
    var recent := Prune(bucket, now);
    if |recent| >= max then (false, recent) else (true, recent + [now])
  }

  method RetainRecent(times: seq<Time>, now: Time) returns (recent: seq<Time>)
    ensures recent == Prune(times, now)
  {
    recent := [];
    for i := 0 to |times|
      invariant recent == Prune(times[..i], now)
    {
      assert times[..i + 1][..i] == times[..i];
      if DurationSince(now, times[i]) < WINDOW { recent := recent + [times[i]]; }
    }
    assert times[..|times|] == times;
  }

  // Runs

  /** A message and the limit in force when it arrives. */
  datatype Attempt = Attempt(now: Time, max: nat)

  /** The bucket with the log of everything it ever admitted. */
  datatype Trace = Trace(bucket: seq<Time>, admitted: seq<Time>)

  function Step(t: Trace, a: Attempt): Trace {
    var (ok, bucket) := Check(t.bucket, a.now, a.max);
    Trace(bucket, if ok then t.admitted + [a.now] else t.admitted)
  }

  function Run(attempts: seq<Attempt>): Trace {
    if attempts == [] then Trace([], [])
    else Step(Run(attempts[..|attempts| - 1]), attempts[|attempts| - 1])
  }

  /** No check reads a clock that is more than `late` behind an earlier check. The clock is read
      before the bucket is locked, so checks of concurrent messages may come in another order
      than their times. */
  ghost predicate Lateness(attempts: seq<Attempt>, late: nat) {
    forall i, j :: 0 <= i < j < |attempts| ==> attempts[i].now <= attempts[j].now + late
  }

  function Later(a: Time, b: Time): Time { if a >= b then a else b }

  /** The latest time that any check has read. */
  function Latest(attempts: seq<Attempt>): Time {
    if attempts == [] then 0
    else Later(Latest(attempts[..|attempts| - 1]), attempts[|attempts| - 1].now)
  }

  lemma {:induction false} LatestBound(attempts: seq<Attempt>, late: nat, now: Time)
    requires forall i :: 0 <= i < |attempts| ==> attempts[i].now <= now + late
    ensures Latest(attempts) <= now + late
  {
    if attempts == [] {
    } else {
      LatestBound(attempts[..|attempts| - 1], late, now);
    }
  }

  lemma LatenessOfFront(attempts: seq<Attempt>, late: nat)
    requires attempts != [] && Lateness(attempts, late)
    ensures Lateness(attempts[..|attempts| - 1], late)
    ensures Latest(attempts[..|attempts| - 1]) <= attempts[|attempts| - 1].now + late
  {
    LatestBound(attempts[..|attempts| - 1], late, attempts[|attempts| - 1].now);
  }

  ghost predicate UpTo(times: seq<Time>, now: Time) {
    forall i :: 0 <= i < |times| ==> times[i] <= now
  }

  /** Two prunings drop what the later of them drops. */
  lemma {:induction false} PruneTwice(times: seq<Time>, before: Time, now: Time)
    ensures Prune(Prune(times, before), now) == Prune(times, Later(before, now))
  {
    if times == [] {
    } else {
      PruneTwice(times[..|times| - 1], before, now);
      var last := times[|times| - 1];
      var front := Prune(times[..|times| - 1], before);
      if DurationSince(before, last) < WINDOW {
        assert (front + [last])[..|front|] == front;
      } else {
        assert front + [] == front;
      }
    }
  }

  lemma PruneAppend(times: seq<Time>, t: Time, now: Time)
    ensures Prune(times + [t], now) == Prune(times, now) + if now < t + WINDOW then [t] else []
  {
    assert (times + [t])[..|times|] == times;
  }

  /** The admitted times are in the past, and the bucket is the part of them of the last minute. */
  ghost predicate Inv(t: Trace, now: Time) {
    UpTo(t.admitted, now) && t.bucket == Prune(t.admitted, now)
  }

  lemma StepKeepsInv(t: Trace, before: Time, a: Attempt)
    requires Inv(t, before) && before < a.now + WINDOW
    ensures Inv(Step(t, a), Later(before, a.now))
    ensures Step(t, a).admitted
         == t.admitted + if |Prune(t.admitted, Later(before, a.now))| < a.max then [a.now] else []
  {
    hide Prune;
    PruneTwice(t.admitted, before, a.now);
    PruneAppend(t.admitted, a.now, Later(before, a.now));
  }

  /** While no check is a minute late, the bucket is the full log pruned at the latest time. */
  lemma {:induction false} RunKeepsInv(attempts: seq<Attempt>, late: nat)
    requires Lateness(attempts, late) && late < WINDOW
    ensures Inv(Run(attempts), Latest(attempts))
  {
    if attempts == [] {
    } else {
      var front := attempts[..|attempts| - 1];
      LatenessOfFront(attempts, late);
      RunKeepsInv(front, late);
      StepKeepsInv(Run(front), Latest(front), attempts[|attempts| - 1]);
    }
  }

  /** Then the pruned bucket decides as the full log would: a message is rejected exactly when as
      many as the limit were admitted in the minute before the latest time. */
  lemma DecisionExact(attempts: seq<Attempt>, a: Attempt, late: nat)
    requires Lateness(attempts + [a], late) && late < WINDOW
    ensures var t, now := Run(attempts), Later(Latest(attempts), a.now);
            && Check(t.bucket, a.now, a.max).0 == (|Prune(t.admitted, now)| < a.max)
            && Check(t.bucket, a.now, a.max).1 == Prune(Step(t, a).admitted, now)
  {
    hide Prune;
    assert (attempts + [a])[..|attempts + [a]| - 1] == attempts;
    LatenessOfFront(attempts + [a], late);
    RunKeepsInv(attempts, late);
    StepKeepsInv(Run(attempts), Latest(attempts), a);
    PruneTwice(Run(attempts).admitted, Latest(attempts), a.now);
  }

  /** How many of the times lie in the half-open interval of length `len` from `start` on. */
  function InSpan(times: seq<Time>, start: Time, len: nat): nat {
    if times == [] then 0
    else
      var last := times[|times| - 1];
      InSpan(times[..|times| - 1], start, len) + if start <= last < start + len then 1 else 0
  }

  lemma InSpanAppend(times: seq<Time>, t: Time, start: Time, len: nat)
    ensures InSpan(times + [t], start, len) == InSpan(times, start, len) + if start <= t < start + len then 1 else 0
  {
    assert (times + [t])[..|times|] == times;
  }

  lemma {:induction false} SpanWithinPrune(times: seq<Time>, start: Time, len: nat, now: Time)
    requires now < start + WINDOW
    ensures InSpan(times, start, len) <= |Prune(times, now)|
  {
    if times == [] {
    } else {
      SpanWithinPrune(times[..|times| - 1], start, len, now);
    }
  }

  lemma StepWithinMax(t: Trace, before: Time, a: Attempt, late: nat, max: nat, start: Time)
    requires Inv(t, before) && before <= a.now + late && late < WINDOW && a.max <= max
    requires InSpan(t.admitted, start, WINDOW - late) <= max
    ensures InSpan(Step(t, a).admitted, start, WINDOW - late) <= max
  {
    hide Prune, InSpan;
    StepKeepsInv(t, before, a);
    InSpanAppend(t.admitted, a.now, start, WINDOW - late);
    if start <= a.now < start + (WINDOW - late) {
      SpanWithinPrune(t.admitted, start, WINDOW - late, Later(before, a.now));
    }
  }

  /** In every run, no interval, wherever it starts, that is by the lateness shorter than a minute
      has more admitted messages than the largest limit that was in force. */
  lemma {:induction false} NeverMoreThanMax(attempts: seq<Attempt>, late: nat, max: nat, start: Time)
    requires Lateness(attempts, late) && late < 60_000
    requires forall i :: 0 <= i < |attempts| ==> attempts[i].max <= max
    ensures InSpan(Run(attempts).admitted, start, 60_000 - late) <= max
  {
    if attempts == [] {
    } else {
      hide Inv, Step, Latest;
      var front, a := attempts[..|attempts| - 1], attempts[|attempts| - 1];
      LatenessOfFront(attempts, late);
      NeverMoreThanMax(front, late, max, start);
      RunKeepsInv(front, late);
      StepWithinMax(Run(front), Latest(front), a, late, max, start);
    }
  }

  // The length is best possible

  predicate AllAt(times: seq<Time>, t: Time) { forall i :: 0 <= i < |times| ==> times[i] == t }

  lemma {:induction false} AllPruned(times: seq<Time>, t: Time, now: Time)
    requires AllAt(times, t)
    ensures Prune(times, now) == if now < t + WINDOW then times else []
  {
    if times == [] {
    } else {
      AllPruned(times[..|times| - 1], t, now);
      assert times == times[..|times| - 1] + [t];
    }
  }

  lemma {:induction false} AllInSpan(times: seq<Time>, t: Time, start: Time, len: nat)
    requires AllAt(times, t) && start <= t < start + len
    ensures InSpan(times, start, len) == |times|
  {
    if times == [] {
    } else {
      AllInSpan(times[..|times| - 1], t, start, len);
    }
  }

  lemma Admits(attempts: seq<Attempt>, a: Attempt)
    ensures var t, recent := Run(attempts), Prune(Run(attempts).bucket, a.now);
            |recent| < a.max ==> Run(attempts + [a]) == Trace(recent + [a.now], t.admitted + [a.now])
  {
    hide Prune;
    assert (attempts + [a])[..|attempts|] == attempts;
  }

  predicate IsBurst(attempts: seq<Attempt>, max: nat) {
    |attempts| <= max && forall i :: 0 <= i < |attempts| ==> attempts[i] == Attempt(0, max)
  }

  lemma {:induction false} BurstAdmitted(attempts: seq<Attempt>, max: nat)
    requires IsBurst(attempts, max)
    ensures var t := Run(attempts); t.bucket == t.admitted && |t.admitted| == |attempts| && AllAt(t.admitted, 0)
  {
    if attempts == [] {
    } else {
      hide Run, Prune;
      var front := attempts[..|attempts| - 1];
      BurstAdmitted(front, max);
      AllPruned(Run(front).admitted, 0, 0);
      Admits(front, Attempt(0, max));
      assert attempts == front + [Attempt(0, max)];
    }
  }

  /** As many messages as the limit, a message a minute later that makes the bucket forget them,
      and one that is late. */
  function Straggling(late: nat, max: nat): seq<Attempt>
    requires late <= WINDOW
  {
    seq(max, _ => Attempt(0, max)) + [Attempt(WINDOW, max)] + [Attempt(WINDOW - late, max)]
  }

  lemma StragglingAdmitted(late: nat, max: nat) returns (zeros: seq<Time>)
    requires late <= WINDOW && max >= 2
    ensures |zeros| == max && AllAt(zeros, 0)
    ensures Run(Straggling(late, max)).admitted == zeros + [WINDOW] + [WINDOW - late]
    ensures Lateness(Straggling(late, max), late)
    ensures forall i :: 0 <= i < |Straggling(late, max)| ==> Straggling(late, max)[i].max <= max
  {
    hide Run, Prune;
    var burst: seq<Attempt> := seq(max, _ => Attempt(0, max));
    BurstAdmitted(burst, max);
    zeros := Run(burst).admitted;
    AllPruned(zeros, 0, WINDOW);
    Admits(burst, Attempt(WINDOW, max));
    var first := burst + [Attempt(WINDOW, max)];
    assert [] + [WINDOW] == [WINDOW];
    AllPruned([WINDOW], WINDOW, WINDOW - late);
    Admits(first, Attempt(WINDOW - late, max));
    assert Straggling(late, max) == first + [Attempt(WINDOW - late, max)];
  }

  ghost predicate Bounded(late: nat, max: nat, len: nat) {
    forall attempts: seq<Attempt>, start: Time ::
      Lateness(attempts, late) && (forall i :: 0 <= i < |attempts| ==> attempts[i].max <= max)
      ==> InSpan(Run(attempts).admitted, start, len) <= max
  }

  lemma {:induction false} ShorterSpan(times: seq<Time>, start: Time, len: nat, longer: nat)
    requires len <= longer
    ensures InSpan(times, start, len) <= InSpan(times, start, longer)
  {
    if times == [] {
    } else {
      ShorterSpan(times[..|times| - 1], start, len, longer);
    }
  }

  lemma {:induction false} EmptySpan(times: seq<Time>, start: Time)
    ensures InSpan(times, start, 0) == 0
  {
    if times == [] {
    } else {
      EmptySpan(times[..|times| - 1], start);
    }
  }

  lemma WithinMinute(late: nat, max: nat, len: nat)
    requires len == 0 || len + late <= WINDOW
    ensures Bounded(late, max, len)
  {
    hide Run, Lateness;
    forall attempts: seq<Attempt>, start: Time
      | Lateness(attempts, late) && forall i :: 0 <= i < |attempts| ==> attempts[i].max <= max
      ensures InSpan(Run(attempts).admitted, start, len) <= max
    {
      if len == 0 {
        EmptySpan(Run(attempts).admitted, start);
      } else {
        NeverMoreThanMax(attempts, late, max, start);
        ShorterSpan(Run(attempts).admitted, start, len, WINDOW - late);
      }
    }
  }

  /** A limit of two or more is kept in all intervals of a length, whatever the run, exactly when
      length and lateness together are a minute at most. */
  lemma BoundedIff(late: nat, max: nat, len: nat)
    requires max >= 2
    ensures Bounded(late, max, len) <==> len == 0 || len + late <= 60_000
  {
    hide Run, Straggling, InSpan;
    if len == 0 || len + late <= WINDOW {
      WithinMinute(late, max, len);
    } else {
      var l := if late <= WINDOW then late else WINDOW;
      var run := Straggling(l, max);
      var zeros := StragglingAdmitted(l, max);
      assert Lateness(run, late);
      hide Lateness;
      AllInSpan(zeros, 0, 0, len);
      InSpanAppend(zeros, WINDOW, 0, len);
      InSpanAppend(zeros + [WINDOW], WINDOW - l, 0, len);
      assert InSpan(Run(run).admitted, 0, len) > max;
    }
  }
}
