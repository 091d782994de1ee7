/** The half-evicting cache that suppresses redelivered ids. */
module Dedup {

  /** One check on the list of remembered ids: whether the id was there, and the new list. */
  function Insert(ids: seq<string>, max: nat, id: string): (bool, seq<string>) {
    if id in ids then (true, ids)
    else
      var kept := if |ids| >= max then ids[max / 2..] else ids;
      (false, kept + [id])
  }

  class DedupCache {
    var ids: seq<string>
    const maxSize: nat

    constructor (maxSize: nat)
      ensures ids == [] && this.maxSize == maxSize
    {
      ids := [];
      this.maxSize := maxSize;
    }

    method CheckAndInsert(id: string) returns (duplicate: bool)
      modifies this
      ensures (duplicate, ids) == Insert(old(ids), maxSize, id)
    {
      if id in ids { return true; }
      if |ids| >= maxSize {
        var drainCount := maxSize / 2;
        ids := ids[drainCount..];
      }
      ids := ids + [id];
      return false;
    }
  }

  // Runs

  /** The cache together with the log of every id it ever let through. */
  datatype Trace = Trace(ids: seq<string>, log: seq<string>)

  function Step(t: Trace, max: nat, id: string): Trace {
    var (duplicate, ids) := Insert(t.ids, max, id);
    Trace(ids, if duplicate then t.log else t.log + [id])
  }

  function Run(max: nat, arrivals: seq<string>): Trace {
    if arrivals == [] then Trace([], [])
    else Step(Run(max, arrivals[..|arrivals| - 1]), max, arrivals[|arrivals| - 1])
  }

  /** How many of the latest fresh ids are always remembered. */
  function Kept(max: nat): nat { max - max / 2 + 1 }

  ghost predicate Distinct(s: seq<string>) {
    forall i, j :: 0 <= i < j < |s| ==> s[i] != s[j]
  }

  /** Equal ids of a log are far apart. */
  ghost predicate Spaced(log: seq<string>, gap: nat) {
    forall i, j :: 0 <= i < j < |log| && log[i] == log[j] ==> j - i > gap
  }

  ghost predicate IsEnd(ids: seq<string>, log: seq<string>) {
    |ids| <= |log| && forall k :: 0 <= k < |ids| ==> ids[k] == log[|log| - |ids| + k]
  }

  /** The cache is the end of the log: it has no duplicates, it holds at least the latest
      `Kept(max)` ids, and no id comes back while one of its later ids is among those. */
  ghost predicate Inv(t: Trace, max: nat) {
    && IsEnd(t.ids, t.log)
    && Distinct(t.ids)
    && (|t.ids| < |t.log| ==> |t.ids| >= Kept(max))
    && (max >= 2 ==> |t.ids| <= max)
    && Spaced(t.log, Kept(max))
  }

  lemma SpacedAppend(log: seq<string>, ids: seq<string>, gap: nat, id: string)
    requires Spaced(log, gap) && id !in ids
    requires IsEnd(ids, log)
    requires |ids| < |log| ==> |ids| >= gap
    ensures Spaced(log + [id], gap)
  {
    var n := log + [id];
    forall i, j | 0 <= i < j < |n| && n[i] == n[j] ensures j - i > gap {
      if j == |log| {
        if i >= |log| - |ids| { assert log[i] == ids[i - (|log| - |ids|)]; }
      } else {
        assert log[i] == log[j];
      }
    }
  }

  lemma DistinctAppend(ids: seq<string>, drop: nat, id: string)
    requires Distinct(ids) && id !in ids && drop <= |ids|
    ensures Distinct(ids[drop..] + [id])
  {
    assert forall i :: drop <= i < |ids| ==> ids[i] != id;
  }

  lemma StepKeepsInv(t: Trace, max: nat, id: string)
    requires Inv(t, max)
    ensures Inv(Step(t, max, id), max)
  {
    hide Spaced, Distinct;
    if id !in t.ids {
      var drop := if |t.ids| >= max then max / 2 else 0;
      assert t.ids[0..] == t.ids;
      SpacedAppend(t.log, t.ids, Kept(max), id);
      DistinctAppend(t.ids, drop, id);
      assert Step(t, max, id) == Trace(t.ids[drop..] + [id], t.log + [id]);
    }
  }

  lemma {:induction false} RunKeepsInv(max: nat, arrivals: seq<string>)
    ensures Inv(Run(max, arrivals), max)
  {
    if arrivals == [] {
    } else {
      RunKeepsInv(max, arrivals[..|arrivals| - 1]);
      StepKeepsInv(Run(max, arrivals[..|arrivals| - 1]), max, arrivals[|arrivals| - 1]);
    }
  }

  /** Retention in every run: an id that was let through is suppressed as long as at most
      `ceil(max / 2)` other ids were let through after it. */
  lemma Retention(max: nat, arrivals: seq<string>, i: nat)
    requires var log := Run(max, arrivals).log;
             i < |log| && |log| - 1 - i <= max - max / 2
    ensures Run(max, arrivals).log[i] in Run(max, arrivals).ids
  {
    RunKeepsInv(max, arrivals);
    var t := Run(max, arrivals);
    hide Spaced, Distinct;
    var j := i - (|t.log| - |t.ids|);
    assert 0 <= j < |t.ids|;
    assert t.ids[j] == t.log[|t.log| - |t.ids| + j];
  }

  /** Between two occurrences of one id in the log stand more than `ceil(max / 2)` others. */
  lemma LogSpaced(max: nat, arrivals: seq<string>)
    ensures Spaced(Run(max, arrivals).log, Kept(max))
  {
    RunKeepsInv(max, arrivals);
  }

  /** The log leaves out no id that ever arrived. */
  lemma {:induction false} LogHasArrivals(max: nat, arrivals: seq<string>, id: string)
    ensures id in Run(max, arrivals).log <==> id in arrivals
  {
    if arrivals == [] {
    } else {
      var front := arrivals[..|arrivals| - 1];
      LogHasArrivals(max, front, id);
      RunKeepsInv(max, front);
      var last := arrivals[|arrivals| - 1];
      assert arrivals == front + [last];
      hide Inv;
    }
  }

  /** The list never outgrows its configured size in any run, exactly when that size is at
      least two: with a size of zero or one, half of it is zero and nothing is evicted. */
  lemma BoundedIff(max: nat)
    ensures (forall arrivals :: |Run(max, arrivals).ids| <= max) <==> max >= 2
  {
    if max >= 2 {
      forall arrivals ensures |Run(max, arrivals).ids| <= max { RunKeepsInv(max, arrivals); }
    } else {
      var two := ["a", "b"];
      assert two[..1] == ["a"] && ["a"][..0] == [];
      assert Run(max, ["a"]).ids == ["a"];
      assert Run(max, two).ids == ["a", "b"];
    }
  }

  /** Until it is full, the list is all that arrived. */
  lemma {:induction false} FillsUp(max: nat, arrivals: seq<string>)
    requires |arrivals| <= max && Distinct(arrivals)
    ensures Run(max, arrivals) == Trace(arrivals, arrivals)
  {
    if arrivals == [] {
    } else {
      var front, last := arrivals[..|arrivals| - 1], arrivals[|arrivals| - 1];
      FillsUp(max, front);
      assert last !in front;
      assert arrivals == front + [last];
    }
  }

  /** The retention bound is tight for every size: of `max + 1` different arrivals, the one that is
      followed by exactly one more than the bound of `Retention` allows is forgotten. */
  lemma RetentionIsTight(max: nat, arrivals: seq<string>)
    requires max >= 2 && |arrivals| == max + 1 && Distinct(arrivals)
    ensures var t, i := Run(max, arrivals), max / 2 - 1;
            && t.log == arrivals && |t.log| - 1 - i == max - max / 2 + 1
            && t.log[i] !in t.ids
  {
    var front, last := arrivals[..max], arrivals[max];
    FillsUp(max, front);
    assert last !in front;
    assert arrivals[..|arrivals| - 1] == front;
    assert Run(max, arrivals) == Step(Trace(front, front), max, last);
    NotInRest(arrivals, max / 2);
    hide Run, Distinct;
    assert front + [last] == arrivals && front[max / 2..] + [last] == arrivals[max / 2..];
  }

  lemma NotInRest(s: seq<string>, n: nat)
    requires Distinct(s) && 0 < n <= |s|
    ensures s[n - 1] !in s[n..]
  {}
}
