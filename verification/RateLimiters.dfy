/** The two limiters built on the sliding window: one bucket for each channel user, and one
    for each WebSocket connection. */
module RateLimiters {
  import opened SlidingWindow

  type Buckets = map<string, seq<Time>>

  function Key(channelType: string, platformId: string): string { channelType + ":" + platformId }

  /** A limit of zero means no limit, and leaves no trace. */
  function CheckUser(buckets: Buckets, key: string, max: nat, now: Time): (bool, Buckets) {
    if max == 0 then (true, buckets)
    else
      var (ok, bucket) := Check(if key in buckets then buckets[key] else [], now, max);
      (ok, buckets[key := bucket])
  }

  class ChannelRateLimiter {
    var buckets: Buckets

    constructor ()
      ensures buckets == map[]
    {
      buckets := map[];
    }

    method CheckMessage(channelType: string, platformId: string, maxPerMinute: nat, now: Time) returns (ok: bool)
      modifies this
      ensures (ok, buckets) == CheckUser(old(buckets), Key(channelType, platformId), maxPerMinute, now)
    {
      if maxPerMinute == 0 { return true; }
      var key := Key(channelType, platformId);
      var entry := if key in buckets then buckets[key] else [];
      entry := RetainRecent(entry, now);
      buckets := buckets[key := entry];
      if |entry| >= maxPerMinute { return false; }
      buckets := buckets[key := entry + [now]];
      assert buckets == old(buckets)[key := entry + [now]];
      return true;
    }
  }

  const MAX_PER_MIN: nat := 10

  class ConnectionLimiter {
    var msgTimes: seq<Time>

    constructor ()
      ensures msgTimes == []
    {
      msgTimes := [];
    }

    method Admit(now: Time) returns (ok: bool)
      modifies this
      ensures (ok, msgTimes) == Check(old(msgTimes), now, 10)
    {
      msgTimes := RetainRecent(msgTimes, now);
      if |msgTimes| >= MAX_PER_MIN { return false; }
      msgTimes := msgTimes + [now];
      return true;
    }
  }

  // Runs over many users

  datatype Message = Message(key: string, attempt: Attempt)

  function AllBuckets(run: seq<Message>): Buckets {
    if run == [] then map[]
    else
      var last := run[|run| - 1];
      CheckUser(AllBuckets(run[..|run| - 1]), last.key, last.attempt.max, last.attempt.now).1
  }

  /** The limited messages of one user. */
  function Of(run: seq<Message>, key: string): seq<Attempt> {
    if run == [] then []
    else
      var last := run[|run| - 1];
      Of(run[..|run| - 1], key) + if last.key == key && last.attempt.max > 0 then [last.attempt] else []
  }

  /** The bucket of a user is what that user's messages alone would have made it, so every
      property of one bucket holds for each user among any others. */
  lemma {:induction false} BucketsIndependent(run: seq<Message>, key: string)
    ensures (if key in AllBuckets(run) then AllBuckets(run)[key] else []) == Run(Of(run, key)).bucket
  {
    if run == [] {
    } else {
      var front, last := run[..|run| - 1], run[|run| - 1];
      BucketsIndependent(front, key);
      var mine := Of(run, key);
      if last.key == key && last.attempt.max > 0 {
        assert mine[..|mine| - 1] == Of(front, key);
      } else {
        assert mine == Of(front, key);
      }
    }
  }

  /** The verdict on a message depends on its own user's history only, and without a limit it is
      let through. */
  lemma VerdictIndependent(run: seq<Message>, m: Message)
    ensures CheckUser(AllBuckets(run), m.key, m.attempt.max, m.attempt.now).0
         == (m.attempt.max == 0 || Check(Run(Of(run, m.key)).bucket, m.attempt.now, m.attempt.max).0)
  {
    BucketsIndependent(run, m.key);
  }

  ghost predicate LateRun(run: seq<Message>, late: nat) {
    forall i, j :: 0 <= i < j < |run| ==> run[i].attempt.now <= run[j].attempt.now + late
  }

  lemma {:induction false} OfLateness(run: seq<Message>, key: string, late: nat, max: nat, now: Time)
    requires LateRun(run, late)
    requires forall i :: 0 <= i < |run| ==> run[i].attempt.now <= now + late
    requires forall i :: 0 <= i < |run| && run[i].key == key ==> run[i].attempt.max <= max
    ensures Lateness(Of(run, key), late)
    ensures forall i :: 0 <= i < |Of(run, key)| ==> Of(run, key)[i].now <= now + late && Of(run, key)[i].max <= max
  {
    if run == [] {
    } else {
      OfLateness(run[..|run| - 1], key, late, max, now);
      OfLateness(run[..|run| - 1], key, late, max, run[|run| - 1].attempt.now);
    }
  }

  /** In every run of any number of users, no user has more messages admitted in an interval that
      is by the lateness shorter than a minute than the largest limit that user's messages were
      checked against. */
  lemma UserNeverMoreThanMax(run: seq<Message>, key: string, late: nat, max: nat, start: Time)
    requires LateRun(run, late) && late < 60_000
    requires forall i :: 0 <= i < |run| && run[i].key == key ==> run[i].attempt.max <= max
    ensures InSpan(Run(Of(run, key)).admitted, start, 60_000 - late) <= max
    ensures (if key in AllBuckets(run) then AllBuckets(run)[key] else []) == Run(Of(run, key)).bucket
  {
    var now := if run == [] then 0 else run[|run| - 1].attempt.now;
    OfLateness(run, key, late, max, now);
    NeverMoreThanMax(Of(run, key), late, max, start);
    BucketsIndependent(run, key);
  }

  /** The name `c` with a colon is how `c'` begins. */
  predicate Prefixes(c: string, c': string) { c + ":" <= c' }

  lemma PrefixMeets(c: string, c': string) returns (p: string)
    requires Prefixes(c, c')
    ensures Key(c, p) == Key(c', "")
  {
    var q := c'[|c| + 1..];
    assert c' == c'[..|c| + 1] + q && c'[..|c| + 1] == c + ":";
    p := q + ":";
    assert c + ":" + p == c' + ":" == c' + ":" + "";
  }

  lemma LongerIsPrefixed(c: string, p: string, c': string, p': string)
    requires Key(c, p) == Key(c', p') && |c| < |c'|
    ensures Prefixes(c, c')
  {
    var k := Key(c, p);
    assert c + ":" == k[..|c| + 1] == Key(c', p')[..|c| + 1] == c'[..|c| + 1];
  }

  lemma SameLengthSame(c: string, p: string, c': string, p': string)
    requires Key(c, p) == Key(c', p') && |c| == |c'|
    ensures c == c' && p == p'
  {
    assert c == Key(c, p)[..|c|] && c' == Key(c', p')[..|c|];
    assert p == Key(c, p)[|c| + 1..] && p' == Key(c', p')[|c| + 1..];
  }

  ghost predicate Meet(c: string, c': string) { exists p, p' :: Key(c, p) == Key(c', p') }

  /** Two channels have users that share a bucket exactly when the name of one, with a colon, is
      how the name of the other begins. */
  lemma KeysCollideIff(c: string, c': string)
    requires c != c'
    ensures Meet(c, c') <==> Prefixes(c, c') || Prefixes(c', c)
  {
    hide Key, Prefixes;
    if Prefixes(c, c') { var p := PrefixMeets(c, c'); }
    if Prefixes(c', c) { var p := PrefixMeets(c', c); }
    if Meet(c, c') {
      var p, p' :| Key(c, p) == Key(c', p');
      if |c| < |c'| {
        LongerIsPrefixed(c, p, c', p');
      } else if |c'| < |c| {
        LongerIsPrefixed(c', p', c, p);
      } else {
        SameLengthSame(c, p, c', p');
      }
    }
  }

  /** Within one channel keys always tell users apart, and across channels whose names have no
      colon they do, too. */
  lemma KeysApart(c: string, p: string, c': string, p': string)
    requires c == c' || (':' !in c && ':' !in c')
    ensures Key(c, p) == Key(c', p') <==> c == c' && p == p'
  {
    hide Key;
    if Key(c, p) == Key(c', p') {
      if |c| < |c'| {
        LongerIsPrefixed(c, p, c', p');
        ColonIn(c, c');
      } else if |c'| < |c| {
        LongerIsPrefixed(c', p', c, p);
        ColonIn(c', c);
      } else {
        SameLengthSame(c, p, c', p');
      }
    }
  }

  lemma ColonIn(c: string, c': string)
    requires Prefixes(c, c')
    ensures ':' in c'
  {
    assert c'[|c|] == (c + ":")[|c|];
  }
}
