/** What every run of the stream chunker keeps. */
module ChunkerRuns {
  import opened Text
  import opened Utf8
  import opened StreamChunker
  import opened ChunkerBreaks

  datatype Op = PushText(text: Bytes) | TryOnce | FlushAll

  /** The chunker with a record of the run: the emitted bytes, and the pushed bytes split at
      the forced fence closings. */
  datatype Run = Run(st: State, emitted: Bytes, segments: seq<Bytes>)

  function Start(): Run { Run(State([], false, []), [], [[]]) }

  function Chunk(c: Option<Bytes>): Bytes { if c.Some? then c.value else [] }

  /** The next attempt closes an open fence by force. */
  predicate Forced(st: State, min: nat, max: nat) {
    st.inFence && |st.buffer| >= min && |st.buffer| >= max
  }

  function Step(r: Run, op: Op, min: nat, max: nat): Run
    requires r.segments != []
  {
    var last := |r.segments| - 1;
    match op
    case PushText(text) => Run(Push(r.st, text), r.emitted, r.segments[last := r.segments[last] + text])
    case TryOnce =>
      var (chunk, st) := TryFlush(r.st, min, max);
      Run(st, r.emitted + Chunk(chunk), if Forced(r.st, min, max) then r.segments + [[]] else r.segments)
    case FlushAll =>
      var (chunk, st) := FlushRemaining(r.st);
      Run(st, r.emitted + Chunk(chunk), r.segments)
  }

  function RunOf(ops: seq<Op>, min: nat, max: nat): (r: Run)
    ensures r.segments != []
  {
    if ops == [] then Start()
    else Step(RunOf(ops[..|ops| - 1], min, max), ops[|ops| - 1], min, max)
  }

  function Pushed(ops: seq<Op>): Bytes {
    if ops == [] then []
    else
      var last := ops[|ops| - 1];
      Pushed(ops[..|ops| - 1]) + if last.PushText? then last.text else []
  }

  // Conservation

  /** What a forced closing adds to the stream: the closing, and the new opening. */
  /** A newline, three backticks, a newline, three backticks and a newline. */
  const SEAM: Bytes := [10, 96, 96, 96, 10, 96, 96, 96, 10]

  function JoinSegments(segments: seq<Bytes>): Bytes
    requires segments != []
  {
    if |segments| == 1 then segments[0]
    else JoinSegments(segments[..|segments| - 1]) + SEAM + segments[|segments| - 1]
  }

  function ConcatSegments(segments: seq<Bytes>): Bytes {
    if segments == [] then []
    else ConcatSegments(segments[..|segments| - 1]) + segments[|segments| - 1]
  }

  lemma {:induction false} PushLinesAppends(st: State, lines: seq<Bytes>)
    ensures PushLines(st, lines).buffer == st.buffer + Concat(lines)
    decreases |lines|
  {
    if lines == [] {
    } else {
      PushLinesAppends(PushLine(st, lines[0]), lines[1..]);
      ConcatFirst(lines[0], lines[1..]);
      assert lines == [lines[0]] + lines[1..];
    }
  }

  lemma PushAppends(st: State, text: Bytes)
    ensures Push(st, text).buffer == st.buffer + text
  {
    PushLinesAppends(st, SplitInclusive(text));
  }

  /** The marker is three backticks in a fence and empty outside, so what looks like a fence
      line always toggles the state. */
  ghost predicate MarkerInv(st: State) { st.marker == if st.inFence then FENCE else [] }

  lemma {:induction false} PushLinesToggles(st: State, lines: seq<Bytes>)
    requires MarkerInv(st)
    ensures MarkerInv(PushLines(st, lines))
    ensures PushLines(st, lines).inFence == (st.inFence != (FenceLines(lines) % 2 == 1))
    decreases |lines|
  {
    if lines == [] {
    } else {
      hide TrimSpace;
      PushLinesToggles(PushLine(st, lines[0]), lines[1..]);
    }
  }

  function FenceLines(lines: seq<Bytes>): nat {
    if lines == [] then 0 else (if IsFenceLine(lines[0]) then 1 else 0) + FenceLines(lines[1..])
  }

  lemma TryFlushKeepsMarker(st: State, min: nat, max: nat)
    ensures TryFlush(st, min, max).1.inFence == st.inFence && TryFlush(st, min, max).1.marker == st.marker
  {
    hide NaturalBreak, ForcedBreak;
  }

  lemma ReopenedPlain()
    ensures Reopened(FENCE) == FENCE_REOPEN
  {
    assert FENCE[1..][1..][1..] == [];
    assert DropTicks(FENCE) == DropTicks(FENCE[1..]) == DropTicks(FENCE[1..][1..]) == [];
  }

  /** One attempt outside the forced case cuts the buffer in two. */
  lemma TryFlushCuts(st: State, min: nat, max: nat)
    requires MarkerInv(st)
    ensures var (chunk, st') := TryFlush(st, min, max);
            Chunk(chunk) + st'.buffer == st.buffer + if Forced(st, min, max) then SEAM else []
  {
    hide NaturalBreak, ForcedBreak, Reopened, FENCE_CLOSE, FENCE_REOPEN, BREAKS;
    if Forced(st, min, max) {
      ReopenedPlain();
      Regroup(st.buffer, FENCE_CLOSE, FENCE_REOPEN);
      SeamIs();
    } else {
      CutInTwo(st, min, max);
    }
  }

  lemma SeamIs()
    ensures FENCE_CLOSE + FENCE_REOPEN == SEAM
  {}

  lemma CutInTwo(st: State, min: nat, max: nat)
    requires !Forced(st, min, max)
    ensures var (chunk, st') := TryFlush(st, min, max);
            Chunk(chunk) + st'.buffer == st.buffer && st.buffer + [] == st.buffer
  {
    hide NaturalBreak, ForcedBreak, Reopened, FENCE_CLOSE, FENCE_REOPEN, BREAKS;
    var (chunk, st') := TryFlush(st, min, max);
    if chunk.Some? {
      var k := |chunk.value|;
      assert st.buffer[..k] + st.buffer[k..] == st.buffer;
    }
  }

  ghost predicate Conserved(r: Run, pushed: Bytes) {
    && r.segments != []
    && MarkerInv(r.st)
    && ConcatSegments(r.segments) == pushed
    && JoinSegments(r.segments) == r.emitted + r.st.buffer
  }

  lemma ExtendLast(segments: seq<Bytes>, text: Bytes)
    requires segments != []
    ensures var last := |segments| - 1;
            var longer := segments[last := segments[last] + text];
            && ConcatSegments(longer) == ConcatSegments(segments) + text
            && JoinSegments(longer) == JoinSegments(segments) + text
  {
    hide SEAM;
    var last := |segments| - 1;
    var longer := segments[last := segments[last] + text];
    assert longer[..last] == segments[..last];
  }

  lemma NewSegment(segments: seq<Bytes>)
    requires segments != []
    ensures ConcatSegments(segments + [[]]) == ConcatSegments(segments)
    ensures JoinSegments(segments + [[]]) == JoinSegments(segments) + SEAM
  {
    hide SEAM;
    assert (segments + [[]])[..|segments|] == segments;
  }

  lemma PushConserves(r: Run, text: Bytes, min: nat, max: nat, pushed: Bytes)
    requires Conserved(r, pushed)
    ensures Conserved(Step(r, PushText(text), min, max), pushed + text)
  {
    hide TryFlush, Push, JoinSegments, ConcatSegments;
    PushAppends(r.st, text);
    PushKeepsMarker(r.st, text);
    ExtendLast(r.segments, text);
    Regroup(r.emitted, r.st.buffer, text);
  }

  lemma TryConserves(r: Run, min: nat, max: nat, pushed: Bytes)
    requires Conserved(r, pushed)
    ensures Conserved(Step(r, TryOnce, min, max), pushed)
  {
    hide TryFlush, SEAM, JoinSegments, ConcatSegments, Chunk, Forced;
    TryFlushCuts(r.st, min, max);
    TryFlushKeepsMarker(r.st, min, max);
    NewSegment(r.segments);
    var (chunk, st') := TryFlush(r.st, min, max);
    Regroup(r.emitted, Chunk(chunk), st'.buffer);
    Regroup(r.emitted, r.st.buffer, SEAM);
  }

  lemma StepConserves(r: Run, op: Op, min: nat, max: nat, pushed: Bytes)
    requires Conserved(r, pushed)
    ensures Conserved(Step(r, op, min, max), pushed + if op.PushText? then op.text else [])
  {
    match op
    case PushText(text) => PushConserves(r, text, min, max, pushed);
    case TryOnce =>
      assert pushed + [] == pushed;
      TryConserves(r, min, max, pushed);
    case FlushAll =>
      hide TryFlush, JoinSegments, ConcatSegments;
      assert pushed + [] == pushed;
      FlushRemainingCuts(r.st);
  }

  lemma FlushRemainingCuts(st: State)
    ensures Chunk(FlushRemaining(st).0) == st.buffer && FlushRemaining(st).1.buffer == []
  {}

  lemma Regroup(a: Bytes, b: Bytes, c: Bytes)
    ensures a + b + c == a + (b + c)
  {}

  lemma PushKeepsMarker(st: State, text: Bytes)
    requires MarkerInv(st)
    ensures MarkerInv(Push(st, text))
    ensures Push(st, text).inFence == (st.inFence != (FenceLines(SplitInclusive(text)) % 2 == 1))
  {
    PushLinesToggles(st, SplitInclusive(text));
  }

  lemma {:induction false} RunConserves(ops: seq<Op>, min: nat, max: nat)
    ensures Conserved(RunOf(ops, min, max), Pushed(ops))
  {
    if ops != [] {
      RunConserves(ops[..|ops| - 1], min, max);
      StepConserves(RunOf(ops[..|ops| - 1], min, max), ops[|ops| - 1], min, max, Pushed(ops[..|ops| - 1]));
    } else {
      assert ConcatSegments([[]]) == [] && JoinSegments([[]]) == [];
    }
  }

  function ForcedCount(ops: seq<Op>, min: nat, max: nat): nat {
    if ops == [] then 0
    else
      var front := ops[..|ops| - 1];
      ForcedCount(front, min, max)
      + if ops[|ops| - 1].TryOnce? && Forced(RunOf(front, min, max).st, min, max) then 1 else 0
  }

  lemma {:induction false} SegmentCount(ops: seq<Op>, min: nat, max: nat)
    ensures |RunOf(ops, min, max).segments| == ForcedCount(ops, min, max) + 1
  {
    if ops == [] {
    } else {
      SegmentCount(ops[..|ops| - 1], min, max);
    }
  }

  /** In every run, what was emitted and what is still buffered are the pushed text with one
      seam for every forced fence closing; without a forced closing they are the pushed text. */
  lemma NothingLost(ops: seq<Op>, min: nat, max: nat)
    ensures var r := RunOf(ops, min, max);
            && ConcatSegments(r.segments) == Pushed(ops)
            && JoinSegments(r.segments) == r.emitted + r.st.buffer
            && |r.segments| == ForcedCount(ops, min, max) + 1
            && (ForcedCount(ops, min, max) == 0 ==> r.emitted + r.st.buffer == Pushed(ops))
  {
    hide SEAM;
    RunConserves(ops, min, max);
    SegmentCount(ops, min, max);
    var r := RunOf(ops, min, max);
    if |r.segments| == 1 { assert r.segments[..0] == []; }
  }

  /** In every run, a fence is open exactly when an odd number of fence lines was pushed,
      whatever was flushed in between. */
  lemma {:induction false} FenceIsParity(ops: seq<Op>, min: nat, max: nat)
    ensures RunOf(ops, min, max).st.inFence <==> PushedFences(ops) % 2 == 1
    ensures MarkerInv(RunOf(ops, min, max).st)
  {
    hide Push, TryFlush, FenceLines, SplitInclusive;
    if ops == [] {
    } else {
      var front := ops[..|ops| - 1];
      FenceIsParity(front, min, max);
      var st := RunOf(front, min, max).st;
      TryFlushKeepsMarker(st, min, max);
      match ops[|ops| - 1]
      case PushText(text) => PushKeepsMarker(st, text);
      case TryOnce =>
      case FlushAll =>
    }
  }

  function PushedFences(ops: seq<Op>): nat {
    if ops == [] then 0
    else
      var last := ops[|ops| - 1];
      PushedFences(ops[..|ops| - 1]) + if last.PushText? then FenceLines(SplitInclusive(last.text)) else 0
  }

  // Character boundaries

  ghost predicate PushesValid(ops: seq<Op>) {
    forall i :: 0 <= i < |ops| && ops[i].PushText? ==> Valid(ops[i].text)
  }

  /** One attempt on well-formed text emits and keeps well-formed text. */
  lemma TryFlushKeepsValid(st: State, min: nat, max: nat)
    requires MarkerInv(st) && Valid(st.buffer)
    ensures var (chunk, st') := TryFlush(st, min, max);
            Valid(st'.buffer) && (chunk.Some? ==> Valid(chunk.value))
  {
    hide NaturalBreak, ForcedBreak, Reopened, Valid;
    var hi := Min(|st.buffer|, max);
    ReopenedPlain();
    AsciiValid();
    ValidAppend(st.buffer, FENCE_CLOSE);
    if NaturalBreak(st.buffer, BREAKS, min, hi).Some? {
      NaturalBreakAtBoundary(st.buffer, min, hi);
      ValidCut(st.buffer, NaturalBreak(st.buffer, BREAKS, min, hi).value);
    } else if |st.buffer| >= max {
      ForcedBreakAtBoundary(st.buffer, max);
      ValidCut(st.buffer, ForcedBreak(st.buffer, max));
    }
  }

  lemma {:induction false} AllAsciiValid(s: Bytes)
    requires forall i :: 0 <= i < |s| ==> s[i] < 0x80
    ensures Valid(s)
  {
    if s == [] {
    } else {
      AllAsciiValid(s[1..]);
    }
  }

  lemma AsciiValid()
    ensures Valid(FENCE_CLOSE) && Valid(FENCE_REOPEN) && Valid([])
  {
    AllAsciiValid(FENCE_CLOSE);
    AllAsciiValid(FENCE_REOPEN);
  }

  /** In every run of well-formed pushes the buffer is well-formed, so each slice the chunker
      takes is at character boundaries, and every chunk it emits is well-formed. */
  lemma {:induction false} CutsAtBoundaries(ops: seq<Op>, min: nat, max: nat)
    requires PushesValid(ops)
    ensures var st := RunOf(ops, min, max).st;
            && Valid(st.buffer)
            && var chunk := TryFlush(st, min, max).0; chunk.Some? ==> Valid(chunk.value)
  {
    if ops == [] {
    } else {
      var front, last := ops[..|ops| - 1], ops[|ops| - 1];
      CutsAtBoundaries(front, min, max);
      FenceIsParity(front, min, max);
      var st := RunOf(front, min, max).st;
      match last {
        case PushText(text) =>
          PushAppends(st, text);
          hide Valid, Push, TryFlush;
          assert Valid(ops[|ops| - 1].text);
          ValidAppend(st.buffer, text);
        case TryOnce => TryFlushKeepsValid(st, min, max);
        case FlushAll => AsciiValid();
      }
    }
    hide TryFlush, Valid;
    FenceIsParity(ops, min, max);
    AsciiValid();
    TryFlushKeepsValid(RunOf(ops, min, max).st, min, max);
  }

  // Sizes

  /** What comes out is neither empty nor longer than the maximum. */
  ghost predicate FitsMax(st: State, min: nat, max: nat) {
    var chunk := TryFlush(st, min, max).0;
    chunk.Some? ==> 0 < |chunk.value| <= max
  }

  /** A maximum that holds every character is kept, in every state outside a fence. */
  lemma KeepsMax(st: State, min: nat, max: nat)
    requires Valid(st.buffer) && !st.inFence && max >= 4
    ensures FitsMax(st, min, max)
  {
    hide NaturalBreak, ForcedBreak, Valid, BREAKS;
    NaturalBreakAtBoundary(st.buffer, min, Min(|st.buffer|, max));
    if |st.buffer| >= max { ForcedBreakAtBoundary(st.buffer, max); }
  }

  /** A character that is longer than the maximum comes out whole, with all that follows it. */
  lemma BreaksMax(s: Bytes, min: nat, max: nat)
    requires Valid(s) && StartsWide(s) && max < 4 && min < |s|
    ensures TryFlush(State(s, false, []), min, max).0 == Some(s)
  {
    assert NaturalBreak(s, BREAKS, min, Min(|s|, max)).None? by {
      hide NaturalBreak, StartsWide, BREAKS, Valid;
      NaturalBreakAtBoundary(s, min, Min(|s|, max));
      var r := NaturalBreak(s, BREAKS, min, Min(|s|, max));
      if r.Some? { InsideWide(s, r.value); }
    }
    assert ForcedBreak(s, max) == |s| by {
      hide IsBoundary, StartsWide, Valid;
      var k := WalkBack(s, max);
      if k > 0 { InsideWide(s, k); }
    }
    hide NaturalBreak, ForcedBreak, Valid, BREAKS;
    assert s[..|s|] == s;
  }

  /** A line that does not begin with a backtick or a blank is no fence line. */
  lemma PushPlain(s: Bytes)
    requires s != [] && SpaceHead(s) == 0 && s[0] != 96 && forall i :: 0 <= i < |s| ==> s[i] != 10
    ensures Push(State([], false, []), s) == State(s, false, [])
  {
    PushOneLine(State([], false, []), s);
    DropSpaceTailPrefix(s);
    assert DropSpaceHead(s) == s && !(FENCE <= TrimSpace(s));
    assert [] + s == s;
  }

  lemma PushOneLine(st: State, s: Bytes)
    requires s != [] && forall i :: 0 <= i < |s| - 1 ==> s[i] != 10
    ensures Push(st, s) == PushLine(st, s)
  {
    hide PushLine, SplitInclusive;
    OneLine(s);
    assert [s][1..] == [];
    assert PushLines(st, [s]) == PushLines(PushLine(st, s), []);
  }

  lemma {:induction false} OneLine(s: Bytes)
    requires s != [] && forall i :: 0 <= i < |s| - 1 ==> s[i] != 10
    ensures LineEnd(s) == |s| && SplitInclusive(s) == [s]
  {
    if |s| > 1 { OneLine(s[1..]); }
    assert s[..|s|] == s && s[|s|..] == [];
  }

  lemma {:induction false} DropSpaceTailPrefix(s: Bytes)
    ensures DropSpaceTail(s) <= s
  {
    if SpaceTail(s) > 0 { DropSpaceTailPrefix(s[..|s| - SpaceTail(s)]); }
  }

  /** A push of an emoji and `min` letters. */
  function Wide(min: nat): seq<Op> { [PushText(EMOJI + seq(min, _ => 97))] }

  lemma WideText(min: nat)
    ensures var s := EMOJI + seq(min, _ => 97);
            && Valid(s) && StartsWide(s) && |s| >= 4 && min < |s|
            && Push(State([], false, []), s) == State(s, false, [])
  {
    var pad: Bytes := seq(min, _ => 97);
    var s := EMOJI + pad;
    AllAsciiValid(pad);
    EmojiValid();
    hide Valid, Push;
    ValidAppend(EMOJI, pad);
    PushPlain(s);
  }

  lemma WideRun(min: nat, max: nat)
    ensures PushesValid(Wide(min)) && !RunOf(Wide(min), min, max).st.inFence
    ensures max < 4 ==> !FitsMax(RunOf(Wide(min), min, max).st, min, max)
  {
    hide Valid, StartsWide, Push, TryFlush, EMOJI, RunOf;
    var s := EMOJI + seq(min, _ => 97);
    WideText(min);
    OnePush(s, min, max);
    if max < 4 { BreaksMax(s, min, max); }
  }

  lemma OnePush(text: Bytes, min: nat, max: nat)
    ensures RunOf([PushText(text)], min, max).st == Push(State([], false, []), text)
  {
    assert [PushText(text)][..0] == [];
  }

  /** Outside a fence every chunk of every run of well-formed pushes is non-empty and within the
      maximum, exactly when the maximum is at least four, the length of the longest character. */
  lemma ChunkSizeIff(min: nat, max: nat)
    ensures (forall ops :: PushesValid(ops) && !RunOf(ops, min, max).st.inFence
                           ==> FitsMax(RunOf(ops, min, max).st, min, max))
        <==> max >= 4
  {
    hide FitsMax, RunOf, PushesValid;
    if max >= 4 {
      forall ops | PushesValid(ops) && !RunOf(ops, min, max).st.inFence
        ensures FitsMax(RunOf(ops, min, max).st, min, max)
      {
        CutsAtBoundaries(ops, min, max);
        KeepsMax(RunOf(ops, min, max).st, min, max);
      }
    } else {
      WideRun(min, max);
    }
  }

  /** A character of four bytes. */
  const EMOJI: Bytes := [0xF0, 0x9F, 0x98, 0x80]

  lemma EmojiValid()
    ensures Valid(EMOJI)
  {
    assert Head(EMOJI) == 4 && EMOJI[4..] == [];
  }

  /** The text starts with a character of four bytes. */
  ghost predicate StartsWide(s: Bytes) {
    |s| >= 4 && Continuation(s[1]) && Continuation(s[2]) && Continuation(s[3])
  }

  lemma InsideWide(s: Bytes, k: nat)
    requires StartsWide(s) && 0 < k < 4
    ensures !IsBoundary(s, k)
  {
    assert k == 1 || k == 2 || k == 3;
  }

  // Draining

  /** Flushing until nothing more comes is possible: no state is a dead end. */
  predicate Drainable(min: nat, max: nat) { max >= 5 || min >= 5 }

  lemma ForcedBreakPositive(s: Bytes, max: nat)
    requires max <= |s| && s != []
    ensures 0 < ForcedBreak(s, max) <= |s|
  {}

  lemma TryFlushShrinks(st: State, min: nat, max: nat)
    requires MarkerInv(st) && Drainable(min, max) && TryFlush(st, min, max).0.Some?
    ensures |TryFlush(st, min, max).1.buffer| < |st.buffer|
  {
    hide NaturalBreak, ForcedBreak, Reopened;
    ReopenedPlain();
    var hi := Min(|st.buffer|, max);
    NaturalBreakPositive(st.buffer, min, hi);
    if NaturalBreak(st.buffer, BREAKS, min, hi).Some? {
    } else if st.buffer != [] && |st.buffer| >= max {
      ForcedBreakPositive(st.buffer, max);
    }
  }

  /** All the chunks that come out before the chunker wants to wait. */
  function Drain(st: State, min: nat, max: nat): (seq<Bytes>, State)
    requires MarkerInv(st) && Drainable(min, max)
    decreases |st.buffer|
  {
    var (chunk, st') := TryFlush(st, min, max);
    if chunk.None? then ([], st)
    else
      TryFlushShrinks(st, min, max);
      TryFlushKeepsMarker(st, min, max);
      var (chunks, last) := Drain(st', min, max);
      ([chunk.value] + chunks, last)
  }

  /** After draining, less than a maximum or a minimum of text is held back. */
  lemma {:induction false} DrainedIsShort(st: State, min: nat, max: nat)
    requires MarkerInv(st) && Drainable(min, max)
    ensures var rest := Drain(st, min, max).1; |rest.buffer| < min || |rest.buffer| < max
    decreases |st.buffer|
  {
    hide NaturalBreak, ForcedBreak, Reopened;
    var (chunk, st') := TryFlush(st, min, max);
    if chunk.Some? {
      TryFlushShrinks(st, min, max);
      TryFlushKeepsMarker(st, min, max);
      DrainedIsShort(st', min, max);
    }
  }

  /** A state that an attempt to flush leaves as it was, while emitting a chunk. */
  ghost predicate Stuck(st: State, min: nat, max: nat) {
    var (chunk, st') := TryFlush(st, min, max);
    chunk.Some? && st' == st
  }

  /** After a push of an opening fence, an attempt with small sizes closes it and opens it again. */
  lemma FenceRun(min: nat, max: nat)
    requires !Drainable(min, max)
    ensures Stuck(RunOf([PushText(FENCE_REOPEN)], min, max).st, min, max)
  {
    hide RunOf, Push, TrimSpace, Reopened;
    var s := FENCE_REOPEN;
    OnePush(s, min, max);
    PushOneLine(State([], false, []), s);
    TrimReopen();
    assert [] + s == s;
    ReopenedPlain();
  }

  lemma TrimReopen()
    ensures TrimSpace(FENCE_REOPEN) == FENCE
  {
    assert SpaceHead(FENCE_REOPEN) == 0 && SpaceTail(FENCE_REOPEN) == 1;
    assert FENCE_REOPEN[..3] == FENCE && SpaceTail(FENCE) == 0;
  }

  /** In every run draining ends, exactly when the minimum or the maximum exceeds the four bytes
      of a reopened fence: otherwise a reopened fence is closed again for ever. */
  lemma DrainEndsIff(min: nat, max: nat)
    ensures (forall ops :: !Stuck(RunOf(ops, min, max).st, min, max)) <==> Drainable(min, max)
  {
    hide RunOf;
    if Drainable(min, max) {
      forall ops ensures !Stuck(RunOf(ops, min, max).st, min, max) {
        FenceIsParity(ops, min, max);
        if Stuck(RunOf(ops, min, max).st, min, max) { TryFlushShrinks(RunOf(ops, min, max).st, min, max); }
      }
    } else {
      FenceRun(min, max);
    }
  }
}
