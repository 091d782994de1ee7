/** Code fences and the cuts of the stream chunker: when its fence state is that of the text it
    was given, and when a chunk ends inside a fence. */
module ChunkerFences {
  import opened Text
  import opened Utf8
  import opened StreamChunker
  import opened ChunkerBreaks
  import opened ChunkerRuns

  function FenceCount(text: Bytes): nat { FenceLines(SplitInclusive(text)) }

  /** A fence is open after the text, as the chunker reads it in one push. */
  predicate OpensFence(text: Bytes) { Push(State([], false, []), text).inFence }

  lemma OpensFenceIff(text: Bytes)
    ensures OpensFence(text) <==> FenceCount(text) % 2 == 1
  {
    hide Push;
    PushKeepsMarker(State([], false, []), text);
  }

  // Lines and cuts

  lemma {:induction false} LineEndAppend(a: Bytes, b: Bytes)
    requires a != []
    ensures LineEnd(a) < |a| || a[|a| - 1] == 10 || b == [] ==> LineEnd(a + b) == LineEnd(a)
    ensures LineEnd(a) == |a| && a[|a| - 1] != 10 && b != [] ==> LineEnd(a + b) == |a| + LineEnd(b)
  {
    if a[0] == 10 {
    } else if |a| == 1 {
      assert (a + b)[1..] == b;
    } else {
      assert (a + b)[1..] == a[1..] + b;
      LineEndAppend(a[1..], b);
    }
  }

  /** The last line of `a` is not ended. */
  predicate Pending(a: Bytes) { a != [] && a[|a| - 1] != 10 }

  function FirstLine(b: Bytes): Bytes
    requires b != []
  {
    b[..LineEnd(b)]
  }

  lemma SplitFirst(a: Bytes)
    requires a != []
    ensures SplitInclusive(a) == [FirstLine(a)] + SplitInclusive(a[LineEnd(a)..])
  {}

  function LastLine(a: Bytes): Bytes
    requires a != []
    decreases |a|
  {
    if LineEnd(a) == |a| then a else LastLine(a[LineEnd(a)..])
  }

  function FenceOf(line: Bytes): nat { if IsFenceLine(line) then 1 else 0 }

  lemma FenceCountFirst(a: Bytes)
    requires a != []
    ensures FenceCount(a) == FenceOf(FirstLine(a)) + FenceCount(a[LineEnd(a)..])
  {
    hide IsFenceLine;
    var rest := SplitInclusive(a[LineEnd(a)..]);
    assert ([FirstLine(a)] + rest)[1..] == rest;
  }

  /** How many fence lines a text has, of whose two parts the first ends inside a line. */
  lemma {:induction false} FenceCountAppend(a: Bytes, b: Bytes)
    ensures !Pending(a) || b == [] ==> FenceCount(a + b) == FenceCount(a) + FenceCount(b)
    ensures Pending(a) && b != [] ==>
              FenceCount(a + b) + FenceOf(LastLine(a)) + FenceOf(FirstLine(b))
              == FenceCount(a) + FenceCount(b) + FenceOf(LastLine(a) + FirstLine(b))
    decreases |a|
  {
    hide FenceCount, FenceOf;
    NoFences();
    if a == [] {
      assert a + b == b;
    } else if b == [] {
      assert a + b == a;
    } else {
      var n := LineEnd(a);
      LineEndAppend(a, b);
      FenceCountFirst(a);
      FenceCountFirst(a + b);
      if n < |a| {
        assert (a + b)[..n] == a[..n] && (a + b)[n..] == a[n..] + b;
        FenceCountAppend(a[n..], b);
      } else if a[|a| - 1] == 10 {
        assert (a + b)[..n] == a[..n] && (a + b)[n..] == b;
        assert a[n..] == [];
      } else {
        var m := LineEnd(b);
        FenceCountFirst(b);
        assert (a + b)[..n + m] == a + b[..m] && (a + b)[n + m..] == b[m..];
        assert a[n..] == [] && a[..n] == a;
      }
    }
  }

  lemma NoFences()
    ensures FenceCount([]) == 0
  {}

  // The state and the text

  predicate SameParity(m: nat, n: nat) { m % 2 == n % 2 }

  /** Cutting the text between `a` and `b` changes whether its lines read as an odd number of
      fence lines: the cut falls inside a line, and the two parts of the line do not together
      read as the line does. */
  predicate Misread(a: Bytes, b: Bytes) {
    Pending(a) && b != []
    && IsFenceLine(LastLine(a) + FirstLine(b)) != (IsFenceLine(LastLine(a)) != IsFenceLine(FirstLine(b)))
  }

  /** The exact condition on a cut. */
  lemma CutReadsIff(a: Bytes, b: Bytes)
    ensures SameParity(FenceCount(a) + FenceCount(b), FenceCount(a + b)) <==> !Misread(a, b)
  {
    hide FenceCount, IsFenceLine;
    FenceCountAppend(a, b);
  }

  /** How many of the pushes begin at a cut that is misread. */
  function Misreads(ops: seq<Op>): nat {
    if ops == [] then 0
    else
      var front, last := ops[..|ops| - 1], ops[|ops| - 1];
      Misreads(front) + if last.PushText? && Misread(Pushed(front), last.text) then 1 else 0
  }

  lemma LastPush(ops: seq<Op>)
    requires ops != []
    ensures var front, last := ops[..|ops| - 1], ops[|ops| - 1];
            var text := if last.PushText? then last.text else [];
            && Pushed(ops) == Pushed(front) + text
            && PushedFences(ops) == PushedFences(front) + FenceCount(text)
            && Misreads(ops) == Misreads(front) + if Misread(Pushed(front), text) then 1 else 0
  {
    hide IsFenceLine;
    NoFences();
  }

  lemma {:induction false} PushedFencesOdd(ops: seq<Op>)
    ensures SameParity(PushedFences(ops), FenceCount(Pushed(ops)) + Misreads(ops))
  {
    hide *;
    if ops == [] {
      NothingPushed();
    } else {
      var front, last := ops[..|ops| - 1], ops[|ops| - 1];
      PushedFencesOdd(front);
      LastPush(ops);
      var text := if last.PushText? then last.text else [];
      CutReadsIff(Pushed(front), text);
      AddParity(PushedFences(front), FenceCount(Pushed(front)), Misreads(front), FenceCount(text),
                FenceCount(Pushed(front) + text), Misread(Pushed(front), text));
    }
  }

  lemma NothingPushed()
    ensures SameParity(PushedFences([]), FenceCount(Pushed([])) + Misreads([]))
  {
    NoFences();
  }

  lemma AddParity(counted: nat, lines: nat, misreads: nat, more: nat, all: nat, misread: bool)
    requires SameParity(counted, lines + misreads) && (SameParity(lines + more, all) <==> !misread)
    ensures SameParity(counted + more, all + (misreads + if misread then 1 else 0))
  {}

  /** In every run a fence is open exactly when the fence lines of the pushed text and the misread
      cuts are an odd number together. */
  lemma InFenceIff(ops: seq<Op>, min: nat, max: nat)
    ensures RunOf(ops, min, max).st.inFence <==> (FenceCount(Pushed(ops)) + Misreads(ops)) % 2 == 1
  {
    hide FenceCount, RunOf, PushedFences;
    FenceIsParity(ops, min, max);
    PushedFencesOdd(ops);
  }

  /** Every push begins where a line does. */
  ghost predicate WholeLines(ops: seq<Op>) {
    forall i :: 0 <= i < |ops| && ops[i].PushText? && ops[i].text != [] ==> !Pending(Pushed(ops[..i]))
  }

  lemma {:induction false} WholeLinesRead(ops: seq<Op>)
    requires WholeLines(ops)
    ensures Misreads(ops) == 0
  {
    hide IsFenceLine, Pushed;
    if ops == [] {
    } else {
      var front := ops[..|ops| - 1];
      assert forall i :: 0 <= i < |front| ==> front[..i] == ops[..i];
      WholeLinesRead(front);
    }
  }

  /** When every push but the last ends with a newline, a fence is open exactly after an odd number
      of fence lines of the text. */
  lemma InFenceOfLines(ops: seq<Op>, min: nat, max: nat)
    requires WholeLines(ops)
    ensures RunOf(ops, min, max).st.inFence <==> FenceCount(Pushed(ops)) % 2 == 1
  {
    hide FenceCount, RunOf;
    InFenceIff(ops, min, max);
    WholeLinesRead(ops);
  }

  /** An opening fence that arrives in two pieces is not seen: two backticks, then the third and
      the end of the line. In one push it is. */
  lemma FenceInPieces(min: nat, max: nat)
    ensures RunOf([PushText([96, 96]), PushText([96, 10])], min, max).st == State(FENCE_REOPEN, false, [])
    ensures RunOf([PushText(FENCE_REOPEN)], min, max).st == State(FENCE_REOPEN, true, FENCE)
  {
    var a, b: Bytes := [96, 96], [96, 10];
    PiecesOfFence();
    hide RunOf, Push, IsFenceLine, FENCE_REOPEN;
    OnePush(a, min, max);
    TwoPushes(a, b, min, max);
    OnePush(FENCE_REOPEN, min, max);
  }

  lemma PiecesOfFence()
    ensures Push(State([], false, []), [96, 96]) == State([96, 96], false, [])
    ensures Push(State([96, 96], false, []), [96, 10]) == State(FENCE_REOPEN, false, [])
    ensures Push(State([], false, []), FENCE_REOPEN) == State(FENCE_REOPEN, true, FENCE)
  {
    hide Push, TrimSpace;
    var a, b: Bytes := [96, 96], [96, 10];
    PushOneLine(State([], false, []), a);
    PushOneLine(State(a, false, []), b);
    ShortLine(a);
    ShortLine(b);
    assert [] + a == a && a + b == FENCE_REOPEN;
    PushOneLine(State([], false, []), FENCE_REOPEN);
    TrimReopen();
    assert [] + FENCE_REOPEN == FENCE_REOPEN;
  }

  lemma TwoPushes(a: Bytes, b: Bytes, min: nat, max: nat)
    ensures RunOf([PushText(a), PushText(b)], min, max).st == Push(RunOf([PushText(a)], min, max).st, b)
  {
    hide Push;
    assert [PushText(a), PushText(b)][..1] == [PushText(a)];
  }

  lemma {:induction false} DropSpaceHeadShorter(s: Bytes)
    ensures |DropSpaceHead(s)| <= |s|
  {
    if SpaceHead(s) > 0 { DropSpaceHeadShorter(s[SpaceHead(s)..]); }
  }

  lemma ShortLine(line: Bytes)
    requires |line| < 3
    ensures !IsFenceLine(line)
  {
    DropSpaceHeadShorter(line);
    DropSpaceTailPrefix(DropSpaceHead(line));
  }

  // Cuts inside a fence

  /** Where a text outside a fence is cut: after the best break, or at the limit. */
  ghost predicate CutAt(s: Bytes, k: nat, min: nat, max: nat) {
    && |s| >= min
    && ((exists q :: Best(s, BREAKS, q, k, min, max))
        || (NoneOccurs(s, BREAKS, min, max) && |s| >= max && LimitAt(s, k, max)))
  }

  lemma LimitUnique(s: Bytes, k: nat, k': nat, max: nat)
    requires LimitAt(s, k, max) && LimitAt(s, k', max)
    ensures k == k'
  {}

  /** The chunk is the text up to the cut, and there is one cut at most. */
  lemma ChunkIsCut(st: State, min: nat, max: nat, k: nat)
    requires Valid(st.buffer) && !st.inFence && CutAt(st.buffer, k, min, max)
    ensures k <= |st.buffer| && TryFlush(st, min, max) == (Some(st.buffer[..k]), st.(buffer := st.buffer[k..]))
  {
    hide TryFlush, Valid, Best, NoneOccurs, BREAKS;
    var s := st.buffer;
    if q :| Best(s, BREAKS, q, k, min, max) {
      CutsAtBestBreak(st, min, max, q, k);
    } else {
      CutsAtLimit(st, min, max);
      var k': nat :| LimitAt(s, k', max)
                && TryFlush(st, min, max) == (Some(s[..k']), st.(buffer := s[k'..]));
      LimitUnique(s, k, k', max);
    }
  }

  lemma ChunkHasCut(st: State, min: nat, max: nat)
    requires Valid(st.buffer) && !st.inFence && TryFlush(st, min, max).0.Some?
    ensures exists k: nat :: CutAt(st.buffer, k, min, max)
  {
    hide TryFlush, Valid, Best, NoneOccurs, BREAKS;
    var s := st.buffer;
    WaitsIff(st, min, max);
    if NoneOccurs(s, BREAKS, min, max) {
      CutsAtLimit(st, min, max);
      var k: nat :| LimitAt(s, k, max)
                && TryFlush(st, min, max) == (Some(s[..k]), st.(buffer := s[k..]));
      assert CutAt(s, k, min, max);
    } else {
      BreakMeaning(s, min, max);
      var r := NaturalBreak(s, BREAKS, min, Min(|s|, max));
      var q :| Best(s, BREAKS, q, r.value, min, max);
      assert CutAt(s, r.value, min, max);
    }
  }

  /** The chunk leaves a fence open: the rest of the fence is in a later one. */
  ghost predicate SplitsFence(st: State, min: nat, max: nat) {
    var chunk := TryFlush(st, min, max).0;
    chunk.Some? && OpensFence(chunk.value)
  }

  /** Outside a fence, a chunk splits one exactly when an odd number of fence lines stands before
      the cut: closed or not, a fence that began in the text does not move the cut. */
  lemma SplitsFenceIff(st: State, min: nat, max: nat)
    requires Valid(st.buffer) && !st.inFence
    ensures SplitsFence(st, min, max)
       <==> exists k: nat :: CutAt(st.buffer, k, min, max) && k <= |st.buffer| && FenceCount(st.buffer[..k]) % 2 == 1
  {
    hide TryFlush, Valid, CutAt, OpensFence, FenceCount;
    if SplitsFence(st, min, max) {
      ChunkHasCut(st, min, max);
      var k: nat :| CutAt(st.buffer, k, min, max);
      ChunkIsCut(st, min, max, k);
      OpensFenceIff(st.buffer[..k]);
    }
    if k: nat :| CutAt(st.buffer, k, min, max) && k <= |st.buffer| && FenceCount(st.buffer[..k]) % 2 == 1 {
      ChunkIsCut(st, min, max, k);
      OpensFenceIff(st.buffer[..k]);
    }
  }

  // Texts without a fence line

  lemma {:induction false} DropHeadExtends(line: Bytes, more: Bytes)
    requires FENCE <= DropSpaceHead(line)
    ensures DropSpaceHead(line + more) == DropSpaceHead(line) + more
  {
    if SpaceHead(line) > 0 {
      assert (line + more)[SpaceHead(line)..] == line[SpaceHead(line)..] + more;
      DropHeadExtends(line[SpaceHead(line)..], more);
    } else {
      assert line[0] == FENCE[0];
    }
  }

  lemma {:induction false} DropTailKeepsFence(s: Bytes)
    requires FENCE <= s
    ensures FENCE <= DropSpaceTail(s)
  {
    if SpaceTail(s) > 0 {
      assert s[0] == 96 && s[1] == 96 && s[2] == 96;
      DropTailKeepsFence(s[..|s| - SpaceTail(s)]);
    }
  }

  /** What begins as a fence line is one, however the line goes on. */
  lemma FenceLineExtends(line: Bytes, more: Bytes)
    requires IsFenceLine(line)
    ensures IsFenceLine(line + more)
  {
    DropSpaceTailPrefix(DropSpaceHead(line));
    DropHeadExtends(line, more);
    DropTailKeepsFence(DropSpaceHead(line) + more);
  }

  lemma NoFenceBefore(text: Bytes, k: nat)
    requires k <= |text| && FenceCount(text) == 0
    ensures FenceCount(text[..k]) == 0
  {
    hide FenceCount;
    var a, b := text[..k], text[k..];
    assert a + b == text;
    FenceCountAppend(a, b);
    if Pending(a) && b != [] {
      FenceCountFirst(b);
      if IsFenceLine(LastLine(a)) { FenceLineExtends(LastLine(a), FirstLine(b)); }
    }
  }

  /** In every run, while the buffer holds no fence line no chunk splits a fence. */
  lemma PlainIsNotSplit(ops: seq<Op>, min: nat, max: nat)
    requires PushesValid(ops)
    requires !RunOf(ops, min, max).st.inFence && FenceCount(RunOf(ops, min, max).st.buffer) == 0
    ensures !SplitsFence(RunOf(ops, min, max).st, min, max)
  {
    hide RunOf, SplitsFence, FenceCount, CutAt;
    var st := RunOf(ops, min, max).st;
    CutsAtBoundaries(ops, min, max);
    SplitsFenceIff(st, min, max);
    if SplitsFence(st, min, max) {
      var k: nat :| CutAt(st.buffer, k, min, max) && k <= |st.buffer| && FenceCount(st.buffer[..k]) % 2 == 1;
      NoFenceBefore(st.buffer, k);
    }
  }

  // It happens

  /** A fence with a first line of `n` letters, closed again. */
  function Fenced(n: nat): Bytes { FENCE + Letters(n) + FENCE_CLOSE }

  function Letters(n: nat): Bytes { seq(n, _ => 97) }

  lemma FencedLines(n: nat)
    ensures FenceCount(Fenced(n)) == 2
  {
    hide FenceCount, IsFenceLine;
    var line := FENCE + Letters(n) + NEWLINE;
    assert Fenced(n) == line + FENCE_REOPEN;
    OneLineCount(line);
    TrimsToFence(Letters(n) + NEWLINE);
    assert FENCE + (Letters(n) + NEWLINE) == line;
    OneLineCount(FENCE_REOPEN);
    TrimsToFence(NEWLINE);
    assert FENCE + NEWLINE == FENCE_REOPEN;
    FenceCountAppend(line, FENCE_REOPEN);
  }

  lemma TrimsToFence(more: Bytes)
    ensures IsFenceLine(FENCE + more)
  {
    assert TrimSpace(FENCE) == FENCE by { assert SpaceHead(FENCE) == 0 && SpaceTail(FENCE) == 0; }
    hide TrimSpace;
    FenceLineExtends(FENCE, more);
  }

  lemma PlainUpTo(n: nat, i: nat)
    requires i < 3 + n
    ensures Fenced(n)[i] in {96, 97}
  {}

  lemma NoBreakInFence(n: nat, min: nat, max: nat)
    requires max <= 3 + n
    ensures NoneOccurs(Fenced(n), BREAKS, min, max)
  {
    hide Fenced;
    var s := Fenced(n);
    forall j, i: nat | 0 <= j < |BREAKS| ensures !Within(s, BREAKS[j], i, min, max) {
      if Within(s, BREAKS[j], i, min, max) {
        OccursEnds(s, i, BREAKS[j]);
        PlainUpTo(n, i + |BREAKS[j]| - 1);
      }
    }
  }

  lemma LimitIsCut(s: Bytes, min: nat, max: nat)
    requires |s| >= min && |s| > max && s[max] < 0x80 && NoneOccurs(s, BREAKS, min, max) && max > 0
    ensures CutAt(s, max, min, max)
  {
    hide NoneOccurs, BREAKS;
    assert LimitAt(s, max, max);
  }

  lemma ChunkIsFence(n: nat, k: nat)
    requires 3 <= k <= 3 + n
    ensures k <= |Fenced(n)| && FenceCount(Fenced(n)[..k]) == 1
  {
    hide FenceCount, IsFenceLine;
    var line := Fenced(n)[..k];
    assert line == FENCE + Letters(k - 3);
    OneLineCount(line);
    TrimsToFence(Letters(k - 3));
  }

  /** A push of a text with an even number of fence lines. */
  lemma PushedClosed(s: Bytes, min: nat, max: nat)
    requires FenceCount(s) % 2 == 0
    ensures RunOf([PushText(s)], min, max).st == State(s, false, [])
  {
    hide RunOf, Push;
    OnePush(s, min, max);
    PushAppends(State([], false, []), s);
    assert [] + s == s;
    PushKeepsMarker(State([], false, []), s);
  }

  lemma CutSplits(s: Bytes, k: nat, min: nat, max: nat)
    requires Valid(s) && CutAt(s, k, min, max) && k <= |s| && FenceCount(s) % 2 == 0 && FenceCount(s[..k]) % 2 == 1
    ensures var st := RunOf([PushText(s)], min, max).st;
            SplitsFence(st, min, max) && TryFlush(st, min, max) == (Some(s[..k]), State(s[k..], false, []))
  {
    hide RunOf, TryFlush, SplitsFence, FenceCount, CutAt, Valid;
    PushedClosed(s, min, max);
    SplitsFenceIff(State(s, false, []), min, max);
    ChunkIsCut(State(s, false, []), min, max, k);
  }

  /** Whatever the sizes, from a maximum of three on: one push of a closed fence that is long enough,
      and one attempt to flush, split it. */
  lemma FenceIsSplit(min: nat, max: nat)
    requires max >= 3
    ensures var ops := [PushText(Fenced(min + max))];
            PushesValid(ops) && !RunOf(ops, min, max).st.inFence && SplitsFence(RunOf(ops, min, max).st, min, max)
  {
    var s := Fenced(min + max);
    AllAsciiValid(s);
    hide *;
    FencedLines(min + max);
    NoBreakInFence(min + max, min, max);
    PlainUpTo(min + max, max);
    ChunkIsFence(min + max, max);
    LimitIsCut(s, min, max);
    CutSplits(s, max, min, max);
    PushedClosed(s, min, max);
    OneValid(s);
  }

  lemma OneValid(s: Bytes)
    requires Valid(s)
    ensures PushesValid([PushText(s)])
  {
    hide Valid;
  }

  /** A fence that holds a blank line: opening, "a", blank, "b", closing. */
  const WITH_BLANK: Bytes := [96, 96, 96, 10, 97, 10, 10, 98, 10, 96, 96, 96, 10]

  /** The blank line is the best break, although the whole fence is in the buffer and fits. */
  lemma BlankLineSplits()
    ensures var st := RunOf([PushText(WITH_BLANK)], 1, 100).st;
            TryFlush(st, 1, 100) == (Some(WITH_BLANK[..7]), State(WITH_BLANK[7..], false, []))
            && SplitsFence(st, 1, 100)
  {
    hide RunOf, TryFlush, SplitsFence, CutAt, FenceCount, WITH_BLANK, Valid;
    FourLines();
    BlankIsBest();
    CutSplits(WITH_BLANK, 7, 1, 100);
  }

  lemma BlankIsBest()
    ensures CutAt(WITH_BLANK, 7, 1, 100) && Valid(WITH_BLANK) && |WITH_BLANK| >= 7
  {
    var s := WITH_BLANK;
    AllAsciiValid(s);
    BlankIsLast();
    assert BREAKS[0] == [10, 10];
    hide Valid, LastAt, NoneOccurs, LimitAt, WITH_BLANK, BREAKS, Absent;
    assert Best(s, BREAKS, 0, 7, 1, 100);
  }

  lemma BlankIsLast()
    ensures LastAt(WITH_BLANK, [10, 10], 5, 1, 100)
  {
    var s := WITH_BLANK;
    forall j: nat | 5 < j ensures !OccursAt(s, j, [10, 10]) {
      if j + 2 <= |s| { assert s[j..j + 2][0] == s[j] && s[j..j + 2][1] == s[j + 1]; }
    }
    assert s[5..7] == [10, 10];
  }

  lemma FourLines()
    ensures FenceCount(WITH_BLANK) == 2 && FenceCount(WITH_BLANK[..7]) == 1
  {
    hide FenceCount, IsFenceLine;
    var s := WITH_BLANK;
    var rest: Bytes := [98, 10];
    assert s[..7] == FENCE_REOPEN + [97, 10] + [10];
    assert s == s[..7] + (rest + FENCE_REOPEN);
    Lines();
    FenceCountAppend(FENCE_REOPEN + [97, 10], [10]);
    FenceCountAppend(FENCE_REOPEN, [97, 10]);
    FenceCountAppend(s[..7], rest + FENCE_REOPEN);
    FenceCountAppend(rest, FENCE_REOPEN);
  }

  lemma Lines()
    ensures FenceCount(FENCE_REOPEN) == 1
    ensures FenceCount([97, 10]) == 0 && FenceCount([98, 10]) == 0 && FenceCount([10]) == 0
  {
    hide IsFenceLine;
    TrimsToFence(NEWLINE);
    assert FENCE + NEWLINE == FENCE_REOPEN;
    OneLineCount(FENCE_REOPEN);
    OneLineCount([97, 10]);
    OneLineCount([98, 10]);
    OneLineCount([10]);
    ShortLine([97, 10]);
    ShortLine([98, 10]);
    ShortLine([10]);
  }

  lemma OneLineCount(line: Bytes)
    requires line != [] && forall i :: 0 <= i < |line| - 1 ==> line[i] != 10
    ensures FenceCount(line) == FenceOf(line)
  {
    hide FenceCount, IsFenceLine;
    OneLine(line);
    FenceCountFirst(line);
    assert line[..|line|] == line && line[|line|..] == [];
    NoFences();
  }
}
