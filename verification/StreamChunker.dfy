/** The Markdown-aware stream chunker: a byte buffer cut at natural break points. */
module StreamChunker {
  import opened Text
  import opened Utf8

  const NEWLINE: Bytes := [10]
  const FENCE: Bytes := [96, 96, 96]
  const FENCE_CLOSE: Bytes := [10, 96, 96, 96, 10]
  const FENCE_REOPEN: Bytes := [96, 96, 96, 10]

  /** Break points, best first: blank line, line end, and the ends of sentences. */
  const BREAKS: seq<Bytes> := [[10, 10], [10], [46, 32], [33, 32], [63, 32]]

  // Lines

  /** The pieces of a text, each but the last ending with its newline. */
  function SplitInclusive(text: Bytes): (pieces: seq<Bytes>)
    ensures Concat(pieces) == text
  {
    if text == [] then []
    else
      var k := LineEnd(text);
      assert text == text[..k] + text[k..];
      ConcatFirst(text[..k], SplitInclusive(text[k..]));
      [text[..k]] + SplitInclusive(text[k..])
  }

  /** The length of the first line with its newline. */
  function LineEnd(text: Bytes): (k: nat)
    requires text != []
    ensures 0 < k <= |text|
  {
    if text[0] == 10 || |text| == 1 then 1 else 1 + LineEnd(text[1..])
  }

  /** The length of the white space character at the head of `s`, or 0. */
  function SpaceHead(s: Bytes): (n: nat)
    ensures n <= |s|
  {
    if |s| >= 1 && (9 <= s[0] <= 13 || s[0] == 32) then 1
    else if |s| >= 2 && s[0] == 0xC2 && s[1] in {0x85, 0xA0} then 2
    else if |s| >= 3 && IsWideSpace(s[0], s[1], s[2]) then 3
    else 0
  }

  function SpaceTail(s: Bytes): (n: nat)
    ensures n <= |s|
  {
    var l := |s|;
    if l >= 1 && (9 <= s[l - 1] <= 13 || s[l - 1] == 32) then 1
    else if l >= 2 && s[l - 2] == 0xC2 && s[l - 1] in {0x85, 0xA0} then 2
    else if l >= 3 && IsWideSpace(s[l - 3], s[l - 2], s[l - 1]) then 3
    else 0
  }

  /** The three-byte white space characters. */
  predicate IsWideSpace(a: byte, b: byte, c: byte) {
    || (a == 0xE1 && b == 0x9A && c == 0x80)
    || (a == 0xE2 && b == 0x80 && (0x80 <= c <= 0x8A || c in {0xA8, 0xA9, 0xAF}))
    || (a == 0xE2 && b == 0x81 && c == 0x9F)
    || (a == 0xE3 && b == 0x80 && c == 0x80)
  }

  function DropSpaceHead(s: Bytes): Bytes {
    if SpaceHead(s) > 0 then DropSpaceHead(s[SpaceHead(s)..]) else s
  }

  function DropSpaceTail(s: Bytes): Bytes {
    if SpaceTail(s) > 0 then DropSpaceTail(s[..|s| - SpaceTail(s)]) else s
  }

  function TrimSpace(s: Bytes): Bytes { DropSpaceTail(DropSpaceHead(s)) }

  predicate IsFenceLine(line: Bytes) { FENCE <= TrimSpace(line) }

  // State

  datatype State = State(buffer: Bytes, inFence: bool, marker: Bytes)

  function PushLine(st: State, line: Bytes): State {
    var trimmed := TrimSpace(line);
    var st' := st.(buffer := st.buffer + line);
    if FENCE <= trimmed then
      if st.inFence then
        if trimmed == FENCE || st.marker <= trimmed then st'.(inFence := false, marker := []) else st'
      else st'.(inFence := true, marker := FENCE)
    else st'
  }

  function PushLines(st: State, lines: seq<Bytes>): State
    decreases |lines|
  {
    if lines == [] then st else PushLines(PushLine(st, lines[0]), lines[1..])
  }

  function Push(st: State, text: Bytes): State { PushLines(st, SplitInclusive(text)) }

  // Searching

  predicate OccursAt(s: Bytes, i: nat, p: Bytes) {
    i + |p| <= |s| && s[i..i + |p|] == p
  }

  /** The last occurrence of `p` in `s` that starts at or before `from`. */
  function LastBefore(s: Bytes, p: Bytes, from: nat): (r: Option<nat>)
    ensures r.Some? ==> OccursAt(s, r.value, p) && r.value <= from
    ensures r.Some? ==> forall i :: r.value < i <= from ==> !OccursAt(s, i, p)
    ensures r.None? ==> forall i :: 0 <= i <= from ==> !OccursAt(s, i, p)
  {
    if OccursAt(s, from, p) then Some(from)
    else if from == 0 then None
    else LastBefore(s, p, from - 1)
  }

  /** The nearest boundary at or before `i`. */
  function WalkBack(s: Bytes, i: nat): (j: nat)
    requires i <= |s|
    ensures j <= i && IsBoundary(s, j)
    ensures forall k :: j < k <= i ==> !IsBoundary(s, k)
  {
    if IsBoundary(s, i) then i else WalkBack(s, i - 1)
  }

  /** The nearest boundary at or after `i`, not past `end`. */
  function WalkForward(s: Bytes, i: nat, end: nat): (j: nat)
    requires i <= end <= |s|
    ensures i <= j <= end
    decreases end - i
  {
    if i == end || IsBoundary(s, i) then i else WalkForward(s, i + 1, end)
  }

  function Min(a: nat, b: nat): nat { if a <= b then a else b }

  lemma SliceOfSlice(s: Bytes, a: nat, b: nat, c: nat, d: nat)
    requires a <= b <= |s| && c <= d <= b - a
    ensures s[a..b][c..d] == s[a + c..a + d]
  {
    forall i | 0 <= i < d - c ensures s[a..b][c..d][i] == s[a + c..a + d][i] {}
  }

  /** The last occurrence of a pattern inside a range whose ends are moved inwards to
      character boundaries. */
  function FindLastInRange(text: Bytes, pattern: Bytes, lo: nat, hi: nat): (r: Option<nat>)
    ensures r.Some? ==> OccursAt(text, r.value, pattern) && r.value + |pattern| <= Min(hi, |text|)
  {
    var end := WalkBack(text, Min(hi, |text|));
    var start := WalkForward(text, Min(lo, end), end);
    var window := text[start..end];
    match LastBefore(window, pattern, |window|)
    case None => None
    case Some(k) =>
      SliceOfSlice(text, start, end, k, k + |pattern|);
      Some(start + k)
  }

  /** The end of the last occurrence of the first break that occurs in the range. */
  function NaturalBreak(text: Bytes, breaks: seq<Bytes>, lo: nat, hi: nat): (r: Option<nat>)
    ensures r.Some? ==> r.value <= Min(hi, |text|)
  {
    if breaks == [] then None
    else
      match FindLastInRange(text, breaks[0], lo, hi)
      case Some(k) => Some(k + |breaks[0]|)
      case None => NaturalBreak(text, breaks[1..], lo, hi)
  }

  function ForcedBreak(text: Bytes, max: nat): (k: nat)
    requires max <= |text|
    ensures k <= |text|
  {
    var k := WalkBack(text, max);
    if k == 0 then |text| else k
  }

  /** One attempt to flush: the chunk, if there is one, and the state after it. */
  function TryFlush(st: State, min: nat, max: nat): (Option<Bytes>, State) {
    if |st.buffer| < min then (None, st)
    else if st.inFence && |st.buffer| < max then (None, st)
    else if st.inFence then (Some(st.buffer + FENCE_CLOSE), st.(buffer := Reopened(st.marker)))
    else
      match NaturalBreak(st.buffer, BREAKS, min, Min(|st.buffer|, max))
      case Some(k) => (Some(st.buffer[..k]), st.(buffer := st.buffer[k..]))
      case None =>
        if |st.buffer| >= max then
          var k := ForcedBreak(st.buffer, max);
          (Some(st.buffer[..k]), st.(buffer := st.buffer[k..]))
        else (None, st)
  }

  /** A fence opening with what follows the backticks of the marker. */
  function Reopened(marker: Bytes): Bytes { FENCE + DropTicks(marker) + NEWLINE }

  function DropTicks(s: Bytes): Bytes {
    if s != [] && s[0] == 96 then DropTicks(s[1..]) else s
  }

  function FlushRemaining(st: State): (Option<Bytes>, State) {
    if st.buffer == [] then (None, st) else (Some(st.buffer), st.(buffer := []))
  }

  // The class

  class Chunker {
    var buffer: Bytes
    var inFence: bool
    var marker: Bytes
    const min: nat
    const max: nat

    constructor (min: nat, max: nat)
      ensures Abstract() == State([], false, []) && this.min == min && this.max == max
    {
      buffer, inFence, marker := [], false, [];
      this.min, this.max := min, max;
    }

    ghost function Abstract(): State
      reads this
    {
      State(buffer, inFence, marker)
    }

    method PushText(text: Bytes)
      modifies this
      ensures Abstract() == Push(old(Abstract()), text)
    {
      var lines := SplitInclusive(text);
      for i := 0 to |lines|
        invariant PushLines(Abstract(), lines[i..]) == Push(old(Abstract()), text)
      {
        var line := lines[i];
        assert lines[i..][0] == line && lines[i..][1..] == lines[i + 1..];
        buffer := buffer + line;
        var trimmed := TrimSpace(line);
        if FENCE <= trimmed {
          if inFence {
            if trimmed == FENCE || marker <= trimmed {
              inFence := false;
              marker := [];
            }
          } else {
            inFence := true;
            marker := FENCE;
          }
        }
      }
    }

    method Flush() returns (chunk: Option<Bytes>)
      modifies this
      ensures (chunk, Abstract()) == TryFlush(old(Abstract()), min, max)
    {
      if |buffer| < min { return None; }
      if inFence && |buffer| < max { return None; }
      if inFence && |buffer| >= max {
        chunk := Some(buffer + FENCE_CLOSE);
        buffer := Reopened(marker);
        return;
      }
      hide NaturalBreak, ForcedBreak;
      var breakAt := FindBreak(buffer, min, Min(|buffer|, max));
      if breakAt.Some? {
        chunk := Some(buffer[..breakAt.value]);
        buffer := buffer[breakAt.value..];
        return;
      }
      if |buffer| >= max {
        var forced := FindForcedBreak(buffer, max);
        chunk := Some(buffer[..forced]);
        buffer := buffer[forced..];
        return;
      }
      return None;
    }

    method FlushAll() returns (chunk: Option<Bytes>)
      modifies this
      ensures (chunk, Abstract()) == FlushRemaining(old(Abstract()))
    {
      if buffer == [] { return None; }
      chunk := Some(buffer);
      buffer := [];
    }
  }

  /** The priorities in turn. */
  method FindBreak(text: Bytes, lo: nat, hi: nat) returns (breakAt: Option<nat>)
    ensures breakAt == NaturalBreak(text, BREAKS, lo, hi)
  {
    hide FindLastInRange, NaturalBreak, BREAKS;
    var i := 0;
    while i < |BREAKS|
      invariant 0 <= i <= |BREAKS|
      invariant NaturalBreak(text, BREAKS, lo, hi) == NaturalBreak(text, BREAKS[i..], lo, hi)
    {
      BreakStep(text, BREAKS[i..], lo, hi);
      var pos := FindLast(text, BREAKS[i], lo, hi);
      if pos.Some? { return Some(pos.value + |BREAKS[i]|); }
      assert BREAKS[i..][1..] == BREAKS[i + 1..];
      i := i + 1;
    }
    assert BREAKS[i..] == [];
    NoBreaks(text, lo, hi);
    return None;
  }

  lemma NoBreaks(text: Bytes, lo: nat, hi: nat)
    ensures NaturalBreak(text, [], lo, hi).None?
  {}

  method FindForcedBreak(text: Bytes, max: nat) returns (breakAt: nat)
    requires max <= |text|
    ensures breakAt == ForcedBreak(text, max)
  {
    breakAt := max;
    while breakAt > 0 && !IsBoundary(text, breakAt)
      invariant breakAt <= max && WalkBack(text, breakAt) == WalkBack(text, max)
    {
      breakAt := breakAt - 1;
    }
    if breakAt == 0 { breakAt := |text|; }
  }

  lemma BreakStep(text: Bytes, breaks: seq<Bytes>, lo: nat, hi: nat)
    requires breaks != []
    ensures var pos := FindLastInRange(text, breaks[0], lo, hi);
            NaturalBreak(text, breaks, lo, hi)
            == if pos.Some? then Some(pos.value + |breaks[0]|) else NaturalBreak(text, breaks[1..], lo, hi)
  {}

  method FindLast(text: Bytes, pattern: Bytes, lo: nat, hi: nat) returns (r: Option<nat>)
    ensures r == FindLastInRange(text, pattern, lo, hi)
  {
    var end := Min(hi, |text|);
    while end > 0 && !IsBoundary(text, end)
      invariant 0 <= end <= |text| && WalkBack(text, end) == WalkBack(text, Min(hi, |text|))
    {
      end := end - 1;
    }
    var start := Min(lo, end);
    while start < end && !IsBoundary(text, start)
      invariant start <= end && WalkForward(text, start, end) == WalkForward(text, Min(lo, end), end)
    {
      start := start + 1;
    }
    var window := text[start..end];
    var pos := LastBefore(window, pattern, |window|);
    if pos.None? { return None; }
    return Some(start + pos.value);
  }
}
