/** Where the stream chunker cuts a well-formed text, in terms of the text. */
module ChunkerBreaks {
  import opened Text
  import opened Utf8
  import opened StreamChunker

  // Character boundaries

  /** A character of one byte ends at a boundary. */
  lemma {:induction false} AsciiEndsAtBoundary(s: Bytes, i: nat)
    requires Valid(s) && 0 < i <= |s| && s[i - 1] < 0x80
    ensures IsBoundary(s, i)
  {
    var h := Head(s);
    if i > h {
      AsciiEndsAtBoundary(s[h..], i - h);
      if i < |s| { assert s[h..][i - h] == s[i]; }
    } else if i < |s| {
      assert i == 1 && h == 1;
      assert s[h..][0] == s[h] && Head(s[h..]) > 0;
    }
  }

  lemma {:induction false} NaturalBreakEnds(s: Bytes, breaks: seq<Bytes>, lo: nat, hi: nat)
    ensures var r := NaturalBreak(s, breaks, lo, hi);
            r.Some? ==> exists b :: b in breaks && |b| <= r.value && OccursAt(s, r.value - |b|, b)
  {
    hide OccursAt, FindLastInRange;
    if breaks != [] && FindLastInRange(s, breaks[0], lo, hi).None? { NaturalBreakEnds(s, breaks[1..], lo, hi); }
  }

  lemma NaturalBreakPositive(s: Bytes, lo: nat, hi: nat)
    ensures var r := NaturalBreak(s, BREAKS, lo, hi); r.Some? ==> r.value > 0
  {
    NaturalBreakEnds(s, BREAKS, lo, hi);
    BreaksAreAscii();
    hide BREAKS, NaturalBreak, OccursAt;
  }

  lemma NaturalBreakAtBoundary(s: Bytes, lo: nat, hi: nat)
    requires Valid(s)
    ensures var r := NaturalBreak(s, BREAKS, lo, hi);
            r.Some? ==> 0 < r.value <= |s| && r.value <= hi && IsBoundary(s, r.value)
  {
    BreaksAreAscii();
    NaturalBreakEnds(s, BREAKS, lo, hi);
    hide BREAKS, NaturalBreak, Valid;
    var r := NaturalBreak(s, BREAKS, lo, hi);
    if r.Some? {
      var k := r.value;
      var b: Bytes :| b in BREAKS && |b| <= k && OccursAt(s, k - |b|, b);
      hide OccursAt, IsBoundary;
      AsciiEndsAtBoundary(s, k);
    }
  }

  lemma BreaksAreAscii()
    ensures forall b: Bytes :: b in BREAKS ==> |b| > 0 && b[|b| - 1] < 0x80
  {}

  /** The forced cut is at a boundary, and within the last three bytes before the limit. */
  lemma ForcedBreakAtBoundary(s: Bytes, max: nat)
    requires Valid(s) && max <= |s|
    ensures IsBoundary(s, ForcedBreak(s, max))
    ensures max >= 4 ==> max - 3 <= ForcedBreak(s, max) <= max
  {
    if max >= 4 {
      BoundaryWithin(s, max);
      var j :| max - 3 <= j <= max && IsBoundary(s, j);
      assert WalkBack(s, max) >= j;
    }
  }

  // The range

  /** `p` occurs at `i`, at or after `lo` and ending at or before `hi`. */
  ghost predicate Within(s: Bytes, p: Bytes, i: nat, lo: nat, hi: nat) {
    lo <= i && i + |p| <= hi && OccursAt(s, i, p)
  }

  ghost predicate Absent(s: Bytes, p: Bytes, lo: nat, hi: nat) {
    forall i: nat :: !Within(s, p, i, lo, hi)
  }

  ghost predicate LastAt(s: Bytes, p: Bytes, i: nat, lo: nat, hi: nat) {
    Within(s, p, i, lo, hi) && forall j: nat :: i < j ==> !Within(s, p, j, lo, hi)
  }

  /** A pattern that begins and ends with a one-byte character. */
  predicate Ascii(p: Bytes) { p != [] && p[0] < 0x80 && p[|p| - 1] < 0x80 }

  lemma {:induction false} WalkForwardStops(s: Bytes, i: nat, end: nat, k: nat)
    requires i <= k <= end <= |s| && IsBoundary(s, k)
    ensures WalkForward(s, i, end) <= k
    decreases end - i
  {
    if i == end || IsBoundary(s, i) {
    } else {
      WalkForwardStops(s, i + 1, end, k);
    }
  }

  lemma OccursEnds(s: Bytes, i: nat, p: Bytes)
    requires p != [] && OccursAt(s, i, p)
    ensures s[i] == p[0] && s[i + |p| - 1] == p[|p| - 1]
  {
    assert s[i..i + |p|][0] == s[i] && s[i..i + |p|][|p| - 1] == s[i + |p| - 1];
  }

  /** Moving the ends of the range inwards to character boundaries loses no occurrence. */
  lemma WithinWindow(s: Bytes, p: Bytes, i: nat, lo: nat, hi: nat)
    requires Valid(s) && Ascii(p) && Within(s, p, i, lo, hi)
    ensures var end := WalkBack(s, Min(hi, |s|));
            lo <= end && WalkForward(s, lo, end) <= i && i + |p| <= end
  {
    hide Valid, OccursAt;
    OccursWithin(s, i, p);
    OccursEnds(s, i, p);
    AsciiEndsAtBoundary(s, i + |p|);
    var end := WalkBack(s, Min(hi, |s|));
    assert i + |p| <= end;
    WalkForwardStops(s, lo, end, i);
  }

  lemma OccursWithin(s: Bytes, i: nat, p: Bytes)
    requires OccursAt(s, i, p)
    ensures i + |p| <= |s|
  {}

  lemma WindowOccurs(s: Bytes, a: nat, b: nat, p: Bytes, i: nat)
    requires a <= b <= |s| && a <= i && i + |p| <= b
    ensures OccursAt(s[a..b], i - a, p) <==> OccursAt(s, i, p)
  {
    SliceOfSlice(s, a, b, i - a, i - a + |p|);
  }

  /** The search finds the last occurrence in the range, and nothing only if there is none. */
  lemma FindLastMeaning(s: Bytes, p: Bytes, lo: nat, hi: nat)
    requires Valid(s) && Ascii(p)
    ensures match FindLastInRange(s, p, lo, hi)
            case None => Absent(s, p, lo, hi)
            case Some(k) => LastAt(s, p, k, lo, hi)
  {
    hide Valid, OccursAt, IsBoundary;
    var end := WalkBack(s, Min(hi, |s|));
    var start := WalkForward(s, Min(lo, end), end);
    var window := s[start..end];
    var found := LastBefore(window, p, |window|);
    forall i: nat | Within(s, p, i, lo, hi) ensures found.Some? && i <= start + found.value {
      WithinWindow(s, p, i, lo, hi);
      WindowOccurs(s, start, end, p, i);
    }
    if found.Some? {
      OccursWithin(window, found.value, p);
      WindowOccurs(s, start, end, p, start + found.value);
    }
  }

  // The break

  /** `k` is the end of the last occurrence of `breaks[q]`, and no better break occurs. */
  ghost predicate Best(s: Bytes, breaks: seq<Bytes>, q: nat, k: nat, lo: nat, hi: nat) {
    && q < |breaks| && |breaks[q]| <= k
    && LastAt(s, breaks[q], k - |breaks[q]|, lo, hi)
    && forall j :: 0 <= j < q ==> Absent(s, breaks[j], lo, hi)
  }

  ghost predicate NoneOccurs(s: Bytes, breaks: seq<Bytes>, lo: nat, hi: nat) {
    forall j :: 0 <= j < |breaks| ==> Absent(s, breaks[j], lo, hi)
  }

  ghost predicate AllAscii(breaks: seq<Bytes>) { forall j :: 0 <= j < |breaks| ==> Ascii(breaks[j]) }

  lemma {:induction false} NaturalBreakMeaning(s: Bytes, breaks: seq<Bytes>, lo: nat, hi: nat)
    requires Valid(s) && AllAscii(breaks)
    ensures match NaturalBreak(s, breaks, lo, hi)
            case None => NoneOccurs(s, breaks, lo, hi)
            case Some(k) => exists q :: Best(s, breaks, q, k, lo, hi)
  {
    hide Valid, FindLastInRange, LastAt, Absent, Ascii;
    if breaks == [] {
    } else {
      FindLastMeaning(s, breaks[0], lo, hi);
      match FindLastInRange(s, breaks[0], lo, hi)
      case Some(k) =>
        assert NaturalBreak(s, breaks, lo, hi) == Some(k + |breaks[0]|);
        assert Best(s, breaks, 0, k + |breaks[0]|, lo, hi);
      case None =>
        NaturalBreakMeaning(s, breaks[1..], lo, hi);
        LaterNone(s, breaks, lo, hi);
        var r := NaturalBreak(s, breaks[1..], lo, hi);
        assert NaturalBreak(s, breaks, lo, hi) == r;
        if r.Some? {
          var q :| Best(s, breaks[1..], q, r.value, lo, hi);
          LaterBest(s, breaks, q, r.value, lo, hi);
        }
    }
  }

  lemma LaterNone(s: Bytes, breaks: seq<Bytes>, lo: nat, hi: nat)
    requires breaks != [] && Absent(s, breaks[0], lo, hi)
    ensures NoneOccurs(s, breaks[1..], lo, hi) ==> NoneOccurs(s, breaks, lo, hi)
  {
    hide Absent;
    if NoneOccurs(s, breaks[1..], lo, hi) {
      forall j | 0 <= j < |breaks| ensures Absent(s, breaks[j], lo, hi) {
        if j > 0 { assert breaks[j] == breaks[1..][j - 1]; }
      }
    }
  }

  lemma LaterBest(s: Bytes, breaks: seq<Bytes>, q: nat, k: nat, lo: nat, hi: nat)
    requires breaks != [] && Best(s, breaks[1..], q, k, lo, hi) && Absent(s, breaks[0], lo, hi)
    ensures Best(s, breaks, q + 1, k, lo, hi)
  {
    hide Absent, LastAt;
    assert breaks[q + 1] == breaks[1..][q];
    forall j | 0 <= j < q + 1 ensures Absent(s, breaks[j], lo, hi) {
      if j > 0 { assert breaks[j] == breaks[1..][j - 1]; }
    }
  }

  /** There is one best break at most. */
  lemma BestUnique(s: Bytes, breaks: seq<Bytes>, q: nat, k: nat, q': nat, k': nat, lo: nat, hi: nat)
    requires Best(s, breaks, q, k, lo, hi) && Best(s, breaks, q', k', lo, hi)
    ensures q == q' && k == k'
  {
    hide Within;
  }

  lemma BreaksAscii()
    ensures AllAscii(BREAKS)
  {}

  lemma HighClamped(s: Bytes, p: Bytes, lo: nat, hi: nat)
    ensures Absent(s, p, lo, Min(|s|, hi)) <==> Absent(s, p, lo, hi)
    ensures forall i: nat :: LastAt(s, p, i, lo, Min(|s|, hi)) <==> LastAt(s, p, i, lo, hi)
  {
    forall i: nat ensures Within(s, p, i, lo, Min(|s|, hi)) <==> Within(s, p, i, lo, hi) {
      hide OccursAt;
      if OccursAt(s, i, p) { OccursWithin(s, i, p); }
    }
    hide Within;
  }

  lemma BestClamped(s: Bytes, breaks: seq<Bytes>, lo: nat, hi: nat)
    ensures NoneOccurs(s, breaks, lo, Min(|s|, hi)) <==> NoneOccurs(s, breaks, lo, hi)
    ensures forall q: nat, k: nat :: Best(s, breaks, q, k, lo, Min(|s|, hi)) <==> Best(s, breaks, q, k, lo, hi)
  {
    hide Absent, LastAt, Min;
    forall b ensures Absent(s, b, lo, Min(|s|, hi)) <==> Absent(s, b, lo, hi) { HighClamped(s, b, lo, hi); }
    forall b, i: nat ensures LastAt(s, b, i, lo, Min(|s|, hi)) <==> LastAt(s, b, i, lo, hi) {
      HighClamped(s, b, lo, hi);
    }
  }

  /** The break a text outside a fence is cut at, whatever its length. */
  lemma BreakMeaning(s: Bytes, min: nat, max: nat)
    requires Valid(s)
    ensures match NaturalBreak(s, BREAKS, min, Min(|s|, max))
            case None => NoneOccurs(s, BREAKS, min, max)
            case Some(k) => exists q :: Best(s, BREAKS, q, k, min, max)
  {
    hide Valid, NoneOccurs, Best, BREAKS, AllAscii;
    BreaksAscii();
    NaturalBreakMeaning(s, BREAKS, min, Min(|s|, max));
    BestClamped(s, BREAKS, min, max);
  }

  lemma BestOccurs(s: Bytes, breaks: seq<Bytes>, q: nat, k: nat, lo: nat, hi: nat)
    requires Best(s, breaks, q, k, lo, hi)
    ensures q < |breaks| && k <= |s| && !NoneOccurs(s, breaks, lo, hi)
  {
    OccursWithin(s, k - |breaks[q]|, breaks[q]);
  }

  /** A chunk comes out exactly when there is a minimum of text, and either it reaches the
      maximum or, outside a fence, a break occurs in it after the minimum. */
  lemma WaitsIff(st: State, min: nat, max: nat)
    requires Valid(st.buffer)
    ensures TryFlush(st, min, max).0.Some?
        <==> && |st.buffer| >= min
             && (|st.buffer| >= max || (!st.inFence && !NoneOccurs(st.buffer, BREAKS, min, max)))
  {
    hide NaturalBreak, ForcedBreak, Reopened, Valid, BREAKS, NoneOccurs, Best;
    BreakMeaning(st.buffer, min, max);
    var r := NaturalBreak(st.buffer, BREAKS, min, Min(|st.buffer|, max));
    if r.Some? {
      var q :| Best(st.buffer, BREAKS, q, r.value, min, max);
      BestOccurs(st.buffer, BREAKS, q, r.value, min, max);
    }
  }

  /** Outside a fence a chunk ends with the last occurrence of the best break that occurs
      between the minimum and the maximum. */
  lemma CutsAtBestBreak(st: State, min: nat, max: nat, q: nat, k: nat)
    requires Valid(st.buffer) && !st.inFence && |st.buffer| >= min && Best(st.buffer, BREAKS, q, k, min, max)
    ensures k <= |st.buffer| && TryFlush(st, min, max) == (Some(st.buffer[..k]), st.(buffer := st.buffer[k..]))
  {
    hide NaturalBreak, ForcedBreak, Reopened, Valid, BREAKS, NoneOccurs, Best;
    BreakMeaning(st.buffer, min, max);
    BestOccurs(st.buffer, BREAKS, q, k, min, max);
    var r := NaturalBreak(st.buffer, BREAKS, min, Min(|st.buffer|, max));
    if r.Some? {
      var q' :| Best(st.buffer, BREAKS, q', r.value, min, max);
      BestUnique(st.buffer, BREAKS, q, k, q', r.value, min, max);
    }
  }

  /** The last boundary up to the maximum; the whole text, if there is none after its start. */
  ghost predicate LimitAt(s: Bytes, k: nat, max: nat) {
    && k <= |s|
    && max <= |s|
    && if k <= max
       then
         && IsBoundary(s, k) && max <= k + 3 && (k > 0 || s == [])
         && forall j :: k < j <= max ==> !IsBoundary(s, j)
       else k == |s| && forall j :: 0 < j <= max ==> !IsBoundary(s, j)
  }

  /** Outside a fence a text without such a break is cut at its maximum, or up to three bytes
      before it where a character would be split. */
  lemma CutsAtLimit(st: State, min: nat, max: nat)
    requires Valid(st.buffer) && !st.inFence && |st.buffer| >= min && |st.buffer| >= max
    requires NoneOccurs(st.buffer, BREAKS, min, max)
    ensures exists k: nat :: LimitAt(st.buffer, k, max)
                        && TryFlush(st, min, max) == (Some(st.buffer[..k]), st.(buffer := st.buffer[k..]))
  {
    hide NaturalBreak, Reopened, Valid, BREAKS, NoneOccurs, Best;
    var s := st.buffer;
    BreakMeaning(s, min, max);
    var r := NaturalBreak(s, BREAKS, min, Min(|s|, max));
    if r.Some? {
      var q :| Best(s, BREAKS, q, r.value, min, max);
      BestOccurs(s, BREAKS, q, r.value, min, max);
    }
    ForcedBreakAtBoundary(s, max);
    var k := ForcedBreak(s, max);
    assert LimitAt(s, k, max);
    assert TryFlush(st, min, max) == (Some(s[..k]), st.(buffer := s[k..]));
  }

  /** `k` is the end of the last place where `p` occurs. */
  ghost predicate LastEnd(s: Bytes, p: Bytes, k: nat, lo: nat, hi: nat) {
    |p| <= k && LastAt(s, p, k - |p|, lo, hi)
  }

  /** A blank line is the best break, then a line end, then ". ", then "! ", then "? ". */
  lemma BreakOrder(s: Bytes, k: nat, lo: nat, hi: nat)
    ensures (exists q :: Best(s, BREAKS, q, k, lo, hi)) <==>
              if !Absent(s, [10, 10], lo, hi) then LastEnd(s, [10, 10], k, lo, hi)
              else if !Absent(s, [10], lo, hi) then LastEnd(s, [10], k, lo, hi)
              else if !Absent(s, ['.' as byte, ' ' as byte], lo, hi)
                then LastEnd(s, ['.' as byte, ' ' as byte], k, lo, hi)
              else if !Absent(s, ['!' as byte, ' ' as byte], lo, hi)
                then LastEnd(s, ['!' as byte, ' ' as byte], k, lo, hi)
              else LastEnd(s, ['?' as byte, ' ' as byte], k, lo, hi)
    ensures NoneOccurs(s, BREAKS, lo, hi) <==>
              && Absent(s, [10, 10], lo, hi) && Absent(s, [10], lo, hi)
              && Absent(s, ['.' as byte, ' ' as byte], lo, hi) && Absent(s, ['!' as byte, ' ' as byte], lo, hi)
              && Absent(s, ['?' as byte, ' ' as byte], lo, hi)
  {
    FirstPresent(s, BREAKS, k, lo, hi);
    FiveBreaks();
    hide Absent, LastEnd, Best, BREAKS;
    if exists q :: Best(s, BREAKS, q, k, lo, hi) {
      var q :| Best(s, BREAKS, q, k, lo, hi);
      assert q < 5 by { BestOccurs(s, BREAKS, q, k, lo, hi); }
    }
  }

  lemma FiveBreaks()
    ensures |BREAKS| == 5 && BREAKS[0] == [10, 10] && BREAKS[1] == [10]
    ensures BREAKS[2] == ['.' as byte, ' ' as byte] && BREAKS[3] == ['!' as byte, ' ' as byte]
    ensures BREAKS[4] == ['?' as byte, ' ' as byte]
  {}

  lemma FirstPresent(s: Bytes, breaks: seq<Bytes>, k: nat, lo: nat, hi: nat)
    ensures forall q :: 0 <= q < |breaks| && LastEnd(s, breaks[q], k, lo, hi) ==> !Absent(s, breaks[q], lo, hi)
    ensures forall q :: 0 <= q < |breaks| ==>
              (Best(s, breaks, q, k, lo, hi) <==>
                 LastEnd(s, breaks[q], k, lo, hi) && forall j :: 0 <= j < q ==> Absent(s, breaks[j], lo, hi))
  {
    hide Within;
  }
}
