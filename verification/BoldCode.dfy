/** When bold and code nest, in terms of the stars and backticks of the text. */
module BoldCode {
  import opened Text
  import opened Nesting
  import opened OnePass
  import opened Escape
  import opened InlineMarks
  import opened InlineAnchors
  import opened InlineNesting
  import Inline
  import Links

  /** The tags of bold and code among others. */
  function Only(tags: seq<Tag>): seq<Tag> {
    if tags == [] then []
    else
      var last := tags[|tags| - 1];
      Only(tags[..|tags| - 1]) + if last.kind in {Bold, Code} then [last] else []
  }

  lemma {:induction false} OnlyInTurn(tags: seq<Tag>)
    requires InTurn(tags, Bold) && InTurn(tags, Code)
    ensures InTurn(Only(tags), Bold) && InTurn(Only(tags), Code) && InTurn(Only(tags), Italic)
    ensures InTurn(Only(tags), Anchor)
    ensures CountOf(Only(tags), Bold) == CountOf(tags, Bold) && CountOf(Only(tags), Code) == CountOf(tags, Code)
    ensures CountOf(Only(tags), Italic) == 0 && CountOf(Only(tags), Anchor) == 0
  {
    hide CountOf;
    if tags == [] {
      CountOfNone();
    } else {
      var front, last := tags[..|tags| - 1], tags[|tags| - 1];
      InTurnFront(tags);
      OnlyInTurn(front);
      assert tags == front + [last];
      CountLast(front, last, Bold);
      CountLast(front, last, Code);
      if last.kind in {Bold, Code} {
        assert InTurn(tags, last.kind);
        InTurnLast(Only(front), last, Bold);
        InTurnLast(Only(front), last, Code);
        InTurnLast(Only(front), last, Italic);
        InTurnLast(Only(front), last, Anchor);
        assert Only(tags) == Only(front) + [last];
      } else {
        assert Only(tags) == Only(front) + [] == Only(front);
      }
    }
  }

  lemma CountOfNone()
    ensures forall k :: CountOf([], k) == 0
  {}

  // Spans of code

  /** Inside every span of code the numbers of bold tags up to its ends are equal, or both even. */
  ghost predicate CodeUncrossed(tags: seq<Tag>) {
    forall i: nat, j: nat :: Span(tags, i, j, Code)
                             ==> EqualOrEven(CountOf(tags[..i + 1], Bold), CountOf(tags[..j], Bold))
  }

  ghost predicate AllInTurn(tags: seq<Tag>) {
    InTurn(tags, Bold) && InTurn(tags, Code) && InTurn(tags, Italic) && InTurn(tags, Anchor)
  }

  ghost predicate OnlyBoldAndCode(tags: seq<Tag>) {
    && AllInTurn(tags)
    && CountOf(tags, Italic) == 0 && CountOf(tags, Anchor) == 0
    && CountOf(tags, Bold) % 2 == 0 && CountOf(tags, Code) % 2 == 0
  }

  lemma {:induction false} CountOfFirst(tags: seq<Tag>, n: nat, kind: Kind)
    requires n <= |tags|
    ensures CountOf(tags[..n], kind) <= CountOf(tags, kind)
  {
    if n == |tags| {
      assert tags[..n] == tags;
    } else {
      CountOfFirst(tags[..|tags| - 1], n, kind);
      assert tags[..|tags| - 1][..n] == tags[..n];
    }
  }

  lemma AbsentMatched(tags: seq<Tag>, from: nat, to: nat, kind: Kind)
    requires from <= to <= |tags| && InTurn(tags, kind) && CountOf(tags, kind) == 0
    ensures Matched(tags[from..to], kind)
  {
    hide Level, CountOf;
    CountOfFirst(tags, from, kind);
    CountOfFirst(tags, to, kind);
    InTurnMatchedIff(tags, from, to, kind);
  }

  /** It is enough to look at the spans of code. */
  lemma CodeUncrossedIff(tags: seq<Tag>)
    requires OnlyBoldAndCode(tags)
    ensures WellNested(tags) <==> CodeUncrossed(tags)
  {
    hide Nest, Level, CountOf, InTurn, EqualOrEven;
    NestsIff(tags);
    WholeMatchedIff(tags, Bold);
    WholeMatchedIff(tags, Code);
    AbsentMatched(tags, 0, |tags|, Italic);
    AbsentMatched(tags, 0, |tags|, Anchor);
    assert tags[0..|tags|] == tags;
    KindsAre(tags);
    forall i: nat, j: nat | Span(tags, i, j, Code)
      ensures Matched(tags[i + 1..j], Bold) <==> EqualOrEven(CountOf(tags[..i + 1], Bold), CountOf(tags[..j], Bold))
    {
      InTurnMatchedIff(tags, i + 1, j, Bold);
    }
    if CodeUncrossed(tags) {
      forall i: nat, j: nat, kind | Span(tags, i, j, kind) ensures AllMatched(tags[i + 1..j]) {
        InsideSpan(tags, i, j, kind);
      }
    }
    if MatchedInside(tags) {
      forall i: nat, j: nat | Span(tags, i, j, Code) ensures Matched(tags[i + 1..j], Bold) {
        assert AllMatched(tags[i + 1..j]);
      }
    }
  }

  lemma InsideSpan(tags: seq<Tag>, i: nat, j: nat, kind: Kind)
    requires OnlyBoldAndCode(tags) && Matched(tags, Code) && Span(tags, i, j, kind)
    requires forall a: nat, b: nat :: Span(tags, a, b, Code) ==> Matched(tags[a + 1..b], Bold)
    ensures AllMatched(tags[i + 1..j])
  {
    hide Level, InTurn, CountOf;
    KindPresent(tags, i);
    if kind == Bold { MatchedInsideBoth(tags, Code, Bold, i, j); }
    AbsentMatched(tags, i + 1, j, Italic);
    AbsentMatched(tags, i + 1, j, Anchor);
    KindsAre(tags[i + 1..j]);
  }

  lemma KindPresent(tags: seq<Tag>, i: nat)
    requires OnlyBoldAndCode(tags) && i < |tags|
    ensures tags[i].kind in {Bold, Code}
  {
    var k := tags[i].kind;
    assert tags[..i + 1][..i] == tags[..i];
    CountOfFirst(tags, i + 1, k);
  }

  // Tags and marks

  lemma {:induction false} OnlyAppend(a: seq<Tag>, b: seq<Tag>)
    ensures Only(a + b) == Only(a) + Only(b)
  {
    if b == [] {
      assert a + b == a;
    } else {
      var front, last := b[..|b| - 1], b[|b| - 1];
      assert (a + b)[..|a + b| - 1] == a + front;
      OnlyAppend(a, front);
      var more := if last.kind in {Bold, Code} then [last] else [];
      assert (Only(a) + Only(front)) + more == Only(a) + (Only(front) + more);
    }
  }

  /** The bold and code tags that marks become. */
  function TagsUpTo(marks: seq<Mark>, start: State): seq<Tag> { Only(AllTags(marks, start)) }

  lemma UpToLast(marks: seq<Mark>, start: State)
    requires marks != []
    ensures var front, last := marks[..|marks| - 1], marks[|marks| - 1];
            TagsUpTo(marks, start) == TagsUpTo(front, start) + Only(TagsOf(last, AfterAll(front, start)))
  {
    var front, last := marks[..|marks| - 1], marks[|marks| - 1];
    OnlyAppend(AllTags(front, start), TagsOf(last, AfterAll(front, start)));
  }

  /** A mark becomes one such tag at most. */
  lemma OneTag(m: Mark, st: State)
    ensures var tags := Only(TagsOf(m, st));
            && |tags| <= 1
            && (tags != [] && tags[0].kind == Code <==> m == Tick && st.ticks > 0)
  {
    var tags := TagsOf(m, st);
    if |tags| == 1 {
      OnlyOne(tags[0]);
    } else if |tags| == 2 {
      OnlyOne(tags[0]);
      OnlyOne(tags[1]);
      OnlyAppend([tags[0]], [tags[1]]);
      assert tags == [tags[0]] + [tags[1]];
    }
  }

  lemma OnlyOne(t: Tag)
    ensures Only([t]) == if t.kind in {Bold, Code} then [t] else []
  {
    assert [t][..0] == [];
  }

  lemma {:induction false} UpToGrows(marks: seq<Mark>, start: State, n: nat)
    requires n <= |marks|
    ensures TagsUpTo(marks[..n], start) <= TagsUpTo(marks, start)
  {
    hide TagsUpTo, TagsOf, AfterAll;
    if n == |marks| {
      assert marks[..n] == marks;
    } else {
      UpToLast(marks, start);
      UpToGrows(marks[..|marks| - 1], start, n);
      assert marks[..|marks| - 1][..n] == marks[..n];
    }
  }

  /** The mark that the tag at `p` comes from. */
  lemma {:induction false} MarkOfTag(marks: seq<Mark>, start: State, p: nat) returns (i: nat)
    requires p < |TagsUpTo(marks, start)|
    ensures i < |marks| && TagsUpTo(marks[..i], start) == TagsUpTo(marks, start)[..p]
    ensures Only(TagsOf(marks[i], AfterAll(marks[..i], start))) == [TagsUpTo(marks, start)[p]]
  {
    hide TagsUpTo, TagsOf, AfterAll, Only;
    if marks == [] { UpToNothing(start); }
    var front := marks[..|marks| - 1];
    UpToLast(marks, start);
    OneTag(marks[|marks| - 1], AfterAll(front, start));
    if p < |TagsUpTo(front, start)| {
      i := MarkOfTag(front, start, p);
      assert front[..i] == marks[..i];
    } else {
      i := |front|;
    }
  }

  lemma UpToNothing(start: State)
    ensures TagsUpTo([], start) == []
  {}

  /** The tag that the backtick at `i` becomes. */
  lemma TagOfTick(marks: seq<Mark>, start: State, i: nat)
    requires Fresh(start) && i < |marks| && marks[i] == Tick && CountIf(marks[..i], IsTick) < start.ticks
    ensures var p := |TagsUpTo(marks[..i], start)|;
            && p < |TagsUpTo(marks, start)| && TagsUpTo(marks, start)[..p] == TagsUpTo(marks[..i], start)
            && TagsUpTo(marks, start)[p].kind == Code
  {
    hide TagsUpTo, TagsOf, AfterAll, Only, CountIf, CountOf, InTurn, AllTags;
    AllCounted(marks[..i], start);
    var upTo := marks[..i + 1];
    assert upTo[..i] == marks[..i];
    UpToLast(upTo, start);
    OneTag(Tick, AfterAll(marks[..i], start));
    UpToGrows(marks, start, i + 1);
  }

  lemma CountsUpTo(marks: seq<Mark>, start: State)
    requires Fresh(start)
    ensures CountOf(TagsUpTo(marks, start), Bold) == Min(start.doubles, CountIf(marks, HasDouble))
    ensures CountOf(TagsUpTo(marks, start), Code) == Min(start.ticks, CountIf(marks, IsTick))
    ensures AllInTurn(TagsUpTo(marks, start))
    ensures CountOf(TagsUpTo(marks, start), Italic) == 0 && CountOf(TagsUpTo(marks, start), Anchor) == 0
  {
    hide CountIf, CountOf, InTurn, AllTags, AfterAll;
    AllCounted(marks, start);
    OnlyInTurn(AllTags(marks, start));
  }

  // The condition

  /** Two backticks that are paired: the first and second, the third and fourth, and so on. */
  predicate PairedTicks(marks: seq<Mark>, i: nat, j: nat) {
    && i < j < |marks| && marks[i] == Tick && marks[j] == Tick
    && CountIf(marks[..i], IsTick) % 2 == 0 && CountIf(marks[..j], IsTick) == CountIf(marks[..i], IsTick) + 1
  }

  /** How many doubles stand before a mark, not counting an odd last one. */
  function DoublesBefore(marks: seq<Mark>, i: nat): nat
    requires i <= |marks|
  {
    Min(Even(CountIf(marks, HasDouble)), CountIf(marks[..i], HasDouble))
  }

  /** For every two paired backticks, the numbers of doubles before them are equal or both even. */
  ghost predicate TicksFine(marks: seq<Mark>) {
    forall i: nat, j: nat :: PairedTicks(marks, i, j) ==> EqualOrEven(DoublesBefore(marks, i), DoublesBefore(marks, j))
  }

  /** A span of code begins at an even tag of its kind and ends at the next. */
  lemma CodeSpanIff(tags: seq<Tag>, i: nat, j: nat)
    requires InTurn(tags, Code)
    ensures Span(tags, i, j, Code)
       <==> && i < j < |tags| && tags[i].kind == Code && tags[j].kind == Code
            && CountOf(tags[..i], Code) % 2 == 0 && CountOf(tags[..j], Code) == CountOf(tags[..i], Code) + 1
  {
    hide Level, CountOf;
    if i < j < |tags| {
      InTurnMatchedIff(tags, i + 1, j, Code);
      LevelInTurn(tags, i + 1, j, Code);
      CountUpTo(tags, i, Code);
    }
  }

  lemma CountUpTo(tags: seq<Tag>, i: nat, kind: Kind)
    requires i < |tags|
    ensures CountOf(tags[..i + 1], kind) == CountOf(tags[..i], kind) + if tags[i].kind == kind then 1 else 0
  {
    assert tags[..i + 1] == tags[..i] + [tags[i]];
    CountLast(tags[..i], tags[i], kind);
  }

  lemma TicksWithin(marks: seq<Mark>, j: nat)
    requires j < |marks| && marks[j] == Tick && CountIf(marks[..j], IsTick) % 2 == 1
    ensures CountIf(marks[..j], IsTick) < Even(CountIf(marks, IsTick))
  {
    hide CountIf;
    assert marks[..j + 1] == marks[..j] + [Tick];
    MarkLast(marks[..j], Tick);
    CountIfGrows(marks, j + 1);
  }

  lemma {:induction false} CountIfGrows(marks: seq<Mark>, n: nat)
    requires n <= |marks|
    ensures CountIf(marks[..n], IsTick) <= CountIf(marks, IsTick)
  {
    if n == |marks| {
      assert marks[..n] == marks;
    } else {
      CountIfGrows(marks[..|marks| - 1], n);
      assert marks[..|marks| - 1][..n] == marks[..n];
    }
  }

  /** Paired backticks become a span of code. */
  lemma PairIsSpan(marks: seq<Mark>, i: nat, j: nat)
    requires PairedTicks(marks, i, j)
    ensures var start := StartOf(marks);
            var tags, p, q := TagsUpTo(marks, start), |TagsUpTo(marks[..i], start)|, |TagsUpTo(marks[..j], start)|;
            && Span(tags, p, q, Code)
            && CountOf(tags[..p + 1], Bold) == DoublesBefore(marks, i)
            && CountOf(tags[..q], Bold) == DoublesBefore(marks, j)
  {
    hide TagsUpTo, CountIf, CountOf, InTurn, Level;
    var start := StartOf(marks);
    var tags, p, q := TagsUpTo(marks, start), |TagsUpTo(marks[..i], start)|, |TagsUpTo(marks[..j], start)|;
    TicksWithin(marks, j);
    TagOfTick(marks, start, i);
    TagOfTick(marks, start, j);
    CountsUpTo(marks, start);
    CountsUpTo(marks[..i], start);
    CountsUpTo(marks[..j], start);
    CountUpTo(tags, p, Bold);
    if q <= p { LaterTag(marks, start, i, j); }
    CodeSpanIff(tags, p, q);
  }

  lemma LaterTag(marks: seq<Mark>, start: State, i: nat, j: nat)
    requires i <= j <= |marks|
    ensures |TagsUpTo(marks[..i], start)| <= |TagsUpTo(marks[..j], start)|
  {
    hide TagsUpTo;
    UpToGrows(marks[..j], start, i);
    assert marks[..j][..i] == marks[..i];
  }

  /** Every span of code comes from paired backticks. */
  lemma SpanIsPair(marks: seq<Mark>, p: nat, q: nat) returns (i: nat, j: nat)
    requires Span(TagsUpTo(marks, StartOf(marks)), p, q, Code)
    ensures PairedTicks(marks, i, j)
    ensures var tags := TagsUpTo(marks, StartOf(marks));
            && CountOf(tags[..p + 1], Bold) == DoublesBefore(marks, i)
            && CountOf(tags[..q], Bold) == DoublesBefore(marks, j)
  {
    hide TagsUpTo, CountIf, CountOf, InTurn, Level, TagsOf, AfterAll, Only;
    var start := StartOf(marks);
    var tags := TagsUpTo(marks, start);
    CountsUpTo(marks, start);
    CodeSpanIff(tags, p, q);
    i := MarkOfTag(marks, start, p);
    j := MarkOfTag(marks, start, q);
    OneTag(marks[i], AfterAll(marks[..i], start));
    OneTag(marks[j], AfterAll(marks[..j], start));
    CountsUpTo(marks[..i], start);
    CountsUpTo(marks[..j], start);
    CountUpTo(tags, p, Bold);
    TickLeft(marks, start, i);
    TickLeft(marks, start, j);
    if j <= i { LaterTag(marks, start, j, i); }
  }

  lemma TickLeft(marks: seq<Mark>, start: State, i: nat)
    requires Fresh(start) && i <= |marks| && AfterAll(marks[..i], start).ticks > 0
    ensures CountIf(marks[..i], IsTick) < start.ticks
  {
    hide AllTags, CountIf, CountOf, InTurn, AfterAll;
    AllCounted(marks[..i], start);
  }

  lemma TicksFineIff(marks: seq<Mark>)
    ensures WellNested(Only(TagsFor(marks))) <==> TicksFine(marks)
  {
    hide CountIf, CountOf, InTurn, Nest, Level, AllTags, Only, EqualOrEven, DoublesBefore;
    var start := StartOf(marks);
    var tags := TagsUpTo(marks, start);
    CountsUpTo(marks, start);
    CodeUncrossedIff(tags);
    if TicksFine(marks) {
      forall p: nat, q: nat | Span(tags, p, q, Code)
        ensures EqualOrEven(CountOf(tags[..p + 1], Bold), CountOf(tags[..q], Bold))
      {
        var i, j := SpanIsPair(marks, p, q);
      }
    }
    if CodeUncrossed(tags) {
      forall i: nat, j: nat | PairedTicks(marks, i, j)
        ensures EqualOrEven(DoublesBefore(marks, i), DoublesBefore(marks, j))
      {
        PairIsSpan(marks, i, j);
      }
    }
  }

  /** Bold and code nest in the output exactly when, in the text after the links, the numbers of
      doubles before every two paired backticks are equal or both even. */
  lemma BoldCodeNestIff(text: string)
    ensures WellNested(Only(ReadTags(Inline.InlineOf(text)))) <==> TicksFine(MarksAfterLinks(text))
  {
    hide *;
    RenderedTags(text);
    TicksFineIff(MarksAfterLinks(text));
  }

  /** In a text without links: in the text itself. */
  lemma BoldCodeNestInPlain(text: string)
    requires Links.LinkFree(EscapeHtml(text))
    ensures WellNested(Only(ReadTags(Inline.InlineOf(text)))) <==> TicksFine(Marks(text, false))
  {
    hide ReadTags, Inline.InlineOf, Only, WellNested, TicksFine, Marks, AfterLinks;
    BoldCodeNestIff(text);
    PlainAfterLinks(text);
  }
}
