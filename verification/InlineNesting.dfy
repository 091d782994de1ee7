/** When the tags of a rendered text nest, as a condition on its delimiters. */
module InlineNesting {
  import opened Text
  import opened Tokens
  import opened Nesting
  import opened OnePass
  import opened Escape
  import opened InlineMarks
  import opened InlineAnchors
  import Inline
  import Links

  /** All doubles and all backticks become tags, but for an odd last one. */
  function StartOf(marks: seq<Mark>): State {
    State(Even(CountIf(marks, HasDouble)), Even(CountIf(marks, IsTick)), false, false, false)
  }

  /** The tags of a text with these marks. */
  function TagsFor(marks: seq<Mark>): seq<Tag> { AllTags(marks, StartOf(marks)) }

  function MarksAfterLinks(text: string): seq<Mark> { Marks(AfterLinks(text), true) }

  /** The tags of the output are those that the marks of the text after the links become. */
  lemma RenderedTags(text: string)
    ensures ReadTags(Inline.InlineOf(text)) == TagsFor(MarksAfterLinks(text))
  {
    hide ReadTags, Inline.InlineOf, Pass, AfterLinks, Marks, AllTags, CountIf, Delims, ANCHORS;
    var t := AfterLinks(text);
    InlineIsPass(text);
    AfterLinksIntact(text);
    MarksCount(t, true);
    ReadPass(t, Start(t));
  }

  // What each kind does alone

  function Starry(marks: seq<Mark>): nat { CountIf(marks, HasStar) }

  /** An odd number of doubles, and the last of them has a third star: that star is kept, too. */
  predicate KeptTriple(marks: seq<Mark>) {
    CountIf(marks, HasDouble) % 2 == 1 && LastDouble(marks) == Some(Triple)
  }

  function LastDouble(marks: seq<Mark>): Option<Mark> {
    if marks == [] then None
    else
      var last := marks[|marks| - 1];
      if HasDouble(last) then Some(last) else LastDouble(marks[..|marks| - 1])
  }

  /** How many italic tags come of the marks when `doubles` of them are replaced. */
  lemma {:induction false} ItalicCount(marks: seq<Mark>, start: State)
    requires Fresh(start) && CountIf(marks, HasDouble) <= start.doubles + 1
    ensures CountOf(AllTags(marks, start), Italic)
         == Starry(marks)
            - if CountIf(marks, HasDouble) > start.doubles && LastDouble(marks) == Some(Triple) then 1 else 0
  {
    hide AllTags, TagsOf, CountOf, After, AfterAll;
    if marks == [] {
      NoTags(start);
    } else {
      var front, last := marks[..|marks| - 1], marks[|marks| - 1];
      ItalicCount(front, start);
      AllCounted(front, start);
      LastTags(front, last, start);
      assert front + [last] == marks;
    }
  }

  lemma NoTags(start: State)
    ensures CountOf(AllTags([], start), Italic) == 0
  {}

  lemma LastTags(front: seq<Mark>, last: Mark, start: State)
    ensures var st := AfterAll(front, start);
            CountOf(AllTags(front + [last], start), Italic)
            == CountOf(AllTags(front, start), Italic)
               + if last.Star? || (last.Triple? && st.doubles > 0) then 1 else 0
  {
    var all := front + [last];
    assert all[..|front|] == front;
    var tags, more := AllTags(front, start), TagsOf(last, AfterAll(front, start));
    assert AllTags(all, start) == tags + more;
    hide AllTags, AfterAll, CountOf;
    if |more| == 0 {
      assert tags + more == tags;
    } else if |more| == 1 {
      CountLast(tags, more[0], Italic);
    } else {
      CountLast(tags, more[0], Italic);
      CountLast(tags + [more[0]], more[1], Italic);
      assert tags + more == tags + [more[0]] + [more[1]];
    }
  }

  lemma LevelOthers(depth: nat, m: Mark, st: State)
    requires !m.AnchorOpen? && !m.AnchorClose?
    ensures Level(depth, TagsOf(m, st), Anchor) == Some(depth)
  {
    var tags := TagsOf(m, st);
    if |tags| == 2 {
      assert tags == [tags[0]] + [tags[1]];
      LevelOne(depth, tags[0], [tags[1]], Anchor);
      LevelLast(depth, tags[1], Anchor);
    }
  }

  lemma LevelOf(depth: nat, m: Mark, rest: seq<Mark>, st: State)
    ensures Level(depth, AllTags([m] + rest, st), Anchor)
         == (match m
             case AnchorOpen => Level(depth + 1, AllTags(rest, After(m, st)), Anchor)
             case AnchorClose =>
               if depth == 0 then None else Level(depth - 1, AllTags(rest, After(m, st)), Anchor)
             case _ => Level(depth, AllTags(rest, After(m, st)), Anchor))
  {
    hide AllTags, Level, After;
    AllTagsFirst(m, rest, st);
    var tags := AllTags(rest, After(m, st));
    if m.AnchorOpen? || m.AnchorClose? {
      LevelOne(depth, Tag(Anchor, m.AnchorOpen?), tags, Anchor);
    } else {
      LevelOthers(depth, m, st);
      LevelAppend(depth, TagsOf(m, st), tags, Anchor);
    }
  }

  /** The anchors of a text are among the tags that its marks become. */
  lemma {:induction false} AnchorsAmongTags(t: string, depth: nat, st: State)
    requires ANCHORS.Intact(t)
    ensures Level(depth, AllTags(Marks(t, true), st), Anchor) == Level(depth, ReadTags(t), Anchor)
    decreases |t|
  {
    hide ReadTags, OPENING, CLOSING, AllTags, Marks, Level, After;
    if t == "" {
      NoAnchors(depth, st);
    } else if t[0] == '<' {
      AnchorFirst(t, depth, st);
    } else {
      var n, m := MarkAt(t);
      Shorter(t, n);
      assert t == t[..n] + t[n..];
      ReadPlain(t[..n], t[n..]);
      if m.Some? {
        LevelOf(depth, m.value, Marks(t[n..], true), st);
        AnchorsAmongTags(t[n..], depth, After(m.value, st));
      } else {
        assert [] + Marks(t[n..], true) == Marks(t[n..], true);
        AnchorsAmongTags(t[n..], depth, st);
      }
    }
  }

  lemma NoAnchors(depth: nat, st: State)
    ensures Level(depth, AllTags(Marks("", true), st), Anchor) == Level(depth, ReadTags(""), Anchor)
  {}

  /** The first mark of a text that does not begin with an anchor, if there is one at its head. */
  lemma MarkAt(t: string) returns (n: nat, m: Option<Mark>)
    requires t != "" && t[0] != '<'
    ensures 0 < n <= |t| && '<' !in t[..n]
    ensures m.Some? ==> !m.value.AnchorOpen? && !m.value.AnchorClose?
    ensures Marks(t, true) == (if m.Some? then [m.value] else []) + Marks(t[n..], true)
  {
    n, m := 1, None;
    if IsTriple(t) {
      n, m := 3, Some(Triple);
    } else if IsDouble(t) {
      n, m := 2, Some(Double);
    } else if t[0] == '*' {
      m := Some(Star);
    } else if t[0] == '`' {
      m := Some(Tick);
    } else {
      PlainMark(t);
    }
    hide OPENING, CLOSING;
  }

  lemma {:induction false} AnchorFirst(t: string, depth: nat, st: State)
    requires t != "" && t[0] == '<' && ANCHORS.Intact(t)
    ensures Level(depth, AllTags(Marks(t, true), st), Anchor) == Level(depth, ReadTags(t), Anchor)
    decreases |t|, 0
  {
    hide AllTags, Level, After, ReadTags, OPENING, CLOSING, Marks;
    var tag := AnchorHead(t);
    var n, m := |Spelled(tag)|, AnchorMark(tag);
    SpelledShape(tag);
    hide Spelled, ANCHORS;
    Shorter(t, n);
    assert t == Spelled(tag) + t[n..];
    ReadFirst(tag, t[n..]);
    LevelOf(depth, m, Marks(t[n..], true), st);
    LevelOne(depth, tag, ReadTags(t[n..]), Anchor);
    if tag.opens {
      AnchorsAmongTags(t[n..], depth + 1, After(m, st));
    } else if depth > 0 {
      AnchorsAmongTags(t[n..], depth - 1, After(m, st));
    }
  }

  lemma CountsOf(marks: seq<Mark>)
    ensures CountOf(TagsFor(marks), Bold) == Even(CountIf(marks, HasDouble))
    ensures CountOf(TagsFor(marks), Code) == Even(CountIf(marks, IsTick))
    ensures InTurn(TagsFor(marks), Bold) && InTurn(TagsFor(marks), Code) && InTurn(TagsFor(marks), Italic)
  {
    hide AllTags, CountIf, CountOf, InTurn;
    AllCounted(marks, StartOf(marks));
  }

  /** How many italic tags the marks become. */
  function Italics(marks: seq<Mark>): int { Starry(marks) - if KeptTriple(marks) then 1 else 0 }

  /** Anchors, bold and code match in every output; italic exactly if the single stars that are
      left after pairing the doubles are even in number. */
  lemma KindsMatch(text: string)
    ensures var marks := MarksAfterLinks(text);
            && Matched(TagsFor(marks), Anchor) && Matched(TagsFor(marks), Bold) && Matched(TagsFor(marks), Code)
            && CountOf(TagsFor(marks), Italic) == Italics(marks)
            && (Matched(TagsFor(marks), Italic) <==> Italics(marks) % 2 == 0)
  {
    hide AllTags, CountIf, CountOf, InTurn, Level, Marks, ReadTags, ANCHORS, AfterLinks;
    var marks := MarksAfterLinks(text);
    var tags := TagsFor(marks);
    AnchorsMatch(text);
    AfterLinksIntact(text);
    AnchorsAmongTags(AfterLinks(text), 0, StartOf(marks));
    CountsOf(marks);
    ItalicCount(marks, StartOf(marks));
    WholeMatchedIff(tags, Bold);
    WholeMatchedIff(tags, Code);
    WholeMatchedIff(tags, Italic);
  }

  lemma WholeMatchedIff(tags: seq<Tag>, kind: Kind)
    requires InTurn(tags, kind)
    ensures Matched(tags, kind) <==> CountOf(tags, kind) % 2 == 0
  {
    hide Level, InTurn;
    InTurnMatchedIff(tags, 0, |tags|, kind);
    assert tags[0..|tags|] == tags && tags[..|tags|] == tags && tags[..0] == [];
  }

  // All kinds

  /** No tag between the two is matched with one outside: for bold, code and italic the numbers of
      tags up to either are equal, or both even. */
  ghost predicate UncrossedAt(tags: seq<Tag>, i: nat, j: nat)
    requires i < j < |tags|
  {
    && Matched(tags[i + 1..j], Anchor)
    && EqualOrEven(CountOf(tags[..i + 1], Bold), CountOf(tags[..j], Bold))
    && EqualOrEven(CountOf(tags[..i + 1], Code), CountOf(tags[..j], Code))
    && EqualOrEven(CountOf(tags[..i + 1], Italic), CountOf(tags[..j], Italic))
  }

  ghost predicate Uncrossed(tags: seq<Tag>) {
    forall i: nat, j: nat, kind :: Span(tags, i, j, kind) ==> UncrossedAt(tags, i, j)
  }

  lemma UncrossedAtIff(tags: seq<Tag>, i: nat, j: nat)
    requires InTurn(tags, Bold) && InTurn(tags, Code) && InTurn(tags, Italic) && i < j < |tags|
    ensures AllMatched(tags[i + 1..j]) <==> UncrossedAt(tags, i, j)
  {
    hide Level, InTurn, CountOf, EqualOrEven;
    InTurnMatchedIff(tags, i + 1, j, Bold);
    InTurnMatchedIff(tags, i + 1, j, Code);
    InTurnMatchedIff(tags, i + 1, j, Italic);
    KindsAre(tags[i + 1..j]);
  }

  lemma UncrossedIff(tags: seq<Tag>)
    requires InTurn(tags, Bold) && InTurn(tags, Code) && InTurn(tags, Italic)
    ensures MatchedInside(tags) <==> Uncrossed(tags)
  {
    hide Matched, InTurn, AllMatched, UncrossedAt;
    forall i: nat, j: nat, kind | Span(tags, i, j, kind)
      ensures AllMatched(tags[i + 1..j]) <==> UncrossedAt(tags, i, j)
    {
      UncrossedAtIff(tags, i, j);
    }
  }

  lemma KindsAre(tags: seq<Tag>)
    ensures AllMatched(tags)
       <==> Matched(tags, Anchor) && Matched(tags, Bold) && Matched(tags, Code) && Matched(tags, Italic)
  {
    hide Matched;
    if Matched(tags, Anchor) && Matched(tags, Bold) && Matched(tags, Code) && Matched(tags, Italic) {
      forall k ensures Matched(tags, k) {
        match k
        case Anchor =>
        case Bold =>
        case Code =>
        case Italic =>
      }
    }
  }

  /** The tags of the output nest exactly when the italic ones are even in number and no span is
      crossed, which the marks of the text after the links decide. */
  lemma InlineNestsIff(text: string)
    ensures var marks := MarksAfterLinks(text);
            WellNested(ReadTags(Inline.InlineOf(text)))
            <==> Italics(marks) % 2 == 0 && Uncrossed(TagsFor(marks))
  {
    hide ReadTags, Inline.InlineOf, MarksAfterLinks, TagsFor, Nest, Matched, InTurn, Italics, Uncrossed, MatchedInside;
    var tags := TagsFor(MarksAfterLinks(text));
    RenderedTags(text);
    NestsIff(tags);
    KindsMatch(text);
    KindsAre(tags);
    CountsOf(MarksAfterLinks(text));
    UncrossedIff(tags);
  }
}
