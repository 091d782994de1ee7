/** What the block loop computes, without the loop: the only way to cut the lines into
    well-formed blocks none of which could have taken one more line. */
module TelegramGrammar {
  import opened Text
  import opened TelegramBlocks
  import opened TelegramLoop

  /** The lines of a block are of the block's kind. */
  predicate WellFormed(b: Block) {
    match b
    case Gap(line) => KindOf(line) == Blank
    case CodeBlock(opener, body, closer) =>
      && KindOf(opener) == Fence
      && var fence := FenceOf(opener);
      && (forall i :: 0 <= i < |body| ==> NotClosing(fence)(body[i]))
      && (closer.Some? ==> !NotClosing(fence)(closer.value))
    case HeadingBlock(line) => KindOf(line) == Heading
    case QuoteBlock(lines) => lines != [] && forall i :: 0 <= i < |lines| ==> KindOf(lines[i]) == Quote
    case BulletBlock(lines, gap) =>
      && lines != [] && (forall i :: 0 <= i < |lines| ==> KindOf(lines[i]) == Bullet)
      && (gap.Some? ==> KindOf(gap.value) == Blank)
    case NumberBlock(lines, gap) =>
      && lines != [] && (forall i :: 0 <= i < |lines| ==> KindOf(lines[i]) == Number)
      && (gap.Some? ==> KindOf(gap.value) == Blank)
    case ProseBlock(lines) => lines != [] && forall i :: 0 <= i < |lines| ==> KindOf(lines[i]) == Prose
  }

  /** The block could not have taken the first line of `rest` as well. */
  ghost predicate Maximal(b: Block, rest: seq<string>) {
    match b
    case Gap(_) => true
    case HeadingBlock(_) => true
    case CodeBlock(_, _, closer) => closer.None? ==> rest == []
    case QuoteBlock(_) => rest != [] ==> KindOf(rest[0]) != Quote
    case BulletBlock(_, gap) => gap.None? && rest != [] ==> KindOf(rest[0]) !in {Bullet, Blank}
    case NumberBlock(_, gap) => gap.None? && rest != [] ==> KindOf(rest[0]) !in {Number, Blank}
    case ProseBlock(_) => rest != [] ==> KindOf(rest[0]) != Prose
  }

  /** `bs` cuts `lines` into well-formed maximal blocks. */
  ghost predicate Segmentation(bs: seq<Block>, lines: seq<string>) {
    if bs == [] then lines == []
    else
      var n := |SourceOf(bs[0])|;
      && WellFormed(bs[0]) && SourceOf(bs[0]) <= lines
      && Maximal(bs[0], lines[n..])
      && Segmentation(bs[1..], lines[n..])
  }

  lemma FencedWellFormed(lines: seq<string>)
    requires lines != [] && KindOf(lines[0]) == Fence
    ensures WellFormed(FencedBlock(lines, NotClosing(FenceOf(lines[0]))))
  {
    hide KindOf, FenceOf;
    var body := TakeWhile(lines[1..], NotClosing(FenceOf(lines[0])));
    if |body| + 1 < |lines| { assert lines[1..][|body|] == lines[|body| + 1]; }
  }

  lemma FirstBlockWellFormed(lines: seq<string>)
    requires lines != []
    ensures WellFormed(FirstBlock(lines))
  {
    hide KindOf, FenceOf;
    var kind := KindOf(lines[0]);
    if kind == Fence {
      FencedWellFormed(lines);
    } else if kind != Blank && kind != Heading {
      var run := FirstRun(lines);
      assert forall i :: 0 <= i < |run| ==> Is(kind)(run[i]);
    }
  }

  lemma FencedMaximal(lines: seq<string>)
    requires lines != []
    ensures var b := FencedBlock(lines, NotClosing(FenceOf(lines[0])));
            b.CodeBlock? && Maximal(b, lines[|SourceOf(b)|..])
  {
    hide KindOf, FenceOf, NotClosing;
  }

  lemma FirstRunEnds(lines: seq<string>)
    requires lines != []
    ensures var n := |FirstRun(lines)|; n < |lines| ==> KindOf(lines[n]) != KindOf(lines[0])
  {
    hide KindOf;
    var run := FirstRun(lines);
    if |run| < |lines| { assert !Is(KindOf(lines[0]))(lines[|run|]); }
  }

  lemma FirstBlockMaximal(lines: seq<string>)
    requires lines != []
    ensures var b := FirstBlock(lines); Maximal(b, lines[|SourceOf(b)|..])
  {
    hide KindOf, FenceOf, Trim, FirstRun, FencedBlock;
    var kind := KindOf(lines[0]);
    if kind == Fence {
      FencedMaximal(lines);
    } else if kind != Blank && kind != Heading {
      FirstRunFits(lines);
      FirstRunEnds(lines);
    }
  }

  /** Every line goes into exactly one block, in order. */
  lemma {:induction false} ParseIsSegmentation(lines: seq<string>)
    ensures Segmentation(Parse(lines), lines)
    decreases |lines|
  {
    if lines == [] {
    } else {
      hide FirstBlock, WellFormed, Maximal, SourceOf;
      var b := FirstBlock(lines);
      FirstBlockWellFormed(lines);
      FirstBlockMaximal(lines);
      ParseIsSegmentation(lines[|SourceOf(b)|..]);
      assert Parse(lines)[1..] == Parse(lines[|SourceOf(b)|..]);
    }
  }

  lemma RunUnique(lines: seq<string>, run: seq<string>, gap: Option<string>, kind: Kind)
    requires kind in {Quote, Bullet, Number, Prose} && run != []
    requires forall i :: 0 <= i < |run| ==> KindOf(run[i]) == kind
    requires gap.Some? ==> KindOf(gap.value) == Blank
    requires run + Optional(gap) <= lines
    requires gap.None? && |run| < |lines| ==> KindOf(lines[|run|]) !in {kind, Blank}
    ensures FirstBlock(lines) == RunBlock(kind, run, gap)
  {
    hide KindOf;
    assert run == lines[..|run|] && lines[0..] == lines;
    if gap.Some? { assert lines[|run|] == (run + Optional(gap))[|run|]; }
    assert forall k :: 0 <= k < |run| ==> lines[k] == run[k];
    WholeRunBlock(lines, 0, |run|, kind);
  }

  lemma QuoteUnique(lines: seq<string>, run: seq<string>, kind: Kind)
    requires kind in {Quote, Prose} && run != [] && run <= lines
    requires forall i :: 0 <= i < |run| ==> KindOf(run[i]) == kind
    requires |run| < |lines| ==> KindOf(lines[|run|]) != kind
    ensures FirstBlock(lines) == RunBlock(kind, run, None)
  {
    hide KindOf;
    assert run == lines[..|run|] && lines[0..] == lines;
    assert forall k :: 0 <= k < |run| ==> lines[k] == run[k];
    WholeRunBlock(lines, 0, |run|, kind);
  }

  lemma CodeUnique(lines: seq<string>, b: Block)
    requires b.CodeBlock? && WellFormed(b) && SourceOf(b) <= lines
    requires b.closer.None? ==> |SourceOf(b)| == |lines|
    ensures FirstBlock(lines) == b
  {
    hide KindOf, FenceOf, NotClosing, FirstBlock;
    var end := 1 + |b.body|;
    assert SourceOf(b)[..end] == lines[..end];
    assert lines[0] == SourceOf(b)[0] == b.opener;
    forall k | 0 < k < end ensures lines[k] == b.body[k - 1] {
      assert lines[k] == SourceOf(b)[k];
    }
    if b.closer.Some? { assert lines[end] == SourceOf(b)[end]; }
    assert lines[1..end] == b.body && lines[0..] == lines;
    WholeCodeBlock(lines, 0, end);
  }

  lemma BlockUnique(lines: seq<string>, b: Block)
    requires WellFormed(b) && SourceOf(b) != [] && SourceOf(b) <= lines
    requires Maximal(b, lines[|SourceOf(b)|..])
    ensures b == FirstBlock(lines)
  {
    hide KindOf, FenceOf, FirstBlock;
    assert lines[0] == SourceOf(b)[0];
    match b
    case Gap(_) => SingleLineBlock(lines, 0); assert lines[0..] == lines;
    case HeadingBlock(_) => SingleLineBlock(lines, 0); assert lines[0..] == lines;
    case CodeBlock(_, _, _) => CodeUnique(lines, b);
    case QuoteBlock(run) => QuoteUnique(lines, run, Quote);
    case ProseBlock(run) => QuoteUnique(lines, run, Prose);
    case BulletBlock(run, gap) => RunUnique(lines, run, gap, Bullet);
    case NumberBlock(run, gap) => RunUnique(lines, run, gap, Number);
  }

  /** The loop's blocks are the only segmentation there is. */
  lemma {:induction false} SegmentationUnique(bs: seq<Block>, lines: seq<string>)
    ensures Segmentation(bs, lines) <==> bs == Parse(lines)
    decreases |lines|, |bs|
  {
    hide FirstBlock, WellFormed, Maximal, KindOf;
    ParseIsSegmentation(lines);
    if Segmentation(bs, lines) && bs != [] {
      var n := |SourceOf(bs[0])|;
      NonEmptySource(bs[0]);
      BlockUnique(lines, bs[0]);
      SegmentationUnique(bs[1..], lines[n..]);
    }
  }

  lemma NonEmptySource(b: Block)
    requires WellFormed(b)
    ensures SourceOf(b) != []
  {
    hide KindOf, FenceOf;
  }

  function Sources(bs: seq<Block>): seq<string> {
    if bs == [] then [] else SourceOf(bs[0]) + Sources(bs[1..])
  }

  /** Put back together, the blocks are the lines. */
  lemma {:induction false} ParseKeepsLines(lines: seq<string>)
    ensures Sources(Parse(lines)) == lines
    decreases |lines|
  {
    hide FirstBlock, SourceOf, KindOf, FenceOf, NotClosing, Trim;
    if lines == [] {
    } else {
      var b := FirstBlock(lines);
      var rest := lines[|SourceOf(b)|..];
      ParseKeepsLines(rest);
      assert Parse(lines)[0] == b && Parse(lines)[1..] == Parse(rest);
      assert lines == SourceOf(b) + rest;
    }
  }
}
