/** The line loop itself: it reads one block at a time and never looks back. */
module TelegramLoop {
  import opened Text
  import opened Escape
  import opened Inline
  import opened TelegramBlocks

  /** The lines `from..to` are all of one kind and the next line is not. */
  ghost predicate WholeRun(lines: seq<string>, from: nat, to: nat, kind: Kind) {
    && from < to <= |lines|
    && (forall k :: from <= k < to ==> KindOf(lines[k]) == kind)
    && (to < |lines| ==> KindOf(lines[to]) != kind)
  }

  lemma BlankAtShift(lines: seq<string>, from: nat, to: nat)
    requires from <= to <= |lines|
    ensures BlankAt(lines[from..], to - from) == BlankAt(lines, to)
  {
    hide KindOf;
    if to < |lines| { assert lines[from..][to - from] == lines[to]; }
  }

  lemma WholeRunBlock(lines: seq<string>, from: nat, to: nat, kind: Kind)
    requires WholeRun(lines, from, to, kind) && kind in {Quote, Bullet, Number, Prose}
    ensures from < to <= |lines|
    ensures FirstBlock(lines[from..]) == RunBlock(kind, lines[from..to], BlankAt(lines, to))
  {
    hide KindOf, BlankAt, RunBlock, Optional, SourceOf, Trim;
    var rest := lines[from..];
    assert rest[0] == lines[from];
    assert FirstRun(rest) == lines[from..to];
    BlankAtShift(lines, from, to);
  }

  lemma WholeCodeBlock(lines: seq<string>, start: nat, end: nat)
    requires start < end <= |lines| && KindOf(lines[start]) == Fence
    requires forall k :: start < k < end ==> NotClosing(FenceOf(lines[start]))(lines[k])
    requires end < |lines| ==> !NotClosing(FenceOf(lines[start]))(lines[end])
    ensures FirstBlock(lines[start..])
         == CodeBlock(lines[start], lines[start + 1..end], if end < |lines| then Some(lines[end]) else None)
  {
    hide KindOf, FenceOf, NotClosing, TakeWhile;
    var rest := lines[start..];
    assert rest[0] == lines[start] && rest[1..] == lines[start + 1..];
    if end < |lines| { assert rest[end - start] == lines[end]; }
    TakeWhileUnique(rest[1..], NotClosing(FenceOf(lines[start])), lines[start + 1..end]);
  }

  /** A line that fails the test of a kind is not of that kind. */
  lemma TestDecides(line: string, kind: Kind)
    requires kind in {Quote, Bullet, Number}
    ensures var t := Trim(line);
            KindOf(line) == kind
            <==> t != "" && match kind
                            case Quote => t[0] == '>'
                            case Bullet => UnorderedItem(t).Some?
                            case _ => OrderedItem(t).Some?
  {
    if Trim(line) != "" { TestsExclusive(line); }
  }

  method ReadCode(lines: seq<string>, start: nat) returns (codeLines: seq<string>, i: nat)
    requires start < |lines|
    ensures var end := start + 1 + |codeLines|;
            && end <= |lines| && codeLines == lines[start + 1..end]
            && i == (if end < |lines| then end + 1 else end)
            && (forall k :: start < k < end ==> NotClosing(FenceOf(lines[start]))(lines[k]))
            && (end < |lines| ==> !NotClosing(FenceOf(lines[start]))(lines[end]))
  {
    hide FenceOf, Trim, Strip;
    var fence := FenceOf(lines[start]);
    i := start + 1;
    codeLines := [];
    while i < |lines|
      invariant start < i <= |lines| && codeLines == lines[start + 1..i]
      invariant forall k :: start < k < i ==> NotClosing(fence)(lines[k])
    {
      var candidate := Trim(lines[i]);
      if fence <= candidate {
        i := i + 1;
        return;
      }
      codeLines := codeLines + [lines[i]];
      i := i + 1;
    }
  }

  method ReadQuote(lines: seq<string>, start: nat) returns (quoteLines: seq<string>, i: nat)
    requires start < |lines| && KindOf(lines[start]) == Quote
    ensures WholeRun(lines, start, i, Quote) && quoteLines == QuoteItems(lines[start..i])
  {
    hide KindOf, Trim, TrimStart, InlineOf;
    quoteLines := [];
    i := start;
    while i < |lines|
      invariant start <= i <= |lines|
      invariant forall k :: start <= k < i ==> KindOf(lines[k]) == Quote
      invariant quoteLines == QuoteItems(lines[start..i])
      invariant i == start ==> KindOf(lines[i]) == Quote
    {
      var current := Trim(lines[i]);
      TestDecides(lines[i], Quote);
      if current == "" || current[0] != '>' { break; }
      var content := TrimStart(current[1..]);
      quoteLines := quoteLines + [InlineOf(content)];
      i := i + 1;
    }
  }

  /** Reads the items of one bulleted list; `i` is past the blank line that ends it, if any. */
  method ReadBullets(lines: seq<string>, start: nat) returns (items: seq<string>, i: nat)
    requires start < |lines| && KindOf(lines[start]) == Bullet
    ensures var end := start + |items|;
            && WholeRun(lines, start, end, Bullet) && items == BulletItems(lines[start..end])
            && i == end + |Optional(BlankAt(lines, end))|
  {
    hide KindOf, Trim, UnorderedItem, BulletItem;
    TestDecides(lines[start], Bullet);
    items := [BulletItem(lines[start])];
    i := start + 1;
    while i < |lines|
      invariant start < i <= |lines|
      invariant forall k :: start <= k < i ==> KindOf(lines[k]) == Bullet
      invariant |items| == i - start
      invariant forall k :: 0 <= k < |items| ==> items[k] == BulletItem(lines[start + k])
    {
      var current := Trim(lines[i]);
      TestDecides(lines[i], Bullet);
      BlankMeansEmpty(lines[i]);
      if UnorderedItem(current).Some? && current != "" {
        items := items + [BulletItem(lines[i])];
        i := i + 1;
      } else if current == "" {
        i := i + 1;
        return;
      } else {
        break;
      }
    }
  }

  lemma BlankMeansEmpty(line: string)
    ensures KindOf(line) == Blank <==> Trim(line) == ""
  {}

  lemma NumberItemsSnoc(lines: seq<string>, start: nat, i: nat)
    requires start <= i < |lines|
    ensures NumberItems(lines[start..i + 1]) == NumberItems(lines[start..i]) + [NumberItem(lines[i], i - start + 1)]
  {
    hide NumberItem;
    assert lines[start..i + 1] == lines[start..i] + [lines[i]];
  }

  lemma NoNumberItems(lines: seq<string>, start: nat)
    requires start <= |lines|
    ensures NumberItems(lines[start..start]) == []
  {}

  /** Reads the items of one numbered list and numbers them from 1, whatever their own numbers. */
  method ReadNumbers(lines: seq<string>, start: nat) returns (items: seq<string>, i: nat)
    requires start < |lines| && KindOf(lines[start]) == Number
    ensures var end := start + |items|;
            && WholeRun(lines, start, end, Number) && items == NumberItems(lines[start..end])
            && i == end + |Optional(BlankAt(lines, end))|
  {
    hide KindOf, Trim, OrderedItem, NumberItem, NumberItems;
    TestDecides(lines[start], Number);
    NoNumberItems(lines, start);
    NumberItemsSnoc(lines, start, start);
    items := [NumberItem(lines[start], 1)];
    var counter := 2;
    i := start + 1;
    while i < |lines|
      invariant start < i <= |lines| && counter == i - start + 1
      invariant forall k :: start <= k < i ==> KindOf(lines[k]) == Number
      invariant |items| == i - start && items == NumberItems(lines[start..i])
    {
      var current := Trim(lines[i]);
      TestDecides(lines[i], Number);
      BlankMeansEmpty(lines[i]);
      if OrderedItem(current).Some? && current != "" {
        NumberItemsSnoc(lines, start, i);
        items := items + [NumberItem(lines[i], counter)];
        counter := counter + 1;
        i := i + 1;
      } else if current == "" {
        i := i + 1;
        return;
      } else {
        break;
      }
    }
  }

  method ReadProse(lines: seq<string>, start: nat) returns (paragraph: seq<string>, i: nat)
    requires start < |lines| && KindOf(lines[start]) == Prose
    ensures WholeRun(lines, start, i, Prose) && paragraph == TrimAll(lines[start..i])
  {
    hide KindOf, Trim;
    paragraph := [Trim(lines[start])];
    i := start + 1;
    while i < |lines|
      invariant start < i <= |lines|
      invariant forall k :: start <= k < i ==> KindOf(lines[k]) == Prose
      invariant paragraph == TrimAll(lines[start..i])
    {
      var prose := IsProse(lines[i]);
      if !prose { break; }
      paragraph := paragraph + [Trim(lines[i])];
      i := i + 1;
    }
  }

  /** The disjunction that ends a paragraph, negated. */
  method IsProse(line: string) returns (prose: bool)
    ensures prose <==> KindOf(line) == Prose
  {
    var current := Trim(line);
    prose := !(current == ""
               || FenceDelimiter(current).Some?
               || HeadingText(current).Some?
               || current[0] == '>'
               || UnorderedItem(current).Some?
               || OrderedItem(current).Some?);
  }

  /** One block off the front. */
  lemma RenderedStep(lines: seq<string>, i: nat)
    requires i < |lines|
    ensures var b := FirstBlock(lines[i..]);
            && i + |SourceOf(b)| <= |lines|
            && Rendered(lines[i..])
               == (if b.Gap? then [] else [HtmlOf(b)]) + Rendered(lines[i + |SourceOf(b)|..])
  {
    hide FirstBlock, SourceOf, HtmlOf;
    var rest := lines[i..];
    var b := FirstBlock(rest);
    assert rest[|SourceOf(b)|..] == lines[i + |SourceOf(b)|..];
    assert Parse(rest)[1..] == Parse(rest[|SourceOf(b)|..]);
  }

  method MarkdownToTelegramHtml(text: string) returns (html: string)
    ensures html == TelegramOf(text)
  {
    hide NormalizeNewlines, Lines, Rendered, FirstBlock, SourceOf, HtmlOf, Join;
    var lines := Lines(NormalizeNewlines(text));
    var blocks: seq<string> := [];
    var i := 0;
    assert lines[0..] == lines;
    while i < |lines|
      invariant i <= |lines|
      invariant blocks + Rendered(lines[i..]) == Rendered(lines)
      decreases |lines| - i
    {
      var next, block := ReadBlock(lines, i);
      RenderedStep(lines, i);
      if block.Some? { blocks := blocks + [block.value]; }
      i := next;
    }
    html := Join(blocks, "\n\n");
    RenderedNothing();
    assert lines[i..] == [] && blocks + [] == blocks;
  }

  lemma SingleLineBlock(lines: seq<string>, start: nat)
    requires start < |lines|
    ensures KindOf(lines[start]) == Blank ==> FirstBlock(lines[start..]) == Gap(lines[start])
    ensures KindOf(lines[start]) == Heading ==> FirstBlock(lines[start..]) == HeadingBlock(lines[start])
  {
    hide KindOf;
  }

  /** The rendering of each kind of run, and how many lines it takes. */
  lemma RunHtml(run: seq<string>, gap: Option<string>)
    ensures var b := RunBlock(Quote, run, gap);
            b.QuoteBlock? && |SourceOf(b)| == |run|
            && HtmlOf(b) == "<blockquote>" + Join(QuoteItems(run), "\n") + "</blockquote>"
    ensures var b := RunBlock(Bullet, run, gap);
            b.BulletBlock? && |SourceOf(b)| == |run| + |Optional(gap)|
            && HtmlOf(b) == Join(BulletItems(run), "\n")
    ensures var b := RunBlock(Number, run, gap);
            b.NumberBlock? && |SourceOf(b)| == |run| + |Optional(gap)|
            && HtmlOf(b) == Join(NumberItems(run), "\n")
    ensures var b := RunBlock(Prose, run, gap);
            b.ProseBlock? && |SourceOf(b)| == |run|
            && HtmlOf(b) == InlineOf(Join(TrimAll(run), "\n"))
  {
    hide InlineOf, Join, QuoteItems, BulletItems, NumberItems, TrimAll;
  }

  lemma SingleHtml(line: string)
    ensures |SourceOf(Gap(line))| == 1
    ensures |SourceOf(HeadingBlock(line))| == 1
    ensures HtmlOf(HeadingBlock(line)) == "<b>" + InlineOf(Content(HeadingText(Trim(line)))) + "</b>"
  {}

  lemma CodeHtml(b: Block)
    requires b.CodeBlock?
    ensures |SourceOf(b)| == 1 + |b.body| + |Optional(b.closer)|
    ensures HtmlOf(b) == "<pre><code>" + EscapeHtml(Join(b.body, "\n")) + "</code></pre>"
  {}

  lemma RenderedNothing()
    ensures Rendered([]) == []
  {}

  /** The tests of one turn of the loop, in order: the rendered block, if the lines are not a
      blank gap, and the index after it. */
  method ReadBlock(lines: seq<string>, start: nat) returns (next: nat, block: Option<string>)
    requires start < |lines|
    ensures var b := FirstBlock(lines[start..]);
            && next == start + |SourceOf(b)|
            && block == if b.Gap? then None else Some(HtmlOf(b))
  {
    hide KindOf, Trim, EscapeHtml, InlineOf, HeadingText, FenceDelimiter, UnorderedItem, OrderedItem;
    hide FirstBlock, HtmlOf, SourceOf, RunBlock, WholeRun, BlankAt, Join, NotClosing, FenceOf;
    hide QuoteItems, BulletItems, NumberItems, TrimAll;
    var trimmed := Trim(lines[start]);
    assert lines[start..][0] == lines[start];
    if trimmed != "" { TestsExclusive(lines[start]); }
    BlankMeansEmpty(lines[start]);
    SingleLineBlock(lines, start);
    SingleHtml(lines[start]);
    if trimmed == "" {
      next, block := start + 1, None;
    } else if FenceDelimiter(trimmed).Some? {
      var codeLines, i := ReadCode(lines, start);
      WholeCodeBlock(lines, start, start + 1 + |codeLines|);
      CodeHtml(FirstBlock(lines[start..]));
      next := i;
      block := Some("<pre><code>" + EscapeHtml(Join(codeLines, "\n")) + "</code></pre>");
    } else if HeadingText(trimmed).Some? {
      next := start + 1;
      block := Some("<b>" + InlineOf(Content(HeadingText(trimmed))) + "</b>");
    } else if trimmed[0] == '>' {
      var quoteLines, i := ReadQuote(lines, start);
      WholeRunBlock(lines, start, i, Quote);
      RunHtml(lines[start..i], BlankAt(lines, i));
      next := i;
      block := Some("<blockquote>" + Join(quoteLines, "\n") + "</blockquote>");
    } else if UnorderedItem(trimmed).Some? {
      var items, i := ReadBullets(lines, start);
      WholeRunBlock(lines, start, start + |items|, Bullet);
      RunHtml(lines[start..start + |items|], BlankAt(lines, start + |items|));
      next := i;
      block := Some(Join(items, "\n"));
    } else if OrderedItem(trimmed).Some? {
      var items, i := ReadNumbers(lines, start);
      WholeRunBlock(lines, start, start + |items|, Number);
      RunHtml(lines[start..start + |items|], BlankAt(lines, start + |items|));
      next := i;
      block := Some(Join(items, "\n"));
    } else {
      var paragraph, i := ReadProse(lines, start);
      WholeRunBlock(lines, start, i, Prose);
      RunHtml(lines[start..i], BlankAt(lines, i));
      next := i;
      block := Some(InlineOf(Join(paragraph, "\n")));
    }
  }
}
