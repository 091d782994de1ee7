/** The whole Telegram document is well-formed in its tags, whatever the Markdown was. */
module TelegramTags {
  import opened Text
  import opened Tokens
  import opened Escape
  import opened Inline
  import opened InlineTags
  import opened TelegramBlocks

  const TAG_PAIRS := {("<a href=\"", "</a>"), ("<b>", "</b>"), ("<code>", "</code>"),
                      ("<pre>", "</pre>"), ("<blockquote>", "</blockquote>")}

  lemma PairsAreTokens(p: (string, string))
    requires p in TAG_PAIRS
    ensures p.0 in TAGS.tokens && p.1 in TAGS.tokens
  {}

  /** No two pairs share a tag. */
  lemma PairsApart(p: (string, string), q: (string, string))
    requires p in TAG_PAIRS && q in TAG_PAIRS
    ensures p.0 != q.1 && (p.0 == q.0 <==> p.1 == q.1)
  {}

  ghost predicate Balanced(s: string) {
    forall p :: p in TAG_PAIRS ==> TAGS.Occ(s, p.0) == TAGS.Occ(s, p.1)
  }

  /** Only whole tokens, only whole entities, and every tag but italic closed as often as opened. The
      token of an opening anchor ends before its address. */
  ghost predicate Clean(s: string) {
    TAGS.Intact(s) && ENTITIES.Intact(s) && Balanced(s)
  }

  lemma CleanAppend(a: string, b: string)
    requires Clean(a) && Clean(b)
    ensures Clean(a + b)
  {
    hide TAGS, ENTITIES, TAG_PAIRS;
    TagsValid();
    TAGS.IntactAppend(a, b);
    ENTITIES.IntactAppend(a, b);
    forall p | p in TAG_PAIRS ensures TAGS.Occ(a + b, p.0) == TAGS.Occ(a + b, p.1) {
      PairsAreTokens(p);
      TAGS.OccAppend(a, b, p.0);
      TAGS.OccAppend(a, b, p.1);
    }
  }

  lemma CleanNoMark(s: string)
    requires '<' !in s && '&' !in s
    ensures Clean(s)
  {
    TagsValid();
    TAGS.IntactNoMark(s);
    ENTITIES.IntactNoMark(s);
    forall p | p in TAG_PAIRS ensures TAGS.Occ(s, p.0) == TAGS.Occ(s, p.1) {
      PairsAreTokens(p);
      TAGS.OccNoMark(s, p.0);
      TAGS.OccNoMark(s, p.1);
    }
  }

  lemma TagParts(t: string, u: string)
    requires t in TAGS.tokens && u in TAGS.tokens
    ensures TAGS.Intact(t) && ENTITIES.Intact(t)
    ensures TAGS.Occ(t, u) == if t == u then 1 else 0
  {
    TagsValid();
    TokenIntact(TAGS, t);
    TAGS.OccToken(t, u);
    NoAmpersand(t);
    ENTITIES.IntactNoMark(t);
  }

  lemma NoAmpersand(t: string)
    requires t in TAGS.tokens
    ensures '&' !in t
  {}

  lemma WrapOcc(s: string, o: string, c: string, u: string)
    requires TAGS.Valid() && TAGS.Intact(s) && o in TAGS.tokens && c in TAGS.tokens && u in TAGS.tokens
    ensures TAGS.Occ(o + s + c, u)
         == (if o == u then 1 else 0) + TAGS.Occ(s, u) + (if c == u then 1 else 0)
  {
    hide TAGS, ENTITIES;
    TagParts(o, u);
    TagParts(c, u);
    TAGS.IntactAppend(o, s);
    TAGS.OccAppend(o + s, c, u);
    TAGS.OccAppend(o, s, u);
  }

  lemma CleanWrap(s: string, q: (string, string))
    requires Clean(s) && q in TAG_PAIRS
    ensures Clean(q.0 + s + q.1)
  {
    hide TAGS, ENTITIES, TAG_PAIRS;
    TagsValid();
    PairsAreTokens(q);
    TagParts(q.0, q.0);
    TagParts(q.1, q.1);
    TAGS.IntactAppend(q.0, s);
    TAGS.IntactAppend(q.0 + s, q.1);
    ENTITIES.IntactAppend(q.0, s);
    ENTITIES.IntactAppend(q.0 + s, q.1);
    forall p | p in TAG_PAIRS
      ensures TAGS.Occ(q.0 + s + q.1, p.0) == TAGS.Occ(q.0 + s + q.1, p.1)
    {
      PairsAreTokens(p);
      PairsApart(p, q);
      PairsApart(q, p);
      WrapOcc(s, q.0, q.1, p.0);
      WrapOcc(s, q.0, q.1, p.1);
    }
  }

  lemma CleanInline(text: string)
    ensures Clean(InlineOf(text))
  {
    hide InlineOf;
    InlineIntact(text);
    InlineBalanced(text);
  }

  lemma CleanEscaped(text: string)
    ensures Clean(EscapeHtml(text))
  {
    hide EscapeHtml;
    TagsValid();
    EscapeHasNoBrackets(text);
    EscapeIntactTags(text);
    EntitiesCompatible();
    EscapeIntactEntities(text);
    forall p | p in TAG_PAIRS
      ensures TAGS.Occ(EscapeHtml(text), p.0) == TAGS.Occ(EscapeHtml(text), p.1)
    {
      PairsAreTokens(p);
      TAGS.OccNoMark(EscapeHtml(text), p.0);
      TAGS.OccNoMark(EscapeHtml(text), p.1);
    }
  }

  lemma {:induction false} CleanJoin(parts: seq<string>, sep: string)
    requires Clean(sep) && forall i :: 0 <= i < |parts| ==> Clean(parts[i])
    ensures Clean(Join(parts, sep))
  {
    if parts == [] {
      CleanNoMark("");
    } else if |parts| > 1 {
      CleanJoin(parts[1..], sep);
      CleanAppend(parts[0], sep);
      CleanAppend(parts[0] + sep, Join(parts[1..], sep));
    }
  }

  lemma {:induction false} DecimalNoMark(n: nat)
    ensures '<' !in Decimal(n) && '&' !in Decimal(n)
  {
    if n >= 10 { DecimalNoMark(n / 10); }
  }

  lemma CleanItems(lines: seq<string>)
    ensures forall i :: 0 <= i < |lines| ==> Clean(QuoteItems(lines)[i])
    ensures forall i :: 0 <= i < |lines| ==> Clean(BulletItems(lines)[i])
    ensures forall i :: 0 <= i < |lines| ==> Clean(NumberItems(lines)[i])
  {
    hide InlineOf, Trim, TrimStart, Content, OrderedItem, UnorderedItem, Clean, Decimal;
    forall i | 0 <= i < |lines|
      ensures Clean(QuoteItems(lines)[i]) && Clean(BulletItems(lines)[i]) && Clean(NumberItems(lines)[i])
    {
      var t := Trim(lines[i]);
      CleanInline(TrimStart(if t != "" && t[0] == '>' then t[1..] else t));
      CleanInline(Content(UnorderedItem(t)));
      CleanInline(Content(OrderedItem(t)));
      CleanNoMark("• ");
      CleanNoMark(". ");
      DecimalNoMark(i + 1);
      CleanNoMark(Decimal(i + 1));
      CleanAppend(Decimal(i + 1), ". ");
      CleanAppend("• ", InlineOf(Content(UnorderedItem(t))));
      CleanAppend(Decimal(i + 1) + ". ", InlineOf(Content(OrderedItem(t))));
    }
  }

  lemma CleanBlock(b: Block)
    ensures Clean(HtmlOf(b))
  {
    hide InlineOf, Clean, EscapeHtml, Join, QuoteItems, BulletItems, NumberItems, Content, HeadingText, Trim, TrimAll;
    CleanNoMark("\n");
    match b
    case Gap(_) => CleanNoMark("");
    case CodeBlock(_, body, _) =>
      var code := EscapeHtml(Join(body, "\n"));
      CleanEscaped(Join(body, "\n"));
      CleanWrap(code, ("<code>", "</code>"));
      CleanWrap("<code>" + code + "</code>", ("<pre>", "</pre>"));
      assert "<pre>" + ("<code>" + code + "</code>") + "</pre>" == "<pre><code>" + code + "</code></pre>";
    case HeadingBlock(line) =>
      CleanInline(Content(HeadingText(Trim(line))));
      CleanWrap(InlineOf(Content(HeadingText(Trim(line)))), ("<b>", "</b>"));
    case QuoteBlock(lines) =>
      CleanLists(lines);
      CleanWrap(Join(QuoteItems(lines), "\n"), ("<blockquote>", "</blockquote>"));
    case BulletBlock(lines, _) => CleanLists(lines);
    case NumberBlock(lines, _) => CleanLists(lines);
    case ProseBlock(lines) => CleanInline(Join(TrimAll(lines), "\n"));
  }

  lemma CleanLists(lines: seq<string>)
    requires Clean("\n")
    ensures Clean(Join(QuoteItems(lines), "\n"))
    ensures Clean(Join(BulletItems(lines), "\n"))
    ensures Clean(Join(NumberItems(lines), "\n"))
  {
    hide Clean, QuoteItem, BulletItem, NumberItem;
    CleanItems(lines);
    CleanJoin(QuoteItems(lines), "\n");
    CleanJoin(BulletItems(lines), "\n");
    CleanJoin(NumberItems(lines), "\n");
  }

  lemma {:induction false} CleanBlocks(bs: seq<Block>)
    ensures forall i :: 0 <= i < |HtmlBlocks(bs)| ==> Clean(HtmlBlocks(bs)[i])
  {
    hide Clean, HtmlOf;
    if bs == [] {
    } else {
      CleanBlock(bs[0]);
      CleanBlocks(bs[1..]);
    }
  }

  /** For every Markdown text, every '<' of the document begins one whole supported token, every
      '&' one whole entity, and the tags a, b, code, pre and blockquote are closed as often
      as they are opened. */
  lemma TelegramClean(text: string)
    ensures Clean(TelegramOf(text))
  {
    hide Clean, Parse, HtmlBlocks;
    var lines := Lines(NormalizeNewlines(text));
    CleanBlocks(Parse(lines));
    CleanNoMark("\n\n");
    CleanJoin(Rendered(lines), "\n\n");
  }

  // Numbered lists

  lemma DecimalIsDigits(n: nat)
    ensures forall i :: 0 <= i < |Decimal(n)| ==> IsDigit(Decimal(n)[i])
  {}

  lemma {:induction false} RunOf(digits: string, rest: string)
    requires forall i :: 0 <= i < |digits| ==> IsDigit(digits[i])
    requires rest != "" && !IsDigit(rest[0])
    ensures LeadingRun(digits + rest, IsDigit) == |digits|
  {
    if digits != "" {
      assert (digits + rest)[1..] == digits[1..] + rest;
      RunOf(digits[1..], rest);
    } else {
      assert digits + rest == rest;
    }
  }

  /** The number read back from decimal digits. */
  function ReadDecimal(s: string): nat
    requires forall i :: 0 <= i < |s| ==> IsDigit(s[i])
  {
    if s == "" then 0
    else
      assert IsDigit(s[|s| - 1]);
      10 * ReadDecimal(s[..|s| - 1]) + (s[|s| - 1] as int - '0' as int)
  }

  lemma {:induction false} DecimalRoundTrip(n: nat)
    ensures forall i :: 0 <= i < |Decimal(n)| ==> IsDigit(Decimal(n)[i])
    ensures ReadDecimal(Decimal(n)) == n
  {
    DecimalIsDigits(n);
    if n >= 10 {
      DecimalRoundTrip(n / 10);
      assert Decimal(n)[..|Decimal(n)| - 1] == Decimal(n / 10);
    }
  }

  /** Item `k` of a numbered list is again a numbered item: its number is `k + 1`, counted
      from the start of the list, and its content is the rendered content of its line. */
  lemma NumberItemsRenumber(lines: seq<string>, k: nat)
    requires k < |lines|
    ensures var html, content := NumberItems(lines)[k], InlineOf(Content(OrderedItem(Trim(lines[k]))));
            && OrderedItem(html) == Some(content)
            && html[..LeadingRun(html, IsDigit)] == Decimal(k + 1)
  {
    hide InlineOf, Content, Trim;
    var content := InlineOf(Content(OrderedItem(Trim(lines[k]))));
    var digits := Decimal(k + 1);
    var html := NumberItems(lines)[k];
    assert html == digits + (". " + content);
    DecimalIsDigits(k + 1);
    RunOf(digits, ". " + content);
    assert html[|digits|..] == ". " + content;
    assert (". " + content)[2..] == content;
  }
}
