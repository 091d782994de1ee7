/** What a reader sees of the blocks of a Telegram document. */
module BlocksShown {
  import opened Text
  import opened Escape
  import opened Nesting
  import opened OnePass
  import opened InlineMarks
  import opened InlineAnchors
  import opened ShownText
  import opened TelegramBlocks
  import opened Inline
  import Links

  // Putting pieces together

  /** Every tag in the text is closed and every entity whole. */
  predicate Complete(s: string) {
    if s == "" then true
    else if s[0] == '<' then
      match Find(s, ">", 0)
      case None => false
      case Some(k) => Complete(s[k + 1..])
    else if "&amp;" <= s then Complete(s[5..])
    else if "&lt;" <= s || "&gt;" <= s then Complete(s[4..])
    else s[0] != '&' && Complete(s[1..])
  }

  lemma FindAppend(a: string, b: string)
    requires Find(a, ">", 0).Some?
    ensures Find(a + b, ">", 0) == Find(a, ">", 0)
  {
    var k := Find(a, ">", 0).value;
    assert (a + b)[k..k + 1] == a[k..k + 1];
    forall i: nat | i < k ensures !StartsAt(a + b, i, ">") {
      assert !StartsAt(a, i, ">");
      assert (a + b)[i..i + 1] == a[i..i + 1];
    }
    assert StartsAt(a + b, k, ">");
  }

  lemma PrefixAppend(p: string, a: string, b: string)
    requires p <= a
    ensures p <= a + b && (a + b)[|p|..] == a[|p|..] + b
  {}

  lemma {:induction false} ShownAppend(a: string, b: string)
    requires Complete(a)
    ensures Shown(a + b) == Shown(a) + Shown(b)
    ensures Complete(b) ==> Complete(a + b)
  {
    hide Shown, Complete;
    if a == "" {
      assert a + b == b;
      ShownNothing();
    } else {
      var n, c := FirstShown(a, b);
      ShownAppend(a[n..], b);
      assert c + (Shown(a[n..]) + Shown(b)) == c + Shown(a[n..]) + Shown(b);
    }
  }

  /** What the first tag, entity or character adds to what is shown. */
  lemma FirstShown(a: string, b: string) returns (n: nat, c: string)
    requires Complete(a) && a != ""
    ensures 0 < n <= |a| && Complete(a[n..]) && Complete(a + b) == Complete(a[n..] + b)
    ensures Shown(a) == c + Shown(a[n..]) && Shown(a + b) == c + Shown(a[n..] + b)
  {
    if a[0] == '<' {
      CompleteCloses(a);
      n, c := Find(a, ">", 0).value + 1, "";
      TagAppend(a, b, n - 1);
    } else {
      n, c := PieceLength(a), PieceShown(a);
      PieceAppend(a, b);
    }
  }

  lemma CompleteCloses(a: string)
    requires Complete(a) && a != "" && a[0] == '<'
    ensures Find(a, ">", 0).Some?
  {}

  lemma TagAppend(a: string, b: string, k: nat)
    requires a != "" && a[0] == '<' && Find(a, ">", 0) == Some(k)
    ensures k < |a| && Shown(a + b) == Shown(a[k + 1..] + b) && Shown(a) == Shown(a[k + 1..])
    ensures Complete(a + b) == Complete(a[k + 1..] + b) && Complete(a) == Complete(a[k + 1..])
  {
    FindAppend(a, b);
    assert (a + b)[k + 1..] == a[k + 1..] + b;
  }

  /** One character of what is shown, an entity or itself. */
  function PieceLength(a: string): (n: nat)
    ensures n > 0
  {
    if "&amp;" <= a then 5 else if "&lt;" <= a || "&gt;" <= a then 4 else 1
  }

  function PieceShown(a: string): string
    requires a != ""
  {
    if "&amp;" <= a then "&" else if "&lt;" <= a then "<" else if "&gt;" <= a then ">" else [a[0]]
  }

  lemma ShownPiece(a: string)
    requires a != "" && a[0] != '<'
    ensures PieceLength(a) <= |a| && Shown(a) == PieceShown(a) + Shown(a[PieceLength(a)..])
    ensures Complete(a) == ((a[0] == '&' ==> PieceLength(a) > 1) && Complete(a[PieceLength(a)..]))
  {
    NotAmp(a);
  }

  lemma PieceAppend(a: string, b: string)
    requires a != "" && a[0] != '<' && Complete(a)
    ensures var n := PieceLength(a);
            && n <= |a|
            && Shown(a) == PieceShown(a) + Shown(a[n..]) && Shown(a + b) == PieceShown(a) + Shown(a[n..] + b)
            && Complete(a[n..]) && Complete(a + b) == Complete(a[n..] + b)
  {
    hide *;
    ShownPiece(a);
    var n := PieceLength(a);
    SamePiece(a, b);
    Cut(a, b, n);
    ShownPiece(a + b);
  }

  lemma Cut(a: string, b: string, n: nat)
    requires 0 < n <= |a|
    ensures (a + b)[n..] == a[n..] + b && (a + b)[0] == a[0]
  {}

  lemma SamePiece(a: string, b: string)
    requires a != "" && (a[0] == '&' ==> PieceLength(a) > 1)
    ensures PieceLength(a + b) == PieceLength(a) && PieceShown(a + b) == PieceShown(a)
  {
    NotAmp(a);
    NotAmp(a + b);
    if a[0] == '&' {
      PrefixAppend(a[..PieceLength(a)], a, b);
    } else {
      assert (a + b)[0] == a[0];
    }
  }

  lemma NotAmp(s: string)
    ensures "&lt;" <= s ==> !("&amp;" <= s) && !("&gt;" <= s)
    ensures "&gt;" <= s ==> !("&amp;" <= s) && !("&lt;" <= s)
  {
    if "&lt;" <= s { assert s[..4][1] == 'l'; }
    if "&gt;" <= s { assert s[..4][1] == 'g'; }
  }

  lemma CompleteTag(inner: string, rest: string)
    requires '>' !in inner
    ensures Complete("<" + inner + ">" + rest) <==> Complete(rest)
  {
    var s, k := "<" + inner + ">" + rest, |inner| + 1;
    assert s[k..k + 1] == ">" && StartsAt(s, k, ">");
    forall i: nat | i < k ensures !StartsAt(s, i, ">") {
      assert s[i..i + 1] == [s[i]];
      if i > 0 { assert s[i] == inner[i - 1] && s[i] in inner; }
    }
    assert Find(s, ">", 0) == Some(k) && s[k + 1..] == rest;
  }

  lemma CompleteSpelled(t: Tag, rest: string)
    requires t.kind != Anchor
    ensures Complete(Spelled(t) + rest) <==> Complete(rest)
  {
    SpelledWhole(t);
    var s := Spelled(t);
    hide Spelled, Complete;
    var inner := s[1..|s| - 1];
    assert s + rest == "<" + inner + ">" + rest;
    CompleteTag(inner, rest);
  }

  lemma CompleteEntity(c: char, rest: string)
    ensures Complete(Entity(c) + rest) <==> Complete(rest)
  {
    var s := Entity(c) + rest;
    NotAmp(s);
    if c == '&' {
      assert "&amp;" <= s && s[5..] == rest;
    } else if c == '<' {
      assert "&lt;" <= s && s[4..] == rest;
    } else if c == '>' {
      assert "&gt;" <= s && s[4..] == rest;
    } else {
      assert s[0] == c && s[1..] == rest;
    }
  }

  lemma {:induction false} CompletePlain(a: string, rest: string)
    requires '<' !in a && '&' !in a
    ensures Complete(a + rest) <==> Complete(rest)
  {
    if a == "" {
      assert a + rest == rest;
    } else {
      assert (a + rest)[1..] == a[1..] + rest && (a + rest)[0] == a[0] && a[0] in a;
      assert forall c :: c in a[1..] ==> c in a;
      CompletePlain(a[1..], rest);
    }
  }

  lemma {:induction false} CompletePass(t: string, st: State)
    ensures Complete(Pass(EscapeHtml(t), st))
    decreases |t|
  {
    hide EscapeHtml, Complete, Spelled;
    EscapeHead(t);
    EscapeStars(t);
    SpelledTags(st);
    var e := EscapeHtml(t);
    if t == "" {
      CompleteNothing();
    } else if IsDouble(t) && st.doubles > 0 {
      CompleteSpelled(Tag(Bold, !st.inBold), Pass(e[2..], st.AfterBold()));
      CompletePass(t[2..], st.AfterBold());
    } else if IsTriple(t) {
      CompletePlain("***", Pass(e[3..], st));
      CompletePass(t[3..], st);
    } else if IsDouble(t) {
      CompletePlain("**", Pass(e[2..], st));
      CompletePass(t[2..], st);
    } else if t[0] == '*' {
      assert e[1..] == EscapeHtml(t[1..]);
      CompleteSpelled(Tag(Italic, !st.inItalic), Pass(e[1..], st.AfterItalic()));
      CompletePass(t[1..], st.AfterItalic());
    } else if t[0] == '`' && st.ticks > 0 {
      assert e[1..] == EscapeHtml(t[1..]);
      CompleteSpelled(Tag(Code, !st.inCode), Pass(e[1..], st.AfterCode()));
      CompletePass(t[1..], st.AfterCode());
    } else {
      assert t == [t[0]] + t[1..];
      hide Pass;
      EscapeCons(t[0], t[1..]);
      EntityCopied(t[0], EscapeHtml(t[1..]), st);
      CompleteEntity(t[0], Pass(EscapeHtml(t[1..]), st));
      CompletePass(t[1..], st);
    }
  }

  lemma CompleteNothing()
    ensures Complete("")
  {}

  function VisibleText(t: string): string { Visible(t, Start(t)) }

  /** A text without links is rendered completely, and shown without its markers. */
  lemma InlineComplete(text: string)
    requires Links.LinkFree(EscapeHtml(text))
    ensures Complete(InlineOf(text)) && Shown(InlineOf(text)) == VisibleText(text)
  {
    hide Links.LinkFree, EscapeHtml, Links.Rewrite, InlineOf, Pass, Shown, Visible, Complete, Delims;
    Links.RewriteFixpoint(EscapeHtml(text), Links.TelegramAnchor);
    InlineIsPass(text);
    CompletePass(text, Start(EscapeHtml(text)));
    InlineShown(text);
  }

  lemma {:induction false} EscapedShown(text: string)
    ensures Complete(EscapeHtml(text)) && Shown(EscapeHtml(text)) == text
  {
    hide EscapeHtml, Shown, Complete;
    EscapeHead(text);
    if text == "" {
      CompleteNothing();
      ShownNothing();
    } else {
      assert text == [text[0]] + text[1..];
      EscapeCons(text[0], text[1..]);
      EscapedShown(text[1..]);
      CompleteEntity(text[0], EscapeHtml(text[1..]));
      ShownEntity(text[0], EscapeHtml(text[1..]));
    }
  }

  ghost predicate AllComplete(items: seq<string>) { forall i :: 0 <= i < |items| ==> Complete(items[i]) }

  function ShownEach(items: seq<string>): seq<string> {
    seq(|items|, i requires 0 <= i < |items| => Shown(items[i]))
  }

  lemma PlainComplete(s: string)
    requires '<' !in s && '&' !in s
    ensures Complete(s) && Shown(s) == s
  {
    assert s + "" == s;
    CompletePlain(s, "");
    CompleteNothing();
    PlainShown(s);
  }

  lemma {:induction false} PlainShown(s: string)
    requires '<' !in s && '&' !in s
    ensures Shown(s) == s
  {
    if s != "" {
      assert s[0] in s && forall c :: c in s[1..] ==> c in s;
      PlainShown(s[1..]);
    }
  }

  /** Joining with plain text in between. */
  lemma {:induction false} ShownJoin(items: seq<string>, sep: string)
    requires AllComplete(items) && '<' !in sep && '&' !in sep
    ensures Shown(Join(items, sep)) == Join(ShownEach(items), sep) && Complete(Join(items, sep))
  {
    hide Shown, Complete;
    PlainComplete(sep);
    if items == [] {
      ShownNothing();
      CompleteNothing();
    } else if |items| == 1 {
    } else {
      ShownJoin(items[1..], sep);
      assert ShownEach(items)[1..] == ShownEach(items[1..]);
      var rest := Join(items[1..], sep);
      ShownAppend(items[0], sep);
      ShownAppend(items[0] + sep, rest);
    }
  }

  // Blocks

  lemma Wrapped(o: string, s: string, c: string)
    requires Complete(o) && Shown(o) == "" && Complete(s) && Complete(c) && Shown(c) == ""
    ensures Shown(o + s + c) == Shown(s) && Complete(o + s + c)
  {
    hide Shown, Complete;
    ShownAppend(o, s);
    ShownAppend(o + s, c);
    assert "" + Shown(s) + "" == Shown(s);
  }

  lemma TagsShown()
    ensures forall o :: o in {"<b>", "</b>", "<pre><code>", "</code></pre>", "<blockquote>", "</blockquote>"}
                        ==> Complete(o) && Shown(o) == ""
  {
    hide Shown, Complete;
    ShortTagsShown();
    PreTagsShown();
    QuoteTagsShown();
  }

  lemma ShortTagsShown()
    ensures Complete("<b>") && Shown("<b>") == "" && Complete("</b>") && Shown("</b>") == ""
  {
    hide Shown, Complete;
    OneTagShown("b");
    OneTagShown("/b");
    assert "<" + "b" + ">" == "<b>" && "<" + "/b" + ">" == "</b>";
  }

  lemma QuoteTagsShown()
    ensures Complete("<blockquote>") && Shown("<blockquote>") == ""
    ensures Complete("</blockquote>") && Shown("</blockquote>") == ""
  {
    hide Shown, Complete;
    OneTagShown("blockquote");
    OneTagShown("/blockquote");
    assert "<" + "blockquote" + ">" == "<blockquote>" && "<" + "/blockquote" + ">" == "</blockquote>";
  }

  lemma PreTagsShown()
    ensures Complete("<pre><code>") && Shown("<pre><code>") == ""
    ensures Complete("</code></pre>") && Shown("</code></pre>") == ""
  {
    hide Shown, Complete;
    TwoTagsShown("pre", "code");
    TwoTagsShown("/code", "/pre");
    assert "<" + "pre" + ">" + ("<" + "code" + ">") == "<pre><code>";
    assert "<" + "/code" + ">" + ("<" + "/pre" + ">") == "</code></pre>";
  }

  lemma OneTagShown(inner: string)
    requires '>' !in inner
    ensures Complete("<" + inner + ">") && Shown("<" + inner + ">") == ""
  {
    hide Shown, Complete;
    assert "<" + inner + ">" + "" == "<" + inner + ">";
    CompleteTag(inner, "");
    ShownTag(inner, "");
    CompleteNothing();
    ShownNothing();
  }

  lemma TwoTagsShown(a: string, b: string)
    requires '>' !in a && '>' !in b
    ensures Complete("<" + a + ">" + ("<" + b + ">")) && Shown("<" + a + ">" + ("<" + b + ">")) == ""
  {
    hide Shown, Complete;
    OneTagShown(b);
    CompleteTag(a, "<" + b + ">");
    ShownTag(a, "<" + b + ">");
  }

  /** Code is shown as it was written, whatever it contains. */
  lemma CodeShown(opener: string, body: seq<string>, closer: Option<string>)
    ensures Shown(HtmlOf(CodeBlock(opener, body, closer))) == Join(body, "\n")
    ensures Complete(HtmlOf(CodeBlock(opener, body, closer)))
  {
    hide Shown, Complete, EscapeHtml, Join;
    TagsShown();
    EscapedShown(Join(body, "\n"));
    Wrapped("<pre><code>", EscapeHtml(Join(body, "\n")), "</code></pre>");
  }

  ghost predicate Unlinked(text: string) { Links.LinkFree(EscapeHtml(text)) }

  /** A heading shows what follows its hashes. */
  lemma HeadingShown(line: string, hashes: string, rest: string)
    requires 1 <= |hashes| <= 6 && (forall i :: 0 <= i < |hashes| ==> hashes[i] == '#')
    requires Trim(line) == hashes + " " + rest && Unlinked(Trim(rest))
    ensures Shown(HtmlOf(HeadingBlock(line))) == VisibleText(Trim(rest)) && Complete(HtmlOf(HeadingBlock(line)))
  {
    hide Shown, Complete, InlineOf, Trim, VisibleText, Unlinked;
    HashRun(hashes, rest);
    assert (hashes + " " + rest)[|hashes| + 1..] == rest;
    UnlinkedComplete(Trim(rest));
    TagsShown();
    Wrapped("<b>", InlineOf(Trim(rest)), "</b>");
  }

  lemma UnlinkedComplete(text: string)
    requires Unlinked(text)
    ensures Complete(InlineOf(text)) && Shown(InlineOf(text)) == VisibleText(text)
  {
    InlineComplete(text);
  }

  lemma {:induction false} HashRun(hashes: string, rest: string)
    requires forall i :: 0 <= i < |hashes| ==> hashes[i] == '#'
    ensures LeadingRun(hashes + " " + rest, IsHash) == |hashes|
  {
    if hashes == "" {
      assert ("" + " " + rest)[0] == ' ';
    } else {
      assert (hashes + " " + rest)[1..] == hashes[1..] + " " + rest;
      HashRun(hashes[1..], rest);
    }
  }

  /** A quoted line shows what follows its mark. */
  lemma QuoteShown(line: string, rest: string)
    requires Trim(line) == ">" + rest && Unlinked(TrimStart(rest))
    ensures Shown(QuoteItem(line)) == VisibleText(TrimStart(rest)) && Complete(QuoteItem(line))
  {
    hide Shown, Complete, InlineOf, Trim, VisibleText, Unlinked, TrimStart;
    assert (">" + rest)[1..] == rest;
    UnlinkedComplete(TrimStart(rest));
  }

  /** A list item shows a bullet and what follows its mark. */
  lemma BulletShown(line: string, c: char, rest: string)
    requires c in {'-', '*', '+'} && Trim(line) == [c] + " " + rest && Unlinked(Trim(rest))
    ensures Shown(BulletItem(line)) == "• " + VisibleText(Trim(rest)) && Complete(BulletItem(line))
  {
    hide Shown, Complete, InlineOf, Trim, VisibleText, Unlinked;
    assert ([c] + " " + rest)[..2] == [c] + " " && ([c] + " " + rest)[2..] == rest;
    UnlinkedComplete(Trim(rest));
    PlainComplete("• ");
    ShownAppend("• ", InlineOf(Trim(rest)));
  }

  lemma {:induction false} DigitRun(digits: string, c: char, rest: string)
    requires (forall i :: 0 <= i < |digits| ==> IsDigit(digits[i])) && !IsDigit(c)
    ensures LeadingRun(digits + [c] + rest, IsDigit) == |digits|
  {
    if digits == "" {
      assert ("" + [c] + rest)[0] == c;
    } else {
      assert (digits + [c] + rest)[1..] == digits[1..] + [c] + rest;
      DigitRun(digits[1..], c, rest);
    }
  }

  lemma {:induction false} DecimalPlain(n: nat)
    ensures '<' !in Decimal(n) && '&' !in Decimal(n)
  {
    if n >= 10 { DecimalPlain(n / 10); }
  }

  /** A numbered item shows its number in the list and what follows the one it was written with. */
  lemma NumberShown(line: string, digits: string, c: char, rest: string, n: nat)
    requires digits != "" && (forall i :: 0 <= i < |digits| ==> IsDigit(digits[i])) && c in {'.', ')'}
    requires Trim(line) == digits + [c] + " " + rest && Unlinked(Trim(rest))
    ensures Shown(NumberItem(line, n)) == Decimal(n) + ". " + VisibleText(Trim(rest)) && Complete(NumberItem(line, n))
  {
    hide Shown, Complete, InlineOf, Trim, VisibleText, Unlinked;
    DigitRun(digits, c, " " + rest);
    var t := digits + [c] + " " + rest;
    assert t == digits + [c] + (" " + rest);
    assert t[|digits|..] == [c] + " " + rest;
    assert ([c] + " " + rest)[..2] == [c] + " " && ([c] + " " + rest)[2..] == rest;
    UnlinkedComplete(Trim(rest));
    DecimalPlain(n);
    hide Decimal;
    PlainComplete(Decimal(n) + ". ");
    ShownAppend(Decimal(n) + ". ", InlineOf(Trim(rest)));
  }

  /** A paragraph shows its trimmed lines. */
  lemma ProseShown(lines: seq<string>)
    requires Unlinked(Join(TrimAll(lines), "\n"))
    ensures Shown(HtmlOf(ProseBlock(lines))) == VisibleText(Join(TrimAll(lines), "\n"))
    ensures Complete(HtmlOf(ProseBlock(lines)))
  {
    hide Shown, Complete, InlineOf, TrimAll, Join, VisibleText, Unlinked;
    UnlinkedComplete(Join(TrimAll(lines), "\n"));
  }

  /** Quotes and lists show their lines below each other. */
  lemma ListsShown(lines: seq<string>, gap: Option<string>)
    ensures AllComplete(QuoteItems(lines))
            ==> Shown(HtmlOf(QuoteBlock(lines))) == Join(ShownEach(QuoteItems(lines)), "\n")
                && Complete(HtmlOf(QuoteBlock(lines)))
    ensures AllComplete(BulletItems(lines))
            ==> Shown(HtmlOf(BulletBlock(lines, gap))) == Join(ShownEach(BulletItems(lines)), "\n")
                && Complete(HtmlOf(BulletBlock(lines, gap)))
    ensures AllComplete(NumberItems(lines))
            ==> Shown(HtmlOf(NumberBlock(lines, gap))) == Join(ShownEach(NumberItems(lines)), "\n")
                && Complete(HtmlOf(NumberBlock(lines, gap)))
  {
    hide Shown, Complete, QuoteItems, BulletItems, NumberItems, Join, ShownEach;
    TagsShown();
    if AllComplete(QuoteItems(lines)) {
      ShownJoin(QuoteItems(lines), "\n");
      Wrapped("<blockquote>", Join(QuoteItems(lines), "\n"), "</blockquote>");
    }
    if AllComplete(BulletItems(lines)) { ShownJoin(BulletItems(lines), "\n"); }
    if AllComplete(NumberItems(lines)) { ShownJoin(NumberItems(lines), "\n"); }
  }

  /** A document shows its blocks, a blank line apart. */
  lemma DocumentShown(text: string)
    requires AllComplete(Rendered(Lines(NormalizeNewlines(text))))
    ensures Shown(TelegramOf(text)) == Join(ShownEach(Rendered(Lines(NormalizeNewlines(text)))), "\n\n")
  {
    hide Shown, Complete, Rendered, Lines, NormalizeNewlines, Join, ShownEach;
    ShownJoin(Rendered(Lines(NormalizeNewlines(text))), "\n\n");
  }
}
