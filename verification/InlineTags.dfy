/** The inline renderer emits well-formed tags for every input, even when a link starts
    inside the address of an earlier one. */
module InlineTags {
  import opened Text
  import opened Tokens
  import opened Escape
  import opened Inline
  import Emphasis
  import Links
  import Pairs

  // What a pass does to a vocabulary

  /** The tags that the inline passes emit. */
  const EMITTED := {"<a href=\"", "</a>", "<b>", "</b>", "<code>", "</code>", "<i>", "</i>"}

  /** No token contains a Markdown delimiter, and the emitted anchors are made of tokens. */
  ghost predicate KeepsLinks(v: Vocabulary) {
    && v.Valid()
    && (forall c :: c in DELIMITERS ==> v.Outside(c))
    && v.mark !in {'"', '>'}
    && (forall t :: t in {"<a href=\"", "</a>"} ==> t in v.tokens || v.mark !in t)
  }

  /** So are the other emitted tags. */
  ghost predicate Compatible(v: Vocabulary) {
    KeepsLinks(v) && forall t :: t in EMITTED ==> t in v.tokens || v.mark !in t
  }

  lemma IntactFive(v: Vocabulary, a: string, b: string, c: string, d: string, e: string)
    requires v.Intact(a) && v.Intact(b) && v.Intact(c) && v.Intact(d) && v.Intact(e)
    ensures v.Intact(a + b + c + d + e)
  {
    v.IntactAppend(a, b);
    v.IntactAppend(a + b, c);
    v.IntactAppend(a + b + c, d);
    v.IntactAppend(a + b + c + d, e);
  }

  lemma OccFive(v: Vocabulary, a: string, b: string, c: string, d: string, e: string, t: string)
    requires v.Valid() && t in v.tokens
    requires v.Intact(a) && v.Intact(b) && v.Intact(c) && v.Intact(d)
    ensures v.Occ(a + b + c + d + e, t)
         == v.Occ(a, t) + v.Occ(b, t) + v.Occ(c, t) + v.Occ(d, t) + v.Occ(e, t)
  {
    v.IntactAppend(a, b);
    v.IntactAppend(a + b, c);
    v.IntactAppend(a + b + c, d);
    v.OccAppend(a + b + c + d, e, t);
    v.OccAppend(a + b + c, d, t);
    v.OccAppend(a + b, c, t);
    v.OccAppend(a, b, t);
  }

  lemma CutFive(v: Vocabulary, a: string, d: string, b: string, e: string, z: string)
    requires d != "" && e != "" && v.Outside(d[0]) && v.Outside(e[0])
    requires v.Intact(a + d + b + e + z)
    ensures v.Intact(a) && v.Intact(b) && v.Intact(z)
  {
    v.IntactCut(a + d + b, e, z);
    v.IntactCut(a, d, b);
  }

  lemma OccCutFive(v: Vocabulary, a: string, d: string, b: string, e: string, z: string, t: string)
    requires v.Valid() && t in v.tokens
    requires d != "" && e != "" && v.Outside(d[0]) && v.Outside(e[0]) && v.mark !in d && v.mark !in e
    requires v.Intact(a + d + b + e + z)
    ensures v.Occ(a + d + b + e + z, t) == v.Occ(a, t) + v.Occ(b, t) + v.Occ(z, t)
  {
    v.OccCut(a + d + b, e, z, t);
    v.IntactCut(a + d + b, e, z);
    v.OccCut(a, d, b, t);
  }

  // Links

  lemma TokenIntact(v: Vocabulary, t: string)
    requires v.Valid() && t in v.tokens
    ensures v.Intact(t)
  {
    assert v.TokenShape(t);
    assert v.mark !in t[1..] by {
      forall j | 0 <= j < |t[1..]| ensures t[1..][j] != v.mark { assert t[1..][j] == t[j + 1]; }
    }
    v.IntactNoMark(t[1..]);
    assert t <= t;
  }

  lemma EmittedIntact(v: Vocabulary, t: string)
    requires v.Valid() && (t in v.tokens || v.mark !in t)
    ensures v.Intact(t)
  {
    if t in v.tokens { TokenIntact(v, t); } else { v.IntactNoMark(t); }
  }

  lemma LinkStepIntact(v: Vocabulary, s: string, l: Links.Link)
    requires KeepsLinks(v) && Links.IsLink(s, l) && v.Intact(s)
    ensures var u, x := Links.Url(s, l), Links.Caption(s, l);
            v.Intact(Links.Before(s, l)) && v.Intact(x) && v.Intact(u) && v.Intact(Links.After(s, l))
    ensures v.Intact(Links.Rendered(Links.TelegramAnchor, Links.Caption(s, l), Links.Url(s, l)))
    ensures v.Intact(Links.RewriteOne(s, l, Links.TelegramAnchor))
  {
    var a, x, u, z := Links.Before(s, l), Links.Caption(s, l), Links.Url(s, l), Links.After(s, l);
    Links.Pieces(s, l);
    v.IntactCut(a + "[" + x + "](" + u, ")", z);
    CutFive(v, a, "[", x, "](", u);
    v.IntactNoMark("\">");
    EmittedIntact(v, "<a href=\"");
    EmittedIntact(v, "</a>");
    IntactFive(v, "<a href=\"", u, "\">", x, "</a>");
    v.IntactAppend(a, Links.Rendered(Links.TelegramAnchor, x, u));
    v.IntactAppend(a + Links.Rendered(Links.TelegramAnchor, x, u), z);
  }

  /** One more opening and one more closing anchor; every other tag stays. */
  lemma LinkStepOcc(v: Vocabulary, s: string, l: Links.Link, t: string)
    requires Compatible(v) && t in v.tokens && Links.IsLink(s, l) && v.Intact(s)
    requires v.mark !in {'[', ']', '(', ')'}
    ensures v.Occ(Links.RewriteOne(s, l, Links.TelegramAnchor), t)
         == v.Occ(s, t) + v.Occ("<a href=\"", t) + v.Occ("</a>", t)
  {
    var a, x, u, z := Links.Before(s, l), Links.Caption(s, l), Links.Url(s, l), Links.After(s, l);
    Links.Pieces(s, l);
    LinkStepIntact(v, s, l);
    v.OccCut(a + "[" + x + "](" + u, ")", z, t);
    v.IntactCut(a + "[" + x + "](" + u, ")", z);
    OccCutFive(v, a, "[", x, "](", u, t);
    v.IntactNoMark("\">");
    v.OccNoMark("\">", t);
    EmittedIntact(v, "<a href=\"");
    OccFive(v, "<a href=\"", u, "\">", x, "</a>", t);
    var r := Links.Rendered(Links.TelegramAnchor, x, u);
    v.IntactAppend(a, r);
    v.OccAppend(a + r, z, t);
    v.OccAppend(a, r, t);
  }

  lemma {:induction false} LinksIntact(v: Vocabulary, s: string)
    requires KeepsLinks(v) && v.Intact(s)
    ensures v.Intact(Links.Rewrite(s, Links.TelegramAnchor))
    decreases Count(s, '[')
  {
    match Links.FirstLink(s)
    case None =>
    case Some(l) =>
      Links.RewriteOneDropsBracket(s, l, Links.TelegramAnchor);
      LinkStepIntact(v, s, l);
      LinksIntact(v, Links.RewriteOne(s, l, Links.TelegramAnchor));
  }

  // Pairs

  lemma PairStepIntact(v: Vocabulary, s: string, m: Pairs.Markup, p: Pairs.Pair)
    requires Compatible(v) && m in {BOLD, CODE} && Pairs.IsPair(s, m.delim, p) && v.Intact(s)
    ensures v.Intact(Pairs.RewriteOne(s, m, p))
    ensures v.Intact(Pairs.Before(s, m.delim, p)) && v.Intact(Pairs.Inner(s, m.delim, p))
  {
    var a, x, z := Pairs.Before(s, m.delim, p), Pairs.Inner(s, m.delim, p), Pairs.After(s, m.delim, p);
    Pairs.Pieces(s, m.delim, p);
    CutFive(v, a, m.delim, x, m.delim, z);
    EmittedIntact(v, m.opening);
    EmittedIntact(v, m.closing);
    IntactFive(v, a, m.opening, x, m.closing, z);
  }

  lemma PairStepOcc(v: Vocabulary, s: string, m: Pairs.Markup, p: Pairs.Pair, t: string)
    requires Compatible(v) && m in {BOLD, CODE} && t in v.tokens
    requires Pairs.IsPair(s, m.delim, p) && v.Intact(s)
    ensures v.Occ(Pairs.RewriteOne(s, m, p), t) == v.Occ(s, t) + v.Occ(m.opening, t) + v.Occ(m.closing, t)
  {
    var a, x, z := Pairs.Before(s, m.delim, p), Pairs.Inner(s, m.delim, p), Pairs.After(s, m.delim, p);
    Pairs.Pieces(s, m.delim, p);
    PairStepIntact(v, s, m, p);
    OccCutFive(v, a, m.delim, x, m.delim, z, t);
    EmittedIntact(v, m.opening);
    EmittedIntact(v, m.closing);
    OccFive(v, a, m.opening, x, m.closing, z, t);
  }

  lemma {:induction false} PairsIntact(v: Vocabulary, s: string, m: Pairs.Markup)
    requires Compatible(v) && m in {BOLD, CODE} && m.Valid() && v.Intact(s)
    ensures v.Intact(Pairs.Rewrite(s, m))
    decreases Count(s, m.c)
  {
    match Pairs.FirstPair(s, m.delim)
    case None =>
    case Some(p) =>
      Pairs.RewriteOneShrinks(s, m, p);
      PairStepIntact(v, s, m, p);
      PairsIntact(v, Pairs.RewriteOne(s, m, p), m);
  }

  // Italic

  /** Characters other than stars are copied. */
  lemma {:induction false} ItalicCopies(s: string, i: nat, inItalic: bool, n: nat)
    requires i + n <= |s| && '*' !in s[i..i + n]
    ensures s[i..i + n] <= ItalicFrom(s, i, inItalic)
    decreases n
  {
    if n > 0 {
      assert s[i] == s[i..i + n][0];
      assert s[i + 1..i + 1 + (n - 1)] == s[i..i + n][1..];
      ItalicCopies(s, i + 1, inItalic, n - 1);
    }
  }

  /** The token at a marker survives the pass in place. */
  lemma ItalicKeepsToken(v: Vocabulary, s: string, i: nat, inItalic: bool) returns (t: string)
    requires Compatible(v) && i < |s| && s[i] == v.mark && v.Intact(s[i..])
    ensures t in v.tokens && t <= s[i..] && t <= ItalicFrom(s, i, inItalic)
  {
    t :| t in v.tokens && t <= s[i..];
    assert t == s[i..i + |t|];
    assert v.Outside('*');
    ItalicCopies(s, i, inItalic, |t|);
  }

  lemma {:induction false} ItalicIntact(v: Vocabulary, s: string, i: nat, inItalic: bool)
    requires Compatible(v) && i <= |s| && v.Intact(s[i..])
    ensures v.Intact(ItalicFrom(s, i, inItalic))
    decreases |s| - i
  {
    if i < |s| {
      assert s[i..][1..] == s[i + 1..];
      if Emphasis.Isolated(s, i) {
        ItalicIntact(v, s, i + 1, !inItalic);
        EmittedIntact(v, if inItalic then "</i>" else "<i>");
        v.IntactAppend(if inItalic then "</i>" else "<i>", ItalicFrom(s, i + 1, !inItalic));
      } else {
        ItalicIntact(v, s, i + 1, inItalic);
        var out := ItalicFrom(s, i, inItalic);
        assert out[1..] == ItalicFrom(s, i + 1, inItalic);
        if s[i] == v.mark { var t := ItalicKeepsToken(v, s, i, inItalic); }
      }
    }
  }

  /** At a character that is copied, a token begins in the output as it does in the text. */
  lemma CopiedOcc(v: Vocabulary, s: string, i: nat, inItalic: bool, t: string)
    requires Compatible(v) && i < |s| && !Emphasis.Isolated(s, i) && v.Intact(s[i..]) && t in v.tokens
    ensures t <= ItalicFrom(s, i, inItalic) <==> t <= s[i..]
  {
    hide Emphasis.Isolated;
    var out := ItalicFrom(s, i, inItalic);
    assert v.TokenShape(t) && out[0] == s[i] == s[i..][0];
    if s[i] == v.mark {
      var u := ItalicKeepsToken(v, s, i, inItalic);
      if t <= out { v.SamePlaceSameToken(t, u, out); }
      if t <= s[i..] { v.SamePlaceSameToken(t, u, s[i..]); }
    }
  }

  lemma {:induction false} ItalicOcc(s: string, i: nat, inItalic: bool, t: string)
    requires Compatible(TAGS) && i <= |s| && TAGS.Intact(s[i..]) && t in TAGS.tokens
    ensures TAGS.Occ(ItalicFrom(s, i, inItalic), t)
         == TAGS.Occ(s[i..], t)
            + if t == "<i>" then (IsolatedStars(s, i) + if inItalic then 0 else 1) / 2
              else if t == "</i>" then (IsolatedStars(s, i) + if inItalic then 1 else 0) / 2
              else 0
    decreases |s| - i
  {
    if i < |s| {
      assert s[i..][1..] == s[i + 1..];
      assert TAGS.TokenShape(t);
      if Emphasis.Isolated(s, i) {
        ItalicOcc(s, i + 1, !inItalic, t);
        var tag := if inItalic then "</i>" else "<i>";
        EmittedIntact(TAGS, tag);
        TAGS.OccAppend(tag, ItalicFrom(s, i + 1, !inItalic), t);
        TAGS.OccToken(tag, t);
        assert s[i..][0] == '*';
      } else {
        ItalicOcc(s, i + 1, inItalic, t);
        CopiedOcc(TAGS, s, i, inItalic, t);
        assert ItalicFrom(s, i, inItalic)[1..] == ItalicFrom(s, i + 1, inItalic);
      }
    }
  }

  // Counting

  lemma {:induction false} LinksOcc(s: string, t: string)
    requires Compatible(TAGS) && TAGS.Intact(s) && t in TAGS.tokens
    ensures TAGS.Occ(Links.Rewrite(s, Links.TelegramAnchor), t)
         == TAGS.Occ(s, t) + if t in {"<a href=\"", "</a>"} then Links.Rounds(s, Links.TelegramAnchor) else 0
    decreases Count(s, '[')
  {
    match Links.FirstLink(s)
    case None =>
    case Some(l) =>
      Links.RewriteOneDropsBracket(s, l, Links.TelegramAnchor);
      LinkStepIntact(TAGS, s, l);
      LinkStepOcc(TAGS, s, l, t);
      TAGS.OccToken("<a href=\"", t);
      TAGS.OccToken("</a>", t);
      LinksOcc(Links.RewriteOne(s, l, Links.TelegramAnchor), t);
  }

  lemma {:induction false} PairsOcc(s: string, m: Pairs.Markup, t: string)
    requires Compatible(TAGS) && TAGS.Intact(s) && t in TAGS.tokens && m in {BOLD, CODE} && m.Valid()
    ensures TAGS.Occ(Pairs.Rewrite(s, m), t)
         == TAGS.Occ(s, t) + if t in {m.opening, m.closing} then Pairs.Rounds(s, m) else 0
    decreases Count(s, m.c)
  {
    match Pairs.FirstPair(s, m.delim)
    case None =>
    case Some(p) =>
      Pairs.RewriteOneShrinks(s, m, p);
      PairStepIntact(TAGS, s, m, p);
      PairStepOcc(TAGS, s, m, p, t);
      TAGS.OccToken(m.opening, t);
      TAGS.OccToken(m.closing, t);
      PairsOcc(Pairs.RewriteOne(s, m, p), m, t);
  }

  // The two vocabularies

  lemma TagsValid()
    ensures TAGS.Valid()
  {
    forall t | t in TAGS.tokens ensures TAGS.TokenShape(t) {
      if t in {"<i>", "</i>", "<pre>", "</pre>", "<blockquote>", "</blockquote>"} {
        BlockTagShape(t);
      } else {
        InlineTagShape(t);
      }
    }
  }

  lemma BlockTagShape(t: string)
    requires t in {"<i>", "</i>", "<pre>", "</pre>", "<blockquote>", "</blockquote>"}
    ensures TAGS.TokenShape(t)
  {}

  lemma InlineTagShape(t: string)
    requires t in {"<b>", "</b>", "<code>", "</code>", "<a href=\"", "</a>"}
    ensures TAGS.TokenShape(t)
  {}

  const DELIMITERS := {'[', ']', '(', ')', '*', '`'}

  lemma TagsOutside(c: char)
    requires c in DELIMITERS
    ensures TAGS.Outside(c)
  {
    forall t | t in TAGS.tokens ensures c !in t {}
  }

  lemma EntitiesOutside(c: char)
    requires c in DELIMITERS
    ensures ENTITIES.Outside(c)
  {
    forall t | t in ENTITIES.tokens ensures c !in t {}
  }

  lemma TagsCompatible()
    ensures Compatible(TAGS)
  {
    TagsValid();
    forall c | c in DELIMITERS ensures TAGS.Outside(c) { TagsOutside(c); }
  }

  lemma EntitiesCompatible()
    ensures Compatible(ENTITIES)
  {
    forall c | c in DELIMITERS ensures ENTITIES.Outside(c) { EntitiesOutside(c); }
    forall t | t in EMITTED ensures '&' !in t {}
  }

  lemma {:induction false} EscapeIntactEntities(s: string)
    requires ENTITIES.Valid()
    ensures ENTITIES.Intact(EscapeHtml(s))
  {
    if s == "" {
    } else {
      assert s == [s[0]] + s[1..];
      EscapeCons(s[0], s[1..]);
      EscapeIntactEntities(s[1..]);
      var e := Entity(s[0]);
      if e in ENTITIES.tokens { TokenIntact(ENTITIES, e); } else { ENTITIES.IntactNoMark(e); }
      ENTITIES.IntactAppend(e, EscapeHtml(s[1..]));
    }
  }

  lemma EscapeIntactTags(s: string)
    ensures TAGS.Intact(EscapeHtml(s))
  {
    EscapeHasNoBrackets(s);
    TAGS.IntactNoMark(EscapeHtml(s));
  }

  lemma BeforeItalicIntact(v: Vocabulary, text: string)
    requires Compatible(v) && v.Intact(EscapeHtml(text))
    ensures v.Intact(BeforeItalic(text))
  {
    assert KeepsLinks(v);
    hide EscapeHtml, Compatible, KeepsLinks, Links.Rewrite, Pairs.Rewrite;
    MarkupValid();
    var links := Links.Rewrite(EscapeHtml(text), Links.TelegramAnchor);
    LinksIntact(v, EscapeHtml(text));
    PairsIntact(v, links, BOLD);
    PairsIntact(v, Pairs.Rewrite(links, BOLD), CODE);
  }

  /** Every '<' in the output begins one of the emitted tokens, whole, and every '&' begins
      one of the three entities, whole. The token of an opening anchor ends before its address. */
  lemma InlineIntact(text: string)
    ensures TAGS.Intact(InlineOf(text)) && ENTITIES.Intact(InlineOf(text))
  {
    TagsCompatible();
    EntitiesCompatible();
    EscapeIntactTags(text);
    EscapeIntactEntities(text);
    var s := BeforeItalic(text);
    assert s[0..] == s;
    BeforeItalicIntact(TAGS, text);
    BeforeItalicIntact(ENTITIES, text);
    ItalicIntact(TAGS, s, 0, false);
    ItalicIntact(ENTITIES, s, 0, false);
  }

  /** Openings and closings agree in number for anchors, bold and code. An italic tag stays
      open exactly when the text before the last pass has an odd number of isolated stars.
      Block tags never come from inline text. */
  lemma InlineBalanced(text: string)
    ensures TAGS.Occ(InlineOf(text), "<a href=\"") == TAGS.Occ(InlineOf(text), "</a>")
    ensures TAGS.Occ(InlineOf(text), "<b>") == TAGS.Occ(InlineOf(text), "</b>")
    ensures TAGS.Occ(InlineOf(text), "<code>") == TAGS.Occ(InlineOf(text), "</code>")
    ensures TAGS.Occ(InlineOf(text), "<i>") - TAGS.Occ(InlineOf(text), "</i>")
         == IsolatedStars(BeforeItalic(text), 0) % 2
    ensures forall t :: t in {"<pre>", "</pre>", "<blockquote>", "</blockquote>"}
                        ==> TAGS.Occ(InlineOf(text), t) == 0
  {
    hide InlineOf, BeforeItalic, EscapeHtml, IsolatedStars, Links.Rewrite, Links.Rounds, Pairs.Rewrite, Pairs.Rounds;
    MarkupValid();
    var stars := IsolatedStars(BeforeItalic(text), 0);
    InlineOcc(text, "<a href=\"");
    InlineOcc(text, "</a>");
    InlineOcc(text, "<b>");
    InlineOcc(text, "</b>");
    InlineOcc(text, "<code>");
    InlineOcc(text, "</code>");
    InlineOcc(text, "<i>");
    InlineOcc(text, "</i>");
    assert (stars + 1) / 2 - stars / 2 == stars % 2;
    forall t | t in {"<pre>", "</pre>", "<blockquote>", "</blockquote>"}
      ensures TAGS.Occ(InlineOf(text), t) == 0
    {
      InlineOcc(text, t);
    }
  }

  /** Each tag is emitted once a rewrite for links, bold and code, and alternately for
      the isolated stars. */
  lemma InlineOcc(text: string, t: string)
    requires t in TAGS.tokens && BOLD.Valid() && CODE.Valid()
    ensures var links := Links.Rewrite(EscapeHtml(text), Links.TelegramAnchor);
            var stars := IsolatedStars(BeforeItalic(text), 0);
            TAGS.Occ(InlineOf(text), t)
            == (if t in {"<a href=\"", "</a>"} then Links.Rounds(EscapeHtml(text), Links.TelegramAnchor) else 0)
               + (if t in {"<b>", "</b>"} then Pairs.Rounds(links, BOLD) else 0)
               + (if t in {"<code>", "</code>"} then Pairs.Rounds(Pairs.Rewrite(links, BOLD), CODE) else 0)
               + (if t == "<i>" then (stars + 1) / 2 else if t == "</i>" then stars / 2 else 0)
  {
    TagsCompatible();
    LinksStage(text, t);
    InlineOccAfterLinks(Links.Rewrite(EscapeHtml(text), Links.TelegramAnchor), t);
  }

  lemma LinksStage(text: string, t: string)
    requires Compatible(TAGS) && t in TAGS.tokens
    ensures var links := Links.Rewrite(EscapeHtml(text), Links.TelegramAnchor);
            && TAGS.Intact(links)
            && TAGS.Occ(links, t)
            == if t in {"<a href=\"", "</a>"} then Links.Rounds(EscapeHtml(text), Links.TelegramAnchor) else 0
  {
    EscapeIntactTags(text);
    EscapeHasNoBrackets(text);
    TAGS.OccNoMark(EscapeHtml(text), t);
    LinksIntact(TAGS, EscapeHtml(text));
    LinksOcc(EscapeHtml(text), t);
  }

  lemma InlineOccAfterLinks(links: string, t: string)
    requires Compatible(TAGS) && t in TAGS.tokens && TAGS.Intact(links)
    requires BOLD.Valid() && CODE.Valid()
    ensures var bold := Pairs.Rewrite(links, BOLD);
            var s := Pairs.Rewrite(bold, CODE);
            TAGS.Occ(ItalicFrom(s, 0, false), t)
            == TAGS.Occ(links, t)
            + (if t in {"<b>", "</b>"} then Pairs.Rounds(links, BOLD) else 0)
            + (if t in {"<code>", "</code>"} then Pairs.Rounds(bold, CODE) else 0)
            + (if t == "<i>" then (IsolatedStars(s, 0) + 1) / 2
               else if t == "</i>" then IsolatedStars(s, 0) / 2 else 0)
  {
    PairsIntact(TAGS, links, BOLD);
    PairsOcc(links, BOLD, t);
    var bold := Pairs.Rewrite(links, BOLD);
    PairsIntact(TAGS, bold, CODE);
    PairsOcc(bold, CODE, t);
    var s := Pairs.Rewrite(bold, CODE);
    assert s[0..] == s;
    ItalicOcc(s, 0, false, t);
  }

  // Nesting

  const CROSSING := "**`**`"
  const CROSSED := "<b><code></b></code>"

  /** Balanced is not nested: a bold span that holds one of two paired backticks closes inside
      the code span that it opens around. */
  lemma TagsMayCross()
    ensures InlineOf(CROSSING) == CROSSED
  {
    hide Pairs.Rewrite, EscapeHtml, ItalicFrom, Links.Rewrite, CROSSING, CROSSED;
    MarkupValid();
    CrossingPlain();
    EscapedPlain(CROSSING);
    NoLink(CROSSING);
    BoldStep();
    CodeStep();
    NoStarNoItalic(CROSSED, 0);
    assert CROSSED[0..] == CROSSED;
  }

  lemma CrossingPlain()
    ensures '&' !in CROSSING && '<' !in CROSSING && '>' !in CROSSING && '[' !in CROSSING && '*' !in CROSSED
  {}

  lemma EscapedPlain(s: string)
    requires '&' !in s && '<' !in s && '>' !in s
    ensures EscapeHtml(s) == s
  {
    ReplaceAbsent(s, '&', "&amp;");
    ReplaceAbsent(s, '<', "&lt;");
    ReplaceAbsent(s, '>', "&gt;");
  }

  lemma NoLink(s: string)
    requires '[' !in s
    ensures Links.Rewrite(s, Links.TelegramAnchor) == s
  {
    forall i: nat ensures !StartsAt(s, i, "[") {
      if i < |s| { assert s[i..i + 1][0] == s[i]; }
    }
  }

  lemma BoldStep()
    requires BOLD.Valid()
    ensures Pairs.Rewrite(CROSSING, BOLD) == "<b>`</b>`"
  {
    var s := "**`**`";
    assert s[..0] + "<b>" + s[2..3] + "</b>" + s[5..] == "<b>`</b>`";
    forall i | 0 < i < 3 ensures !StartsAt(s, i, "**") {
      assert s[i..i + 2][0] == s[i] && s[i..i + 2][1] == s[i + 1];
    }
    OnePair(s, BOLD, Pairs.Pair(0, 3), "<b>`</b>`");
  }

  lemma CodeStep()
    requires CODE.Valid()
    ensures Pairs.Rewrite("<b>`</b>`", CODE) == CROSSED
  {
    hide CROSSED, Pairs.RewriteOne, Pairs.IsPair, Pairs.Rewrite;
    CodeRewritten();
    OnePair("<b>`</b>`", CODE, Pairs.Pair(3, 8), CROSSED);
  }

  lemma CodeRewritten()
    ensures Pairs.IsPair("<b>`</b>`", "`", Pairs.Pair(3, 8))
    ensures Pairs.RewriteOne("<b>`</b>`", CODE, Pairs.Pair(3, 8)) == CROSSED
    ensures forall i :: 0 <= i < 8 && i != 3 ==> !StartsAt("<b>`</b>`", i, "`")
    ensures '`' !in CROSSED
  {
    var s := "<b>`</b>`";
    assert s[..3] + "<code>" + s[4..8] + "</code>" + s[9..] == CROSSED;
    forall i | 0 <= i < 8 && i != 3 ensures !StartsAt(s, i, "`") { assert s[i..i + 1][0] == s[i]; }
  }

  /** A text with two delimiters and no more is rewritten once. */
  lemma OnePair(s: string, m: Pairs.Markup, p: Pairs.Pair, out: string)
    requires m.Valid() && Pairs.IsPair(s, m.delim, p)
    requires forall i :: 0 <= i < p.end && i != p.start ==> !StartsAt(s, i, m.delim)
    requires out == Pairs.RewriteOne(s, m, p) && m.c !in out
    ensures Pairs.Rewrite(s, m) == out
  {
    FirstPairIs(s, m.delim, p);
    NoDelimiter(out, m);
    hide Pairs.FirstPair, Pairs.RewriteOne, Pairs.IsPair, Count, StartsAt;
    assert Pairs.Rewrite(s, m) == Pairs.Rewrite(out, m);
  }

  lemma FirstPairIs(s: string, delim: string, p: Pairs.Pair)
    requires delim != "" && Pairs.IsPair(s, delim, p)
    requires forall i :: 0 <= i < p.end && i != p.start ==> !StartsAt(s, i, delim)
    ensures Pairs.FirstPair(s, delim) == Some(p)
  {}

  lemma NoDelimiter(s: string, m: Pairs.Markup)
    requires m.Valid() && m.c !in s
    ensures Pairs.Rewrite(s, m) == s
  {
    forall i: nat ensures !StartsAt(s, i, m.delim) {
      if i + |m.delim| <= |s| { assert s[i..i + |m.delim|][0] == s[i] && m.delim[0] == m.c; }
    }
    assert Pairs.FirstPair(s, m.delim).None?;
  }

  lemma {:induction false} NoStarNoItalic(s: string, i: nat)
    requires i <= |s| && '*' !in s
    ensures ItalicFrom(s, i, false) == s[i..]
    decreases |s| - i
  {
    if i < |s| { NoStarNoItalic(s, i + 1); }
  }
}
