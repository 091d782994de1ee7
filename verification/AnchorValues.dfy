/** When the anchors of a rendered text are whole: an opening, an address, and the end of the tag. */
module AnchorValues {
  import opened Text
  import opened Tokens
  import opened Nesting
  import opened OnePass
  import opened Escape
  import opened InlineMarks
  import opened InlineAnchors
  import Inline
  import InlineTags
  import Links

  /** An address without a quote or an angle bracket, and the quote and bracket that end it. */
  predicate AddressEnds(s: string) {
    s != "" && if s[0] == '"' then |s| >= 2 && s[1] == '>' else s[0] != '<' && AddressEnds(s[1..])
  }

  /** Every opening of an anchor in the text is followed by such an address. */
  predicate WholeAnchors(s: string) {
    s == "" || ((OPENING <= s ==> AddressEnds(s[|OPENING|..])) && WholeAnchors(s[1..]))
  }

  // The other loops

  /** The mark at the head becomes a tag. */
  predicate Turns(t: string, st: State) {
    (IsDouble(t) && st.doubles > 0) || IsStar(t) || (t != "" && t[0] == '`' && st.ticks > 0)
  }

  /** The address at the head ends, and nothing in it becomes a tag. */
  predicate AddressKept(t: string, st: State) {
    if t == "" || t[0] == '<' || Turns(t, st) then false
    else if t[0] == '"' then |t| >= 2 && t[1] == '>'
    else if IsTriple(t) then AddressKept(t[3..], st)
    else if IsDouble(t) then AddressKept(t[2..], st)
    else AddressKept(t[1..], st)
  }

  /** So do all addresses, given what becomes of the marks before them. */
  predicate AddressesKept(t: string, st: State) {
    if t == "" then true
    else if IsDouble(t) && st.doubles > 0 then AddressesKept(t[2..], st.AfterBold())
    else if IsTriple(t) then AddressesKept(t[3..], st)
    else if IsDouble(t) then AddressesKept(t[2..], st)
    else if IsStar(t) then AddressesKept(t[1..], st.AfterItalic())
    else if t[0] == '`' && st.ticks > 0 then AddressesKept(t[1..], st.AfterCode())
    else (OPENING <= t ==> AddressKept(t[|OPENING|..], st)) && AddressesKept(t[1..], st)
  }

  lemma PassHead(t: string, st: State)
    ensures t == "" ==> Pass(t, st) == ""
    ensures t != "" && Turns(t, st) ==> Pass(t, st) != "" && Pass(t, st)[0] == '<'
    ensures t != "" && !Turns(t, st) ==> Pass(t, st) != "" && Pass(t, st)[0] == t[0]
  {}

  lemma {:induction false} AddressSkips(a: string, rest: string)
    requires '"' !in a && '<' !in a
    ensures AddressEnds(a + rest) <==> AddressEnds(rest)
  {
    if a == "" {
      assert a + rest == rest;
    } else {
      assert (a + rest)[1..] == a[1..] + rest && a[0] in a;
      assert forall c :: c in a[1..] ==> c in a;
      AddressSkips(a[1..], rest);
    }
  }

  lemma {:induction false} AddressInPass(t: string, st: State)
    ensures AddressEnds(Pass(t, st)) <==> AddressKept(t, st)
    decreases |t|
  {
    hide AddressEnds;
    PassHead(t, st);
    if t == "" || t[0] == '<' || Turns(t, st) {
      NoAddress(Pass(t, st));
    } else if t[0] == '"' {
      PassHead(t[1..], st);
      QuoteEnds(Pass(t, st));
    } else if IsTriple(t) {
      AddressSkips("***", Pass(t[3..], st));
      AddressInPass(t[3..], st);
    } else if IsDouble(t) {
      AddressSkips("**", Pass(t[2..], st));
      AddressInPass(t[2..], st);
    } else {
      AddressSkips([t[0]], Pass(t[1..], st));
      AddressInPass(t[1..], st);
    }
  }

  lemma NoAddress(s: string)
    requires s == "" || s[0] == '<'
    ensures !AddressEnds(s)
  {}

  lemma QuoteEnds(s: string)
    requires s != "" && s[0] == '"'
    ensures AddressEnds(s) <==> |s| >= 2 && s[1] == '>'
  {}

  lemma {:induction false} WholeSkips(a: string, rest: string)
    requires '<' !in a
    ensures WholeAnchors(a + rest) <==> WholeAnchors(rest)
  {
    if a == "" {
      assert a + rest == rest;
    } else {
      assert (a + rest)[1..] == a[1..] + rest && a[0] in a;
      NoOpening(a + rest);
      assert forall c :: c in a[1..] ==> c in a;
      WholeSkips(a[1..], rest);
    }
  }

  lemma NoOpening(s: string)
    requires s == "" || s[0] != '<'
    ensures !(OPENING <= s)
  {
    AnchorsSpelled();
    hide Spelled, OPENING, CLOSING;
    SpelledHead(Tag(Anchor, true), s);
  }

  lemma WholeAfterTag(t: Tag, rest: string)
    requires t.kind != Anchor
    ensures WholeAnchors(Spelled(t) + rest) <==> WholeAnchors(rest)
  {
    AnchorsSpelled();
    SpelledShape(t);
    hide Spelled, OPENING, CLOSING;
    var s := Spelled(t) + rest;
    assert s[1..] == Spelled(t)[1..] + rest;
    if OPENING <= s { SpelledApart(Tag(Anchor, true), t, s); }
    WholeSkips(Spelled(t)[1..], rest);
  }

  lemma {:induction false} WholeInPass(t: string, st: State)
    requires ANCHORS.Intact(t)
    ensures WholeAnchors(Pass(t, st)) <==> AddressesKept(t, st)
    decreases |t|
  {
    hide WholeAnchors, Spelled, OPENING, CLOSING, AddressKept;
    if t == "" {
      WholeNothing();
    } else if IsDouble(t) && st.doubles > 0 {
      Shorter(t, 2);
      SpelledBold(st);
      WholeAfterTag(Tag(Bold, !st.inBold), Pass(t[2..], st.AfterBold()));
      WholeInPass(t[2..], st.AfterBold());
    } else if IsTriple(t) {
      Shorter(t, 3);
      WholeSkips("***", Pass(t[3..], st));
      WholeInPass(t[3..], st);
    } else if IsDouble(t) {
      Shorter(t, 2);
      WholeSkips("**", Pass(t[2..], st));
      WholeInPass(t[2..], st);
    } else if IsStar(t) {
      Shorter(t, 1);
      SpelledBold(st);
      WholeAfterTag(Tag(Italic, !st.inItalic), Pass(t[1..], st.AfterItalic()));
      WholeInPass(t[1..], st.AfterItalic());
    } else if t[0] == '`' && st.ticks > 0 {
      Shorter(t, 1);
      SpelledBold(st);
      WholeAfterTag(Tag(Code, !st.inCode), Pass(t[1..], st.AfterCode()));
      WholeInPass(t[1..], st.AfterCode());
    } else {
      Shorter(t, 1);
      OpeningInPass(t, st);
      WholeFirst(t[0], Pass(t[1..], st));
      WholeInPass(t[1..], st);
    }
  }

  lemma WholeNothing()
    ensures WholeAnchors("")
  {}

  lemma SpelledBold(st: State)
    ensures Spelled(Tag(Bold, !st.inBold)) == st.BoldTag()
    ensures Spelled(Tag(Code, !st.inCode)) == st.CodeTag()
    ensures Spelled(Tag(Italic, !st.inItalic)) == st.ItalicTag()
  {}

  lemma WholeFirst(c: char, rest: string)
    ensures WholeAnchors([c] + rest)
       <==> (OPENING <= [c] + rest ==> AddressEnds(([c] + rest)[|OPENING|..])) && WholeAnchors(rest)
  {
    assert ([c] + rest)[1..] == rest;
  }

  /** An anchor opens in the output where one does in the text, and its address with it. */
  lemma OpeningInPass(t: string, st: State)
    requires ANCHORS.Intact(t) && t != "" && t[0] != '*' && !(t[0] == '`' && st.ticks > 0)
    ensures OPENING <= Pass(t, st) <==> OPENING <= t
    ensures OPENING <= t ==> (AddressEnds(Pass(t, st)[|OPENING|..]) <==> AddressKept(t[|OPENING|..], st))
  {
    AnchorShape();
    if t[0] == '<' {
      var tag := AnchorHead(t);
      AnchorsSpelled();
      SpelledShape(tag);
      hide Spelled, OPENING, CLOSING, Pass, AddressEnds, AddressKept, ANCHORS;
      var rest := t[|Spelled(tag)|..];
      assert t == Spelled(tag) + rest;
      PassCopies(Spelled(tag), rest, st);
      AddressInPass(rest, st);
      if tag.opens {
      } else {
        NotBoth(t);
        NotBoth(Pass(t, st));
      }
    } else {
      hide OPENING;
      NoOpening(t);
      NoOpening(Pass(t, st));
    }
  }

  // The link loop

  /** No address that the loop takes has a quote or a tag in it, and no link begins in one. */
  predicate CleanLinks(s: string)
    decreases Count(s, '[')
  {
    match Links.FirstLink(s)
    case None => true
    case Some(l) =>
      var u, next := Links.Url(s, l), Links.RewriteOne(s, l, Links.TelegramAnchor);
      Links.RewriteOneDropsBracket(s, l, Links.TelegramAnchor);
      CleanUrl(u, next) && CleanLinks(next)
  }

  predicate CleanUrl(u: string, next: string) {
    '"' !in u && '<' !in u && ('[' in u ==> Links.FirstLink(next).None?)
  }

  /** A '>' only where an anchor ends. */
  ghost predicate Calm(w: string) { forall i :: 0 <= i < |w| && w[i] == '>' ==> i > 0 && w[i - 1] == 'a' }

  ghost predicate LoopInv(s: string) {
    && ANCHORS.Intact(s) && OpensFirst(s) && Matched(ReadTags(s), Anchor) && WholeAnchors(s)
    && var l := Links.FirstLink(s);
       l.Some? ==> WholeAnchors(Links.Before(s, l.value)) && Calm(s[l.value.open + 1..])
  }

  lemma {:induction false} WholeSuffix(a: string, w: string)
    requires WholeAnchors(a + w)
    ensures WholeAnchors(w)
  {
    if a == "" {
      assert a + w == w;
    } else {
      assert (a + w)[1..] == a[1..] + w;
      WholeSuffix(a[1..], w);
    }
  }

  lemma {:induction false} AddressAppend(s: string, w: string)
    requires AddressEnds(s)
    ensures AddressEnds(s + w)
  {
    if s[0] != '"' {
      assert (s + w)[1..] == s[1..] + w;
      AddressAppend(s[1..], w);
    }
  }

  /** Anchors that are whole in a text stay so, whatever follows it. */
  lemma {:induction false} WholeJoin(a: string, w: string)
    requires ANCHORS.Intact(a) && WholeAnchors(a) && WholeAnchors(w)
    ensures WholeAnchors(a + w)
  {
    if a == "" {
      assert a + w == w;
    } else {
      AnchorShape();
      hide OPENING, CLOSING;
      assert (a + w)[1..] == a[1..] + w;
      WholeJoin(a[1..], w);
      OpeningOfFirst(a, w);
      if OPENING <= a { AddressOfFirst(a, w); }
    }
  }

  lemma AddressOfFirst(a: string, w: string)
    requires OPENING <= a && AddressEnds(a[|OPENING|..])
    ensures AddressEnds((a + w)[|OPENING|..])
  {
    hide AddressEnds;
    assert (a + w)[|OPENING|..] == a[|OPENING|..] + w;
    AddressAppend(a[|OPENING|..], w);
  }

  lemma OpeningOfFirst(a: string, w: string)
    requires a != "" && ANCHORS.Intact(a)
    ensures OPENING <= a + w ==> OPENING <= a
  {
    if a[0] == '<' {
      var token :| token in ANCHORS.tokens && token <= a;
      hide OPENING, CLOSING;
      if token == CLOSING {
        assert CLOSING <= a + w;
        NotBoth(a + w);
      }
    } else {
      hide OPENING;
      NoOpening(a + w);
    }
  }

  lemma {:induction false} WholeWithout(w: string)
    requires NoOpens(ReadTags(w))
    ensures WholeAnchors(w)
  {
    if w != "" {
      AnchorsSpelled();
      TagAtIs(Tag(Anchor, true), w);
      hide OPENING, TagAt, Spelled;
      var head := if TagAt(w).Some? then [TagAt(w).value] else [];
      NoOpensAppend(head, ReadTags(w[1..]));
      assert head != [] ==> head[0] != Tag(Anchor, true);
      WholeWithout(w[1..]);
    }
  }

  /** A text before an anchor with a clean address, and what follows it. */
  lemma WholeAnchored(a: string, u: string, tail: string)
    requires ANCHORS.Intact(a) && WholeAnchors(a) && '"' !in u && '<' !in u && WholeAnchors(tail)
    ensures WholeAnchors(a + (OPENING + (u + ("\">" + tail))))
  {
    var rest := u + ("\">" + tail);
    AddressSkips(u, "\">" + tail);
    QuoteEnds("\">" + tail);
    WholeSkips("\">", tail);
    WholeSkips(u, "\">" + tail);
    hide AddressEnds, WholeAnchors;
    WholeOpening(rest);
    WholeJoin(a, OPENING + rest);
  }

  lemma WholeOpening(rest: string)
    ensures WholeAnchors(OPENING + rest) <==> AddressEnds(rest) && WholeAnchors(rest)
  {
    AnchorsSpelled();
    SpelledShape(Tag(Anchor, true));
    hide Spelled, OPENING;
    var s := OPENING + rest;
    assert s[|OPENING|..] == rest && OPENING <= s;
    assert s[1..] == OPENING[1..] + rest;
    WholeSkips(OPENING[1..], rest);
  }

  /** An address that meets a tag, or a quote that no '>' follows. */
  lemma BrokenAddress(a: string, v: string, w: string)
    requires '"' !in v && '<' !in v
    requires w != "" && (w[0] == '<' || (w[0] == '"' && !(|w| >= 2 && w[1] == '>')))
    ensures !WholeAnchors(a + (OPENING + (v + w)))
  {
    hide WholeAnchors;
    AddressSkips(v, w);
    WholeOpening(v + w);
    if WholeAnchors(a + (OPENING + (v + w))) { WholeSuffix(a, OPENING + (v + w)); }
  }

  // What stays

  lemma LinkBracket(s: string, l: Links.Link)
    requires Links.FirstLink(s) == Some(l)
    ensures Links.IsLink(s, l) && s[l.open] == '[' && '[' !in s[..l.open]
  {
    FirstBracket(s, l);
  }

  /** The loop changes nothing before the first bracket, and at it at most puts an anchor. */
  lemma {:induction false} HeadStays(p: string, w: string) returns (w': string)
    requires '[' !in p && w != ""
    ensures Links.Rewrite(p + w, Links.TelegramAnchor) == p + w'
    ensures w' != "" && (w'[0] == w[0] || w'[0] == '<')
    decreases Count(p + w, '[')
  {
    var s := p + w;
    match Links.FirstLink(s)
    case None => w' := w;
    case Some(l) =>
      Links.RewriteOneDropsBracket(s, l, Links.TelegramAnchor);
      LinkBracket(s, l);
      NotInFirst(p, w, '[', l.open);
      var w2 := HeadOfNext(p, w, l);
      w' := HeadStays(p, w2);
  }

  lemma HeadOfNext(p: string, w: string, l: Links.Link) returns (w2: string)
    requires Links.IsLink(p + w, l) && l.open >= |p| && w != ""
    ensures Links.RewriteOne(p + w, l, Links.TelegramAnchor) == p + w2
    ensures w2 != "" && (w2[0] == w[0] || w2[0] == '<')
  {
    LinkPieces(p + w, l);
    AnchorsSpelled();
    SpelledShape(Tag(Anchor, true));
    hide Spelled, OPENING;
    var a := Links.Before(p + w, l);
    var x, u, z := Links.Caption(p + w, l), Links.Url(p + w, l), Links.After(p + w, l);
    var rest := OPENING + (u + ("\">" + (x + (CLOSING + z))));
    assert a == p + a[|p|..];
    w2 := a[|p|..] + rest;
    if |a| > |p| { assert a[|p|] == w[0]; }
  }

  lemma BracketWithin(p: string, q: string, n: nat)
    requires n <= |p + ("[" + q)|
    ensures n > |p| ==> '[' in (p + ("[" + q))[..n]
  {
    if n > |p| { assert (p + ("[" + q))[..n][|p|] == '['; }
  }

  /** A bracket that does begin a link becomes an anchor, and stays one. */
  lemma BracketBecomesTag(p: string, q: string) returns (w: string)
    requires '[' !in p && Links.FirstLink(p + ("[" + q)).Some?
    ensures Links.Rewrite(p + ("[" + q), Links.TelegramAnchor) == p + w && w != "" && w[0] == '<'
  {
    var s := p + ("[" + q);
    var l := Links.FirstLink(s).value;
    LinkBracket(s, l);
    Links.RewriteOneDropsBracket(s, l, Links.TelegramAnchor);
    NotInFirst(p, "[" + q, '[', l.open);
    BracketWithin(p, q, l.open);
    LinkPieces(s, l);
    AnchorsSpelled();
    SpelledShape(Tag(Anchor, true));
    hide Spelled, OPENING;
    assert Links.Before(s, l) == p;
    w := HeadStays(p, OPENING + (Links.Url(s, l) + ("\">" + (Links.Caption(s, l) + (CLOSING + Links.After(s, l))))));
  }

  lemma {:induction false} FirstOf(u: string, c: char, d: char) returns (k: nat)
    ensures k <= |u| && c !in u[..k] && d !in u[..k] && (k < |u| ==> u[k] in {c, d})
    ensures k == |u| <==> c !in u && d !in u
  {
    if u == "" || u[0] in {c, d} {
      k := 0;
    } else {
      var m := FirstOf(u[1..], c, d);
      k := m + 1;
      assert u == [u[0]] + u[1..] && u[..k] == [u[0]] + u[1..][..m];
    }
  }

  // One round

  lemma CalmPart(p: string, m: string, q: string)
    requires Calm(p + m + q) && (p != "" ==> p[|p| - 1] != 'a')
    ensures Calm(m)
  {
    var s := p + m + q;
    forall i | 0 <= i < |m| && m[i] == '>' ensures i > 0 && m[i - 1] == 'a' {
      assert s[|p| + i] == '>' && s[|p| + i - 1] == 'a';
      if i == 0 { LastOf(p, m, q); }
    }
  }

  lemma LastOf(p: string, m: string, q: string)
    ensures p != "" ==> (p + m + q)[|p| - 1] == p[|p| - 1]
  {}

  /** The texts between the brackets of a link, and after it. */
  lemma CalmPieces(x: string, u: string, z: string)
    requires Calm(x + ("](" + (u + (")" + z))))
    ensures Calm(u) && Calm(x + (CLOSING + z))
  {
    var r := x + ("](" + (u + (")" + z)));
    assert r == (x + "](") + u + (")" + z);
    CalmPart(x + "](", u, ")" + z);
    assert r == "" + x + ("](" + (u + (")" + z)));
    CalmPart("", x, "](" + (u + (")" + z)));
    assert r == (x + "](" + u + ")") + z + "";
    CalmPart(x + "](" + u + ")", z, "");
    var t := x + (CLOSING + z);
    forall i | 0 <= i < |t| && t[i] == '>' ensures i > 0 && t[i - 1] == 'a' {
      if i < |x| {
        assert x[i] == '>';
      } else if i < |x| + 4 {
        assert t[i] == CLOSING[i - |x|];
      } else {
        assert z[i - |x| - 4] == '>';
      }
    }
  }

  /** What the first round keeps and what it needs: the text cut at the link. */
  ghost predicate Cut(s: string, l: Links.Link, a: string, x: string, u: string, z: string)
    requires Links.IsLink(s, l)
  {
    && ANCHORS.Intact(a) && ANCHORS.Intact(x) && ANCHORS.Intact(u) && ANCHORS.Intact(z)
    && WholeAnchors(a) && '[' !in a
    && Calm(u) && Calm(x + (CLOSING + z))
    && NoOpens(ReadTags(x + (CLOSING + z)))
    && u == Links.Url(s, l)
    && Links.RewriteOne(s, l, Links.TelegramAnchor) == a + (OPENING + (u + ("\">" + (x + (CLOSING + z)))))
  }

  lemma CutAtLink(s: string, l: Links.Link) returns (a: string, x: string, u: string, z: string)
    requires LoopInv(s) && Links.FirstLink(s) == Some(l)
    ensures Links.IsLink(s, l) && Cut(s, l, a, x, u, z)
  {
    a, x, u, z := Links.Before(s, l), Links.Caption(s, l), Links.Url(s, l), Links.After(s, l);
    hide OPENING, CLOSING, ANCHORS, ReadTags, NoOpens, WholeAnchors, Calm, Matched, OpensFirst, Links.FirstLink;
    BracketAt(s, l);
    AnchorsKeepLinks();
    InlineTags.LinkStepIntact(ANCHORS, s, l);
    FirstBracket(s, l);
    RestTags(s, l);
    LinkPieces(s, l);
    RestOf(s, l);
    hide Links.IsLink;
    CalmPieces(x, u, z);
    TailOfRest(x, u, z);
  }

  lemma TailOfRest(x: string, u: string, z: string)
    requires ANCHORS.Intact(x) && NoOpens(ReadTags(x) + ReadTags(u) + ReadTags(z))
    ensures NoOpens(ReadTags(x + (CLOSING + z)))
  {
    hide *;
    NoOpensAppend(ReadTags(x) + ReadTags(u), ReadTags(z));
    NoOpensAppend(ReadTags(x), ReadTags(u));
    TailTags(x, z);
  }

  lemma TailTags(x: string, z: string)
    requires ANCHORS.Intact(x) && NoOpens(ReadTags(x)) && NoOpens(ReadTags(z))
    ensures NoOpens(ReadTags(x + (CLOSING + z)))
  {
    AnchorsSpelled();
    hide ReadTags, ANCHORS, OPENING, CLOSING, Spelled, NoOpens;
    ReadAppend(x, CLOSING + z);
    ReadFirst(Tag(Anchor, false), z);
    OneClosing();
    NoOpensAppend([Tag(Anchor, false)], ReadTags(z));
    NoOpensAppend(ReadTags(x), [Tag(Anchor, false)] + ReadTags(z));
  }

  /** If a link may still follow, the anchors up to its bracket are whole and the rest is calm. */
  lemma NextBracket(a: string, u: string, tail: string, l: Links.Link)
    requires ANCHORS.Intact(a) && WholeAnchors(a) && '[' !in a && '[' !in u && '"' !in u && '<' !in u
    requires ANCHORS.Intact(tail) && NoOpens(ReadTags(tail)) && Calm(tail)
    requires Links.FirstLink(a + (OPENING + (u + ("\">" + tail)))) == Some(l)
    ensures var s := a + (OPENING + (u + ("\">" + tail)));
            Links.IsLink(s, l) && WholeAnchors(Links.Before(s, l)) && Calm(s[l.open + 1..])
  {
    var s := a + (OPENING + (u + ("\">" + tail)));
    hide *;
    BracketAt(s, l);
    PlainHead(a, u);
    RegroupHead(a, u, tail);
    NotInFirst(a + OPENING + u + "\">", tail, '[', l.open);
    var b, q := CutTail(a + OPENING + u + "\">", tail, l.open);
    CalmTail(b, q);
    WholeAnchored(a, u, b);
    RegroupHead(a, u, b);
  }

  lemma BracketAt(s: string, l: Links.Link)
    requires Links.FirstLink(s) == Some(l)
    ensures Links.IsLink(s, l) && l.open < |s| && s[l.open] == '[' && Links.Before(s, l) == s[..l.open]
  {}

  lemma PlainHead(a: string, u: string)
    requires '[' !in a && '[' !in u
    ensures '[' !in a + OPENING + u + "\">"
  {
    OpeningPlain();
    hide OPENING;
  }

  lemma RegroupHead(a: string, u: string, tail: string)
    ensures a + (OPENING + (u + ("\">" + tail))) == a + OPENING + u + "\">" + tail
  {
    hide OPENING;
  }

  lemma CutTail(p: string, tail: string, open: nat) returns (b: string, q: string)
    requires |p| <= open < |p + tail| && (p + tail)[open] == '['
    ensures tail == b + "[" + q && (p + tail)[open + 1..] == q && (p + tail)[..open] == p + b
  {
    var n := open - |p|;
    assert tail[n] == '[';
    b, q := tail[..n], tail[n + 1..];
  }

  lemma CalmTail(b: string, q: string)
    requires ANCHORS.Intact(b + "[" + q) && NoOpens(ReadTags(b + "[" + q)) && Calm(b + "[" + q)
    ensures Calm(q) && WholeAnchors(b)
  {
    assert b + "[" + q == (b + "[") + q + "";
    CalmPart(b + "[", q, "");
    hide Calm;
    WholeBefore(b, q);
  }

  lemma WholeBefore(b: string, q: string)
    requires ANCHORS.Intact(b + "[" + q) && NoOpens(ReadTags(b + "[" + q))
    ensures WholeAnchors(b)
  {
    AnchorsKeepLinks();
    ANCHORS.IntactCut(b, "[", q);
    hide *;
    ReadSeparated(b, "[", q);
    NoOpensAppend(ReadTags(b), ReadTags(q));
    WholeWithout(b);
  }

  lemma OpeningPlain()
    ensures '[' !in OPENING
  {}

  /** A round with a clean address keeps what the loop relies on. */
  lemma CleanRound(s: string, l: Links.Link)
    requires LoopInv(s) && Links.FirstLink(s) == Some(l)
    requires CleanUrl(Links.Url(s, l), Links.RewriteOne(s, l, Links.TelegramAnchor))
    ensures LoopInv(Links.RewriteOne(s, l, Links.TelegramAnchor))
  {
    LinkStepMatched(s, l);
    var a, x, u, z := CutAtLink(s, l);
    CleanTail(a, x, u, z);
    hide ANCHORS, ReadTags, WholeAnchors, Calm, OPENING, CLOSING, Matched, OpensFirst, Links.FirstLink, Links.IsLink;
  }

  lemma CleanTail(a: string, x: string, u: string, z: string)
    requires ANCHORS.Intact(a) && ANCHORS.Intact(x) && ANCHORS.Intact(z) && WholeAnchors(a) && '[' !in a
    requires Calm(x + (CLOSING + z)) && NoOpens(ReadTags(x + (CLOSING + z)))
    requires CleanUrl(u, a + (OPENING + (u + ("\">" + (x + (CLOSING + z))))))
    ensures var next := a + (OPENING + (u + ("\">" + (x + (CLOSING + z)))));
            && WholeAnchors(next)
            && var l := Links.FirstLink(next);
               l.Some? ==> WholeAnchors(Links.Before(next, l.value)) && Calm(next[l.value.open + 1..])
  {
    var tail := x + (CLOSING + z);
    var next := a + (OPENING + (u + ("\">" + tail)));
    hide ANCHORS, ReadTags, WholeAnchors, Calm, OPENING, CLOSING, Links.FirstLink, Links.IsLink;
    TailIntact(x, z);
    WholeWithout(tail);
    WholeAnchored(a, u, tail);
    if Links.FirstLink(next).Some? { NextBracket(a, u, tail, Links.FirstLink(next).value); }
  }

  lemma TailIntact(x: string, z: string)
    requires ANCHORS.Intact(x) && ANCHORS.Intact(z)
    ensures ANCHORS.Intact(x + (CLOSING + z))
  {
    AnchorsKeepLinks();
    InlineTags.TokenIntact(ANCHORS, CLOSING);
    hide CLOSING;
    ANCHORS.IntactAppend(CLOSING, z);
    ANCHORS.IntactAppend(x, CLOSING + z);
  }

  /** A round with another address leaves an anchor that the rest of the loop does not mend. */
  lemma DirtyRound(s: string, l: Links.Link)
    requires LoopInv(s) && Links.FirstLink(s) == Some(l)
    requires !CleanUrl(Links.Url(s, l), Links.RewriteOne(s, l, Links.TelegramAnchor))
    ensures !WholeAnchors(Links.Rewrite(Links.RewriteOne(s, l, Links.TelegramAnchor), Links.TelegramAnchor))
  {
    var a, x, u, z := CutAtLink(s, l);
    hide *;
    DirtyAddress(a, u, "\">" + (x + (CLOSING + z)));
  }

  lemma DirtyAddress(a: string, u: string, rest: string)
    requires '[' !in a && Calm(u) && |rest| >= 2 && rest[0] == '"'
    requires !CleanUrl(u, a + (OPENING + (u + rest)))
    ensures !WholeAnchors(Links.Rewrite(a + (OPENING + (u + rest)), Links.TelegramAnchor))
  {
    OpeningPlain();
    hide WholeAnchors, OPENING, CLOSING, Links.FirstLink, Links.Rewrite, Calm;
    var k := FirstOf(u, '"', '<');
    var m := FirstOf(u[..k], '[', '[');
    assert m < k ==> u[..k][..m] == u[..m] && u[..k][m] == u[m];
    if m < k && Links.FirstLink(a + (OPENING + (u + rest))).Some? {
      assert forall c :: c in u[..k][..m] ==> c in u[..k];
      LinkInAddress(a, u, rest, m);
    } else {
      assert u[..|u|] == u;
      NextOfQuote(u, rest, k);
      MarkInAddress(a, u, rest, k);
    }
  }

  lemma LinkInAddress(a: string, u: string, rest: string, m: nat)
    requires '[' !in a && '[' !in OPENING && m < |u| && u[m] == '['
    requires '[' !in u[..m] && '"' !in u[..m] && '<' !in u[..m]
    requires Links.FirstLink(a + (OPENING + (u + rest))).Some?
    ensures !WholeAnchors(Links.Rewrite(a + (OPENING + (u + rest)), Links.TelegramAnchor))
  {
    hide *;
    var p, q := a + OPENING + u[..m], u[m + 1..] + rest;
    AddressCut(a, u, rest, m);
    var w := BracketBecomesTag(p, q);
    BrokenAddress(a, u[..m], w);
    assert p + w == a + (OPENING + (u[..m] + w));
  }

  lemma AddressCut(a: string, u: string, rest: string, m: nat)
    requires m < |u| && u[m] == '['
    ensures a + (OPENING + (u + rest)) == (a + OPENING + u[..m]) + ("[" + (u[m + 1..] + rest))
  {
    hide OPENING;
    var v, w := u[..m], u[m + 1..];
    assert u == v + ("[" + w);
    assert u + rest == v + ("[" + (w + rest));
  }

  /** What follows a quote in an address is no '>'. */
  lemma NextOfQuote(u: string, rest: string, k: nat)
    requires Calm(u) && k <= |u| && |rest| >= 2 && rest[0] == '"'
    ensures k < |u| && u[k] == '"' ==> (u[k + 1..] + rest)[0] != '>'
  {
    if k + 1 < |u| { assert u[k + 1] == '>' ==> u[k] == 'a'; }
  }

  lemma MarkInAddress(a: string, u: string, rest: string, k: nat)
    requires '[' !in a && '[' !in OPENING && k < |u| && u[k] in {'"', '<'} && rest != ""
    requires '"' !in u[..k] && '<' !in u[..k]
    requires u[k] == '"' ==> (u[k + 1..] + rest)[0] != '>'
    requires '[' !in u[..k] || Links.FirstLink(a + (OPENING + (u + rest))).None?
    ensures !WholeAnchors(Links.Rewrite(a + (OPENING + (u + rest)), Links.TelegramAnchor))
  {
    var v, w := u[..k], u[k + 1..] + rest;
    MarkCut(a, u, rest, k);
    if Links.FirstLink(a + (OPENING + (u + rest))).None? {
      hide OPENING, WholeAnchors, Links.FirstLink;
      BrokenAddress(a, v, [u[k]] + w);
    } else {
      hide *;
      MarkStays(a, v, u[k], w);
    }
  }

  lemma MarkStays(a: string, v: string, c: char, w: string)
    requires '[' !in a && '[' !in OPENING && '[' !in v && c in {'"', '<'} && w != "" && (c == '"' ==> w[0] != '>')
    requires '"' !in v && '<' !in v
    ensures !WholeAnchors(Links.Rewrite(a + OPENING + v + [c] + w, Links.TelegramAnchor))
  {
    hide OPENING, WholeAnchors, Links.Rewrite;
    var w' := HeadStays(a + OPENING + v + [c], w);
    BrokenAddress(a, v, [c] + w');
    Reassociate(a, OPENING, v, [c], w');
  }

  lemma MarkCut(a: string, u: string, rest: string, k: nat)
    requires k < |u|
    ensures var v, w := u[..k], u[k + 1..] + rest;
            && a + (OPENING + (u + rest)) == a + (OPENING + (v + ([u[k]] + w)))
            && a + (OPENING + (u + rest)) == a + OPENING + v + [u[k]] + w
  {
    hide OPENING;
    var v, w := u[..k], u[k + 1..] + rest;
    assert u == v + ([u[k]] + u[k + 1..]);
    assert u + rest == v + ([u[k]] + w);
    Reassociate(a, OPENING, v, [u[k]], w);
  }

  lemma Reassociate(a: string, b: string, c: string, d: string, e: string)
    ensures a + (b + (c + (d + e))) == a + b + c + d + e
  {}

  lemma {:induction false} LoopWhole(s: string)
    requires LoopInv(s)
    ensures WholeAnchors(Links.Rewrite(s, Links.TelegramAnchor)) <==> CleanLinks(s)
    decreases Count(s, '[')
  {
    hide LoopInv, WholeAnchors, CleanUrl;
    match Links.FirstLink(s)
    case None => assert WholeAnchors(s) by { InvWhole(s); }
    case Some(l) =>
      var next := Links.RewriteOne(s, l, Links.TelegramAnchor);
      Links.RewriteOneDropsBracket(s, l, Links.TelegramAnchor);
      if CleanUrl(Links.Url(s, l), next) {
        CleanRound(s, l);
        LoopWhole(next);
      } else {
        DirtyRound(s, l);
      }
  }

  lemma InvWhole(s: string)
    requires LoopInv(s)
    ensures WholeAnchors(s)
  {}

  /** The loop begins with a text without brackets. */
  lemma EscapedInv(text: string)
    ensures LoopInv(EscapeHtml(text))
  {
    EscapeHasNoBrackets(text);
    PlainInv(EscapeHtml(text));
  }

  lemma PlainInv(e: string)
    requires '<' !in e && '>' !in e
    ensures LoopInv(e)
  {
    ANCHORS.IntactNoMark(e);
    hide ANCHORS, WholeAnchors, Matched, OpensFirst, ReadTags, Calm;
    PlainTags(e);
    PlainWhole(e);
    if Links.FirstLink(e).Some? { PlainBefore(e, Links.FirstLink(e).value); }
  }

  lemma PlainTags(e: string)
    requires '<' !in e
    ensures OpensFirst(e) && Matched(ReadTags(e), Anchor)
  {
    hide Matched, OpensFirst;
    assert e + "" == e && "" + e == e;
    ReadPlain(e, "");
    NoTagsRead();
    hide ReadTags;
    NoneOpen();
    BracketsLater("", e);
  }

  lemma NoneOpen()
    ensures NoOpens([])
  {}

  lemma PlainBefore(e: string, l: Links.Link)
    requires Links.IsLink(e, l) && '<' !in e && '>' !in e
    ensures WholeAnchors(Links.Before(e, l)) && Calm(e[l.open + 1..])
  {
    hide WholeAnchors;
    assert Links.Before(e, l) + e[l.open..] == e;
    PlainWhole(Links.Before(e, l));
    var w := e[l.open + 1..];
    assert forall i :: 0 <= i < |w| ==> w[i] in e;
  }

  lemma NoTagsRead()
    ensures ReadTags("") == [] && Matched([], Anchor)
  {}

  lemma PlainWhole(s: string)
    requires '<' !in s
    ensures WholeAnchors(s)
  {
    assert s + "" == s;
    WholeNothing();
    WholeSkips(s, "");
  }

  /** After the link loop every anchor is whole exactly when the links were clean. */
  lemma LinksWholeIff(text: string)
    ensures WholeAnchors(AfterLinks(text)) <==> CleanLinks(EscapeHtml(text))
  {
    hide EscapeHtml, WholeAnchors, CleanLinks, Links.Rewrite;
    EscapedInv(text);
    LoopWhole(EscapeHtml(text));
  }

  lemma {:induction false} KeptIsWhole(t: string, st: State)
    requires AddressesKept(t, st) && ANCHORS.Intact(t)
    ensures WholeAnchors(t)
    decreases |t|
  {
    hide WholeAnchors, OPENING, AddressKept;
    if t == "" {
      WholeNothing();
    } else if IsTriple(t) && st.doubles == 0 {
      Shorter(t, 3);
      assert t == "***" + t[3..];
      WholeSkips("***", t[3..]);
      KeptIsWhole(t[3..], st);
    } else if IsDouble(t) {
      Shorter(t, 2);
      assert t == "**" + t[2..];
      WholeSkips("**", t[2..]);
      KeptIsWhole(t[2..], if st.doubles > 0 then st.AfterBold() else st);
    } else {
      Shorter(t, 1);
      assert t == [t[0]] + t[1..];
      WholeFirst(t[0], t[1..]);
      if OPENING <= t {
        KeptEnds(t[|OPENING|..], st);
      }
      if IsStar(t) {
        NoOpening(t);
        KeptIsWhole(t[1..], st.AfterItalic());
      } else if t[0] == '`' && st.ticks > 0 {
        NoOpening(t);
        KeptIsWhole(t[1..], st.AfterCode());
      } else {
        KeptIsWhole(t[1..], st);
      }
    }
  }

  lemma {:induction false} KeptEnds(t: string, st: State)
    ensures AddressKept(t, st) ==> AddressEnds(t)
    decreases |t|
  {
    if t == "" || t[0] == '<' || Turns(t, st) || t[0] == '"' {
    } else if IsTriple(t) {
      assert t == "***" + t[3..];
      AddressSkips("***", t[3..]);
      KeptEnds(t[3..], st);
    } else if IsDouble(t) {
      assert t == "**" + t[2..];
      AddressSkips("**", t[2..]);
      KeptEnds(t[2..], st);
    } else {
      KeptEnds(t[1..], st);
    }
  }

  /** Every anchor of the output is whole exactly when the links are clean and no star or backtick
      in an address becomes a tag. */
  lemma AnchorsWholeIff(text: string)
    ensures WholeAnchors(Inline.InlineOf(text))
       <==> CleanLinks(EscapeHtml(text)) && AddressesKept(AfterLinks(text), Start(AfterLinks(text)))
  {
    hide EscapeHtml, WholeAnchors, CleanLinks, AddressesKept, AfterLinks, ANCHORS, Pass, Inline.InlineOf, Delims;
    var t := AfterLinks(text);
    AfterLinksIntact(text);
    InlineIsPass(text);
    WholeInPass(t, Start(t));
    LinksWholeIff(text);
    if AddressesKept(t, Start(t)) { KeptIsWhole(t, Start(t)); }
  }
}
