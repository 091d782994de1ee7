/** The text after the link loop: its marks, and the anchors in it, which always match. */
module InlineAnchors {
  import opened Text
  import opened Tokens
  import opened Nesting
  import opened OnePass
  import opened Escape
  import opened InlineMarks
  import InlineTags
  import Links

  // Marks and delimiters

  lemma {:induction false} DelimsSkip(a: string, rest: string)
    requires '*' !in a && '`' !in a
    ensures Delims(a + rest, "**") == Delims(rest, "**") && Delims(a + rest, "`") == Delims(rest, "`")
  {
    if a == "" {
      assert a + rest == rest;
    } else {
      var s := a + rest;
      assert s[1..] == a[1..] + rest && s[0] == a[0] && a[0] in a;
      DelimTwo(s);
      DelimOne(s, '`');
      assert forall c :: c in a[1..] ==> c in a;
      DelimsSkip(a[1..], rest);
    }
  }

  lemma DelimsPlain(t: string)
    requires t != "" && t[0] !in {'*', '`'}
    ensures Delims(t, "**") == Delims(t[1..], "**") && Delims(t, "`") == Delims(t[1..], "`")
  {
    assert t == [t[0]] + t[1..];
    DelimsSkip([t[0]], t[1..]);
  }

  lemma DelimsStar(t: string)
    requires IsStar(t)
    ensures Delims(t, "**") == Delims(t[1..], "**") && Delims(t, "`") == Delims(t[1..], "`")
  {
    DelimTwo(t);
    DelimOne(t, '`');
  }

  lemma DelimsDouble(t: string)
    requires IsDouble(t)
    ensures Delims(t, "**") == 1 + Delims(t[2..], "**") && Delims(t, "`") == Delims(t[2..], "`")
  {
    DelimTwo(t);
    DelimOne(t, '`');
    DelimOne(t[1..], '`');
    assert t[1..][1..] == t[2..];
  }

  lemma DelimsTick(t: string)
    requires t != "" && t[0] == '`'
    ensures Delims(t, "**") == Delims(t[1..], "**") && Delims(t, "`") == 1 + Delims(t[1..], "`")
  {
    DelimTwo(t);
    DelimOne(t, '`');
  }

  lemma AnchorShape()
    ensures |OPENING| > 0 && |CLOSING| > 0
    ensures '*' !in OPENING && '`' !in OPENING && '*' !in CLOSING && '`' !in CLOSING
  {}

  lemma MarkFirst(m: Mark, rest: seq<Mark>)
    ensures CountIf([m] + rest, HasDouble) == (if HasDouble(m) then 1 else 0) + CountIf(rest, HasDouble)
    ensures CountIf([m] + rest, IsTick) == (if IsTick(m) then 1 else 0) + CountIf(rest, IsTick)
  {
    CountIfFirst(m, rest, HasDouble);
    CountIfFirst(m, rest, IsTick);
  }

  /** The marks know how many delimiters the loops find. */
  lemma {:induction false} MarksCount(t: string, rendered: bool)
    ensures CountIf(Marks(t, rendered), HasDouble) == Delims(t, "**")
    ensures CountIf(Marks(t, rendered), IsTick) == Delims(t, "`")
    decreases |t|
  {
    hide Delims, CountIf, OPENING, CLOSING;
    if t == "" {
      NothingFound();
    } else if IsDouble(t) {
      DoubleCount(t, rendered);
    } else if t[0] == '*' {
      DelimsStar(t);
      MarkFirst(Star, Marks(t[1..], rendered));
      MarksCount(t[1..], rendered);
    } else if t[0] == '`' {
      DelimsTick(t);
      MarkFirst(Tick, Marks(t[1..], rendered));
      MarksCount(t[1..], rendered);
    } else {
      OtherCount(t, rendered);
    }
  }

  lemma {:induction false} DoubleCount(t: string, rendered: bool)
    requires IsDouble(t)
    ensures CountIf(Marks(t, rendered), HasDouble) == Delims(t, "**")
    ensures CountIf(Marks(t, rendered), IsTick) == Delims(t, "`")
    decreases |t|, 0
  {
    hide Delims, CountIf, OPENING, CLOSING;
    DelimsDouble(t);
    if IsTriple(t) {
      DelimsStar(t[2..]);
      assert t[2..][1..] == t[3..];
      MarkFirst(Triple, Marks(t[3..], rendered));
      MarksCount(t[3..], rendered);
    } else {
      MarkFirst(Double, Marks(t[2..], rendered));
      MarksCount(t[2..], rendered);
    }
  }

  lemma {:induction false} OtherCount(t: string, rendered: bool)
    requires t != "" && t[0] !in {'*', '`'}
    ensures CountIf(Marks(t, rendered), HasDouble) == Delims(t, "**")
    ensures CountIf(Marks(t, rendered), IsTick) == Delims(t, "`")
    decreases |t|, 0
  {
    AnchorShape();
    hide Delims, CountIf, OPENING, CLOSING;
    if rendered && OPENING <= t {
      assert t == OPENING + t[|OPENING|..];
      DelimsSkip(OPENING, t[|OPENING|..]);
      MarkFirst(AnchorOpen, Marks(t[|OPENING|..], rendered));
      MarksCount(t[|OPENING|..], rendered);
    } else if rendered && CLOSING <= t {
      assert t == CLOSING + t[|CLOSING|..];
      DelimsSkip(CLOSING, t[|CLOSING|..]);
      MarkFirst(AnchorClose, Marks(t[|CLOSING|..], rendered));
      MarksCount(t[|CLOSING|..], rendered);
    } else {
      DelimsPlain(t);
      MarksCount(t[1..], rendered);
    }
  }

  lemma NothingFound()
    ensures CountIf([], HasDouble) == 0 && CountIf([], IsTick) == 0
    ensures Delims("", "**") == 0 && Delims("", "`") == 0
  {}

  // Escaping

  lemma EscapeHead(t: string)
    ensures t == "" ==> EscapeHtml(t) == ""
    ensures t != "" && t[0] !in {'&', '<', '>'} ==> EscapeHtml(t) == [t[0]] + EscapeHtml(t[1..])
    ensures t != "" && t[0] in {'&', '<', '>'}
            ==> EscapeHtml(t) == Entity(t[0]) + EscapeHtml(t[1..]) && EscapeHtml(t) != "" && EscapeHtml(t)[0] == '&'
  {
    if t != "" {
      assert t == [t[0]] + t[1..];
      EscapeCons(t[0], t[1..]);
    }
  }

  /** Escaping keeps stars where they are. */
  lemma EscapeStars(t: string)
    ensures IsDouble(EscapeHtml(t)) <==> IsDouble(t)
    ensures IsTriple(EscapeHtml(t)) <==> IsTriple(t)
    ensures IsDouble(t) ==> EscapeHtml(t)[2..] == EscapeHtml(t[2..])
    ensures IsTriple(t) ==> EscapeHtml(t)[3..] == EscapeHtml(t[3..])
  {
    hide EscapeHtml;
    EscapeHead(t);
    if t != "" && t[0] == '*' {
      EscapeHead(t[1..]);
      if |t| > 1 && t[1] == '*' {
        assert t[1..][1..] == t[2..];
        EscapeHead(t[2..]);
        if |t| > 2 && t[2] == '*' {
          assert t[2..][1..] == t[3..];
          EscapeHead(t[3..]);
        }
      }
    }
  }

  lemma {:induction false} PlainMarks(a: string, rest: string)
    requires '*' !in a && '`' !in a && '<' !in a
    ensures Marks(a + rest, true) == Marks(rest, true)
  {
    if a == "" {
      assert a + rest == rest;
    } else {
      var s := a + rest;
      assert s[1..] == a[1..] + rest && s[0] == a[0] && a[0] in a;
      PlainMark(s);
      hide Marks;
      assert forall c :: c in a[1..] ==> c in a;
      PlainMarks(a[1..], rest);
    }
  }

  lemma EntityShape(c: char)
    requires c in {'&', '<', '>'}
    ensures '*' !in Entity(c) && '`' !in Entity(c) && '<' !in Entity(c)
  {}

  /** The marks of an escaped text are those of the text. */
  lemma {:induction false} EscapedMarks(t: string)
    ensures Marks(EscapeHtml(t), true) == Marks(t, false)
    decreases |t|
  {
    hide EscapeHtml, OPENING, CLOSING;
    var e := EscapeHtml(t);
    EscapeHead(t);
    EscapeStars(t);
    if t == "" {
    } else if IsTriple(t) {
      EscapedMarks(t[3..]);
    } else if IsDouble(t) {
      EscapedMarks(t[2..]);
    } else if t[0] in {'&', '<', '>'} {
      EntityShape(t[0]);
      PlainMarks(Entity(t[0]), EscapeHtml(t[1..]));
      EscapedMarks(t[1..]);
    } else {
      assert e[1..] == EscapeHtml(t[1..]);
      EscapedMarks(t[1..]);
      if t[0] !in {'*', '`'} { PlainMark(e); }
    }
  }

  /** A text without a link has its marks left as they are. */
  lemma PlainAfterLinks(text: string)
    requires Links.LinkFree(EscapeHtml(text))
    ensures Marks(AfterLinks(text), true) == Marks(text, false)
  {
    hide EscapeHtml, Links.Rewrite, Links.LinkFree, Marks;
    Links.RewriteFixpoint(EscapeHtml(text), Links.TelegramAnchor);
    EscapedMarks(text);
  }

  // Anchors

  lemma AnchorsKeepLinks()
    ensures InlineTags.KeepsLinks(ANCHORS)
  {
    hide Marks;
    assert ANCHORS.TokenShape(OPENING) && ANCHORS.TokenShape(CLOSING);
    forall c | c in InlineTags.DELIMITERS ensures ANCHORS.Outside(c) {}
  }

  /** After the link loop every '<' begins an anchor or ends one. */
  lemma AfterLinksIntact(text: string)
    ensures ANCHORS.Intact(AfterLinks(text))
  {
    hide EscapeHtml, Links.Rewrite;
    AnchorsKeepLinks();
    EscapeHasNoBrackets(text);
    ANCHORS.IntactNoMark(EscapeHtml(text));
    InlineTags.LinksIntact(ANCHORS, EscapeHtml(text));
  }

  lemma {:induction false} ReadAppend(a: string, b: string)
    requires ANCHORS.Intact(a)
    ensures ReadTags(a + b) == ReadTags(a) + ReadTags(b)
  {
    hide ANCHORS, TagAt;
    if a == "" {
      assert a + b == b;
    } else {
      Shorter(a, 1);
      TagAtAppend(a, b);
      ReadAppend(a[1..], b);
      ReadAppendStep(a, b);
    }
  }

  lemma ReadAppendStep(a: string, b: string)
    requires a != "" && TagAt(a + b) == TagAt(a) && ReadTags(a[1..] + b) == ReadTags(a[1..]) + ReadTags(b)
    ensures ReadTags(a + b) == ReadTags(a) + ReadTags(b)
  {
    hide TagAt;
    assert (a + b)[1..] == a[1..] + b;
    var head := if TagAt(a).Some? then [TagAt(a).value] else [];
    assert head + (ReadTags(a[1..]) + ReadTags(b)) == head + ReadTags(a[1..]) + ReadTags(b);
  }

  lemma TagAtAppend(a: string, b: string)
    requires a != "" && ANCHORS.Intact(a)
    ensures TagAt(a + b) == TagAt(a)
  {
    if a[0] == '<' {
      var token :| token in ANCHORS.tokens && token <= a;
      AnchorsSpelled();
      hide TagAt, Spelled, OPENING, CLOSING;
      var tag := Tag(Anchor, token == OPENING);
      assert Spelled(tag) <= a && Spelled(tag) <= a + b;
      TagAtIs(tag, a);
      TagAtIs(tag, a + b);
    } else {
      NoTagAt(a);
      NoTagAt(a + b);
    }
  }

  lemma ReadSeparated(a: string, d: string, b: string)
    requires ANCHORS.Intact(a) && '<' !in d
    ensures ReadTags(a + d + b) == ReadTags(a) + ReadTags(b)
  {
    hide ReadTags;
    assert a + d + b == a + (d + b);
    ReadAppend(a, d + b);
    ReadPlain(d, b);
  }

  /** The tags before and after one link is rewritten: the address and the caption change places. */
  lemma LinkTags(s: string, l: Links.Link)
    requires Links.IsLink(s, l) && ANCHORS.Intact(s)
    ensures var a, x, u, z := ReadTags(Links.Before(s, l)), ReadTags(Links.Caption(s, l)),
                              ReadTags(Links.Url(s, l)), ReadTags(Links.After(s, l));
            && ReadTags(s) == a + (x + u + z)
            && ReadTags(Links.RewriteOne(s, l, Links.TelegramAnchor))
               == a + ([Tag(Anchor, true)] + u + x + [Tag(Anchor, false)] + z)
  {
    var a, x, u, z := Links.Before(s, l), Links.Caption(s, l), Links.Url(s, l), Links.After(s, l);
    Links.Pieces(s, l);
    AnchorsKeepLinks();
    InlineTags.LinkStepIntact(ANCHORS, s, l);
    LinkPieces(s, l);
    hide ReadTags, Links.IsLink, ANCHORS, Links.Before, Links.Caption, Links.Url, Links.After, Links.RewriteOne;
    ReadSeparated(a, "[", x + ("](" + (u + (")" + z))));
    ReadLinkRest(x, "](", u, ")", z);
    ReadAnchored(a, x, u, z);
  }

  lemma LinkPieces(s: string, l: Links.Link)
    requires Links.IsLink(s, l)
    ensures var a, x, u, z := Links.Before(s, l), Links.Caption(s, l), Links.Url(s, l), Links.After(s, l);
            && s == a + "[" + (x + ("](" + (u + (")" + z))))
            && Links.RewriteOne(s, l, Links.TelegramAnchor) == a + (OPENING + (u + ("\">" + (x + (CLOSING + z)))))
  {
    Links.Pieces(s, l);
    hide Links.IsLink;
    var a, x, u, z := Links.Before(s, l), Links.Caption(s, l), Links.Url(s, l), Links.After(s, l);
    assert a + "[" + x + "](" + u + ")" + z == a + "[" + (x + ("](" + (u + (")" + z))));
    RegroupAnchor(a, x, u, z);
  }

  lemma RegroupAnchor(a: string, x: string, u: string, z: string)
    ensures a + (OPENING + u + "\">" + x + CLOSING) + z == a + (OPENING + (u + ("\">" + (x + (CLOSING + z)))))
  {
    hide OPENING, CLOSING;
  }

  lemma ReadLinkRest(x: string, d: string, u: string, e: string, z: string)
    requires ANCHORS.Intact(x) && ANCHORS.Intact(u) && '<' !in d && '<' !in e
    ensures ReadTags(x + (d + (u + (e + z)))) == ReadTags(x) + ReadTags(u) + ReadTags(z)
  {
    hide ReadTags, ANCHORS;
    ReadAppend(x, d + (u + (e + z)));
    ReadPlain(d, u + (e + z));
    ReadAppend(u, e + z);
    ReadPlain(e, z);
  }

  lemma ReadAnchored(a: string, x: string, u: string, z: string)
    requires ANCHORS.Intact(a) && ANCHORS.Intact(x) && ANCHORS.Intact(u)
    ensures ReadTags(a + (OPENING + (u + ("\">" + (x + (CLOSING + z))))))
         == ReadTags(a) + ([Tag(Anchor, true)] + ReadTags(u) + ReadTags(x) + [Tag(Anchor, false)] + ReadTags(z))
  {
    AnchorsSpelled();
    hide *;
    var tail := x + (CLOSING + z);
    ReadAppend(a, OPENING + (u + ("\">" + tail)));
    ReadFirst(Tag(Anchor, true), u + ("\">" + tail));
    ReadAppend(u, "\">" + tail);
    ReadPlain("\">", tail);
    ReadAppend(x, CLOSING + z);
    ReadFirst(Tag(Anchor, false), z);
  }

  // Anchors match

  predicate NoOpens(tags: seq<Tag>) { forall i :: 0 <= i < |tags| ==> tags[i] != Tag(Anchor, true) }

  function Closings(tags: seq<Tag>): nat {
    if tags == [] then 0 else (if tags[0] == Tag(Anchor, false) then 1 else 0) + Closings(tags[1..])
  }

  lemma {:induction false} OnlyClosings(depth: nat, tags: seq<Tag>)
    requires NoOpens(tags)
    ensures Level(depth, tags, Anchor) == if Closings(tags) <= depth then Some(depth - Closings(tags)) else None
    decreases |tags|
  {
    if tags == [] {
    } else {
      assert NoOpens(tags[1..]);
      if Shift(depth, tags[0], Anchor).Some? { OnlyClosings(Shift(depth, tags[0], Anchor).value, tags[1..]); }
    }
  }

  lemma {:induction false} ClosingsAppend(a: seq<Tag>, b: seq<Tag>)
    ensures Closings(a + b) == Closings(a) + Closings(b)
  {
    if a == [] {
      assert a + b == b;
    } else {
      assert (a + b)[1..] == a[1..] + b;
      ClosingsAppend(a[1..], b);
    }
  }

  lemma NoOpensAppend(a: seq<Tag>, b: seq<Tag>)
    ensures NoOpens(a + b) <==> NoOpens(a) && NoOpens(b)
  {
    assert a == (a + b)[..|a|] && b == (a + b)[|a|..];
    if NoOpens(a + b) {
      forall i | 0 <= i < |a| ensures a[i] != Tag(Anchor, true) { assert a[i] == (a + b)[i]; }
      forall i | 0 <= i < |b| ensures b[i] != Tag(Anchor, true) { assert b[i] == (a + b)[|a| + i]; }
    }
  }

  /** Anchors open before the first bracket that may still begin a link. */
  ghost predicate OpensFirst(s: string) {
    forall i :: 0 <= i < |s| && s[i] == '[' ==> NoOpens(ReadTags(s[i + 1..]))
  }

  lemma {:induction false} ReadOfRest(s: string, k: nat)
    requires k <= |s| && NoOpens(ReadTags(s))
    ensures NoOpens(ReadTags(s[k..]))
  {
    if k == 0 {
      assert s[0..] == s;
    } else {
      assert s[1..][k - 1..] == s[k..];
      hide TagAt;
      NoOpensAppend(if TagAt(s).Some? then [TagAt(s).value] else [], ReadTags(s[1..]));
      ReadOfRest(s[1..], k - 1);
    }
  }

  lemma SwapMatched(a: seq<Tag>, x: seq<Tag>, u: seq<Tag>, z: seq<Tag>)
    requires NoOpens(x) && NoOpens(u) && NoOpens(z) && Matched(a + (x + u + z), Anchor)
    ensures Matched(a + ([Tag(Anchor, true)] + u + x + [Tag(Anchor, false)] + z), Anchor)
    ensures NoOpens(u + x + [Tag(Anchor, false)] + z)
  {
    hide Level, Closings, NoOpens;
    var e := [Tag(Anchor, false)];
    OneClosing();
    NoOpensAppend(x, u);
    NoOpensAppend(x + u, z);
    ClosingsAppend(x, u);
    ClosingsAppend(x + u, z);
    NoOpensAppend(u, x);
    NoOpensAppend(u + x, e);
    NoOpensAppend(u + x + e, z);
    ClosingsAppend(u, x);
    ClosingsAppend(u + x, e);
    ClosingsAppend(u + x + e, z);
    var w := u + x + e + z;
    assert [Tag(Anchor, true)] + u + x + e + z == [Tag(Anchor, true)] + w;
    LevelAppend(0, a, x + u + z, Anchor);
    LevelAppend(0, a, [Tag(Anchor, true)] + w, Anchor);
    var d := Level(0, a, Anchor).value;
    OnlyClosings(d, x + u + z);
    LevelOne(d, Tag(Anchor, true), w, Anchor);
    OnlyClosings(d + 1, w);
  }

  lemma OneClosing()
    ensures Closings([Tag(Anchor, false)]) == 1 && NoOpens([Tag(Anchor, false)])
  {
    assert [Tag(Anchor, false)][1..] == [];
  }

  /** What the loop keeps: anchors match, and all of them open before the next link begins. */
  lemma LinkStepMatched(s: string, l: Links.Link)
    requires Links.FirstLink(s) == Some(l) && ANCHORS.Intact(s)
    requires OpensFirst(s) && Matched(ReadTags(s), Anchor)
    ensures var s' := Links.RewriteOne(s, l, Links.TelegramAnchor);
            ANCHORS.Intact(s') && OpensFirst(s') && Matched(ReadTags(s'), Anchor)
  {
    AnchorsKeepLinks();
    InlineTags.LinkStepIntact(ANCHORS, s, l);
    LinkTags(s, l);
    FirstBracket(s, l);
    RestTags(s, l);
    LinkPieces(s, l);
    hide *;
    AnchoredMatched(Links.Before(s, l), Links.Caption(s, l), Links.Url(s, l), Links.After(s, l));
  }

  lemma AnchoredMatched(a: string, x: string, u: string, z: string)
    requires ANCHORS.Intact(x) && ANCHORS.Intact(u) && '[' !in a && '[' !in OPENING
    requires NoOpens(ReadTags(x) + ReadTags(u) + ReadTags(z))
    requires Matched(ReadTags(a) + (ReadTags(x) + ReadTags(u) + ReadTags(z)), Anchor)
    ensures Matched(ReadTags(a)
                    + ([Tag(Anchor, true)] + ReadTags(u) + ReadTags(x) + [Tag(Anchor, false)] + ReadTags(z)), Anchor)
    ensures OpensFirst(a + (OPENING + (u + ("\">" + (x + (CLOSING + z))))))
  {
    hide *;
    NoOpensAppend(ReadTags(x) + ReadTags(u), ReadTags(z));
    NoOpensAppend(ReadTags(x), ReadTags(u));
    SwapMatched(ReadTags(a), ReadTags(x), ReadTags(u), ReadTags(z));
    var w := u + ("\">" + (x + (CLOSING + z)));
    RestAnchored(x, u, z);
    BracketsLater(a + OPENING, w);
    assert a + (OPENING + w) == a + OPENING + w;
  }

  lemma FirstBracket(s: string, l: Links.Link)
    requires Links.FirstLink(s) == Some(l)
    ensures '[' !in Links.Before(s, l) && '[' !in OPENING
  {
    var a := Links.Before(s, l);
    forall i | 0 <= i < |a| ensures a[i] != '[' {
      assert !StartsAt(s, i, "[");
      assert s[i..i + 1] == [s[i]];
    }
  }

  lemma RestTags(s: string, l: Links.Link)
    requires Links.IsLink(s, l) && ANCHORS.Intact(s) && OpensFirst(s)
    ensures NoOpens(ReadTags(Links.Caption(s, l)) + ReadTags(Links.Url(s, l)) + ReadTags(Links.After(s, l)))
  {
    var x, u, z := Links.Caption(s, l), Links.Url(s, l), Links.After(s, l);
    AnchorsKeepLinks();
    InlineTags.LinkStepIntact(ANCHORS, s, l);
    assert s[l.open] == '[';
    RestOf(s, l);
    hide Links.IsLink, ReadTags, ANCHORS, NoOpens, Links.Caption, Links.Url, Links.After;
    ReadLinkRest(x, "](", u, ")", z);
  }

  lemma RestOf(s: string, l: Links.Link)
    requires Links.IsLink(s, l)
    ensures s[l.open + 1..] == Links.Caption(s, l) + ("](" + (Links.Url(s, l) + (")" + Links.After(s, l))))
  {
    LinkPieces(s, l);
  }

  lemma RestAnchored(x: string, u: string, z: string)
    requires ANCHORS.Intact(x) && ANCHORS.Intact(u)
    ensures ReadTags(u + ("\">" + (x + (CLOSING + z))))
         == ReadTags(u) + ReadTags(x) + [Tag(Anchor, false)] + ReadTags(z)
  {
    AnchorsSpelled();
    hide ReadTags, ANCHORS, OPENING, CLOSING, Spelled;
    var tail := x + (CLOSING + z);
    ReadAppend(u, "\">" + tail);
    ReadPlain("\">", tail);
    ReadAppend(x, CLOSING + z);
    ReadFirst(Tag(Anchor, false), z);
  }

  lemma NotInFirst(a: string, w: string, c: char, i: nat)
    requires c !in a && i < |a + w| && (a + w)[i] == c
    ensures i >= |a|
  {}

  lemma BracketsLater(a: string, w: string)
    requires '[' !in a && NoOpens(ReadTags(w))
    ensures OpensFirst(a + w)
  {
    hide ReadTags, NoOpens;
    var s := a + w;
    forall i | 0 <= i < |s| && s[i] == '[' ensures NoOpens(ReadTags(s[i + 1..])) {
      NotInFirst(a, w, '[', i);
      assert s[i + 1..] == w[i + 1 - |a|..];
      ReadOfRest(w, i + 1 - |a|);
    }
  }

  lemma {:induction false} LoopMatched(s: string)
    requires ANCHORS.Intact(s) && OpensFirst(s) && Matched(ReadTags(s), Anchor)
    ensures Matched(ReadTags(Links.Rewrite(s, Links.TelegramAnchor)), Anchor)
    decreases Count(s, '[')
  {
    hide ReadTags, OpensFirst, Matched;
    match Links.FirstLink(s)
    case None =>
    case Some(l) =>
      Links.RewriteOneDropsBracket(s, l, Links.TelegramAnchor);
      LinkStepMatched(s, l);
      LoopMatched(Links.RewriteOne(s, l, Links.TelegramAnchor));
  }

  /** For every text: after the link loop the anchors match, even when a link began inside the
      address of an earlier one. */
  lemma AnchorsMatch(text: string)
    ensures Matched(ReadTags(AfterLinks(text)), Anchor)
  {
    var e := EscapeHtml(text);
    EscapeHasNoBrackets(text);
    ANCHORS.IntactNoMark(e);
    hide EscapeHtml, ANCHORS, Links.Rewrite;
    assert e + "" == e;
    ReadPlain(e, "");
    BracketsLater("", e);
    assert "" + e == e;
    LoopMatched(e);
  }
}
