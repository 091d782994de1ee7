/** Texts whose anchors are broken, or crossed by other tags. */
module InlineExamples {
  import opened Text
  import opened Nesting
  import opened OnePass
  import opened Escape
  import opened InlineMarks
  import opened InlineAnchors
  import opened AnchorValues
  import Inline
  import InlineTags
  import Links

  // A link at a time

  function Anchored(x: string, u: string): string { "<a href=\"" + u + "\">" + x + "</a>" }

  function Linked(a: string, x: string, u: string, z: string): string { a + "[" + x + "](" + u + ")" + z }

  function LinkIn(a: string, x: string, u: string): Links.Link {
    Links.Link(|a|, |a| + 1 + |x|, |a| + |x| + 3 + |u|)
  }

  lemma LinkPlaces(a: string, x: string, u: string, z: string)
    ensures var s, l := Linked(a, x, u, z), LinkIn(a, x, u);
            && |s| == l.close + 1 + |z|
            && s[..l.open] == a && s[l.open + 1..l.mid] == x && s[l.mid + 2..l.close] == u && s[l.close + 1..] == z
            && s[l.open] == '[' && s[l.mid..l.mid + 2] == "](" && s[l.close] == ')'
  {
    var s, l := Linked(a, x, u, z), LinkIn(a, x, u);
    assert s == a + ("[" + (x + ("](" + (u + (")" + z)))));
  }

  lemma LinkChars(s: string, l: Links.Link, a: string, x: string, u: string)
    requires l.open < l.mid && l.mid + 2 <= l.close < |s|
    requires s[..l.open] == a && s[l.open + 1..l.mid] == x && s[l.mid + 2..l.close] == u
    ensures forall k :: 0 <= k < l.open ==> s[k] in a
    ensures forall k :: l.open < k < l.mid ==> s[k] in x
    ensures forall k :: l.mid + 2 <= k < l.close ==> s[k] in u
  {
    forall k | 0 <= k < l.open ensures s[k] in a { assert s[k] == a[k]; }
    forall k | l.open < k < l.mid ensures s[k] in x { assert s[k] == x[k - l.open - 1]; }
    forall k | l.mid + 2 <= k < l.close ensures s[k] in u { assert s[k] == u[k - l.mid - 2]; }
  }

  /** The first link of a text, put together from its parts. */
  lemma FirstLinkIs(a: string, x: string, u: string, z: string)
    requires '[' !in a && ']' !in x && ')' !in u
    ensures var s, l := Linked(a, x, u, z), LinkIn(a, x, u);
            Links.FirstLink(s) == Some(l) && Links.RewriteOne(s, l, Links.TelegramAnchor) == a + Anchored(x, u) + z
  {
    var s, l := Linked(a, x, u, z), LinkIn(a, x, u);
    LinkPlaces(a, x, u, z);
    hide Linked, Links.RewriteOne, Anchored;
    LinkChars(s, l, a, x, u);
    LinkFound(s, l);
    hide LinkIn;
    RewrittenIs(s, l, a, x, u, z);
  }

  lemma LinkFound(s: string, l: Links.Link)
    requires l.open < l.mid && l.mid + 2 <= l.close < |s|
    requires s[l.open] == '[' && s[l.mid..l.mid + 2] == "](" && s[l.close] == ')'
    requires forall k :: 0 <= k < l.open ==> s[k] != '['
    requires forall k :: l.open < k < l.mid ==> s[k] != ']'
    requires forall k :: l.mid + 2 <= k < l.close ==> s[k] != ')'
    ensures Links.FirstLink(s) == Some(l) && Links.IsLink(s, l)
  {
    assert s[l.open..l.open + 1] == "[" && s[l.close..l.close + 1] == ")";
    assert StartsAt(s, l.open, "[") && StartsAt(s, l.mid, "](") && StartsAt(s, l.close, ")");
    assert Links.IsLink(s, l);
    hide StartsAt, Links.IsLink, Find;
    FindsFirst(s, "[", 0, l.open);
    FindsFirst(s, "](", l.open, l.mid);
    FindsFirst(s, ")", l.mid + 2, l.close);
  }

  lemma RewrittenIs(s: string, l: Links.Link, a: string, x: string, u: string, z: string)
    requires Links.IsLink(s, l) && s[..l.open] == a && s[l.open + 1..l.mid] == x
    requires s[l.mid + 2..l.close] == u && s[l.close + 1..] == z
    ensures Links.RewriteOne(s, l, Links.TelegramAnchor) == a + Anchored(x, u) + z
  {
    hide Links.IsLink;
    assert Links.Rendered(Links.TelegramAnchor, x, u) == Anchored(x, u);
  }

  lemma FindsFirst(s: string, p: string, from: nat, i: nat)
    requires p != "" && from <= i <= |s| && StartsAt(s, i, p)
    requires forall k :: from <= k < i ==> s[k] != p[0]
    ensures Find(s, p, from) == Some(i)
  {
    forall k | from <= k < i ensures !StartsAt(s, k, p) {
      if k + |p| <= |s| { assert s[k..k + |p|][0] == s[k]; }
    }
  }

  /** One round of the loop. */
  lemma OneLink(a: string, x: string, u: string, z: string)
    requires '[' !in a && ']' !in x && ')' !in u
    ensures Links.Rewrite(Linked(a, x, u, z), Links.TelegramAnchor)
         == Links.Rewrite(a + Anchored(x, u) + z, Links.TelegramAnchor)
  {
    hide Linked, Anchored, LinkIn;
    FirstLinkIs(a, x, u, z);
    Links.RewriteOneDropsBracket(Linked(a, x, u, z), LinkIn(a, x, u), Links.TelegramAnchor);
  }

  // An anchor that a bold tag crosses

  const CROSSED: string := "[a**](b)**"
  const CROSSED_LINK: string := "<a href=\"b\">a**</a>**"
  const CROSSED_OUT: string := "<a href=\"b\">a<b></a></b>"

  lemma CrossedLinks()
    ensures AfterLinks(CROSSED) == CROSSED_LINK
  {
    CrossedPlain();
    hide CROSSED, CROSSED_LINK, Links.Rewrite, EscapeHtml, Anchored, Linked;
    InlineTags.EscapedPlain(CROSSED);
    OneLink("", "a**", "b", "**");
    InlineTags.NoLink(CROSSED_LINK);
  }

  lemma CrossedPlain()
    ensures '&' !in CROSSED && '<' !in CROSSED && '>' !in CROSSED && '[' !in CROSSED_LINK
    ensures CROSSED == Linked("", "a**", "b", "**") && "" + Anchored("a**", "b") + "**" == CROSSED_LINK
  {}

  lemma CrossedPieces()
    ensures var head := "<a href=\"b\">a";
            && CROSSED_LINK == head + ("**" + ("</a>" + ("**" + "")))
            && CROSSED_OUT == head + ("<b>" + ("</a>" + ("</b>" + "")))
            && '*' !in head && '`' !in head
  {}

  lemma TwoDoubles(head: string, mid: string, tail: string)
    requires '*' !in head && '`' !in head && '*' !in mid && '`' !in mid && '*' !in tail && '`' !in tail
    ensures var t := head + ("**" + (mid + ("**" + tail)));
            Pass(t, Start(t)) == head + ("<b>" + (mid + ("</b>" + tail)))
  {
    var t := head + ("**" + (mid + ("**" + tail)));
    var a, b := "**" + (mid + ("**" + tail)), "**" + tail;
    assert tail + "" == tail;
    assert a[2..] == mid + b && b[2..] == tail;
    var st := State(2, 0, false, false, false);
    DelimsSkip(head, a);
    DelimsDouble(a);
    DelimsSkip(mid, b);
    DelimsDouble(b);
    DelimsSkip(tail, "");
    NothingFound();
    hide Delims;
    assert Start(t) == st;
    PassCopies(head, a, st);
    PassCopies(mid, b, st.AfterBold());
    PassCopies(tail, "", st.AfterBold().AfterBold());
    BoldFirst(mid + b, st);
    BoldFirst(tail, st.AfterBold());
  }

  lemma BoldFirst(rest: string, st: State)
    requires st.doubles > 0
    ensures Pass("**" + rest, st) == st.BoldTag() + Pass(rest, st.AfterBold())
  {
    assert ("**" + rest)[2..] == rest;
  }

  lemma CrossedTags()
    ensures ReadTags(CROSSED_OUT) == [Tag(Anchor, true), Tag(Bold, true), Tag(Anchor, false), Tag(Bold, false)]
  {
    CrossedSpelled();
    hide CROSSED_OUT, Spelled, ReadTags;
    NothingRead();
    ReadFirst(Tag(Bold, false), "");
    ReadFirst(Tag(Anchor, false), Spelled(Tag(Bold, false)) + "");
    var rest := Spelled(Tag(Bold, true)) + (Spelled(Tag(Anchor, false)) + (Spelled(Tag(Bold, false)) + ""));
    ReadFirst(Tag(Bold, true), Spelled(Tag(Anchor, false)) + (Spelled(Tag(Bold, false)) + ""));
    ReadPlain("b\">a", rest);
    ReadFirst(Tag(Anchor, true), "b\">a" + rest);
  }

  lemma NothingRead()
    ensures ReadTags("") == []
  {}

  lemma CrossedSpelled()
    ensures CROSSED_OUT
         == Spelled(Tag(Anchor, true)) + ("b\">a" + (Spelled(Tag(Bold, true))
            + (Spelled(Tag(Anchor, false)) + (Spelled(Tag(Bold, false)) + ""))))
  {}

  lemma CrossedNest()
    ensures !WellNested([Tag(Anchor, true), Tag(Bold, true), Tag(Anchor, false), Tag(Bold, false)])
  {
    var tags := [Tag(Anchor, true), Tag(Bold, true), Tag(Anchor, false), Tag(Bold, false)];
    assert tags[1..][0] == Tag(Bold, true) && tags[1..][1..][0] == Tag(Anchor, false);
  }

  /** A bold span may begin in the caption of a link and end after it. */
  lemma AnchorMayCross()
    ensures Inline.InlineOf(CROSSED) == CROSSED_OUT && !WellNested(ReadTags(CROSSED_OUT))
  {
    CrossedNest();
    CrossedTags();
    hide WellNested, ReadTags;
    hide Inline.InlineOf, AfterLinks, CROSSED, CROSSED_LINK, CROSSED_OUT, Pass, Delims;
    InlineIsPass(CROSSED);
    CrossedLinks();
    CrossedPieces();
    TwoDoubles("<a href=\"b\">a", "</a>", "");
  }

  // A link in an address

  const NESTED: string := "[a](b[c](d)e)"
  const NESTED_ONCE: string := "<a href=\"b[c](d\">a</a>e)"
  const NESTED_OUT: string := "<a href=\"b<a href=\"d\">a</a>e\">c</a>"

  lemma NestedFirst()
    ensures NESTED == Linked("", "a", "b[c](d", "e)") && "" + Anchored("a", "b[c](d") + "e)" == NESTED_ONCE
    ensures '&' !in NESTED && '<' !in NESTED && '>' !in NESTED && '[' in "b[c](d"
  {}

  lemma NestedSecond()
    ensures NESTED_ONCE == Linked("<a href=\"b", "c", "d\">a</a>e", "")
    ensures "<a href=\"b" + Anchored("c", "d\">a</a>e") + "" == NESTED_OUT
  {}

  lemma NestedPlain()
    ensures '[' !in NESTED_OUT && '*' !in NESTED_OUT && '`' !in NESTED_OUT
  {}

  lemma NestedPieces()
    ensures NESTED_OUT == "" + (OPENING + ("b" + ("<a href=\"d\">a</a>e\">c</a>")))
  {}

  lemma PlainPass(t: string)
    requires '*' !in t && '`' !in t
    ensures Pass(t, Start(t)) == t
  {
    assert t + "" == t;
    hide Delims;
    PassCopies(t, "", Start(t));
  }

  /** A link that begins in the address of another cuts that anchor off. */
  lemma LinkInAddressBreaks()
    ensures Inline.InlineOf(NESTED) == NESTED_OUT && !WholeAnchors(NESTED_OUT)
  {
    NestedFirst();
    NestedSecond();
    NestedPlain();
    NestedPieces();
    hide NESTED, NESTED_ONCE, NESTED_OUT, Links.Rewrite, EscapeHtml, Inline.InlineOf, Pass, WholeAnchors, Delims,
         Linked, Anchored, OPENING;
    InlineTags.EscapedPlain(NESTED);
    OneLink("", "a", "b[c](d", "e)");
    OneLink("<a href=\"b", "c", "d\">a</a>e", "");
    InlineTags.NoLink(NESTED_OUT);
    InlineIsPass(NESTED);
    PlainPass(NESTED_OUT);
    BrokenAddress("", "b", "<a href=\"d\">a</a>e\">c</a>");
  }

  // Bold in an address

  const STARRED: string := "[x](a**b**)"
  const STARRED_LINK: string := "<a href=\"a**b**\">x</a>"
  const STARRED_OUT: string := "<a href=\"a<b>b</b>\">x</a>"

  lemma StarredLinks()
    ensures AfterLinks(STARRED) == STARRED_LINK
  {
    StarredPlain();
    hide STARRED, STARRED_LINK, Links.Rewrite, EscapeHtml, Anchored, Linked;
    InlineTags.EscapedPlain(STARRED);
    OneLink("", "x", "a**b**", "");
    InlineTags.NoLink(STARRED_LINK);
  }

  lemma StarredPlain()
    ensures '&' !in STARRED && '<' !in STARRED && '>' !in STARRED && '[' !in STARRED_LINK
    ensures STARRED == Linked("", "x", "a**b**", "") && "" + Anchored("x", "a**b**") + "" == STARRED_LINK
  {}

  lemma StarredPieces()
    ensures var head, tail := "<a href=\"a", "\">x</a>";
            && STARRED_LINK == head + ("**" + ("b" + ("**" + tail)))
            && STARRED_OUT == head + ("<b>" + ("b" + ("</b>" + tail)))
            && STARRED_OUT == "" + (OPENING + ("a" + ("<b>b</b>" + tail)))
            && '*' !in head && '`' !in head && '*' !in tail && '`' !in tail
  {}

  /** Bold in an address cuts the anchor off. */
  lemma BoldInAddressBreaks()
    ensures Inline.InlineOf(STARRED) == STARRED_OUT && !WholeAnchors(STARRED_OUT)
  {
    hide Inline.InlineOf, AfterLinks, STARRED, STARRED_LINK, STARRED_OUT, Pass, Delims, WholeAnchors;
    InlineIsPass(STARRED);
    StarredLinks();
    StarredPieces();
    TwoDoubles("<a href=\"a", "b", "\">x</a>");
    BrokenAddress("", "a", "<b>b</b>" + "\">x</a>");
  }
}
