/** The Markdown link loop that every output format runs, with the format's own
    rendering of one link. */
module Links {
  import opened Text

  datatype Style = TelegramAnchor | SlackAngle | PlainParens

  function Rendered(style: Style, caption: string, url: string): string {
    match style
    case TelegramAnchor => "<a href=\"" + url + "\">" + caption + "</a>"
    case SlackAngle => "<" + url + "|" + caption + ">"
    case PlainParens => caption + " (" + url + ")"
  }

  /** Indices of '[', of "](" and of ')'. */
  datatype Link = Link(open: nat, mid: nat, close: nat)

  predicate IsLink(s: string, l: Link) {
    && l.open < l.mid && l.mid + 2 <= l.close < |s|
    && s[l.open] == '[' && StartsAt(s, l.mid, "](") && s[l.close] == ')'
  }

  /** The link the loop rewrites next: the first '[', the first "](" after it, and the
      first ')' after that. */
  function FirstLink(s: string): (r: Option<Link>)
    ensures r.Some? ==> IsLink(s, r.value)
  {
    match Find(s, "[", 0)
    case None => None
    case Some(open) =>
      match Find(s, "](", open)
      case None => None
      case Some(mid) =>
        match Find(s, ")", mid + 2)
        case None => None
        case Some(close) =>
          assert s[open] == '[' && s[mid] == "]("[0];
          Some(Link(open, mid, close))
  }

  lemma FirstLinkFindsAny(s: string, l: Link)
    requires IsLink(s, l)
    ensures FirstLink(s).Some?
  {
    assert StartsAt(s, l.open, "[");
    var open := Find(s, "[", 0).value;
    assert Find(s, "](", open).Some?;
    var mid := Find(s, "](", open).value;
    assert StartsAt(s, l.close, ")");
  }

  /** `s` cut at the four pieces of link syntax. */
  function Before(s: string, l: Link): string requires IsLink(s, l) { s[..l.open] }

  function Caption(s: string, l: Link): string requires IsLink(s, l) { s[l.open + 1..l.mid] }

  function Url(s: string, l: Link): string requires IsLink(s, l) { s[l.mid + 2..l.close] }

  function After(s: string, l: Link): string requires IsLink(s, l) { s[l.close + 1..] }

  lemma Pieces(s: string, l: Link)
    requires IsLink(s, l)
    ensures s == Before(s, l) + "[" + Caption(s, l) + "](" + Url(s, l) + ")" + After(s, l)
  {
    assert s[l.mid..l.mid + 2] == "](";
    assert s == s[..l.open] + [s[l.open]] + s[l.open + 1..l.mid] + s[l.mid..l.mid + 2]
             + s[l.mid + 2..l.close] + [s[l.close]] + s[l.close + 1..];
  }

  function RewriteOne(s: string, l: Link, style: Style): string
    requires IsLink(s, l)
  {
    Before(s, l) + Rendered(style, Caption(s, l), Url(s, l)) + After(s, l)
  }

  /** A rendering keeps both parts and adds no link syntax. */
  lemma RenderedCount(style: Style, caption: string, url: string, c: char)
    requires c in {'[', ']', '*', '`'}
    ensures Count(Rendered(style, caption, url), c) == Count(caption, c) + Count(url, c)
  {
    match style
    case TelegramAnchor => AnchorCount(caption, url, c);
    case SlackAngle => CountFive("<", url, "|", caption, ">", c);
    case PlainParens =>
      assert Rendered(style, caption, url) == "" + caption + " (" + url + ")";
      CountFive("", caption, " (", url, ")", c);
      CountAbsent(" (", c);
  }

  lemma AnchorCount(caption: string, url: string, c: char)
    requires c in {'[', ']', '*', '`'}
    ensures Count(Rendered(TelegramAnchor, caption, url), c) == Count(caption, c) + Count(url, c)
  {
    var opening, middle, closing := "<a href=\"", "\">", "</a>";
    assert c !in opening && c !in middle && c !in closing;
    CountAbsent(opening, c);
    CountAbsent(middle, c);
    CountAbsent(closing, c);
    CountFive(opening, url, middle, caption, closing, c);
  }

  lemma SyntaxCount(c: char)
    requires c in {'[', ']', '*', '`'}
    ensures Count("[", c) == if c == '[' then 1 else 0
    ensures Count("](", c) == if c == ']' then 1 else 0
    ensures Count(")", c) == 0
  {}

  /** What one rewrite does to the count of a delimiter: the brackets of the link are gone,
      stars and backticks are neither lost nor added. */
  lemma RewriteOneCount(s: string, l: Link, style: Style, c: char)
    requires IsLink(s, l) && c in {'[', ']', '*', '`'}
    ensures Count(s, c) == Count(RewriteOne(s, l, style), c) + if c in {'[', ']'} then 1 else 0
  {
    hide Count, Rendered;
    var a, b, u, z := Before(s, l), Caption(s, l), Url(s, l), After(s, l);
    Pieces(s, l);
    assert s == a + ("[" + b) + ("](" + u) + ")" + z;
    CountFive(a, "[" + b, "](" + u, ")", z, c);
    CountAppend("[", b, c);
    CountAppend("](", u, c);
    SyntaxCount(c);
    CountAppend(a, Rendered(style, b, u), c);
    CountAppend(a + Rendered(style, b, u), z, c);
    RenderedCount(style, b, u, c);
  }

  /** The text grows, but one '[' is gone after each rewrite. */
  lemma RewriteOneDropsBracket(s: string, l: Link, style: Style)
    requires IsLink(s, l)
    ensures Count(RewriteOne(s, l, style), '[') == Count(s, '[') - 1
  {
    RewriteOneCount(s, l, style, '[');
  }

  /** The fixpoint the loop reaches. */
  function Rewrite(s: string, style: Style): string
    decreases Count(s, '[')
  {
    match FirstLink(s)
    case None => s
    case Some(l) =>
      RewriteOneDropsBracket(s, l, style);
      Rewrite(RewriteOne(s, l, style), style)
  }

  /** How many links the loop rewrites. */
  function Rounds(s: string, style: Style): nat
    decreases Count(s, '[')
  {
    match FirstLink(s)
    case None => 0
    case Some(l) =>
      RewriteOneDropsBracket(s, l, style);
      1 + Rounds(RewriteOne(s, l, style), style)
  }

  method RewriteLinks(text: string, style: Style) returns (result: string)
    ensures result == Rewrite(text, style)
  {
    result := text;
    var link := FirstLink(result);
    while link.Some?
      invariant link == FirstLink(result)
      invariant Rewrite(result, style) == Rewrite(text, style)
      decreases Count(result, '[')
    {
      RewriteOneDropsBracket(result, link.value, style);
      result := RewriteOne(result, link.value, style);
      link := FirstLink(result);
    }
  }

  /** No '[' is later followed by "](" and then by ')'. */
  ghost predicate LinkFree(s: string) { forall l :: !IsLink(s, l) }

  lemma {:induction false} RewriteIsLinkFree(s: string, style: Style)
    ensures LinkFree(Rewrite(s, style))
    decreases Count(s, '[')
  {
    match FirstLink(s)
    case None =>
      forall l | IsLink(s, l) ensures false { FirstLinkFindsAny(s, l); }
    case Some(l) =>
      RewriteOneDropsBracket(s, l, style);
      RewriteIsLinkFree(RewriteOne(s, l, style), style);
  }

  lemma {:induction false} RewriteNeverAddsBrackets(s: string, style: Style)
    ensures Count(Rewrite(s, style), '[') <= Count(s, '[')
    decreases Count(s, '[')
  {
    match FirstLink(s)
    case None =>
    case Some(l) =>
      RewriteOneDropsBracket(s, l, style);
      RewriteNeverAddsBrackets(RewriteOne(s, l, style), style);
  }

  /** The loop leaves a text alone exactly when the text has no link left. */
  lemma RewriteFixpoint(s: string, style: Style)
    ensures Rewrite(s, style) == s <==> LinkFree(s)
  {
    match FirstLink(s)
    case None => RewriteIsLinkFree(s, style);
    case Some(l) =>
      RewriteOneDropsBracket(s, l, style);
      RewriteNeverAddsBrackets(RewriteOne(s, l, style), style);
  }

  // One round

  function LinkText(before: string, caption: string, url: string, after: string): string {
    before + "[" + caption + "](" + url + ")" + after
  }

  /** The link that the loop takes next is the one between `before` and `after`: no bracket opens
      before it, its caption ends at the first chance, and so does its address. */
  predicate IsNext(before: string, caption: string, url: string) {
    '[' !in before && Find(caption + "]", "](", 0).None? && ')' !in url
  }

  /** One round of the loop keeps what is around the link; the link becomes its caption and its
      address in the way of the format. */
  lemma LinkRound(before: string, caption: string, url: string, after: string, style: Style)
    requires IsNext(before, caption, url)
    ensures Rewrite(before + "[" + caption + "](" + url + ")" + after, style)
         == Rewrite(before + (match style
                              case TelegramAnchor => "<a href=\"" + url + "\">" + caption + "</a>"
                              case SlackAngle => "<" + url + "|" + caption + ">"
                              case PlainParens => caption + " (" + url + ")") + after, style)
  {
    FirstIsNext(before, caption, url, after);
    hide FirstLink, Count;
  }

  lemma FirstIsNext(before: string, caption: string, url: string, after: string)
    requires IsNext(before, caption, url)
    ensures var s, open := LinkText(before, caption, url, after), |before|;
            var mid := open + 1 + |caption|;
            && FirstLink(s) == Some(Link(open, mid, mid + 2 + |url|))
            && Before(s, FirstLink(s).value) == before && Caption(s, FirstLink(s).value) == caption
            && Url(s, FirstLink(s).value) == url && After(s, FirstLink(s).value) == after
  {
    hide LinkText, StartsAt;
    var s := LinkText(before, caption, url, after);
    var open := |before|;
    var mid := open + 1 + |caption|;
    var close := mid + 2 + |url|;
    PiecesAt(before, caption, url, after);
    NotAt(s, 0, open, "[");
    MiddleIsFirst(s, caption, open + 1, mid);
    NotBracket(s, open);
    NotAt(s, mid + 2, close, ")");
    assert Find(s, "[", 0) == Some(open) && Find(s, "](", open) == Some(mid) && Find(s, ")", mid + 2) == Some(close);
  }

  lemma MiddleIsFirst(s: string, caption: string, a: nat, mid: nat)
    requires a <= mid && mid + 2 <= |s| && s[a..mid] == caption && s[mid..mid + 2] == "]("
    requires Find(caption + "]", "](", 0).None?
    ensures forall i :: a <= i < mid ==> !StartsAt(s, i, "](")
  {
    var t := s[a..mid + 1];
    EndsInBracket(s, caption, a, mid);
    forall i | a <= i < mid ensures !StartsAt(s, i, "](") {
      assert !StartsAt(t, i - a, "](");
      SamePlace(s, a, mid + 1, i);
    }
  }

  lemma EndsInBracket(s: string, caption: string, a: nat, mid: nat)
    requires a <= mid && mid + 2 <= |s| && s[a..mid] == caption && s[mid..mid + 2] == "]("
    ensures s[a..mid + 1] == caption + "]"
  {
    assert s[mid] == s[mid..mid + 2][0] == ']';
    assert s[a..mid + 1] == s[a..mid] + [s[mid]];
  }

  lemma SamePlace(s: string, a: nat, b: nat, i: nat)
    requires a <= i && i + 2 <= b <= |s|
    ensures s[i..i + 2] == s[a..b][i - a..i - a + 2]
  {
    assert s[i] == s[a..b][i - a] && s[i + 1] == s[a..b][i - a + 1];
  }

  lemma NotAt(s: string, a: nat, b: nat, p: string)
    requires a <= b <= |s| && p != "" && p[0] !in s[a..b]
    ensures forall i :: a <= i < b ==> !StartsAt(s, i, p)
  {
    forall i | a <= i < b ensures !StartsAt(s, i, p) {
      assert s[i] == s[a..b][i - a] && s[i] in s[a..b];
    }
  }

  lemma NotBracket(s: string, i: nat)
    requires i < |s| && s[i] == '['
    ensures !StartsAt(s, i, "](")
  {}

  lemma PiecesAt(before: string, caption: string, url: string, after: string)
    ensures var s, open := LinkText(before, caption, url, after), |before|;
            var mid := open + 1 + |caption|;
            var close := mid + 2 + |url|;
            && s[..open] == before && s[open] == '[' && s[open + 1..mid] == caption
            && s[mid..mid + 2] == "](" && s[mid + 2..close] == url && s[close] == ')' && s[close + 1..] == after
            && StartsAt(s, open, "[") && StartsAt(s, mid, "](") && StartsAt(s, close, ")")
  {}
}
