/** Markdown to plain text. */
module PlainText {
  import opened Text
  import opened Emphasis
  import Links

  function PlainOf(text: string): string {
    var noBold := Replace(text, "**", "");
    var noItalic := DropFrom(noBold, 0);
    var noCode := Replace(noItalic, "`", "");
    Links.Rewrite(noCode, Links.PlainParens)
  }

  method MarkdownToPlain(text: string) returns (result: string)
    ensures result == PlainOf(text)
  {
    result := Replace(text, "**", "");
    result := DropIsolatedStars(result);
    result := Replace(result, "`", "");
    result := Links.RewriteLinks(result, Links.PlainParens);
  }

  predicate NotTick(c: char) { c != '`' }

  predicate NotMarker(c: char) { c != '*' && c != '`' }

  lemma {:induction false} RemoveTicks(s: string)
    ensures Replace(s, "`", "") == Filter(s, NotTick)
  {
    if s == "" {
    } else {
      assert "`" <= s <==> s[0] == "`"[0];
      RemoveTicks(s[1..]);
    }
  }

  lemma {:induction false} FilterTwice(s: string)
    ensures Filter(Filter(s, NotStar), NotTick) == Filter(s, NotMarker)
  {
    if s == "" {
    } else {
      FilterTwice(s[1..]);
      FilterAppend(if NotStar(s[0]) then [s[0]] else "", Filter(s[1..], NotStar), NotTick);
    }
  }

  /** The pair removal, the isolated-star removal and the backtick removal are together
      one filter, whatever runs of stars the text has. */
  lemma PlainIsOneFilter(text: string)
    ensures PlainOf(text) == Links.Rewrite(Filter(text, NotMarker), Links.PlainParens)
  {
    var noBold := Replace(text, "**", "");
    RemovePairs(text);
    DropFromSparse(noBold, 0);
    assert noBold[0..] == noBold;
    RemoveTicks(Filter(text, NotStar));
    FilterTwice(text);
  }

  lemma {:induction false} FilterLacks(s: string)
    ensures Count(Filter(s, NotMarker), '*') == 0 && Count(Filter(s, NotMarker), '`') == 0
  {
    if s == "" {
    } else {
      FilterLacks(s[1..]);
      var head := if NotMarker(s[0]) then [s[0]] else "";
      CountAppend(head, Filter(s[1..], NotMarker), '*');
      CountAppend(head, Filter(s[1..], NotMarker), '`');
    }
  }

  lemma {:induction false} LinksKeepCount(s: string, c: char)
    requires c in {'*', '`'}
    ensures Count(Links.Rewrite(s, Links.PlainParens), c) == Count(s, c)
    decreases Count(s, '[')
  {
    match Links.FirstLink(s)
    case None =>
    case Some(l) =>
      Links.RewriteOneDropsBracket(s, l, Links.PlainParens);
      Links.RewriteOneCount(s, l, Links.PlainParens, c);
      LinksKeepCount(Links.RewriteOne(s, l, Links.PlainParens), c);
  }

  lemma {:induction false} FilterNothing(s: string)
    requires Count(s, '*') == 0 && Count(s, '`') == 0
    ensures Filter(s, NotMarker) == s
  {
    if s == "" {
    } else {
      FilterNothing(s[1..]);
    }
  }

  /** Plain text has no star, no backtick and no link, and is left alone from then on. */
  lemma PlainIsClean(text: string)
    ensures Count(PlainOf(text), '*') == 0 && Count(PlainOf(text), '`') == 0
    ensures Links.LinkFree(PlainOf(text))
    ensures PlainOf(PlainOf(text)) == PlainOf(text)
  {
    var filtered := Filter(text, NotMarker);
    var plain := PlainOf(text);
    PlainIsOneFilter(text);
    FilterLacks(text);
    LinksKeepCount(filtered, '*');
    LinksKeepCount(filtered, '`');
    Links.RewriteIsLinkFree(filtered, Links.PlainParens);
    PlainIsOneFilter(plain);
    FilterNothing(plain);
    Links.RewriteFixpoint(plain, Links.PlainParens);
  }
}
