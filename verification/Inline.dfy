/** Inline Markdown to Telegram HTML: escape, then links, bold, code and italic. */
module Inline {
  import opened Text
  import opened Tokens
  import opened Escape
  import Emphasis
  import Links
  import Pairs

  const BOLD := Pairs.Markup("**", '*', "<b>", "</b>")
  const CODE := Pairs.Markup("`", '`', "<code>", "</code>")

  /** The tags the formatter may emit. */
  const TAGS := Vocabulary('<',
                           {"<a href=\"", "</a>", "<b>", "</b>", "<code>", "</code>", "<i>", "</i>",
                            "<pre>", "</pre>", "<blockquote>", "</blockquote>"},
                           {'>', '"'})

  /** The character entities an escaped text may contain. */
  const ENTITIES := Vocabulary('&', {"&amp;", "&lt;", "&gt;"}, {';'})

  // The italic pass

  /** `s` from index `i` on, each isolated star replaced by an opening or closing tag in turn. */
  function ItalicFrom(s: string, i: nat, inItalic: bool): string
    requires i <= |s|
    decreases |s| - i
  {
    if i == |s| then ""
    else if Emphasis.Isolated(s, i) then
      (if inItalic then "</i>" else "<i>") + ItalicFrom(s, i + 1, !inItalic)
    else [s[i]] + ItalicFrom(s, i + 1, inItalic)
  }

  method RenderItalic(chars: string) returns (out: string)
    ensures out == ItalicFrom(chars, 0, false)
  {
    hide Emphasis.Isolated;
    out := "";
    var i := 0;
    var inItalic := false;
    while i < |chars|
      invariant i <= |chars|
      invariant out + ItalicFrom(chars, i, inItalic) == ItalicFrom(chars, 0, false)
    {
      if Emphasis.Isolated(chars, i) {
        out := out + if inItalic then "</i>" else "<i>";
        inItalic := !inItalic;
      } else {
        out := out + [chars[i]];
      }
      i := i + 1;
    }
  }

  /** How many isolated stars there are from index `i` on. */
  function IsolatedStars(s: string, i: nat): nat
    requires i <= |s|
    decreases |s| - i
  {
    if i == |s| then 0
    else (if Emphasis.Isolated(s, i) then 1 else 0) + IsolatedStars(s, i + 1)
  }

  // The four passes

  lemma MarkupValid()
    ensures BOLD.Valid() && CODE.Valid()
  {
    hide Count;
    CountAbsent("<b>", '*');
    CountAbsent("</b>", '*');
    CountAbsent("<code>", '`');
    CountAbsent("</code>", '`');
  }

  /** The text after the link, bold and code passes. */
  function BeforeItalic(text: string): string {
    MarkupValid();
    Pairs.Rewrite(Pairs.Rewrite(Links.Rewrite(EscapeHtml(text), Links.TelegramAnchor), BOLD), CODE)
  }

  function InlineOf(text: string): string {
    ItalicFrom(BeforeItalic(text), 0, false)
  }

  method RenderInlineMarkdown(text: string) returns (out: string)
    ensures out == InlineOf(text)
  {
    MarkupValid();
    var result := EscapeHtml(text);
    result := Links.RewriteLinks(result, Links.TelegramAnchor);
    result := Pairs.RewritePairs(result, BOLD);
    result := Pairs.RewritePairs(result, CODE);
    out := RenderItalic(result);
  }
}
