/** HTML escaping and its inverse. */
module Escape {
  import opened Text

  function EscapeHtml(text: string): string {
    Replace(Replace(Replace(text, "&", "&amp;"), "<", "&lt;"), ">", "&gt;")
  }

  /** Reading the three entities back. */
  function UnescapeHtml(s: string): string {
    if s == "" then ""
    else if "&amp;" <= s then "&" + UnescapeHtml(s[5..])
    else if "&lt;" <= s then "<" + UnescapeHtml(s[4..])
    else if "&gt;" <= s then ">" + UnescapeHtml(s[4..])
    else [s[0]] + UnescapeHtml(s[1..])
  }

  function Entity(c: char): string {
    if c == '&' then "&amp;" else if c == '<' then "&lt;" else if c == '>' then "&gt;" else [c]
  }

  lemma ReplaceHead(c: char, s: string, p: char, rep: string)
    ensures Replace([c] + s, [p], rep) == (if c == p then rep else [c]) + Replace(s, [p], rep)
  {
    assert ([c] + s)[1..] == s;
    assert [p] <= [c] + s <==> [p][0] == ([c] + s)[0];
  }

  lemma {:induction false} ReplaceAppend(a: string, b: string, p: char, rep: string)
    ensures Replace(a + b, [p], rep) == Replace(a, [p], rep) + Replace(b, [p], rep)
  {
    if a == "" {
      assert a + b == b;
    } else {
      assert a + b == [a[0]] + (a[1..] + b);
      assert a == [a[0]] + a[1..];
      ReplaceHead(a[0], a[1..] + b, p, rep);
      ReplaceHead(a[0], a[1..], p, rep);
      ReplaceAppend(a[1..], b, p, rep);
    }
  }

  lemma {:induction false} ReplaceAbsent(s: string, p: char, rep: string)
    requires p !in s
    ensures Replace(s, [p], rep) == s
  {
    if s == "" {
    } else {
      assert s == [s[0]] + s[1..];
      ReplaceHead(s[0], s[1..], p, rep);
      ReplaceAbsent(s[1..], p, rep);
    }
  }

  /** The three passes in order come to one entity per character: the ampersand pass runs
      first, so it never escapes an ampersand that a later pass wrote. */
  lemma EscapeCons(c: char, s: string)
    ensures EscapeHtml([c] + s) == Entity(c) + EscapeHtml(s)
  {
    var amp := Replace(s, "&", "&amp;");
    var lt := Replace(amp, "<", "&lt;");
    ReplaceHead(c, s, '&', "&amp;");
    var head := if c == '&' then "&amp;" else [c];
    ReplaceAppend(head, amp, '<', "&lt;");
    var head' := Replace(head, "<", "&lt;");
    ReplaceAppend(head', lt, '>', "&gt;");
    EscapeOne(c);
  }

  lemma EscapeOne(c: char)
    ensures var head := if c == '&' then "&amp;" else [c];
            Replace(Replace(head, "<", "&lt;"), ">", "&gt;") == Entity(c)
  {
    if c == '&' {
      ReplaceAbsent("&amp;", '<', "&lt;");
      ReplaceAbsent("&amp;", '>', "&gt;");
    } else if c == '<' {
      ReplaceHead('<', "", '<', "&lt;");
      assert Replace("<", "<", "&lt;") == "&lt;";
      ReplaceAbsent("&lt;", '>', "&gt;");
    } else {
      ReplaceAbsent([c], '<', "&lt;");
      ReplaceHead(c, "", '>', "&gt;");
      assert [c] + "" == [c];
    }
  }

  /** Unescaping what was escaped gives the text back. */
  lemma {:induction false} EscapeRoundTrip(s: string)
    ensures UnescapeHtml(EscapeHtml(s)) == s
  {
    if s == "" {
    } else {
      assert s == [s[0]] + s[1..];
      EscapeCons(s[0], s[1..]);
      EscapeRoundTrip(s[1..]);
      UnescapeEntity(s[0], EscapeHtml(s[1..]));
    }
  }

  lemma UnescapeEntity(c: char, rest: string)
    ensures UnescapeHtml(Entity(c) + rest) == [c] + UnescapeHtml(rest)
  {
    var s := Entity(c) + rest;
    assert s[|Entity(c)|..] == rest && Entity(c) <= s && s[0] == Entity(c)[0];
    if c == '<' || c == '>' { assert s[1] == Entity(c)[1]; }
  }

  /** An escaped text has no angle bracket. */
  lemma {:induction false} EscapeHasNoBrackets(s: string)
    ensures '<' !in EscapeHtml(s) && '>' !in EscapeHtml(s)
  {
    if s == "" {
    } else {
      assert s == [s[0]] + s[1..];
      EscapeCons(s[0], s[1..]);
      EscapeHasNoBrackets(s[1..]);
      assert '<' !in Entity(s[0]) && '>' !in Entity(s[0]);
    }
  }
}
