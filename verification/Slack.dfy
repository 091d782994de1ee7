/** Markdown to Slack mrkdwn. */
module Slack {
  import opened Text
  import Links
  import Pairs

  const BOLD := Pairs.Markup("**", '*', "*", "*")

  function MrkdwnOf(text: string): string {
    assert BOLD.Valid();
    Links.Rewrite(Pairs.Rewrite(text, BOLD), Links.SlackAngle)
  }

  method MarkdownToSlackMrkdwn(text: string) returns (result: string)
    ensures result == MrkdwnOf(text)
  {
    assert BOLD.Valid();
    result := Pairs.RewritePairs(text, BOLD);
    result := Links.RewriteLinks(result, Links.SlackAngle);
  }

  /** How many non-overlapping "**" a left-to-right scan finds. */
  function Doubles(s: string): nat {
    if |s| < 2 then 0
    else if s[0] == '*' && s[1] == '*' then 1 + Doubles(s[2..])
    else Doubles(s[1..])
  }

  /** A run of stars cannot cross a boundary that starts with another character. */
  lemma {:induction false} DoublesBefore(a: string, b: string)
    requires b != "" && b[0] != '*'
    ensures Doubles(a + b) == Doubles(a) + Doubles(b)
  {
    if |a| == 0 {
      assert a + b == b;
    } else if |a| == 1 {
      assert (a + b)[1..] == b;
    } else {
      assert (a + b)[1..] == a[1..] + b && (a + b)[2..] == a[2..] + b;
      DoublesBefore(a[1..], b);
      DoublesBefore(a[2..], b);
    }
  }

  lemma {:induction false} DoublesAfter(a: string, b: string)
    requires a != "" && a[|a| - 1] != '*'
    ensures Doubles(a + b) == Doubles(a) + Doubles(b)
  {
    if |a| == 1 {
      assert (a + b)[1..] == b;
    } else {
      assert (a + b)[1..] == a[1..] + b && (a + b)[2..] == a[2..] + b;
      DoublesAfter(a[1..], b);
      if |a| > 2 { DoublesAfter(a[2..], b); }
    }
  }

  /** Text between two other characters keeps its own count. */
  lemma DoublesBetween(l: string, x: string, r: string)
    requires l != "" && l[|l| - 1] != '*' && r != "" && r[0] != '*'
    requires Doubles(l) == 0
    ensures Doubles(l + x + r) == Doubles(x) + Doubles(r)
  {
    assert l + x + r == l + (x + r);
    DoublesAfter(l, x + r);
    DoublesBefore(x, r);
  }

  /** The link rewrite swaps two parts but cuts no run of stars and joins none. */
  lemma RewriteOneKeepsDoubles(s: string, l: Links.Link)
    requires Links.IsLink(s, l)
    ensures Doubles(Links.RewriteOne(s, l, Links.SlackAngle)) == Doubles(s)
  {
    SlackPieces(s, l);
    var a, x, u, z := Links.Before(s, l), Links.Caption(s, l), Links.Url(s, l), Links.After(s, l);
    DoublesParts(a, "[", x, "](", u, ")", z);
    DoublesParts(a, "<", u, "|", x, ">", z);
  }

  lemma SlackPieces(s: string, l: Links.Link)
    requires Links.IsLink(s, l)
    ensures var a, x, u, z := Links.Before(s, l), Links.Caption(s, l), Links.Url(s, l), Links.After(s, l);
            && s == a + ("[" + x + ("](" + u + (")" + z)))
            && Links.RewriteOne(s, l, Links.SlackAngle) == a + ("<" + u + ("|" + x + (">" + z)))
  {
    Links.Pieces(s, l);
    hide Links.IsLink;
    var a, x, u, z := Links.Before(s, l), Links.Caption(s, l), Links.Url(s, l), Links.After(s, l);
    Regroup(a, "[", x, "](", u, ")", z);
    assert Links.Rendered(Links.SlackAngle, x, u) == "<" + u + "|" + x + ">";
    Regroup(a, "<", u, "|", x, ">", z);
  }

  lemma Regroup(a: string, d: string, x: string, e: string, y: string, f: string, z: string)
    ensures a + d + x + e + y + f + z == a + (d + x + (e + y + (f + z)))
    ensures a + (d + x + e + y + f) + z == a + (d + x + (e + y + (f + z)))
  {}

  lemma DoublesParts(a: string, d: string, x: string, e: string, y: string, f: string, z: string)
    requires d != "" && e != "" && f != "" && '*' !in d && '*' !in e && '*' !in f
    ensures Doubles(a + (d + x + (e + y + (f + z)))) == Doubles(a) + Doubles(x) + Doubles(y) + Doubles(z)
  {
    NoStars(d);
    NoStars(e);
    NoStars(f);
    assert d[|d| - 1] in d && e[|e| - 1] in e && f[|f| - 1] in f;
    assert d[0] in d && e[0] in e && f[0] in f;
    DoublesAfter(f, z);
    DoublesBetween(e, y, f + z);
    DoublesBetween(d, x, e + y + (f + z));
    DoublesBefore(a, d + x + (e + y + (f + z)));
  }

  lemma {:induction false} NoStars(s: string)
    requires '*' !in s
    ensures Doubles(s) == 0
  {
    if |s| >= 2 { NoStars(s[1..]); }
  }

  lemma {:induction false} LinksKeepDoubles(s: string)
    ensures Doubles(Links.Rewrite(s, Links.SlackAngle)) == Doubles(s)
    decreases Count(s, '[')
  {
    match Links.FirstLink(s)
    case None =>
    case Some(l) =>
      Links.RewriteOneDropsBracket(s, l, Links.SlackAngle);
      RewriteOneKeepsDoubles(s, l);
      LinksKeepDoubles(Links.RewriteOne(s, l, Links.SlackAngle));
  }

  /** `Find` steps over the text exactly as the count does. */
  lemma {:induction false} DoublesFind(s: string, from: nat)
    requires from <= |s|
    ensures var k := Find(s, "**", from);
            Doubles(s[from..]) == if k.None? then 0 else 1 + Doubles(s[k.value + 2..])
    decreases |s| - from
  {
    assert from + 2 <= |s| && s[from] == '*' && s[from + 1] == '*' ==> s[from..from + 2] == "**";
    if StartsAt(s, from, "**") {
      assert s[from] == s[from..from + 2][0] && s[from + 1] == s[from..from + 2][1];
      assert s[from..][2..] == s[from + 2..];
    } else if from < |s| {
      DoublesFind(s, from + 1);
      assert s[from..][1..] == s[from + 1..];
    }
  }

  /** The bold loop has something to do exactly when two "**" fit side by side. */
  lemma PairIffTwoDoubles(s: string)
    ensures Pairs.FirstPair(s, "**").Some? <==> Doubles(s) >= 2
  {
    assert s[0..] == s;
    DoublesFind(s, 0);
    match Find(s, "**", 0)
    case None =>
    case Some(k) => DoublesFind(s, k + 2);
  }

  lemma {:induction false} BoldLeavesAtMostOne(s: string)
    requires BOLD.Valid()
    ensures Doubles(Pairs.Rewrite(s, BOLD)) <= 1
    decreases Count(s, '*')
  {
    PairIffTwoDoubles(s);
    match Pairs.FirstPair(s, "**")
    case None =>
    case Some(p) =>
      Pairs.RewriteOneShrinks(s, BOLD, p);
      BoldLeavesAtMostOne(Pairs.RewriteOne(s, BOLD, p));
  }

  /** Formatting an already formatted text changes nothing. */
  lemma SlackIdempotent(text: string)
    ensures MrkdwnOf(MrkdwnOf(text)) == MrkdwnOf(text)
  {
    assert BOLD.Valid();
    var bold := Pairs.Rewrite(text, BOLD);
    var once := MrkdwnOf(text);
    BoldLeavesAtMostOne(text);
    LinksKeepDoubles(bold);
    PairIffTwoDoubles(once);
    assert Pairs.Rewrite(once, BOLD) == once;
    Links.RewriteIsLinkFree(bold, Links.SlackAngle);
    Links.RewriteFixpoint(once, Links.SlackAngle);
  }

  /** The texts that the formatter leaves alone. */
  lemma SlackFixpoint(text: string)
    ensures MrkdwnOf(text) == text <==> Doubles(text) <= 1 && Links.LinkFree(text)
  {
    assert BOLD.Valid();
    PairIffTwoDoubles(text);
    Links.RewriteFixpoint(text, Links.SlackAngle);
    if MrkdwnOf(text) == text {
      BoldLeavesAtMostOne(text);
      LinksKeepDoubles(Pairs.Rewrite(text, BOLD));
      assert Pairs.FirstPair(text, "**").None?;
    }
  }
}
