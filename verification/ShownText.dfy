/** What a reader sees of the rendered text: the tags left out and the entities read back. */
module ShownText {
  import opened Text
  import opened Escape
  import opened Tokens
  import opened Nesting
  import opened OnePass
  import opened InlineMarks
  import opened InlineAnchors
  import Inline
  import Links

  function Shown(s: string): string {
    if s == "" then ""
    else if s[0] == '<' then
      match Find(s, ">", 0)
      case None => ""
      case Some(k) => Shown(s[k + 1..])
    else if "&amp;" <= s then "&" + Shown(s[5..])
    else if "&lt;" <= s then "<" + Shown(s[4..])
    else if "&gt;" <= s then ">" + Shown(s[4..])
    else [s[0]] + Shown(s[1..])
  }

  lemma ShownTag(inner: string, rest: string)
    requires '>' !in inner
    ensures Shown("<" + inner + ">" + rest) == Shown(rest)
  {
    var s, k := "<" + inner + ">" + rest, |inner| + 1;
    assert s[k..k + 1] == ">" && StartsAt(s, k, ">");
    forall i: nat | i < k ensures !StartsAt(s, i, ">") {
      assert s[i..i + 1] == [s[i]];
      if i > 0 { assert s[i] == inner[i - 1] && s[i] in inner; }
    }
    assert Find(s, ">", 0) == Some(k) && s[k + 1..] == rest;
  }

  lemma ShownSpelled(t: Tag, rest: string)
    requires t.kind != Anchor
    ensures Shown(Spelled(t) + rest) == Shown(rest)
  {
    var s := Spelled(t);
    var inner := s[1..|s| - 1];
    SpelledWhole(t);
    hide Spelled, Shown;
    assert s + rest == "<" + inner + ">" + rest;
    ShownTag(inner, rest);
  }

  lemma SpelledWhole(t: Tag)
    requires t.kind != Anchor
    ensures var s := Spelled(t); |s| >= 3 && s == "<" + s[1..|s| - 1] + ">" && '>' !in s[1..|s| - 1]
  {}

  lemma ShownEntity(c: char, rest: string)
    ensures Shown(Entity(c) + rest) == [c] + Shown(rest)
  {
    var s := Entity(c) + rest;
    if c == '&' {
      assert "&amp;" <= s && s[5..] == rest;
    } else if c == '<' {
      assert s[..4] == "&lt;" && s[1] == 'l' && s[4..] == rest;
    } else if c == '>' {
      assert s[..4] == "&gt;" && s[1] == 'g' && s[4..] == rest;
    } else {
      assert s[0] == c && s[1..] == rest;
    }
  }

  lemma ShownPlain(c: char, rest: string)
    requires c !in {'<', '&'}
    ensures Shown([c] + rest) == [c] + Shown(rest)
  {
    assert ([c] + rest)[0] == c && ([c] + rest)[1..] == rest;
  }

  /** The text without the stars and backticks that become tags. */
  function Visible(t: string, st: State): string {
    if t == "" then ""
    else if IsDouble(t) && st.doubles > 0 then Visible(t[2..], st.AfterBold())
    else if IsTriple(t) then "***" + Visible(t[3..], st)
    else if IsDouble(t) then "**" + Visible(t[2..], st)
    else if IsStar(t) then Visible(t[1..], st.AfterItalic())
    else if t[0] == '`' && st.ticks > 0 then Visible(t[1..], st.AfterCode())
    else [t[0]] + Visible(t[1..], st)
  }

  lemma {:induction false} ShownStars(n: nat, rest: string)
    ensures Shown(Stars(n) + rest) == Stars(n) + Shown(rest)
  {
    hide Shown;
    if n == 0 {
      assert Stars(0) + rest == rest && Stars(0) + Shown(rest) == Shown(rest);
    } else {
      assert Stars(n) == "*" + Stars(n - 1);
      assert Stars(n) + rest == ['*'] + (Stars(n - 1) + rest);
      ShownPlain('*', Stars(n - 1) + rest);
      ShownStars(n - 1, rest);
      assert ['*'] + (Stars(n - 1) + Shown(rest)) == Stars(n) + Shown(rest);
    }
  }

  function Stars(n: nat): string { seq(n, _ => '*') }

  lemma ShownOther(c: char, rest: string, st: State)
    requires c !in {'*', '`'} || (c == '`' && st.ticks == 0)
    ensures Shown(Pass(EscapeHtml([c] + rest), st)) == [c] + Shown(Pass(EscapeHtml(rest), st))
  {
    hide EscapeHtml, Shown, Pass;
    EscapeCons(c, rest);
    EntityCopied(c, EscapeHtml(rest), st);
    ShownEntity(c, Pass(EscapeHtml(rest), st));
  }

  lemma EntityCopied(c: char, rest: string, st: State)
    requires c !in {'*', '`'} || (c == '`' && st.ticks == 0)
    ensures Pass(Entity(c) + rest, st) == Entity(c) + Pass(rest, st)
  {
    if c == '`' {
      assert (Entity(c) + rest)[1..] == rest;
    } else {
      EntityPlain(c);
      PassCopies(Entity(c), rest, st);
    }
  }

  lemma EntityPlain(c: char)
    requires c !in {'*', '`'}
    ensures '*' !in Entity(c) && '`' !in Entity(c)
  {}

  lemma SpelledTags(st: State)
    ensures Spelled(Tag(Bold, !st.inBold)) == st.BoldTag()
    ensures Spelled(Tag(Code, !st.inCode)) == st.CodeTag()
    ensures Spelled(Tag(Italic, !st.inItalic)) == st.ItalicTag()
  {}

  /** What is shown of an escaped text after the pass. */
  lemma {:induction false} ShownPass(t: string, st: State)
    ensures Shown(Pass(EscapeHtml(t), st)) == Visible(t, st)
    decreases |t|
  {
    hide EscapeHtml, Shown, Spelled;
    EscapeHead(t);
    EscapeStars(t);
    SpelledTags(st);
    var e := EscapeHtml(t);
    if t == "" {
      ShownNothing();
    } else if IsDouble(t) && st.doubles > 0 {
      ShownSpelled(Tag(Bold, !st.inBold), Pass(e[2..], st.AfterBold()));
      ShownPass(t[2..], st.AfterBold());
    } else if IsTriple(t) {
      assert Stars(3) == "***";
      ShownStars(3, Pass(e[3..], st));
      ShownPass(t[3..], st);
    } else if IsDouble(t) {
      assert Stars(2) == "**";
      ShownStars(2, Pass(e[2..], st));
      ShownPass(t[2..], st);
    } else if t[0] == '*' {
      assert e[1..] == EscapeHtml(t[1..]);
      ShownSpelled(Tag(Italic, !st.inItalic), Pass(e[1..], st.AfterItalic()));
      ShownPass(t[1..], st.AfterItalic());
    } else if t[0] == '`' && st.ticks > 0 {
      assert e[1..] == EscapeHtml(t[1..]);
      ShownSpelled(Tag(Code, !st.inCode), Pass(e[1..], st.AfterCode()));
      ShownPass(t[1..], st.AfterCode());
    } else {
      assert t == [t[0]] + t[1..];
      hide Pass;
      ShownOther(t[0], t[1..], st);
      ShownPass(t[1..], st);
    }
  }

  lemma ShownNothing()
    ensures Shown("") == ""
  {}

  /** What is shown of a text without links is the text without the stars and backticks that were
      made into tags. */
  lemma InlineShown(text: string)
    requires Links.LinkFree(EscapeHtml(text))
    ensures Shown(Inline.InlineOf(text)) == Visible(text, Start(text))
  {
    hide Links.LinkFree, EscapeHtml, Links.Rewrite, Inline.InlineOf, Pass, Shown, Visible, Marks, Delims;
    Links.RewriteFixpoint(EscapeHtml(text), Links.TelegramAnchor);
    InlineIsPass(text);
    EscapedMarks(text);
    MarksCount(EscapeHtml(text), true);
    MarksCount(text, false);
    ShownPass(text, Start(text));
  }

  predicate NoMarker(c: char) { c != '*' && c != '`' }

  lemma SkipHead(head: string, rest: string)
    requires forall c :: c in head ==> !NoMarker(c)
    ensures Filter(head + rest, NoMarker) == Filter(rest, NoMarker)
  {
    FilterAppend(head, rest, NoMarker);
    NothingKept(head);
  }

  lemma {:induction false} NothingKept(s: string)
    requires forall c :: c in s ==> !NoMarker(c)
    ensures Filter(s, NoMarker) == ""
  {
    if s != "" {
      assert s[0] in s && forall c :: c in s[1..] ==> c in s;
      NothingKept(s[1..]);
    }
  }

  lemma FilterFirst(c: char, a: string, b: string)
    requires Filter(a, NoMarker) == Filter(b, NoMarker)
    ensures Filter([c] + a, NoMarker) == Filter([c] + b, NoMarker)
  {
    FilterAppend([c], a, NoMarker);
    FilterAppend([c], b, NoMarker);
  }

  /** All other characters are shown, in order. */
  lemma {:induction false} VisibleKeeps(t: string, st: State)
    ensures Filter(Visible(t, st), NoMarker) == Filter(t, NoMarker)
    decreases |t|
  {
    hide Filter;
    if t == "" {
    } else if IsDouble(t) {
      var n := if IsTriple(t) && st.doubles == 0 then 3 else 2;
      var next := if st.doubles > 0 then st.AfterBold() else st;
      VisibleKeeps(t[n..], next);
      assert t == t[..n] + t[n..];
      SkipHead(t[..n], t[n..]);
      if st.doubles == 0 { SkipHead(if n == 3 then "***" else "**", Visible(t[n..], next)); }
    } else {
      assert t == [t[0]] + t[1..];
      VisibleSingle(t, st);
      if IsStar(t) {
        VisibleKeeps(t[1..], st.AfterItalic());
        SkipHead([t[0]], t[1..]);
      } else if t[0] == '`' && st.ticks > 0 {
        VisibleKeeps(t[1..], st.AfterCode());
        SkipHead([t[0]], t[1..]);
      } else {
        VisibleKeeps(t[1..], st);
        FilterFirst(t[0], Visible(t[1..], st), t[1..]);
      }
    }
  }

  lemma VisibleSingle(t: string, st: State)
    requires t != "" && !IsDouble(t)
    ensures Visible(t, st)
         == if IsStar(t) then Visible(t[1..], st.AfterItalic())
            else if t[0] == '`' && st.ticks > 0 then Visible(t[1..], st.AfterCode())
            else [t[0]] + Visible(t[1..], st)
  {}

  lemma {:induction false} PlainVisible(t: string, st: State)
    requires '*' !in t && '`' !in t
    ensures Visible(t, st) == t
  {
    if t == "" {
    } else {
      assert t[0] in t && forall c :: c in t[1..] ==> c in t;
      PlainVisible(t[1..], st);
    }
  }

  /** In a text without links every character but stars and backticks is shown, in order; without
      those the text is shown as it is. */
  lemma ContentShown(text: string)
    requires Links.LinkFree(EscapeHtml(text))
    ensures Filter(Shown(Inline.InlineOf(text)), NoMarker) == Filter(text, NoMarker)
    ensures '*' !in text && '`' !in text ==> Shown(Inline.InlineOf(text)) == text
  {
    hide Links.LinkFree, EscapeHtml, Inline.InlineOf, Shown, Visible, Filter, Delims;
    InlineShown(text);
    VisibleKeeps(text, Start(text));
    if '*' !in text && '`' !in text { PlainVisible(text, Start(text)); }
  }
}
