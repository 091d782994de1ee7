/** How many italic tags the renderer emits, and when one stays open, in terms of the stars of the
    text after the links. */
module ItalicCounts {
  import opened Text
  import opened Tokens
  import opened Nesting
  import opened OnePass
  import opened Escape
  import opened Inline
  import opened InlineMarks
  import opened InlineAnchors
  import opened InlineNesting
  import InlineTags
  import Links
  import Pairs

  function CountTag(tags: seq<Tag>, t: Tag): nat {
    if tags == [] then 0 else (if tags[0] == t then 1 else 0) + CountTag(tags[1..], t)
  }

  lemma {:induction false} OccIsCount(s: string, t: Tag)
    ensures TAGS.Occ(s, Spelled(t)) == CountTag(ReadTags(s), t)
  {
    if s == "" {
    } else {
      hide Spelled, TagAt, TAGS;
      OccIsCount(s[1..], t);
      TagAtIs(t, s);
      if TagAt(s).Some? {
        assert ([TagAt(s).value] + ReadTags(s[1..]))[1..] == ReadTags(s[1..]);
      } else {
        assert [] + ReadTags(s[1..]) == ReadTags(s[1..]);
      }
    }
  }

  lemma {:induction false} CountTagAppend(a: seq<Tag>, b: seq<Tag>, t: Tag)
    ensures CountTag(a + b, t) == CountTag(a, t) + CountTag(b, t)
  {
    if a == [] {
      assert a + b == b;
    } else {
      assert (a + b)[1..] == a[1..] + b;
      CountTagAppend(a[1..], b, t);
    }
  }

  /** Tags that open and close in turn: of an odd number the last one opens. */
  lemma {:induction false} TurnCounts(tags: seq<Tag>, kind: Kind)
    requires InTurn(tags, kind)
    ensures CountTag(tags, Tag(kind, true)) == (CountOf(tags, kind) + 1) / 2
    ensures CountTag(tags, Tag(kind, false)) == CountOf(tags, kind) / 2
  {
    if tags == [] {
    } else {
      hide CountTag, CountOf;
      var front, last := tags[..|tags| - 1], tags[|tags| - 1];
      assert tags == front + [last];
      InTurnFront(tags);
      TurnCounts(front, kind);
      hide *;
      CountLast(front, last, kind);
      CountTagAppend(front, [last], Tag(kind, true));
      CountTagAppend(front, [last], Tag(kind, false));
      OneTag(last, Tag(kind, true));
      OneTag(last, Tag(kind, false));
      Halves(CountOf(front, kind));
    }
  }

  lemma Halves(n: nat)
    ensures (n + 1 + 1) / 2 == (n + 1) / 2 + if n % 2 == 0 then 1 else 0
    ensures (n + 1) / 2 == n / 2 + if n % 2 == 0 then 0 else 1
  {}

  lemma OneTag(u: Tag, t: Tag)
    ensures CountTag([u], t) == if u == t then 1 else 0
  {
    assert [u][1..] == [];
  }

  /** How often each bold, code or italic tag comes out: as often as the stars and backticks of the
      text after the links say. */
  lemma TagCounts(text: string)
    ensures var marks, out := MarksAfterLinks(text), InlineOf(text);
            && TAGS.Occ(out, "<b>") == TAGS.Occ(out, "</b>") == CountIf(marks, HasDouble) / 2
            && TAGS.Occ(out, "<code>") == TAGS.Occ(out, "</code>") == CountIf(marks, IsTick) / 2
            && TAGS.Occ(out, "<i>") == (Italics(marks) + 1) / 2
            && TAGS.Occ(out, "</i>") == Italics(marks) / 2
  {
    hide InlineOf, MarksAfterLinks, TagsFor, InTurn, CountOf, CountTag, ReadTags, TAGS, Italics, CountIf, Matched;
    var marks, out := MarksAfterLinks(text), InlineOf(text);
    RenderedTags(text);
    CountsOf(marks);
    KindsMatch(text);
    forall t ensures TAGS.Occ(out, Spelled(t)) == CountTag(TagsFor(marks), t) { OccIsCount(out, t); }
    TurnCounts(TagsFor(marks), Bold);
    TurnCounts(TagsFor(marks), Code);
    TurnCounts(TagsFor(marks), Italic);
    assert Spelled(Tag(Bold, true)) == "<b>" && Spelled(Tag(Bold, false)) == "</b>";
    assert Spelled(Tag(Code, true)) == "<code>" && Spelled(Tag(Code, false)) == "</code>";
    assert Spelled(Tag(Italic, true)) == "<i>" && Spelled(Tag(Italic, false)) == "</i>";
  }

  // Parity

  lemma {:induction false} StarsSkip(a: string, rest: string)
    requires '*' !in a
    ensures Count(a + rest, '*') == Count(rest, '*')
  {
    CountAppend(a, rest, '*');
    CountAbsent(a, '*');
  }

  lemma StarryFirst(m: Mark, rest: seq<Mark>)
    ensures Starry([m] + rest) == (if HasStar(m) then 1 else 0) + Starry(rest)
  {
    CountIfFirst(m, rest, HasStar);
  }

  /** Outside its doubles a text has as many stars, up to parity, as it has in all. */
  lemma {:induction false} StarParity(t: string, rendered: bool)
    ensures Count(t, '*') % 2 == Starry(Marks(t, rendered)) % 2
    decreases |t|
  {
    AnchorShape();
    hide OPENING, CLOSING, Starry, Count;
    if t == "" {
      NoStars(rendered);
    } else if IsDouble(t) {
      var n := if IsTriple(t) then 3 else 2;
      StarParity(t[n..], rendered);
      DoubleParity(t, rendered);
    } else if rendered && (OPENING <= t || CLOSING <= t) && t[0] !in {'*', '`'} {
      var token := if OPENING <= t then OPENING else CLOSING;
      assert t == token + t[|token|..];
      StarsSkip(token, t[|token|..]);
      StarParity(t[|token|..], rendered);
      StarryFirst(if OPENING <= t then AnchorOpen else AnchorClose, Marks(t[|token|..], rendered));
    } else {
      assert t == [t[0]] + t[1..];
      CountAppend([t[0]], t[1..], '*');
      OneStar(t[0]);
      StarParity(t[1..], rendered);
      if t[0] == '*' {
        StarryFirst(Star, Marks(t[1..], rendered));
      } else if t[0] == '`' {
        StarryFirst(Tick, Marks(t[1..], rendered));
      }
    }
  }

  lemma DoubleParity(t: string, rendered: bool)
    requires IsDouble(t)
    ensures var n := if IsTriple(t) then 3 else 2;
            && Count(t, '*') == n + Count(t[n..], '*')
            && Starry(Marks(t, rendered)) == (if IsTriple(t) then 1 else 0) + Starry(Marks(t[n..], rendered))
  {
    hide OPENING, CLOSING, Starry, Count;
    var n := if IsTriple(t) then 3 else 2;
    assert t == t[..n] + t[n..];
    CountAppend(t[..n], t[n..], '*');
    StarCount(t[..n]);
    StarryFirst(if IsTriple(t) then Triple else Double, Marks(t[n..], rendered));
  }

  lemma NoStars(rendered: bool)
    ensures Count("", '*') == 0 && Starry(Marks("", rendered)) == 0
  {}

  lemma OneStar(c: char)
    ensures Count([c], '*') == if c == '*' then 1 else 0
  {}

  lemma {:induction false} StarCount(s: string)
    requires forall i :: 0 <= i < |s| ==> s[i] == '*'
    ensures Count(s, '*') == |s|
  {
    if s != "" { StarCount(s[1..]); }
  }

  /** An italic tag stays open exactly when the text after the links has an odd number of stars, or
      rather an even one if three stars stand where the double is left over. */
  lemma ItalicStaysOpenIff(text: string)
    ensures var out := InlineOf(text);
            TAGS.Occ(out, "<i>") - TAGS.Occ(out, "</i>")
            == if (Count(AfterLinks(text), '*') % 2 == 1) != KeptTriple(MarksAfterLinks(text)) then 1 else 0
  {
    hide InlineOf, AfterLinks, Marks, TAGS, CountIf, Count;
    TagCounts(text);
    StarParity(AfterLinks(text), true);
  }

  /** In a text without links: the text itself. */
  lemma ItalicStaysOpenInPlain(text: string)
    requires Links.LinkFree(EscapeHtml(text))
    ensures var out := InlineOf(text);
            TAGS.Occ(out, "<i>") - TAGS.Occ(out, "</i>")
            == if (Count(text, '*') % 2 == 1) != KeptTriple(Marks(text, false)) then 1 else 0
  {
    hide InlineOf, AfterLinks, Marks, TAGS, CountIf, Count, Links.LinkFree, EscapeHtml;
    ItalicStaysOpenIff(text);
    PlainAfterLinks(text);
    StarParity(AfterLinks(text), true);
    StarParity(text, false);
  }
}
