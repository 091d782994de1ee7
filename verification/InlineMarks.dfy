/** The delimiters of a text, and the tags that the renderer makes of them. */
module InlineMarks {
  import opened Text
  import opened Tokens
  import opened Nesting
  import opened OnePass
  import Inline
  import Pairs

  // Reading tags

  function Spelled(t: Tag): string {
    match t.kind
    case Anchor => if t.opens then "<a href=\"" else "</a>"
    case Bold => if t.opens then "<b>" else "</b>"
    case Code => if t.opens then "<code>" else "</code>"
    case Italic => if t.opens then "<i>" else "</i>"
  }

  /** The tag that begins at the head of `s`, if one does. */
  function TagAt(s: string): Option<Tag> {
    if Spelled(Tag(Anchor, true)) <= s then Some(Tag(Anchor, true))
    else if Spelled(Tag(Anchor, false)) <= s then Some(Tag(Anchor, false))
    else if Spelled(Tag(Bold, true)) <= s then Some(Tag(Bold, true))
    else if Spelled(Tag(Bold, false)) <= s then Some(Tag(Bold, false))
    else if Spelled(Tag(Code, true)) <= s then Some(Tag(Code, true))
    else if Spelled(Tag(Code, false)) <= s then Some(Tag(Code, false))
    else if Spelled(Tag(Italic, true)) <= s then Some(Tag(Italic, true))
    else if Spelled(Tag(Italic, false)) <= s then Some(Tag(Italic, false))
    else None
  }

  /** The tags of a rendered text, in order. */
  function ReadTags(s: string): seq<Tag> {
    if s == "" then []
    else (if TagAt(s).Some? then [TagAt(s).value] else []) + ReadTags(s[1..])
  }

  /** The tags by their second and third characters. */
  lemma SpelledShape(t: Tag)
    ensures var s := Spelled(t);
            && |s| >= 3 && s[0] == '<' && (s[1] == '/' <==> !t.opens)
            && s[if t.opens then 1 else 2]
               == (match t.kind case Anchor => 'a' case Bold => 'b' case Code => 'c' case Italic => 'i')
    ensures forall i :: 1 <= i < |Spelled(t)| ==> Spelled(t)[i] !in {'<', '*', '`', '['}
  {}

  lemma SpelledApart(t: Tag, u: Tag, s: string)
    requires Spelled(t) <= s && Spelled(u) <= s
    ensures t == u
  {
    SpelledShape(t);
    SpelledShape(u);
    hide Spelled;
    var x, y := Spelled(t), Spelled(u);
    assert x == s[..|x|] && y == s[..|y|];
    assert x[0] == s[0] && x[1] == s[1] && x[2] == s[2];
    assert y[0] == s[0] && y[1] == s[1] && y[2] == s[2];
  }

  lemma TagAtIs(t: Tag, s: string)
    ensures TagAt(s) == Some(t) <==> Spelled(t) <= s
  {
    TagCases(t);
    if Spelled(t) <= s {
      forall u | Spelled(u) <= s ensures u == t { SpelledApart(t, u, s); }
    }
    hide Spelled;
  }

  lemma TagCases(t: Tag)
    ensures t in {Tag(Anchor, true), Tag(Anchor, false), Tag(Bold, true), Tag(Bold, false), Tag(Code, true),
                  Tag(Code, false), Tag(Italic, true), Tag(Italic, false)}
  {
    match t.kind
    case Anchor =>
    case Bold =>
    case Code =>
    case Italic =>
  }

  lemma SpelledHead(t: Tag, s: string)
    ensures Spelled(t) <= s ==> s != "" && s[0] == '<'
  {
    SpelledShape(t);
    hide Spelled;
    if Spelled(t) <= s { assert Spelled(t)[0] == s[0]; }
  }

  lemma NoTagAt(s: string)
    requires s == "" || s[0] != '<'
    ensures TagAt(s) == None
  {
    hide Spelled;
    forall t ensures !(Spelled(t) <= s) { SpelledHead(t, s); }
  }

  lemma {:induction false} ReadPlain(a: string, rest: string)
    requires '<' !in a
    ensures ReadTags(a + rest) == ReadTags(rest)
  {
    if a == "" {
      assert a + rest == rest;
    } else {
      assert (a + rest)[1..] == a[1..] + rest;
      assert a[0] in a;
      NoTagAt(a + rest);
      hide TagAt;
      ReadPlain(a[1..], rest);
    }
  }

  lemma ReadFirst(t: Tag, rest: string)
    ensures ReadTags(Spelled(t) + rest) == [t] + ReadTags(rest)
  {
    hide TagAt, Spelled;
    SpelledShape(t);
    var s := Spelled(t) + rest;
    assert s[1..] == Spelled(t)[1..] + rest;
    TagAtIs(t, s);
    ReadPlain(Spelled(t)[1..], rest);
  }

  // The delimiters

  /** What stands in a text, read from the left: two stars, three of which the last is single, one
      star, a backtick, and the two ends of an anchor. */
  datatype Mark = Double | Triple | Star | Tick | AnchorOpen | AnchorClose

  const OPENING: string := "<a href=\""
  const CLOSING: string := "</a>"

  /** The marks of a text, or, if it is not rendered yet, of a text without anchors. */
  function Marks(t: string, rendered: bool): seq<Mark> {
    if t == "" then []
    else if IsTriple(t) then [Triple] + Marks(t[3..], rendered)
    else if IsDouble(t) then [Double] + Marks(t[2..], rendered)
    else if t[0] == '*' then [Star] + Marks(t[1..], rendered)
    else if t[0] == '`' then [Tick] + Marks(t[1..], rendered)
    else if rendered && OPENING <= t then [AnchorOpen] + Marks(t[|OPENING|..], rendered)
    else if rendered && CLOSING <= t then [AnchorClose] + Marks(t[|CLOSING|..], rendered)
    else Marks(t[1..], rendered)
  }

  /** The tags that a mark becomes, and the state after it. */
  function TagsOf(m: Mark, st: State): seq<Tag> {
    match m
    case Double => if st.doubles > 0 then [Tag(Bold, !st.inBold)] else []
    case Triple => if st.doubles > 0 then [Tag(Bold, !st.inBold), Tag(Italic, !st.inItalic)] else []
    case Star => [Tag(Italic, !st.inItalic)]
    case Tick => if st.ticks > 0 then [Tag(Code, !st.inCode)] else []
    case AnchorOpen => [Tag(Anchor, true)]
    case AnchorClose => [Tag(Anchor, false)]
  }

  function After(m: Mark, st: State): State {
    match m
    case Double => if st.doubles > 0 then st.AfterBold() else st
    case Triple => if st.doubles > 0 then st.AfterBold().AfterItalic() else st
    case Star => st.AfterItalic()
    case Tick => if st.ticks > 0 then st.AfterCode() else st
    case _ => st
  }

  function AfterAll(marks: seq<Mark>, st: State): State {
    if marks == [] then st else After(marks[|marks| - 1], AfterAll(marks[..|marks| - 1], st))
  }

  /** The tags that the marks of a text become. */
  function AllTags(marks: seq<Mark>, st: State): seq<Tag> {
    if marks == [] then []
    else
      var front, last := marks[..|marks| - 1], marks[|marks| - 1];
      AllTags(front, st) + TagsOf(last, AfterAll(front, st))
  }

  /** Anchors are the only tags in the text. */
  const ANCHORS := Vocabulary('<', {OPENING, CLOSING}, {'>', '"'})

  lemma {:induction false} PassCopies(a: string, rest: string, st: State)
    requires '*' !in a && '`' !in a
    ensures Pass(a + rest, st) == a + Pass(rest, st)
  {
    hide *;
    if a == "" {
      assert a + rest == rest;
    } else {
      assert a[0] in a && (a + rest)[0] == a[0];
      assert (a + rest)[1..] == a[1..] + rest;
      assert forall c :: c in a[1..] ==> c in a;
      PassFirst(a + rest, st);
      PassCopies(a[1..], rest, st);
    }
  }

  lemma PassFirst(t: string, st: State)
    requires t != "" && t[0] !in {'*', '`'}
    ensures Pass(t, st) == [t[0]] + Pass(t[1..], st)
  {}

  lemma PassAnchor(t: Tag, rest: string, st: State)
    requires t.kind == Anchor
    ensures ReadTags(Pass(Spelled(t) + rest, st)) == [t] + ReadTags(Pass(rest, st))
  {
    SpelledShape(t);
    hide Spelled, ReadTags, Pass;
    PassCopies(Spelled(t), rest, st);
    ReadFirst(t, Pass(rest, st));
  }

  lemma PassTag(t: Tag, rest: string, next: State)
    ensures ReadTags(Spelled(t) + Pass(rest, next)) == [t] + ReadTags(Pass(rest, next))
  {
    ReadFirst(t, Pass(rest, next));
  }

  lemma PassBold(t: string, st: State)
    requires IsDouble(t) && st.doubles > 0
    ensures ReadTags(Pass(t, st)) == [Tag(Bold, !st.inBold)] + ReadTags(Pass(t[2..], st.AfterBold()))
  {
    hide ReadTags;
    PassTag(Tag(Bold, !st.inBold), t[2..], st.AfterBold());
  }

  lemma PassStar(t: string, st: State)
    requires IsStar(t)
    ensures ReadTags(Pass(t, st)) == [Tag(Italic, !st.inItalic)] + ReadTags(Pass(t[1..], st.AfterItalic()))
  {
    hide ReadTags;
    PassTag(Tag(Italic, !st.inItalic), t[1..], st.AfterItalic());
  }

  lemma PassTick(t: string, st: State)
    requires t != "" && t[0] == '`' && st.ticks > 0
    ensures ReadTags(Pass(t, st)) == [Tag(Code, !st.inCode)] + ReadTags(Pass(t[1..], st.AfterCode()))
  {
    hide ReadTags;
    PassTag(Tag(Code, !st.inCode), t[1..], st.AfterCode());
  }

  /** Stars that are kept are no tags. */
  lemma PassKept(t: string, st: State)
    requires IsDouble(t) && st.doubles == 0
    ensures ReadTags(Pass(t, st)) == ReadTags(Pass(t[if IsTriple(t) then 3 else 2..], st))
  {
    hide ReadTags;
    if IsTriple(t) { ReadPlain("***", Pass(t[3..], st)); } else { ReadPlain("**", Pass(t[2..], st)); }
  }

  lemma PassPlain(t: string, st: State)
    requires t != "" && t[0] !in {'*', '<'} && (t[0] == '`' ==> st.ticks == 0)
    ensures ReadTags(Pass(t, st)) == ReadTags(Pass(t[1..], st))
  {
    hide ReadTags;
    ReadPlain([t[0]], Pass(t[1..], st));
  }

  lemma {:induction false} AllTagsFirst(m: Mark, rest: seq<Mark>, st: State)
    ensures AllTags([m] + rest, st) == TagsOf(m, st) + AllTags(rest, After(m, st))
    ensures AfterAll([m] + rest, st) == AfterAll(rest, After(m, st))
  {
    hide TagsOf, After;
    var all := [m] + rest;
    if rest == [] {
      assert all[..0] == [];
    } else {
      var front := rest[..|rest| - 1];
      assert all[..|all| - 1] == [m] + front;
      AllTagsFirst(m, front, st);
    }
  }

  /** Two or three stars at the head. */
  lemma ReadStars(t: string, st: State)
    requires IsDouble(t)
    ensures var n := if IsTriple(t) then 3 else 2;
            var m := if IsTriple(t) then Triple else Double;
            && ReadTags(Pass(t, st)) == TagsOf(m, st) + ReadTags(Pass(t[n..], After(m, st)))
            && Marks(t, true) == [m] + Marks(t[n..], true)
  {
    hide ReadTags, Pass, OPENING, CLOSING;
    if st.doubles == 0 {
      PassKept(t, st);
    } else {
      PassBold(t, st);
      if IsTriple(t) {
        PassStar(t[2..], st.AfterBold());
        assert t[2..][1..] == t[3..];
      }
    }
  }

  lemma ReadOne(t: string, st: State)
    requires t != "" && t[0] in {'*', '`'} && !IsDouble(t)
    ensures var m := if t[0] == '*' then Star else Tick;
            && ReadTags(Pass(t, st)) == TagsOf(m, st) + ReadTags(Pass(t[1..], After(m, st)))
            && Marks(t, true) == [m] + Marks(t[1..], true)
  {
    hide ReadTags, Pass, OPENING, CLOSING;
    if t[0] == '*' { PassStar(t, st); } else if st.ticks > 0 { PassTick(t, st); } else { PassPlain(t, st); }
  }

  function AnchorMark(t: Tag): Mark { if t.opens then AnchorOpen else AnchorClose }

  /** The anchor at the head of a text that begins with one. */
  lemma AnchorHead(t: string) returns (tag: Tag)
    requires t != "" && t[0] == '<' && ANCHORS.Intact(t)
    ensures tag.kind == Anchor && Spelled(tag) <= t
    ensures Marks(t, true) == [AnchorMark(tag)] + Marks(t[|Spelled(tag)|..], true)
  {
    var token :| token in ANCHORS.tokens && token <= t;
    AnchorsSpelled();
    tag := Tag(Anchor, token == OPENING);
    hide Spelled, OPENING, CLOSING;
    SpelledHead(tag, t);
    if token == CLOSING { NotBoth(t); }
  }

  lemma NotBoth(t: string)
    requires CLOSING <= t
    ensures !(OPENING <= t)
  {
    AnchorsSpelled();
    hide Spelled, OPENING, CLOSING;
    if Spelled(Tag(Anchor, true)) <= t { SpelledApart(Tag(Anchor, true), Tag(Anchor, false), t); }
  }

  lemma ReadAnchor(t: string, st: State) returns (tag: Tag)
    requires t != "" && t[0] == '<' && ANCHORS.Intact(t)
    ensures tag.kind == Anchor && Spelled(tag) <= t
    ensures var rest, m := t[|Spelled(tag)|..], AnchorMark(tag);
            && ReadTags(Pass(t, st)) == TagsOf(m, st) + ReadTags(Pass(rest, After(m, st)))
            && Marks(t, true) == [m] + Marks(rest, true)
  {
    tag := AnchorHead(t);
    hide ReadTags, Pass, Spelled, Marks, ANCHORS;
    var rest := t[|Spelled(tag)|..];
    assert t == Spelled(tag) + rest;
    PassAnchor(tag, rest, st);
  }

  lemma AnchorsSpelled()
    ensures OPENING == Spelled(Tag(Anchor, true)) && CLOSING == Spelled(Tag(Anchor, false))
    ensures |OPENING| > 0 && |CLOSING| > 0
  {}

  /** The tags of the output are what the marks of the text become. */
  lemma {:induction false} ReadPass(t: string, st: State)
    requires ANCHORS.Intact(t)
    ensures ReadTags(Pass(t, st)) == AllTags(Marks(t, true), st)
    decreases |t|
  {
    hide ReadTags, OPENING, CLOSING, Pass, AllTags, Marks, Spelled;
    if t == "" {
      ReadNothing(st);
    } else {
      var n, m := 1, Star;
      if IsDouble(t) {
        ReadStars(t, st);
        n, m := if IsTriple(t) then 3 else 2, if IsTriple(t) then Triple else Double;
      } else if t[0] in {'*', '`'} {
        ReadOne(t, st);
        m := if t[0] == '*' then Star else Tick;
      } else if t[0] == '<' {
        var tag := ReadAnchor(t, st);
        SpelledShape(tag);
        n, m := |Spelled(tag)|, AnchorMark(tag);
      }
      Shorter(t, n);
      if t[0] in {'*', '`', '<'} {
        ReadPass(t[n..], After(m, st));
        AllTagsFirst(m, Marks(t[n..], true), st);
      } else {
        PassPlain(t, st);
        PlainMark(t);
        ReadPass(t[1..], st);
      }
    }
  }

  lemma PlainMark(t: string)
    requires t != "" && t[0] !in {'*', '`', '<'}
    ensures Marks(t, true) == Marks(t[1..], true)
  {}

  lemma ReadNothing(st: State)
    ensures ReadTags(Pass("", st)) == [] && AllTags(Marks("", true), st) == []
  {}

  lemma Shorter(t: string, n: nat)
    requires n <= |t| && ANCHORS.Intact(t)
    ensures ANCHORS.Intact(t[n..])
  {
    assert t == t[..n] + t[n..];
    ANCHORS.IntactSuffix(t[..n], t[n..]);
  }

  // Counting

  function CountIf(marks: seq<Mark>, p: Mark -> bool): nat {
    if marks == [] then 0 else CountIf(marks[..|marks| - 1], p) + if p(marks[|marks| - 1]) then 1 else 0
  }

  predicate HasDouble(m: Mark) { m.Double? || m.Triple? }

  predicate HasStar(m: Mark) { m.Star? || m.Triple? }

  predicate IsTick(m: Mark) { m.Tick? }

  lemma {:induction false} CountIfFirst(m: Mark, rest: seq<Mark>, p: Mark -> bool)
    ensures CountIf([m] + rest, p) == (if p(m) then 1 else 0) + CountIf(rest, p)
  {
    var all := [m] + rest;
    if rest == [] {
      assert all[..0] == [];
    } else {
      assert all[..|all| - 1] == [m] + rest[..|rest| - 1];
      CountIfFirst(m, rest[..|rest| - 1], p);
    }
  }

  function Min(m: nat, n: nat): nat { if m <= n then m else n }

  /** What is open, and what is left, after some marks. */
  ghost predicate Counted(marks: seq<Mark>, start: State, tags: seq<Tag>, st: State) {
    && CountOf(tags, Bold) == Min(start.doubles, CountIf(marks, HasDouble)) == start.doubles - st.doubles
    && CountOf(tags, Code) == Min(start.ticks, CountIf(marks, IsTick)) == start.ticks - st.ticks
    && (st.inBold <==> CountOf(tags, Bold) % 2 == 1)
    && (st.inCode <==> CountOf(tags, Code) % 2 == 1)
    && (st.inItalic <==> CountOf(tags, Italic) % 2 == 1)
    && InTurn(tags, Bold) && InTurn(tags, Code) && InTurn(tags, Italic)
  }

  predicate Fresh(st: State) { !st.inBold && !st.inCode && !st.inItalic }

  lemma InTurnLast(tags: seq<Tag>, t: Tag, kind: Kind)
    requires InTurn(tags, kind) && (t.kind == kind ==> (t.opens <==> CountOf(tags, kind) % 2 == 0))
    ensures InTurn(tags + [t], kind)
    ensures CountOf(tags + [t], kind) == CountOf(tags, kind) + if t.kind == kind then 1 else 0
  {
    hide CountOf;
    var all := tags + [t];
    CountLast(tags, t, kind);
    forall i | 0 <= i < |all| && all[i].kind == kind ensures all[i].opens <==> CountOf(all[..i], kind) % 2 == 0 {
      assert all[..i] == if i < |tags| then tags[..i] else tags;
    }
  }

  lemma CountLast(tags: seq<Tag>, t: Tag, kind: Kind)
    ensures CountOf(tags + [t], kind) == CountOf(tags, kind) + if t.kind == kind then 1 else 0
  {
    assert (tags + [t])[..|tags|] == tags;
  }

  lemma InTurnAll(tags: seq<Tag>, t: Tag)
    requires InTurn(tags, Bold) && InTurn(tags, Code) && InTurn(tags, Italic)
    requires t.kind != Anchor ==> (t.opens <==> CountOf(tags, t.kind) % 2 == 0)
    ensures InTurn(tags + [t], Bold) && InTurn(tags + [t], Code) && InTurn(tags + [t], Italic)
    ensures forall k :: CountOf(tags + [t], k) == CountOf(tags, k) + if t.kind == k then 1 else 0
  {
    hide InTurn, CountOf;
    InTurnLast(tags, t, Bold);
    InTurnLast(tags, t, Code);
    InTurnLast(tags, t, Italic);
    forall k ensures CountOf(tags + [t], k) == CountOf(tags, k) + if t.kind == k then 1 else 0 {
      CountLast(tags, t, k);
    }
  }

  lemma InTurnTwo(tags: seq<Tag>, t: Tag, u: Tag)
    requires InTurn(tags, Bold) && InTurn(tags, Code) && InTurn(tags, Italic)
    requires t.kind == Bold && u.kind == Italic
    requires t.opens <==> CountOf(tags, Bold) % 2 == 0
    requires u.opens <==> CountOf(tags, Italic) % 2 == 0
    ensures InTurn(tags + [t, u], Bold) && InTurn(tags + [t, u], Code) && InTurn(tags + [t, u], Italic)
    ensures CountOf(tags + [t, u], Bold) == CountOf(tags, Bold) + 1
    ensures CountOf(tags + [t, u], Code) == CountOf(tags, Code)
    ensures CountOf(tags + [t, u], Italic) == CountOf(tags, Italic) + 1
  {
    hide InTurn, CountOf;
    InTurnAll(tags, t);
    InTurnAll(tags + [t], u);
    assert tags + [t] + [u] == tags + [t, u];
  }

  lemma CountedLast(marks: seq<Mark>, start: State, m: Mark, tags: seq<Tag>, st: State)
    requires Counted(marks, start, tags, st)
    ensures Counted(marks + [m], start, tags + TagsOf(m, st), After(m, st))
  {
    hide InTurn, CountOf, CountIf;
    MarkLast(marks, m);
    assert tags + [] == tags;
    match m
    case Double => if st.doubles > 0 { InTurnAll(tags, Tag(Bold, !st.inBold)); }
    case Triple => if st.doubles > 0 { InTurnTwo(tags, Tag(Bold, !st.inBold), Tag(Italic, !st.inItalic)); }
    case Star => InTurnAll(tags, Tag(Italic, !st.inItalic));
    case Tick => if st.ticks > 0 { InTurnAll(tags, Tag(Code, !st.inCode)); }
    case AnchorOpen => InTurnAll(tags, Tag(Anchor, true));
    case AnchorClose => InTurnAll(tags, Tag(Anchor, false));
  }

  lemma MarkLast(marks: seq<Mark>, m: Mark)
    ensures CountIf(marks + [m], HasDouble) == CountIf(marks, HasDouble) + if HasDouble(m) then 1 else 0
    ensures CountIf(marks + [m], IsTick) == CountIf(marks, IsTick) + if IsTick(m) then 1 else 0
  {
    assert (marks + [m])[..|marks|] == marks;
  }

  /** Bold, code and italic tags open and close in turn, and as many doubles and backticks have
      become tags as were to. */
  lemma {:induction false} AllCounted(marks: seq<Mark>, start: State)
    requires Fresh(start)
    ensures Counted(marks, start, AllTags(marks, start), AfterAll(marks, start))
  {
    hide Counted, TagsOf, After;
    if marks == [] {
      NothingCounted(start);
    } else {
      var front, last := marks[..|marks| - 1], marks[|marks| - 1];
      AllCounted(front, start);
      CountedLast(front, start, last, AllTags(front, start), AfterAll(front, start));
      assert front + [last] == marks;
    }
  }

  lemma NothingCounted(start: State)
    requires Fresh(start)
    ensures Counted([], start, [], start)
  {}

  /** The tags of the first marks come first. */
  lemma {:induction false} FirstTags(marks: seq<Mark>, start: State, n: nat)
    requires n <= |marks|
    ensures AllTags(marks[..n], start) <= AllTags(marks, start)
  {
    hide TagsOf, After;
    if n == |marks| {
      assert marks[..n] == marks;
    } else {
      FirstTags(marks[..|marks| - 1], start, n);
      assert marks[..|marks| - 1][..n] == marks[..n];
    }
  }
}
