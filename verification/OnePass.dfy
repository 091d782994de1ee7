/** The bold, code and italic loops of the inline renderer come to one pass over the text from
    left to right. */
module OnePass {
  import opened Text
  import opened Inline
  import opened Escape
  import Emphasis
  import Links
  import Pairs

  // One kind of delimiter

  function Even(n: nat): nat { n - n % 2 }

  /** How many delimiters there are, read from the left. */
  function Delims(s: string, delim: string): nat
    requires delim != ""
  {
    if s == "" then 0
    else if delim <= s then 1 + Delims(s[|delim|..], delim)
    else Delims(s[1..], delim)
  }

  /** `s` with its first `left` delimiters replaced, by opening and closing in turn. */
  function Alternate(s: string, m: Pairs.Markup, left: nat, opens: bool): string
    requires m.delim != ""
    decreases |s|
  {
    if s == "" then ""
    else if left > 0 && m.delim <= s then
      (if opens then m.opening else m.closing) + Alternate(s[|m.delim|..], m, left - 1, !opens)
    else [s[0]] + Alternate(s[1..], m, left, opens)
  }

  /** No delimiter begins in the first part. */
  ghost predicate Free(a: string, rest: string, delim: string) {
    forall i :: 0 <= i < |a| ==> !StartsAt(a + rest, i, delim)
  }

  lemma {:induction false} AlternateSkips(a: string, rest: string, m: Pairs.Markup, left: nat, opens: bool)
    requires m.delim != "" && Free(a, rest, m.delim)
    ensures Alternate(a + rest, m, left, opens) == a + Alternate(rest, m, left, opens)
    ensures Delims(a + rest, m.delim) == Delims(rest, m.delim)
  {
    if a == "" {
      assert a + rest == rest;
    } else {
      var s := a + rest;
      assert s[1..] == a[1..] + rest;
      assert !(m.delim <= s) by { assert !StartsAt(s, 0, m.delim); }
      forall i | 0 <= i < |a[1..]| ensures !StartsAt(a[1..] + rest, i, m.delim) {
        assert !StartsAt(s, i + 1, m.delim);
        TailStartsAt(s, i, m.delim);
      }
      AlternateSkips(a[1..], rest, m, left, opens);
    }
  }

  lemma TailStartsAt(s: string, i: nat, p: string)
    requires s != ""
    ensures StartsAt(s[1..], i, p) <==> StartsAt(s, i + 1, p)
  {
    if i + 1 + |p| <= |s| { assert s[1..][i..i + |p|] == s[i + 1..i + 1 + |p|]; }
  }

  lemma AlternateDelim(rest: string, m: Pairs.Markup, left: nat, opens: bool)
    requires m.delim != "" && left > 0
    ensures Alternate(m.delim + rest, m, left, opens)
         == (if opens then m.opening else m.closing) + Alternate(rest, m, left - 1, !opens)
    ensures Delims(m.delim + rest, m.delim) == 1 + Delims(rest, m.delim)
  {
    assert (m.delim + rest)[|m.delim|..] == rest;
  }

  lemma {:induction false} AlternateNone(s: string, m: Pairs.Markup, opens: bool)
    requires m.delim != ""
    ensures Alternate(s, m, 0, opens) == s
  {
    if s != "" { AlternateNone(s[1..], m, opens); }
  }

  /** A pair without a delimiter before it or inside. */
  lemma FirstPairFree(s: string, delim: string, p: Pairs.Pair)
    requires delim != "" && Pairs.FirstPair(s, delim) == Some(p)
    ensures Pairs.IsPair(s, delim, p)
    ensures forall i :: 0 <= i < p.end && !(p.start <= i < p.start + |delim|) ==> !StartsAt(s, i, delim)
  {}

  /** A markup whose replacements are not empty and do not have its character. */
  ghost predicate Apart(m: Pairs.Markup) {
    && m.Valid() && m.opening != "" && m.closing != "" && m.c !in m.opening && m.c !in m.closing
  }

  lemma DelimChars(s: string, i: nat, m: Pairs.Markup, j: nat)
    requires m.Valid() && StartsAt(s, i, m.delim) && i <= j < i + |m.delim|
    ensures s[j] == m.c
  {
    assert s[i..i + |m.delim|][j - i] == s[j];
  }

  /** A delimiter does not reach across a text without its character. */
  lemma GapSplits(p: string, q: string, r: string, i: nat, m: Pairs.Markup)
    requires m.Valid() && q != "" && m.c !in q && StartsAt(p + q + r, i, m.delim)
    ensures StartsAt(p, i, m.delim) || (i >= |p| + |q| && StartsAt(r, i - |p| - |q|, m.delim))
  {
    var s, n := p + q + r, |m.delim|;
    if i + n <= |p| {
      assert s[i..i + n] == p[i..i + n];
    } else if i >= |p| + |q| {
      var k := i - |p| - |q|;
      assert s[i..i + n] == r[k..k + n];
    } else {
      var j := if i < |p| then |p| else i;
      assert s[j] == q[j - |p|] && q[j - |p|] in q;
      DelimChars(s, i, m, j);
    }
  }

  lemma StartsIn(a: string, x: string, b: string, i: nat, d: string)
    requires StartsAt(x, i, d)
    ensures StartsAt(a + x + b, |a| + i, d)
  {
    var s := a + x + b;
    assert s[|a| + i..|a| + i + |d|] == x[i..i + |d|];
  }

  /** After a rewrite no delimiter begins before the rest. */
  lemma RewrittenFree(a: string, x: string, z: string, m: Pairs.Markup, s: string)
    requires Apart(m) && s == a + m.delim + x + m.delim + z
    requires forall i :: 0 <= i < |a| ==> !StartsAt(s, i, m.delim)
    requires forall i :: |a| + |m.delim| <= i < |a| + |m.delim| + |x| ==> !StartsAt(s, i, m.delim)
    ensures Free(a + m.opening + x + m.closing, z, m.delim)
  {
    var y := a + m.opening + x + m.closing;
    hide StartsAt;
    forall i | 0 <= i < |y| ensures !StartsAt(y + z, i, m.delim) {
      if StartsAt(y + z, i, m.delim) {
        var rest := x + m.closing + z;
        assert y + z == a + m.opening + rest;
        GapSplits(a, m.opening, rest, i, m);
        if StartsAt(a, i, m.delim) {
          StartsShort(a, i, m.delim);
          assert s == "" + a + (m.delim + x + m.delim + z);
          StartsIn("", a, m.delim + x + m.delim + z, i, m.delim);
        } else {
          var k := i - |a| - |m.opening|;
          GapSplits(x, m.closing, z, k, m);
          StartsShort(x, k, m.delim);
          assert s == (a + m.delim) + x + (m.delim + z);
          StartsIn(a + m.delim, x, m.delim + z, k, m.delim);
        }
      }
    }
  }

  lemma StartsShort(s: string, i: nat, d: string)
    requires d != "" && StartsAt(s, i, d)
    ensures i < |s|
  {}

  lemma FewDelims(s: string, m: Pairs.Markup)
    requires m.Valid() && Pairs.FirstPair(s, m.delim).None?
    ensures Delims(s, m.delim) <= 1
  {
    match Find(s, m.delim, 0)
    case None => NoDelims(s, m);
    case Some(i) =>
      hide Delims;
      var rest := s[i + |m.delim|..];
      FirstDelim(s, i, m);
      forall k: nat ensures !StartsAt(rest, k, m.delim) { RestStartsAt(s, i + |m.delim|, k, m.delim); }
      NoDelims(rest, m);
  }

  lemma FirstDelim(s: string, i: nat, m: Pairs.Markup)
    requires m.Valid() && StartsAt(s, i, m.delim) && forall k :: 0 <= k < i ==> !StartsAt(s, k, m.delim)
    ensures Delims(s, m.delim) == 1 + Delims(s[i + |m.delim|..], m.delim)
  {
    hide Delims, Alternate;
    var a, rest := s[..i], s[i + |m.delim|..];
    assert s == a + (m.delim + rest);
    AlternateSkips(a, m.delim + rest, m, 0, true);
    AlternateDelim(rest, m, 1, true);
  }

  lemma RestStartsAt(s: string, from: nat, k: nat, d: string)
    requires from <= |s|
    ensures StartsAt(s[from..], k, d) <==> StartsAt(s, from + k, d)
  {
    if from + k + |d| <= |s| { assert s[from..][k..k + |d|] == s[from + k..from + k + |d|]; }
  }

  lemma NoDelims(s: string, m: Pairs.Markup)
    requires m.Valid() && forall i :: 0 <= i < |s| ==> !StartsAt(s, i, m.delim)
    ensures Delims(s, m.delim) == 0
  {
    assert s + "" == s;
    AlternateSkips(s, "", m, 0, true);
  }

  lemma PairFree(s: string, m: Pairs.Markup, p: Pairs.Pair)
    requires Apart(m) && Pairs.FirstPair(s, m.delim) == Some(p)
    ensures var a, x, z := Pairs.Before(s, m.delim, p), Pairs.Inner(s, m.delim, p), Pairs.After(s, m.delim, p);
            var d := m.delim;
            && s == a + (d + (x + (d + z)))
            && Free(a, d + (x + (d + z)), d) && Free(x, d + z, d) && Free(a + m.opening + x + m.closing, z, d)
  {
    var a, x, z := Pairs.Before(s, m.delim, p), Pairs.Inner(s, m.delim, p), Pairs.After(s, m.delim, p);
    var d := m.delim;
    Pairs.Pieces(s, d, p);
    FirstPairFree(s, d, p);
    hide StartsAt, Pairs.FirstPair;
    RewrittenFree(a, x, z, m, s);
    hide Pairs.IsPair, Pairs.Before, Pairs.Inner, Pairs.After;
    Regroup(a, d, x, z);
    InnerFree(a, d, x, d + z);
  }

  lemma Regroup(a: string, d: string, x: string, z: string)
    ensures a + d + x + d + z == a + (d + (x + (d + z)))
  {}

  lemma InnerFree(a: string, d: string, x: string, rest: string)
    requires forall i :: |a| + |d| <= i < |a| + |d| + |x| ==> !StartsAt(a + (d + (x + rest)), i, d)
    ensures Free(x, rest, d)
  {
    hide StartsAt;
    var s := a + (d + (x + rest));
    forall i | 0 <= i < |x| ensures !StartsAt(x + rest, i, d) {
      RestStartsAt(s, |a| + |d|, i, d);
      assert s[|a| + |d|..] == x + rest;
    }
  }

  lemma AlternatePair(a: string, x: string, z: string, m: Pairs.Markup, left: nat)
    requires m.Valid() && left >= 2
    requires Free(a, m.delim + (x + (m.delim + z)), m.delim) && Free(x, m.delim + z, m.delim)
    ensures var s := a + (m.delim + (x + (m.delim + z)));
            && Alternate(s, m, left, true) == a + m.opening + x + m.closing + Alternate(z, m, left - 2, true)
            && Delims(s, m.delim) == 2 + Delims(z, m.delim)
  {
    hide Alternate, Delims, Free;
    var d := m.delim;
    AlternateSkips(a, d + (x + (d + z)), m, left, true);
    AlternateDelim(x + (d + z), m, left, true);
    AlternateSkips(x, d + z, m, left - 1, false);
    AlternateDelim(z, m, left - 1, false);
  }

  /** Replacing the first pair leaves the others to replace. */
  lemma RewriteOneAlternate(s: string, m: Pairs.Markup, p: Pairs.Pair, left: nat)
    requires Apart(m) && Pairs.FirstPair(s, m.delim) == Some(p) && left >= 2
    ensures Alternate(s, m, left, true) == Alternate(Pairs.RewriteOne(s, m, p), m, left - 2, true)
    ensures Delims(s, m.delim) == Delims(Pairs.RewriteOne(s, m, p), m.delim) + 2
  {
    hide Alternate, Delims, Free;
    var a, x, z := Pairs.Before(s, m.delim, p), Pairs.Inner(s, m.delim, p), Pairs.After(s, m.delim, p);
    PairFree(s, m, p);
    hide StartsAt, Pairs.FirstPair, Pairs.IsPair, Pairs.Before, Pairs.Inner, Pairs.After;
    AlternatePair(a, x, z, m, left);
    AlternateSkips(a + m.opening + x + m.closing, z, m, left - 2, true);
  }

  /** The loop replaces the delimiters in turn, all but an odd last one. */
  lemma {:induction false} RewriteIsAlternate(s: string, m: Pairs.Markup)
    requires Apart(m)
    ensures Pairs.Rewrite(s, m) == Alternate(s, m, Even(Delims(s, m.delim)), true)
    decreases Count(s, m.c)
  {
    hide Alternate, Delims, Pairs.FirstPair;
    match Pairs.FirstPair(s, m.delim)
    case None =>
      FewDelims(s, m);
      AlternateNone(s, m, true);
    case Some(p) =>
      Pairs.RewriteOneShrinks(s, m, p);
      var s' := Pairs.RewriteOne(s, m, p);
      RewriteIsAlternate(s', m);
      RewriteOneAlternate(s, m, p, 2 + Even(Delims(s', m.delim)));
  }

  // All of them

  predicate IsDouble(t: string) { |t| >= 2 && t[0] == '*' && t[1] == '*' }

  /** Three stars and no more. */
  predicate IsTriple(t: string) { IsDouble(t) && |t| >= 3 && t[2] == '*' && !(|t| >= 4 && t[3] == '*') }

  predicate IsStar(t: string) { t != "" && t[0] == '*' && !IsDouble(t) }

  /** How many double stars and backticks are still to be replaced, and which tags are open. */
  datatype State = State(doubles: nat, ticks: nat, inBold: bool, inCode: bool, inItalic: bool) {
    function BoldTag(): string { if inBold then "</b>" else "<b>" }

    function CodeTag(): string { if inCode then "</code>" else "<code>" }

    function ItalicTag(): string { if inItalic then "</i>" else "<i>" }

    function AfterBold(): State
      requires doubles > 0
    {
      this.(doubles := doubles - 1, inBold := !inBold)
    }

    function AfterCode(): State
      requires ticks > 0
    {
      this.(ticks := ticks - 1, inCode := !inCode)
    }

    function AfterItalic(): State { this.(inItalic := !inItalic) }
  }

  /** One pass over the text. A double star that is left over is kept with all its stars. */
  function Pass(t: string, st: State): string {
    if t == "" then ""
    else if IsDouble(t) && st.doubles > 0 then st.BoldTag() + Pass(t[2..], st.AfterBold())
    else if IsTriple(t) then "***" + Pass(t[3..], st)
    else if IsDouble(t) then "**" + Pass(t[2..], st)
    else if IsStar(t) then st.ItalicTag() + Pass(t[1..], st.AfterItalic())
    else if t[0] == '`' && st.ticks > 0 then st.CodeTag() + Pass(t[1..], st.AfterCode())
    else [t[0]] + Pass(t[1..], st)
  }

  function Start(t: string): State { State(Even(Delims(t, "**")), Even(Delims(t, "`")), false, false, false) }

  /** The italic loop on the rest of a text, `afterStar` saying whether a star stands before it. */
  function Italic(s: string, afterStar: bool, inItalic: bool): string {
    if s == "" then ""
    else if s[0] == '*' && !afterStar && !(|s| >= 2 && s[1] == '*') then
      (if inItalic then "</i>" else "<i>") + Italic(s[1..], true, !inItalic)
    else [s[0]] + Italic(s[1..], s[0] == '*', inItalic)
  }

  lemma {:induction false} ItalicIsSuffix(s: string, i: nat, inItalic: bool)
    requires i <= |s|
    ensures ItalicFrom(s, i, inItalic) == Italic(s[i..], i > 0 && s[i - 1] == '*', inItalic)
    decreases |s| - i
  {
    if i < |s| {
      var rest := s[i..];
      assert rest[0] == s[i] && rest[1..] == s[i + 1..];
      assert i + 1 < |s| ==> rest[1] == s[i + 1];
      ItalicIsSuffix(s, i + 1, inItalic);
      ItalicIsSuffix(s, i + 1, !inItalic);
    }
  }

  /** The text after the bold and the code loop. */
  function Both(t: string, st: State): string {
    Alternate(Alternate(t, BOLD, st.doubles, !st.inBold), CODE, st.ticks, !st.inCode)
  }

  lemma DelimOne(t: string, c: char)
    ensures [c] <= t <==> t != "" && t[0] == c
  {}

  lemma DelimTwo(t: string)
    ensures "**" <= t <==> IsDouble(t)
  {}

  lemma {:induction false} NoTickCopies(a: string, rest: string, left: nat, opens: bool)
    requires '`' !in a
    ensures Alternate(a + rest, CODE, left, opens) == a + Alternate(rest, CODE, left, opens)
  {
    if a == "" {
      assert a + rest == rest;
    } else {
      assert (a + rest)[1..] == a[1..] + rest;
      DelimOne(a + rest, '`');
      NoTickCopies(a[1..], rest, left, opens);
    }
  }

  lemma BothBold(t: string, st: State)
    requires IsDouble(t) && st.doubles > 0
    ensures Both(t, st) == st.BoldTag() + Both(t[2..], st.AfterBold())
  {
    DelimTwo(t);
    NoTickCopies(st.BoldTag(), Alternate(t[2..], BOLD, st.doubles - 1, st.inBold), st.ticks, !st.inCode);
  }

  lemma BothCode(t: string, st: State)
    requires t != "" && t[0] == '`' && st.ticks > 0
    ensures Both(t, st) == st.CodeTag() + Both(t[1..], st.AfterCode())
  {
    DelimTwo(t);
    var rest := Alternate(t[1..], BOLD, st.doubles, !st.inBold);
    assert Alternate(t, BOLD, st.doubles, !st.inBold) == ['`'] + rest;
    DelimOne(['`'] + rest, '`');
    assert (['`'] + rest)[1..] == rest;
  }

  lemma BothCopies(t: string, st: State)
    requires t != "" && !(IsDouble(t) && st.doubles > 0) && !(t[0] == '`' && st.ticks > 0)
    ensures Both(t, st) == [t[0]] + Both(t[1..], st)
  {
    DelimTwo(t);
    var rest := Alternate(t[1..], BOLD, st.doubles, !st.inBold);
    assert Alternate(t, BOLD, st.doubles, !st.inBold) == [t[0]] + rest;
    DelimOne([t[0]] + rest, '`');
    assert ([t[0]] + rest)[1..] == rest;
  }

  /** The head of the text after both loops is a star, or two, as that of the text is. */
  lemma BothStars(t: string, st: State)
    requires !(IsDouble(t) && st.doubles > 0)
    ensures Both(t, st) != "" && Both(t, st)[0] == '*' <==> t != "" && t[0] == '*'
    ensures st.doubles == 0 || !IsDouble(t) ==> (IsDouble(Both(t, st)) <==> IsDouble(t))
  {
    hide Both;
    if t == "" {
      BothNothing(st);
    } else if t[0] == '`' && st.ticks > 0 {
      BothCode(t, st);
    } else {
      BothCopies(t, st);
      if t[0] == '*' { NextIsStar(t[1..], st); }
    }
  }

  lemma BothNothing(st: State)
    ensures Both("", st) == ""
  {}

  /** A star is next after both loops only if one is next in the text. */
  lemma NextIsStar(t: string, st: State)
    ensures t == "" || t[0] != '*' ==> Both(t, st) == "" || Both(t, st)[0] != '*'
    ensures t != "" && t[0] == '*' && st.doubles == 0 ==> Both(t, st) != "" && Both(t, st)[0] == '*'
  {
    hide Both;
    if t == "" {
      BothNothing(st);
    } else if t[0] == '`' && st.ticks > 0 {
      BothCode(t, st);
    } else if !(IsDouble(t) && st.doubles > 0) {
      BothCopies(t, st);
    }
  }

  lemma {:induction false} ItalicCopiesTag(tag: string, rest: string, inItalic: bool)
    requires tag != "" && '*' !in tag
    ensures Italic(tag + rest, false, inItalic) == tag + Italic(rest, false, inItalic)
  {
    assert tag[0] in tag;
    assert (tag + rest)[1..] == tag[1..] + rest;
    if |tag| > 1 {
      assert forall c :: c in tag[1..] ==> c in tag;
      ItalicCopiesTag(tag[1..], rest, inItalic);
    } else {
      assert tag[1..] + rest == rest;
    }
  }

  /** A star before a text matters only if the text begins with a single star. */
  lemma StarBefore(s: string, inItalic: bool)
    requires s == "" || s[0] != '*' || IsDouble(s)
    ensures Italic(s, true, inItalic) == Italic(s, false, inItalic)
  {}

  lemma ItalicOfStars(r: string, inItalic: bool)
    ensures Italic("**" + r, false, inItalic) == "**" + Italic(r, true, inItalic)
    ensures r == "" || r[0] != '*' ==> Italic("***" + r, false, inItalic) == "***" + Italic(r, false, inItalic)
  {
    assert ("**" + r)[1..] == "*" + r && ("*" + r)[1..] == r;
    var s := "***" + r;
    assert s[1..] == "**" + r && ("**" + r)[1..] == "*" + r;
    if r == "" || r[0] != '*' {
      StarBefore(r, inItalic);
      assert Italic("*" + r, true, inItalic) == "*" + Italic(r, true, inItalic);
      assert Italic("**" + r, true, inItalic) == "*" + Italic("*" + r, true, inItalic);
      assert Italic(s, false, inItalic) == "*" + Italic("**" + r, true, inItalic);
    }
  }

  lemma ItalicOfStar(r: string, inItalic: bool)
    requires r == "" || r[0] != '*'
    ensures Italic("*" + r, false, inItalic) == (if inItalic then "</i>" else "<i>") + Italic(r, false, !inItalic)
  {
    assert ("*" + r)[1..] == r;
    StarBefore(r, !inItalic);
  }

  lemma ItalicOfOther(c: char, r: string, inItalic: bool)
    requires c != '*'
    ensures Italic([c] + r, false, inItalic) == [c] + Italic(r, false, inItalic)
  {
    assert ([c] + r)[1..] == r;
  }

  lemma KeptDouble(t: string, st: State)
    requires IsDouble(t) && st.doubles == 0
    ensures Both(t, st) == "**" + Both(t[2..], st)
    ensures IsTriple(t) ==> Both(t, st) == "***" + Both(t[3..], st)
  {
    hide Both;
    BothCopies(t, st);
    BothCopies(t[1..], st);
    assert t[1..][1..] == t[2..];
    if IsTriple(t) {
      BothCopies(t[2..], st);
      assert t[2..][1..] == t[3..];
    }
  }

  lemma {:induction false} PassIsLoops(t: string, st: State)
    ensures Italic(Both(t, st), false, st.inItalic) == Pass(t, st)
    decreases |t|
  {
    hide Both, Italic;
    if t == "" {
      BothNothing(st);
      ItalicOfNothing(st.inItalic);
    } else if IsDouble(t) && st.doubles > 0 {
      BothBold(t, st);
      ItalicCopiesTag(st.BoldTag(), Both(t[2..], st.AfterBold()), st.inItalic);
      PassIsLoops(t[2..], st.AfterBold());
    } else if IsDouble(t) {
      PassKeeps(t, st);
    } else if t[0] == '*' {
      BothCopies(t, st);
      NextIsStar(t[1..], st);
      ItalicOfStar(Both(t[1..], st), st.inItalic);
      AlternateForgets(t[1..], st);
      PassIsLoops(t[1..], st.AfterItalic());
    } else if t[0] == '`' && st.ticks > 0 {
      BothCode(t, st);
      ItalicCopiesTag(st.CodeTag(), Both(t[1..], st.AfterCode()), st.inItalic);
      PassIsLoops(t[1..], st.AfterCode());
    } else {
      BothCopies(t, st);
      ItalicOfOther(t[0], Both(t[1..], st), st.inItalic);
      PassIsLoops(t[1..], st);
    }
  }

  lemma ItalicOfNothing(inItalic: bool)
    ensures Italic("", false, inItalic) == ""
  {}

  /** The first two loops do not look at the state of the third. */
  lemma AlternateForgets(t: string, st: State)
    ensures Both(t, st.AfterItalic()) == Both(t, st)
  {}

  lemma {:induction false} PassKeeps(t: string, st: State)
    requires IsDouble(t) && st.doubles == 0
    ensures Italic(Both(t, st), false, st.inItalic) == Pass(t, st)
    decreases |t|, 0
  {
    hide Both, Italic;
    KeptDouble(t, st);
    if IsTriple(t) {
      NextIsStar(t[3..], st);
      ItalicOfStars(Both(t[3..], st), st.inItalic);
      PassIsLoops(t[3..], st);
    } else {
      BothStars(t[2..], st);
      ItalicOfStars(Both(t[2..], st), st.inItalic);
      StarBefore(Both(t[2..], st), st.inItalic);
      PassIsLoops(t[2..], st);
    }
  }

  // The renderer

  lemma {:induction false} TicksKept(t: string, left: nat, opens: bool)
    ensures Delims(Alternate(t, BOLD, left, opens), "`") == Delims(t, "`")
  {
    if t == "" {
    } else {
      DelimTwo(t);
      DelimOne(t, '`');
      if left > 0 && IsDouble(t) {
        var tag := if opens then "<b>" else "</b>";
        var rest := Alternate(t[2..], BOLD, left - 1, !opens);
        TicksKept(t[2..], left - 1, !opens);
        NoTicks(tag, rest);
        DelimOne(t[1..], '`');
        assert t[1..][1..] == t[2..];
      } else {
        var rest := Alternate(t[1..], BOLD, left, opens);
        TicksKept(t[1..], left, opens);
        DelimOne([t[0]] + rest, '`');
        assert ([t[0]] + rest)[1..] == rest;
      }
    }
  }

  lemma {:induction false} NoTicks(a: string, rest: string)
    requires '`' !in a
    ensures Delims(a + rest, "`") == Delims(rest, "`")
  {
    if a == "" {
      assert a + rest == rest;
    } else {
      assert (a + rest)[1..] == a[1..] + rest;
      DelimOne(a + rest, '`');
      NoTicks(a[1..], rest);
    }
  }

  function AfterLinks(text: string): string { Links.Rewrite(EscapeHtml(text), Links.TelegramAnchor) }

  /** What the chain of loops renders is what one pass over the text after the links renders. */
  lemma InlineIsPass(text: string)
    ensures InlineOf(text) == Pass(AfterLinks(text), Start(AfterLinks(text)))
  {
    hide Links.Rewrite, EscapeHtml, Alternate, Delims, Italic, Pass, ItalicFrom;
    MarkupValid();
    var t := AfterLinks(text);
    var st := Start(t);
    MarkupApart();
    RewriteIsAlternate(t, BOLD);
    var bold := Pairs.Rewrite(t, BOLD);
    RewriteIsAlternate(bold, CODE);
    TicksKept(t, st.doubles, true);
    assert BeforeItalic(text) == Both(t, st);
    ItalicIsSuffix(Both(t, st), 0, false);
    assert Both(t, st)[0..] == Both(t, st);
    PassIsLoops(t, st);
  }

  lemma MarkupApart()
    ensures Apart(BOLD) && Apart(CODE)
  {
    hide Count;
    MarkupValid();
  }
}
