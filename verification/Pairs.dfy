/** The loop that turns paired delimiters ("**" or "`") into an opening and a closing
    replacement. */
module Pairs {
  import opened Text

  /** A delimiter of one repeated character whose replacement is shorter in that character. */
  datatype Markup = Markup(delim: string, c: char, opening: string, closing: string) {
    ghost predicate Valid() {
      && delim != "" && (forall i :: 0 <= i < |delim| ==> delim[i] == c)
      && Count(opening, c) + Count(closing, c) < 2 * |delim|
    }
  }

  /** Indices of the opening and the closing delimiter. */
  datatype Pair = Pair(start: nat, end: nat)

  predicate IsPair(s: string, delim: string, p: Pair) {
    StartsAt(s, p.start, delim) && p.start + |delim| <= p.end && StartsAt(s, p.end, delim)
  }

  function FirstPair(s: string, delim: string): (r: Option<Pair>)
    ensures r.Some? ==> IsPair(s, delim, r.value)
    ensures r.None? ==> forall p :: !IsPair(s, delim, p)
  {
    match Find(s, delim, 0)
    case None => None
    case Some(start) =>
      match Find(s, delim, start + |delim|)
      case None => None
      case Some(end) => Some(Pair(start, end))
  }

  function Before(s: string, delim: string, p: Pair): string
    requires IsPair(s, delim, p)
  { s[..p.start] }

  function Inner(s: string, delim: string, p: Pair): string
    requires IsPair(s, delim, p)
  { s[p.start + |delim|..p.end] }

  function After(s: string, delim: string, p: Pair): string
    requires IsPair(s, delim, p)
  { s[p.end + |delim|..] }

  lemma Pieces(s: string, delim: string, p: Pair)
    requires IsPair(s, delim, p)
    ensures s == Before(s, delim, p) + delim + Inner(s, delim, p) + delim + After(s, delim, p)
  {
    assert s == s[..p.start] + s[p.start..p.start + |delim|] + s[p.start + |delim|..p.end]
             + s[p.end..p.end + |delim|] + s[p.end + |delim|..];
  }

  function RewriteOne(s: string, m: Markup, p: Pair): string
    requires IsPair(s, m.delim, p)
  {
    Before(s, m.delim, p) + m.opening + Inner(s, m.delim, p) + m.closing + After(s, m.delim, p)
  }

  lemma {:induction false} RepeatedCount(d: string, c: char)
    requires forall i :: 0 <= i < |d| ==> d[i] == c
    ensures Count(d, c) == |d|
  {
    if d == "" {
    } else {
      RepeatedCount(d[1..], c);
    }
  }

  lemma RewriteOneShrinks(s: string, m: Markup, p: Pair)
    requires m.Valid() && IsPair(s, m.delim, p)
    ensures Count(RewriteOne(s, m, p), m.c) < Count(s, m.c)
  {
    Pieces(s, m.delim, p);
    RepeatedCount(m.delim, m.c);
    var a, b, z := Before(s, m.delim, p), Inner(s, m.delim, p), After(s, m.delim, p);
    CountFive(a, m.delim, b, m.delim, z, m.c);
    CountFive(a, m.opening, b, m.closing, z, m.c);
  }

  function Rewrite(s: string, m: Markup): string
    requires m.Valid()
    decreases Count(s, m.c)
  {
    match FirstPair(s, m.delim)
    case None => s
    case Some(p) =>
      RewriteOneShrinks(s, m, p);
      Rewrite(RewriteOne(s, m, p), m)
  }

  /** How many pairs the loop rewrites. */
  function Rounds(s: string, m: Markup): nat
    requires m.Valid()
    decreases Count(s, m.c)
  {
    match FirstPair(s, m.delim)
    case None => 0
    case Some(p) =>
      RewriteOneShrinks(s, m, p);
      1 + Rounds(RewriteOne(s, m, p), m)
  }

  method RewritePairs(text: string, m: Markup) returns (result: string)
    requires m.Valid()
    ensures result == Rewrite(text, m)
  {
    result := text;
    var pair := FirstPair(result, m.delim);
    while pair.Some?
      invariant pair == FirstPair(result, m.delim)
      invariant Rewrite(result, m) == Rewrite(text, m)
      decreases Count(result, m.c)
    {
      RewriteOneShrinks(result, m, pair.value);
      result := RewriteOne(result, m, pair.value);
      pair := FirstPair(result, m.delim);
    }
  }

  /** At most one delimiter is left, so nothing is paired. */
  lemma {:induction false} RewriteIsPairFree(s: string, m: Markup)
    requires m.Valid()
    ensures forall p :: !IsPair(Rewrite(s, m), m.delim, p)
    decreases Count(s, m.c)
  {
    match FirstPair(s, m.delim)
    case None =>
    case Some(p) =>
      RewriteOneShrinks(s, m, p);
      RewriteIsPairFree(RewriteOne(s, m, p), m);
  }
}
