/** Isolated stars: a '*' with no '*' on either side. */
module Emphasis {
  import opened Text

  predicate Isolated(s: string, i: nat)
    requires i < |s|
  {
    && s[i] == '*'
    && (i == 0 || s[i - 1] != '*')
    && (i + 1 >= |s| || s[i + 1] != '*')
  }

  /** `s` from index `i` on, without its isolated stars. */
  function DropFrom(s: string, i: nat): string
    requires i <= |s|
    decreases |s| - i
  {
    if i == |s| then ""
    else (if Isolated(s, i) then "" else [s[i]]) + DropFrom(s, i + 1)
  }

  method DropIsolatedStars(chars: string) returns (out: string)
    ensures out == DropFrom(chars, 0)
  {
    out := "";
    for i := 0 to |chars|
      invariant out + DropFrom(chars, i) == DropFrom(chars, 0)
    {
      if Isolated(chars, i) { continue; }
      out := out + [chars[i]];
    }
  }

  predicate NotStar(c: char) { c != '*' }

  /** No two stars side by side. */
  predicate Sparse(s: string) {
    forall i :: 0 <= i && i + 1 < |s| ==> s[i] != '*' || s[i + 1] != '*'
  }

  lemma {:induction false} DropFromSparse(s: string, i: nat)
    requires i <= |s| && Sparse(s)
    ensures DropFrom(s, i) == Filter(s[i..], NotStar)
    decreases |s| - i
  {
    if i < |s| {
      DropFromSparse(s, i + 1);
      assert s[i..][1..] == s[i + 1..];
      if s[i] == '*' && i > 0 { assert s[i - 1] != '*'; }
    }
  }

  /** Every star from index `i` on is isolated. */
  ghost predicate AllIsolated(s: string, i: nat) {
    forall j :: i <= j < |s| && s[j] == '*' ==> Isolated(s, j)
  }

  /** Dropping keeps a star exactly where the text has two side by side. */
  lemma {:induction false} DropFromKeepsRuns(s: string, i: nat)
    requires i <= |s|
    ensures '*' !in DropFrom(s, i) <==> AllIsolated(s, i)
    decreases |s| - i
  {
    if i < |s| {
      AllIsolatedFrom(s, i);
      hide AllIsolated;
      DropFromKeepsRuns(s, i + 1);
      var rest := DropFrom(s, i + 1);
      hide Isolated;
      assert DropFrom(s, i) == if Isolated(s, i) then rest else [s[i]] + rest;
    } else {
      assert AllIsolated(s, i);
    }
  }

  lemma AllIsolatedFrom(s: string, i: nat)
    requires i < |s|
    ensures AllIsolated(s, i) <==> (s[i] == '*' ==> Isolated(s, i)) && AllIsolated(s, i + 1)
    ensures Isolated(s, i) ==> s[i] == '*'
  {}

  lemma SparseIffAllIsolated(s: string)
    ensures Sparse(s) <==> AllIsolated(s, 0)
  {
    if !Sparse(s) {
      var i :| 0 <= i && i + 1 < |s| && s[i] == '*' && s[i + 1] == '*';
      assert !Isolated(s, i);
    }
  }

  /** A text that does not open with a pair keeps its first character. */
  lemma RemovePairsHead(s: string)
    requires s != "" && !("**" <= s)
    ensures Replace(s, "**", "") == [s[0]] + Replace(s[1..], "**", "")
    ensures s[0] == '*' && |s| > 1 ==> !("**" <= s[1..]) && s[1] != '*'
  {}

  lemma RemovePairsPair(s: string)
    requires "**" <= s
    ensures Replace(s, "**", "") == Replace(s[2..], "**", "") && Filter(s, NotStar) == Filter(s[2..], NotStar)
  {
    assert s[1..][1..] == s[2..];
    assert "" + Replace(s[2..], "**", "") == Replace(s[2..], "**", "");
  }

  /** Removing "**" in pairs leaves at most one star of every run. */
  lemma {:induction false} RemovePairs(s: string)
    ensures Sparse(Replace(s, "**", ""))
    ensures Filter(Replace(s, "**", ""), NotStar) == Filter(s, NotStar)
  {
    if s == "" {
    } else if "**" <= s {
      RemovePairs(s[2..]);
      RemovePairsPair(s);
    } else {
      RemovePairsHead(s);
      RemovePairs(s[1..]);
      if s[0] == '*' && |s| > 1 { RemovePairsHead(s[1..]); }
      var rest := Replace(s[1..], "**", "");
      FilterAppend([s[0]], rest, NotStar);
      FilterAppend([s[0]], s[1..], NotStar);
      assert s == [s[0]] + s[1..];
    }
  }
}
