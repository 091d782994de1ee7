/** Strings in which a marker character appears only as the first character of one of
    a fixed set of tokens. HTML output is judged by two such vocabularies: '<' with the
    emitted tags, and '&' with the character entities. */
module Tokens {
  import opened Text

  /** A token vocabulary. `ends` are the characters that close a token. */
  datatype Vocabulary = Vocabulary(mark: char, tokens: set<string>, ends: set<char>) {

    /** A token opens with the marker, closes with an end character, and has neither inside. */
    ghost predicate TokenShape(t: string) {
      && |t| >= 2 && t[0] == mark && t[|t| - 1] in ends
      && (forall j :: 0 < j < |t| ==> t[j] != mark)
      && (forall j :: 0 <= j < |t| - 1 ==> t[j] !in ends)
    }

    ghost predicate Valid() {
      forall t :: t in tokens ==> TokenShape(t)
    }

    /** `c` belongs to no token, so no token reaches across it. */
    ghost predicate Outside(c: char) {
      c != mark && forall t :: t in tokens ==> c !in t
    }

    /** A token of the vocabulary starts at the head of `s`. */
    ghost predicate Opens(s: string) {
      exists t :: t in tokens && t <= s
    }

    /** Every marker in `s` begins an intact token. */
    ghost predicate Intact(s: string) {
      s == "" || ((s[0] == mark ==> Opens(s)) && Intact(s[1..]))
    }

    /** The positional reading of `Intact`. */
    lemma {:induction false} IntactAt(s: string)
      ensures Intact(s) <==>
              forall i :: 0 <= i < |s| && s[i] == mark ==> Opens(s[i..])
    {
      if s == "" {
      } else {
        IntactAt(s[1..]);
        forall i | 0 < i < |s| ensures s[1..][i - 1] == s[i] && s[1..][i - 1..] == s[i..] {}
        if Intact(s) {
          forall i | 0 <= i < |s| && s[i] == mark ensures Opens(s[i..]) {
            if i == 0 { assert s[0..] == s; } else { assert s[1..][i - 1] == mark; }
          }
        }
        if forall i :: 0 <= i < |s| && s[i] == mark ==> Opens(s[i..]) {
          assert s[0..] == s;
          forall i | 0 <= i < |s[1..]| && s[1..][i] == mark ensures Opens(s[1..][i..]) {
            assert s[i + 1] == mark;
          }
        }
      }
    }

    lemma {:induction false} IntactNoMark(s: string)
      requires mark !in s
      ensures Intact(s)
    {
      if s == "" {
      } else {
        IntactNoMark(s[1..]);
      }
    }

    lemma {:induction false} IntactAppend(a: string, b: string)
      requires Intact(a) && Intact(b)
      ensures Intact(a + b)
    {
      if a == "" {
        assert a + b == b;
      } else {
        assert (a + b)[1..] == a[1..] + b;
        IntactAppend(a[1..], b);
        if a[0] == mark {
          var t :| t in tokens && t <= a;
          assert t <= a + b;
        }
      }
    }

    /** A prefix of `a + d + b` that is longer than `a` contains the head of `d`. */
    lemma ReachesAcross(t: string, a: string, d: string, b: string)
      requires d != "" && t <= a + d + b && |t| > |a|
      ensures d[0] in t
    {
      assert t[|a|] == (a + d + b)[|a|];
    }

    /** Cutting at a character outside every token leaves both sides intact. */
    lemma {:induction false} IntactCut(a: string, d: string, b: string)
      requires d != "" && Outside(d[0])
      requires Intact(a + d + b)
      ensures Intact(a) && Intact(b)
    {
      if a == "" {
        assert a + d + b == d + b;
        IntactSuffix(d, b);
      } else {
        assert (a + d + b)[1..] == a[1..] + d + b;
        IntactCut(a[1..], d, b);
        if a[0] == mark {
          var t :| t in tokens && t <= a + d + b;
          if |t| > |a| { ReachesAcross(t, a, d, b); }
        }
      }
    }

    lemma {:induction false} IntactSuffix(a: string, b: string)
      requires Intact(a + b)
      ensures Intact(b)
    {
      if a == "" {
        assert a + b == b;
      } else {
        assert (a + b)[1..] == a[1..] + b;
        IntactSuffix(a[1..], b);
      }
    }

    /** Two tokens at the same place are the same token. */
    lemma SamePlaceSameToken(t: string, u: string, s: string)
      requires Valid() && t in tokens && u in tokens && t <= s && u <= s
      ensures t == u
    {
      assert TokenShape(t) && TokenShape(u);
      assert t == s[..|t|] && u == s[..|u|];
      assert s[|t| - 1] in ends && s[|u| - 1] in ends;
    }

    /** The number of places where `t` occurs in `s`. */
    ghost function Occ(s: string, t: string): nat {
      if s == "" then 0 else (if t <= s then 1 else 0) + Occ(s[1..], t)
    }

    lemma {:induction false} OccNoMark(s: string, t: string)
      requires Valid() && t in tokens && mark !in s
      ensures Occ(s, t) == 0
    {
      assert TokenShape(t);
      if s == "" {
      } else {
        OccNoMark(s[1..], t);
      }
    }

    /** A token occurs once in itself and nowhere in another token. */
    lemma OccToken(u: string, t: string)
      requires Valid() && t in tokens && u in tokens
      ensures Occ(u, t) == if t == u then 1 else 0
    {
      assert TokenShape(u);
      assert mark !in u[1..] by {
        forall j | 0 <= j < |u[1..]| ensures u[1..][j] != mark { assert u[1..][j] == u[j + 1]; }
      }
      OccNoMark(u[1..], t);
      if t <= u { SamePlaceSameToken(t, u, u); }
    }

    lemma {:induction false} OccAppend(a: string, b: string, t: string)
      requires Valid() && t in tokens && Intact(a)
      ensures Occ(a + b, t) == Occ(a, t) + Occ(b, t)
    {
      if a == "" {
        assert a + b == b;
      } else {
        assert (a + b)[1..] == a[1..] + b;
        OccAppend(a[1..], b, t);
        assert TokenShape(t);
        if t <= a + b {
          assert a[0] == t[0];
          var u :| u in tokens && u <= a;
          assert u <= a + b;
          SamePlaceSameToken(t, u, a + b);
        }
        if t <= a { assert t <= a + b; }
      }
    }

    /** Counts add up across a cut, and the text at the cut counts for nothing. */
    lemma OccCut(a: string, d: string, b: string, t: string)
      requires Valid() && t in tokens && d != "" && Outside(d[0]) && mark !in d
      requires Intact(a + d + b)
      ensures Occ(a + d + b, t) == Occ(a, t) + Occ(b, t)
    {
      IntactCut(a, d, b);
      IntactNoMark(d);
      OccNoMark(d, t);
      assert a + d + b == a + (d + b);
      OccAppend(a, d + b, t);
      OccAppend(d, b, t);
    }
  }
}
