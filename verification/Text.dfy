/** String operations the channel and stream code takes from its standard library:
    searching, replacing, joining and trimming. A string is a sequence of Unicode
    scalar values. */
module Text {

  datatype Option<+T> = None | Some(value: T)

  /** `p` occurs in `s` at index `i`. */
  predicate StartsAt(s: string, i: int, p: string) {
    0 <= i && i + |p| <= |s| && s[i..i + |p|] == p
  }

  /** The first index at or after `from` where `p` occurs. */
  function Find(s: string, p: string, from: nat): (r: Option<nat>)
    requires from <= |s|
    ensures r.Some? ==> from <= r.value && StartsAt(s, r.value, p)
    ensures r.Some? ==> forall i :: from <= i < r.value ==> !StartsAt(s, i, p)
    ensures r.None? ==> forall i :: from <= i ==> !StartsAt(s, i, p)
    decreases |s| - from
  {
    if StartsAt(s, from, p) then Some(from)
    else if from == |s| then None
    else Find(s, p, from + 1)
  }

  /** Left-to-right replacement of non-overlapping occurrences. */
  function Replace(s: string, p: string, rep: string): string
    requires p != ""
  {
    if s == "" then ""
    else if p <= s then rep + Replace(s[|p|..], p, rep)
    else [s[0]] + Replace(s[1..], p, rep)
  }

  /** The characters of `s` that satisfy `keep`, in order. */
  function Filter(s: string, keep: char -> bool): string {
    if s == "" then ""
    else (if keep(s[0]) then [s[0]] else "") + Filter(s[1..], keep)
  }

  lemma {:induction false} FilterAppend(a: string, b: string, keep: char -> bool)
    ensures Filter(a + b, keep) == Filter(a, keep) + Filter(b, keep)
  {
    if a == "" {
      assert a + b == b;
    } else {
      var head := if keep(a[0]) then [a[0]] else "";
      assert (a + b)[1..] == a[1..] + b;
      FilterAppend(a[1..], b, keep);
      assert head + (Filter(a[1..], keep) + Filter(b, keep)) == (head + Filter(a[1..], keep)) + Filter(b, keep);
    }
  }

  /** How many times `c` occurs in `s`. */
  function Count(s: string, c: char): nat {
    if s == "" then 0 else (if s[0] == c then 1 else 0) + Count(s[1..], c)
  }

  lemma {:induction false} CountAppend(a: string, b: string, c: char)
    ensures Count(a + b, c) == Count(a, c) + Count(b, c)
  {
    if a == "" {
      assert a + b == b;
    } else {
      assert (a + b)[1..] == a[1..] + b;
      CountAppend(a[1..], b, c);
    }
  }

  lemma {:induction false} CountAbsent(s: string, c: char)
    requires c !in s
    ensures Count(s, c) == 0
  {
    if s == "" {
    } else {
      CountAbsent(s[1..], c);
    }
  }

  /** `Count` of five pieces in a row. */
  lemma CountFive(a: string, b: string, d: string, e: string, f: string, c: char)
    ensures Count(a + b + d + e + f, c) == Count(a, c) + Count(b, c) + Count(d, c) + Count(e, c) + Count(f, c)
  {
    CountAppend(a + b + d + e, f, c);
    CountAppend(a + b + d, e, c);
    CountAppend(a + b, d, c);
    CountAppend(a, b, c);
  }

  function LowerChar(c: char): char {
    if 'A' <= c <= 'Z' then c + 32 as char else c
  }

  function AsciiLower(s: string): string {
    seq(|s|, i requires 0 <= i < |s| => LowerChar(s[i]))
  }

  function Join(parts: seq<string>, sep: string): string {
    if parts == [] then ""
    else if |parts| == 1 then parts[0]
    else parts[0] + sep + Join(parts[1..], sep)
  }

  /** The code points with the Unicode White_Space property. */
  predicate IsWhitespace(c: char) {
    var n := c as int;
    || 0x9 <= n <= 0xD || n == 0x20 || n == 0x85 || n == 0xA0 || n == 0x1680
    || 0x2000 <= n <= 0x200A || n == 0x2028 || n == 0x2029 || n == 0x202F
    || n == 0x205F || n == 0x3000
  }

  /** Drop the leading characters that satisfy `ws`. */
  function DropStart(s: string, ws: char -> bool): string {
    if s != "" && ws(s[0]) then DropStart(s[1..], ws) else s
  }

  /** Drop the trailing characters that satisfy `ws`. */
  function DropEnd(s: string, ws: char -> bool): string {
    if s != "" && ws(s[|s| - 1]) then DropEnd(s[..|s| - 1], ws) else s
  }

  function Strip(s: string, ws: char -> bool): string { DropEnd(DropStart(s, ws), ws) }

  lemma {:induction false} DropStartMeaning(s: string, ws: char -> bool)
    ensures var r := DropStart(s, ws);
            && |r| <= |s| && r == s[|s| - |r|..]
            && (r != "" ==> !ws(r[0]))
            && forall i :: 0 <= i < |s| - |r| ==> ws(s[i])
  {
    if s != "" && ws(s[0]) {
      DropStartMeaning(s[1..], ws);
      assert forall i :: 0 < i < |s| ==> s[i] == s[1..][i - 1];
    }
  }

  lemma {:induction false} DropEndMeaning(s: string, ws: char -> bool)
    ensures var r := DropEnd(s, ws);
            && r <= s
            && (r != "" ==> !ws(r[|r| - 1]))
            && forall i :: |r| <= i < |s| ==> ws(s[i])
  {
    if s != "" && ws(s[|s| - 1]) { DropEndMeaning(s[..|s| - 1], ws); }
  }

  /** What is left has no blank at either end, and only blanks were taken. */
  lemma StripMeaning(s: string, ws: char -> bool) returns (n: nat)
    ensures var r := Strip(s, ws);
            && n + |r| <= |s| && r == s[n..n + |r|]
            && (r != "" ==> !ws(r[0]) && !ws(r[|r| - 1]))
            && (forall i :: 0 <= i < n || n + |r| <= i < |s| ==> ws(s[i]))
  {
    DropStartMeaning(s, ws);
    var t := DropStart(s, ws);
    DropEndMeaning(t, ws);
    n := |s| - |t|;
    var r := Strip(s, ws);
    assert forall i :: n + |r| <= i < |s| ==> s[i] == t[i - n];
  }

  ghost predicate AllSpace(s: string, space: char -> bool) { forall i :: 0 <= i < |s| ==> space(s[i]) }

  lemma {:induction false} DropsStart(before: string, s: string, space: char -> bool)
    requires AllSpace(before, space) && (s != "" ==> !space(s[0]))
    ensures DropStart(before + s, space) == s
  {
    if before == "" {
      assert before + s == s;
    } else {
      assert (before + s)[0] == before[0] && (before + s)[1..] == before[1..] + s;
      DropsStart(before[1..], s, space);
    }
  }

  lemma {:induction false} DropsEnd(s: string, after: string, space: char -> bool)
    requires AllSpace(after, space) && (s != "" ==> !space(s[|s| - 1]))
    ensures DropEnd(s + after, space) == s
  {
    if after == "" {
      assert s + after == s;
    } else {
      var t := s + after;
      assert t[|t| - 1] == after[|after| - 1] && t[..|t| - 1] == s + after[..|after| - 1];
      DropsEnd(s, after[..|after| - 1], space);
    }
  }

  /** A text is stripped of the blanks around it. */
  lemma Strips(before: string, s: string, after: string, space: char -> bool)
    requires AllSpace(before, space) && AllSpace(after, space)
    requires s != "" && !space(s[0]) && !space(s[|s| - 1])
    ensures Strip(before + s + after, space) == s
  {
    assert before + s + after == before + (s + after);
    DropsStart(before, s + after, space);
    DropsEnd(s, after, space);
  }

  function TrimStart(s: string): string { DropStart(s, IsWhitespace) }

  function Trim(s: string): string { Strip(s, IsWhitespace) }

  /** Stripping is the identity on what it produces. */
  lemma StripIdempotent(s: string, ws: char -> bool)
    ensures Strip(Strip(s, ws), ws) == Strip(s, ws)
  {
    var n := StripMeaning(s, ws);
    var r := Strip(s, ws);
    assert DropStart(r, ws) == r;
    assert DropEnd(r, ws) == r;
  }

  /** The longest prefix whose elements all satisfy `p`. */
  function TakeWhile<T>(xs: seq<T>, p: T -> bool): (r: seq<T>)
    ensures r <= xs
    ensures forall i :: 0 <= i < |r| ==> p(r[i])
    ensures |r| < |xs| ==> !p(xs[|r|])
  {
    if xs != [] && p(xs[0]) then [xs[0]] + TakeWhile(xs[1..], p) else []
  }

  lemma {:induction false} TakeWhileUnique<T>(xs: seq<T>, p: T -> bool, r: seq<T>)
    requires r <= xs
    requires forall i :: 0 <= i < |r| ==> p(r[i])
    requires |r| < |xs| ==> !p(xs[|r|])
    ensures TakeWhile(xs, p) == r
  {
    if r == [] {
    } else {
      assert r[0] == xs[0];
      TakeWhileUnique(xs[1..], p, r[1..]);
    }
  }
}
