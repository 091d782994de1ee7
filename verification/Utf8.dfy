/** UTF-8 as a string buffer sees it: well-formed byte sequences (section 4 of RFC 3629) and
    the character boundaries inside them. */
module Utf8 {
  newtype byte = x: int | 0 <= x < 256
  type Bytes = seq<byte>

  predicate Continuation(b: byte) { 0x80 <= b < 0xC0 }

  /** The length of the well-formed character at the head of `s`, or 0. */
  function Head(s: Bytes): (n: nat)
    ensures n <= |s| && n <= 4
    ensures forall i :: 0 < i < n ==> Continuation(s[i])
    ensures n > 0 ==> !Continuation(s[0])
  {
    if |s| >= 1 && s[0] < 0x80 then 1
    else if |s| >= 2 && 0xC2 <= s[0] <= 0xDF && Continuation(s[1]) then 2
    else if |s| >= 3 && Continuation(s[1]) && Continuation(s[2])
            && ((s[0] == 0xE0 && s[1] >= 0xA0)
                || 0xE1 <= s[0] <= 0xEC
                || (s[0] == 0xED && s[1] <= 0x9F)
                || 0xEE <= s[0] <= 0xEF) then 3
    else if |s| >= 4 && Continuation(s[1]) && Continuation(s[2]) && Continuation(s[3])
            && ((s[0] == 0xF0 && s[1] >= 0x90)
                || 0xF1 <= s[0] <= 0xF3
                || (s[0] == 0xF4 && s[1] <= 0x8F)) then 4
    else 0
  }

  predicate Valid(s: Bytes) {
    s == [] || (Head(s) > 0 && Valid(s[Head(s)..]))
  }

  /** An index that a string may be cut at without splitting a character. */
  predicate IsBoundary(s: Bytes, i: nat)
    requires i <= |s|
  {
    i == 0 || i == |s| || !Continuation(s[i])
  }

  /** The pieces of a text put together. */
  function Concat(parts: seq<Bytes>): Bytes {
    if parts == [] then [] else Concat(parts[..|parts| - 1]) + parts[|parts| - 1]
  }

  lemma {:induction false} ConcatAppend(a: seq<Bytes>, b: seq<Bytes>)
    ensures Concat(a + b) == Concat(a) + Concat(b)
  {
    if b == [] {
      assert a + b == a;
    } else {
      var front, last := b[..|b| - 1], b[|b| - 1];
      assert (a + b)[..|a + b| - 1] == a + front;
      ConcatAppend(a, front);
      assert (Concat(a) + Concat(front)) + last == Concat(a) + (Concat(front) + last);
    }
  }

  lemma ConcatFirst(first: Bytes, rest: seq<Bytes>)
    ensures Concat([first] + rest) == first + Concat(rest)
  {
    ConcatAppend([first], rest);
    assert [first][..0] == [];
  }

  lemma HeadAppend(a: Bytes, b: Bytes)
    requires Head(a) > 0
    ensures Head(a + b) == Head(a)
  {}

  lemma {:induction false} ValidAppend(a: Bytes, b: Bytes)
    requires Valid(a) && Valid(b)
    ensures Valid(a + b)
  {
    hide Head;
    if a == [] {
      assert a + b == b;
    } else {
      HeadAppend(a, b);
      ValidAppend(a[Head(a)..], b);
      assert (a + b)[Head(a)..] == a[Head(a)..] + b;
    }
  }

  /** Cutting at a boundary splits no character. */
  lemma {:induction false} ValidCut(s: Bytes, i: nat)
    requires Valid(s) && i <= |s| && IsBoundary(s, i)
    ensures Valid(s[..i]) && Valid(s[i..])
  {
    hide Head;
    if i == 0 || i == |s| {
      assert s[..|s|] == s && s[0..] == s;
    } else {
      var h := Head(s);
      assert i >= h;
      assert IsBoundary(s[h..], i - h);
      ValidCut(s[h..], i - h);
      assert s[h..][..i - h] == s[h..i] && s[h..][i - h..] == s[i..];
      assert s[..i][h..] == s[h..i];
      assert s[..i] == s[..h] + s[h..i];
      HeadOfPrefix(s, i);
    }
  }

  lemma HeadOfPrefix(s: Bytes, i: nat)
    requires Head(s) <= i <= |s|
    ensures Head(s) > 0 ==> Head(s[..i]) == Head(s)
  {}

  /** A well-formed text starts a character within any four bytes. */
  lemma BoundaryWithin(s: Bytes, i: nat)
    requires Valid(s) && 3 <= i <= |s|
    ensures exists j :: i - 3 <= j <= i && IsBoundary(s, j)
    decreases |s|
  {
    if i < |s| {
      var h := Head(s);
      if i < h {
        assert IsBoundary(s, 0);
      } else if i - h < 3 {
        assert !Continuation(s[h..][0]) by { assert h < |s|; }
        assert s[h..][0] == s[h];
        assert IsBoundary(s, h);
      } else {
        BoundaryWithin(s[h..], i - h);
        var j :| i - h - 3 <= j <= i - h && IsBoundary(s[h..], j);
        if j == 0 { assert s[h..][0] == s[h] && !Continuation(s[h]); } else { assert s[h..][j] == s[h + j]; }
        assert IsBoundary(s, h + j);
      }
    } else {
      assert IsBoundary(s, i);
    }
  }
}
