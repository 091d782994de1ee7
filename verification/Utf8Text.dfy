/** Decoding UTF-8 that arrives in pieces. */
module Utf8Text {
  import opened Utf8

  /** The character at the head of well-formed bytes. */
  function Scalar(s: Bytes): char
    requires Head(s) > 0
  {
    var b0 := s[0] as int;
    if Head(s) == 1 then b0 as char
    else
      var b1 := s[1] as int - 0x80;
      if Head(s) == 2 then ((b0 - 0xC0) * 0x40 + b1) as char
      else
        var b2 := s[2] as int - 0x80;
        if Head(s) == 3 then ((b0 - 0xE0) * 0x1000 + b1 * 0x40 + b2) as char
        else ((b0 - 0xF0) * 0x4_0000 + b1 * 0x1000 + b2 * 0x40 + (s[3] as int - 0x80)) as char
  }

  function Decode(s: Bytes): string
    requires Valid(s)
  {
    if s == [] then "" else [Scalar(s[..Head(s)])] + Decode(s[Head(s)..])
  }

  /** How many bytes the longest prefix of whole characters has. */
  function Whole(s: Bytes): (n: nat)
    ensures n <= |s| && Valid(s[..n])
  {
    if Head(s) == 0 then 0
    else
      var n := Head(s) + Whole(s[Head(s)..]);
      PrefixValid(s, n);
      n
  }

  lemma PrefixValid(s: Bytes, n: nat)
    requires 0 < Head(s) <= n <= |s| && Valid(s[Head(s)..][..n - Head(s)])
    ensures Valid(s[..n])
  {
    HeadOfPrefix(s, n);
    assert s[..n][Head(s)..] == s[Head(s)..][..n - Head(s)];
  }

  /** The text of the whole characters at the head of some bytes. */
  function TextOf(s: Bytes): string { Decode(s[..Whole(s)]) }

  lemma {:induction false} DecodeAppend(a: Bytes, b: Bytes)
    requires Valid(a) && Valid(b)
    ensures Valid(a + b) && Decode(a + b) == Decode(a) + Decode(b)
  {
    hide Head, Scalar;
    ValidAppend(a, b);
    if a == [] {
      assert a + b == b;
    } else {
      var h := Head(a);
      HeadAppend(a, b);
      assert (a + b)[..h] == a[..h];
      assert (a + b)[h..] == a[h..] + b;
      DecodeAppend(a[h..], b);
      HeadOfPrefix(a, h);
      assert ([Scalar(a[..h])] + Decode(a[h..])) + Decode(b) == [Scalar(a[..h])] + (Decode(a[h..]) + Decode(b));
    }
  }

  lemma {:induction false} WholeAppend(v: Bytes, x: Bytes)
    requires Valid(v)
    ensures Whole(v + x) == |v| + Whole(x)
  {
    hide Head;
    if v == [] {
      assert v + x == x;
    } else {
      HeadAppend(v, x);
      assert (v + x)[Head(v)..] == v[Head(v)..] + x;
      WholeAppend(v[Head(v)..], x);
    }
  }

  lemma WholeOfValid(v: Bytes)
    requires Valid(v)
    ensures Whole(v) == |v| && TextOf(v) == Decode(v)
  {
    WholeAppend(v, []);
    assert v + [] == v && v[..|v|] == v;
  }

  /** Decoding what was left over together with what comes next continues the text. */
  lemma TextGrows(a: Bytes, x: Bytes)
    ensures var rest := a[Whole(a)..] + x;
            && TextOf(a + x) == TextOf(a) + TextOf(rest)
            && (a + x)[Whole(a + x)..] == rest[Whole(rest)..]
  {
    hide Head, Whole, Decode;
    var v, rest := a[..Whole(a)], a[Whole(a)..] + x;
    assert a + x == v + rest;
    WholeAppend(v, rest);
    DecodeAppend(v, rest[..Whole(rest)]);
    assert (v + rest)[..|v| + Whole(rest)] == v + rest[..Whole(rest)];
  }

  // Chunks

  ghost predicate AllValid(chunks: seq<Bytes>) { forall i :: 0 <= i < |chunks| ==> Valid(chunks[i]) }

  /** No cut between chunks falls inside a character. */
  ghost predicate CutsAtBoundaries(chunks: seq<Bytes>) {
    forall k :: 0 <= k <= |chunks| ==> CutAtBoundary(chunks, k)
  }

  /** The first clause always holds (CutIsPrefix). */
  ghost predicate CutAtBoundary(chunks: seq<Bytes>, k: nat)
    requires k <= |chunks|
  {
    Concat(chunks) == Concat(chunks[..k]) + Concat(chunks[k..])
    && IsBoundary(Concat(chunks), |Concat(chunks[..k])|)
  }

  lemma {:induction false} ValidConcat(chunks: seq<Bytes>)
    requires AllValid(chunks)
    ensures Valid(Concat(chunks))
  {
    if chunks == [] {
    } else {
      ValidConcat(chunks[..|chunks| - 1]);
      ValidAppend(Concat(chunks[..|chunks| - 1]), chunks[|chunks| - 1]);
    }
  }

  lemma CutIsPrefix(chunks: seq<Bytes>, k: nat)
    requires k <= |chunks|
    ensures Concat(chunks) == Concat(chunks[..k]) + Concat(chunks[k..])
  {
    ConcatAppend(chunks[..k], chunks[k..]);
    assert chunks[..k] + chunks[k..] == chunks;
  }

  lemma {:induction false} CutsOfFront(chunks: seq<Bytes>)
    requires chunks != [] && CutsAtBoundaries(chunks)
    ensures CutsAtBoundaries(chunks[..|chunks| - 1])
  {
    hide Concat, IsBoundary;
    var front := chunks[..|chunks| - 1];
    CutIsPrefix(chunks, |front|);
    forall k | 0 <= k <= |front| ensures CutAtBoundary(front, k) {
      assert CutAtBoundary(chunks, k);
      CutIsPrefix(front, k);
      assert front[..k] == chunks[..k];
      BoundaryOfPrefix(Concat(front), Concat(chunks[|front|..]), |Concat(chunks[..k])|);
    }
  }

  lemma BoundaryOfPrefix(a: Bytes, b: Bytes, i: nat)
    requires i <= |a| && IsBoundary(a + b, i)
    ensures IsBoundary(a, i)
  {}

  /** A well-formed text can be decoded chunk by chunk exactly when no cut splits a character. */
  lemma {:induction false} AllValidIff(chunks: seq<Bytes>)
    requires Valid(Concat(chunks))
    ensures AllValid(chunks) <==> CutsAtBoundaries(chunks)
  {
    hide Valid, Concat;
    if AllValid(chunks) {
      forall k | 0 <= k <= |chunks| ensures CutAtBoundary(chunks, k) {
        CutIsPrefix(chunks, k);
        ValidConcat(chunks[k..]);
        BoundaryBefore(Concat(chunks[..k]), Concat(chunks[k..]));
      }
    }
    if CutsAtBoundaries(chunks) { ChunksValid(chunks); }
  }

  lemma BoundaryBefore(a: Bytes, b: Bytes)
    requires Valid(b)
    ensures IsBoundary(a + b, |a|)
  {
    if b != [] { assert (a + b)[|a|] == b[0]; }
  }

  lemma {:induction false} ChunksValid(chunks: seq<Bytes>)
    requires Valid(Concat(chunks)) && CutsAtBoundaries(chunks)
    ensures AllValid(chunks)
  {
    hide Valid;
    if chunks == [] {
    } else {
      var front, last := chunks[..|chunks| - 1], chunks[|chunks| - 1];
      assert CutAtBoundary(chunks, |front|);
      ValidCut(Concat(chunks), |Concat(front)|);
      assert Concat(chunks)[..|Concat(front)|] == Concat(front);
      assert Concat(chunks)[|Concat(front)|..] == last;
      CutsOfFront(chunks);
      ChunksValid(front);
    }
  }
}
