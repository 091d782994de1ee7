/** The lines that the stream chunker reads, as text. */
module ChunkerLines {
  import opened Text
  import opened Utf8
  import opened Utf8Text
  import opened StreamChunker

  // White space

  lemma SpaceHeadIs(s: Bytes)
    requires Head(s) > 0
    ensures SpaceHead(s) == if IsWhitespace(Scalar(s)) then Head(s) else 0
  {
    match Head(s)
    case 1 =>
    case 2 =>
    case 3 => WideHead(s);
    case 4 =>
  }

  lemma WideHead(s: Bytes)
    requires Head(s) == 3
    ensures IsWideSpace(s[0], s[1], s[2]) <==> IsWhitespace(Scalar(s))
  {
    var n := Scalar(s) as int;
    assert n == (s[0] as int - 0xE0) * 0x1000 + (s[1] as int - 0x80) * 0x40 + (s[2] as int - 0x80);
    hide Scalar;
    assert s[1] as int - 0x80 < 0x40 && s[2] as int - 0x80 < 0x40;
  }

  /** Where the last character starts. */
  lemma {:induction false} LastChar(s: Bytes) returns (k: nat)
    requires Valid(s) && s != []
    ensures k < |s| && Valid(s[..k]) && Head(s[k..]) == |s| - k
    ensures Decode(s) == Decode(s[..k]) + [Scalar(s[k..])]
  {
    hide Head, Scalar, Decode, Valid;
    RestValid(s);
    var h := Head(s);
    if h == |s| {
      k := 0;
      OnlyChar(s);
    } else {
      var j := LastChar(s[h..]);
      k := h + j;
      assert s[h..][j..] == s[k..];
      OneMoreChar(s, h, j);
    }
  }

  lemma RestValid(s: Bytes)
    requires Valid(s) && s != []
    ensures Head(s) > 0 && Valid(s[Head(s)..])
  {}

  lemma OnlyChar(s: Bytes)
    requires Head(s) == |s| > 0
    ensures Valid(s) && s[0..] == s && s[..0] == [] && Valid(s[..0])
    ensures Decode(s) == Decode(s[..0]) + [Scalar(s[0..])]
  {
    assert s[..|s|] == s && s[|s|..] == [];
  }

  lemma OneMoreChar(s: Bytes, h: nat, j: nat)
    requires Head(s) == h > 0 && Valid(s[h..]) && j <= |s| - h && Valid(s[h..][..j])
    ensures Valid(s[..h + j]) && Valid(s)
    ensures Valid(s[..h]) && Decode(s) == Decode(s[..h]) + Decode(s[h..])
    ensures Decode(s[..h + j]) == Decode(s[..h]) + Decode(s[h..][..j])
  {
    OneChar(s);
    assert s == s[..h] + s[h..] && s[..h + j] == s[..h] + s[h..][..j];
    hide Head, Decode, Valid;
    DecodeAppend(s[..h], s[h..][..j]);
    DecodeAppend(s[..h], s[h..]);
  }

  lemma OneChar(s: Bytes)
    requires Head(s) > 0
    ensures Valid(s[..Head(s)])
  {
    HeadOfPrefix(s, Head(s));
    assert s[..Head(s)][Head(s)..] == [];
  }

  lemma SpaceTailIs(s: Bytes, k: nat)
    requires k < |s| && Head(s[k..]) == |s| - k
    ensures SpaceTail(s) == if IsWhitespace(Scalar(s[k..])) then |s| - k else 0
  {
    var c := s[k..];
    SpaceHeadIs(c);
    assert forall i :: 0 <= i < |c| ==> c[i] == s[k + i];
    hide Scalar, IsWhitespace;
  }

  lemma {:induction false} HeadTrimmed(s: Bytes)
    requires Valid(s)
    ensures Valid(DropSpaceHead(s)) && Decode(DropSpaceHead(s)) == TrimStart(Decode(s))
  {
    hide IsWhitespace, SpaceHead, Head, Scalar;
    if s == [] {
      NoSpace();
    } else {
      var h := Head(s);
      SpaceHeadIs(s);
      ScalarOfHead(s);
      if SpaceHead(s) > 0 { HeadTrimmed(s[h..]); }
    }
  }

  lemma NoSpace()
    ensures SpaceHead([]) == 0 && SpaceTail([]) == 0
  {}

  lemma ScalarOfHead(s: Bytes)
    requires Head(s) > 0
    ensures Head(s[..Head(s)]) == Head(s) && Scalar(s[..Head(s)]) == Scalar(s)
  {
    HeadOfPrefix(s, Head(s));
  }

  lemma {:induction false} TailTrimmed(s: Bytes)
    requires Valid(s)
    ensures Valid(DropSpaceTail(s)) && Decode(DropSpaceTail(s)) == DropEnd(Decode(s), IsWhitespace)
    decreases |s|
  {
    hide IsWhitespace, SpaceTail, Head, Scalar, Valid;
    if s == [] {
      NoSpace();
      assert Valid([]) by { NothingValid(); }
    } else {
      var k := LastChar(s);
      SpaceTailIs(s, k);
      if SpaceTail(s) > 0 { TailTrimmed(s[..k]); }
      assert Decode(s)[..|Decode(s)| - 1] == Decode(s[..k]);
    }
  }

  lemma NothingValid()
    ensures Valid([]) && Decode([]) == ""
  {}

  /** Trimming bytes is trimming text: white space is the same in both. */
  lemma TrimIsTrim(s: Bytes)
    requires Valid(s)
    ensures Valid(TrimSpace(s)) && Decode(TrimSpace(s)) == Trim(Decode(s))
  {
    HeadTrimmed(s);
    TailTrimmed(DropSpaceHead(s));
  }

  /** A byte 96 at the head is a backtick. */
  lemma TickHead(b: Bytes)
    requires Valid(b)
    ensures b != [] && b[0] == 96 ==> Valid(b[1..]) && Decode(b) == "`" + Decode(b[1..])
    ensures b != [] && b[0] != 96 ==> Decode(b) != "" && Decode(b)[0] != '`'
  {
    if b != [] { ScalarOfHead(b); }
  }

  lemma FenceHead(b: Bytes)
    requires Valid(b)
    ensures FENCE <= b <==> "```" <= Decode(b)
  {
    hide Valid, Decode;
    NothingValid();
    TickHead(b);
    if b != [] && b[0] == 96 {
      TickHead(b[1..]);
      if |b| > 1 && b[1] == 96 {
        TickHead(b[1..][1..]);
        assert b[1..][1..] == b[2..];
        assert Decode(b) == "``" + Decode(b[2..]);
        ThirdTick(Decode(b[2..]));
      } else {
        SecondTick(Decode(b[1..]));
        assert b[1..] == [] || b[1..][0] == b[1];
      }
    }
  }

  lemma ThirdTick(rest: string)
    ensures "```" <= "``" + rest <==> rest != "" && rest[0] == '`'
  {
    if rest != "" { assert ("``" + rest)[2] == rest[0]; }
  }

  lemma SecondTick(rest: string)
    ensures "```" <= "`" + rest ==> rest != "" && rest[0] == '`'
  {
    if rest != "" { assert ("`" + rest)[1] == rest[0]; }
  }

  /** A line is a fence line exactly if its text, trimmed, begins with three backticks. */
  lemma FenceLineIff(line: Bytes)
    requires Valid(line)
    ensures IsFenceLine(line) <==> "```" <= Trim(Decode(line))
  {
    TrimIsTrim(line);
    FenceHead(TrimSpace(line));
  }

  // Lines

  /** No byte but the last is a newline. */
  ghost predicate OneLine(piece: Bytes) { piece != [] && forall i :: 0 <= i < |piece| - 1 ==> piece[i] != 10 }

  predicate Ends(piece: Bytes) { piece != [] && piece[|piece| - 1] == 10 }

  /** Lines that each end with their newline, but perhaps the last. */
  ghost predicate InLines(pieces: seq<Bytes>) {
    && (forall k :: 0 <= k < |pieces| ==> OneLine(pieces[k]))
    && (forall k :: 0 <= k < |pieces| - 1 ==> Ends(pieces[k]))
  }

  lemma {:induction false} LineEndMeaning(text: Bytes)
    requires text != []
    ensures OneLine(text[..LineEnd(text)]) && (LineEnd(text) < |text| ==> Ends(text[..LineEnd(text)]))
  {
    if text[0] == 10 || |text| == 1 {
    } else {
      LineEndMeaning(text[1..]);
      var k := LineEnd(text);
      assert text[..k] == [text[0]] + text[1..][..k - 1];
    }
  }

  /** A push is read line by line. */
  lemma {:induction false} PiecesAreLines(text: Bytes)
    ensures InLines(SplitInclusive(text)) && Concat(SplitInclusive(text)) == text
  {
    if text != [] {
      LineEndMeaning(text);
      PiecesAreLines(text[LineEnd(text)..]);
    }
  }

  lemma {:induction false} LineEndIs(piece: Bytes, rest: Bytes)
    requires OneLine(piece) && (Ends(piece) || rest == [])
    ensures LineEnd(piece + rest) == |piece|
  {
    if |piece| == 1 {
      assert (piece + rest)[0] == piece[0];
    } else {
      assert (piece + rest)[1..] == piece[1..] + rest && (piece + rest)[0] == piece[0];
      LineEndIs(piece[1..], rest);
    }
  }

  /** And in no other way. */
  lemma {:induction false} PiecesUnique(pieces: seq<Bytes>)
    requires InLines(pieces)
    ensures SplitInclusive(Concat(pieces)) == pieces
  {
    if pieces != [] {
      var first, rest := pieces[0], pieces[1..];
      assert pieces == [first] + rest;
      ConcatFirst(first, rest);
      PiecesUnique(rest);
      assert rest == [] ==> Concat(rest) == [];
      LineEndIs(first, Concat(rest));
      assert (first + Concat(rest))[|first|..] == Concat(rest);
    }
  }
}
