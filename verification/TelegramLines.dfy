/** The lines that the Telegram formatter works on, against the text they come from. */
module TelegramLines {
  import opened Text
  import opened TelegramBlocks
  import Escape
  import TelegramGrammar

  // Line ends

  /** The text with each of the three line ends, CR LF, CR and LF, as one newline. */
  function Unified(t: string): string {
    if t == "" then ""
    else if t[0] == '\r' then "\n" + Unified(t[if |t| > 1 && t[1] == '\n' then 2 else 1..])
    else [t[0]] + Unified(t[1..])
  }

  lemma ReturnAt(t: string)
    ensures "\r\n" <= t <==> |t| > 1 && t[0] == '\r' && t[1] == '\n'
  {}

  /** The two replacements read the line ends from left to right. */
  lemma {:induction false} NormalizeIsUnified(t: string)
    ensures NormalizeNewlines(t) == Unified(t)
    decreases |t|
  {
    ReturnAt(t);
    if t == "" {
    } else if "\r\n" <= t {
      NormalizeIsUnified(t[2..]);
      Escape.ReplaceHead('\n', Replace(t[2..], "\r\n", "\n"), '\r', "\n");
    } else {
      NormalizeIsUnified(t[1..]);
      Escape.ReplaceHead(t[0], Replace(t[1..], "\r\n", "\n"), '\r', "\n");
    }
  }

  predicate Plain(c: char) { c != '\r' && c != '\n' }

  function LineEnds(t: string): nat {
    if t == "" then 0
    else if t[0] == '\r' then 1 + LineEnds(t[if |t| > 1 && t[1] == '\n' then 2 else 1..])
    else (if t[0] == '\n' then 1 else 0) + LineEnds(t[1..])
  }

  /** No carriage return is left, there is a newline for every line end, and all other characters
      are kept in order. */
  lemma {:induction false} UnifiedMeaning(t: string)
    ensures '\r' !in Unified(t)
    ensures Count(Unified(t), '\n') == LineEnds(t)
    ensures Filter(Unified(t), Plain) == Filter(t, Plain)
    decreases |t|
  {
    if t == "" {
    } else {
      var n := if t[0] == '\r' && |t| > 1 && t[1] == '\n' then 2 else 1;
      UnifiedMeaning(t[n..]);
      var head := if t[0] == '\r' then "\n" else [t[0]];
      assert Unified(t) == head + Unified(t[n..]);
      CountAppend(head, Unified(t[n..]), '\n');
      FilterAppend(head, Unified(t[n..]), Plain);
      assert t == t[..n] + t[n..];
      FilterAppend(t[..n], t[n..], Plain);
      HeadMeaning(t, n);
    }
  }

  lemma HeadMeaning(t: string, n: nat)
    requires t != "" && n == if t[0] == '\r' && |t| > 1 && t[1] == '\n' then 2 else 1
    ensures var head := if t[0] == '\r' then "\n" else [t[0]];
            && Filter(head, Plain) == Filter(t[..n], Plain)
            && Count(head, '\n') == if t[0] == '\r' || t[0] == '\n' then 1 else 0
  {
    if n == 2 { assert t[..n][1..] == [t[1]] && [t[1]][1..] == ""; }
  }

  // Lines

  predicate EndsLine(s: string) { s != "" && s[|s| - 1] == '\n' }

  /** Lines put together, the last one ended or not. */
  function Together(lines: seq<string>, ended: bool): string { Join(lines, "\n") + if ended then "\n" else "" }

  ghost predicate NoNewlines(lines: seq<string>) { forall i :: 0 <= i < |lines| ==> '\n' !in lines[i] }

  lemma JoinFirst(first: string, rest: seq<string>)
    ensures Join([first] + rest, "\n") == if rest == [] then first else first + "\n" + Join(rest, "\n")
  {
    assert ([first] + rest)[1..] == rest;
  }

  lemma FirstNewline(s: string, k: nat)
    requires Find(s, "\n", 0) == Some(k)
    ensures k < |s| && s[k] == '\n' && '\n' !in s[..k] && s == s[..k] + "\n" + s[k + 1..]
  {
    assert StartsAt(s, k, "\n") && k < |s| && forall i :: 0 <= i < k ==> !StartsAt(s, i, "\n");
    hide *;
    NewlineAt(s, k);
    NoneBefore(s, k);
    CutAt(s, k);
  }

  lemma NoneBefore(s: string, k: nat)
    requires k < |s| && forall i :: 0 <= i < k ==> !StartsAt(s, i, "\n")
    ensures '\n' !in s[..k]
  {
    forall i | 0 <= i < k ensures s[i] != '\n' { NewlineAt(s, i); }
  }

  lemma CutAt(s: string, k: nat)
    requires k < |s|
    ensures s == s[..k] + [s[k]] + s[k + 1..]
  {}

  lemma NewlineAt(s: string, i: nat)
    requires i < |s|
    ensures StartsAt(s, i, "\n") <==> s[i] == '\n'
    ensures s[i] == '\n' ==> [s[i]] == "\n"
  {
    assert s[i..i + 1] == [s[i]];
  }

  lemma NoNewline(s: string)
    ensures Find(s, "\n", 0).None? <==> '\n' !in s
  {
    if i :| 0 <= i < |s| && s[i] == '\n' { assert s[i..i + 1] == "\n" && StartsAt(s, i, "\n"); }
    if Find(s, "\n", 0).Some? { FirstNewline(s, Find(s, "\n", 0).value); }
  }

  /** The lines hold no newline, and put together they are the text. */
  lemma {:induction false} LinesMeaning(s: string)
    ensures NoNewlines(Lines(s)) && (Lines(s) == [] <==> s == "")
    ensures Together(Lines(s), EndsLine(s)) == s
    decreases |s|
  {
    if s == "" {
    } else {
      NoNewline(s);
      match Find(s, "\n", 0)
      case None => assert s[|s| - 1] in s;
      case Some(k) =>
        FirstNewline(s, k);
        LinesMeaning(s[k + 1..]);
        AllTogether(s, k);
    }
  }

  lemma AllTogether(s: string, k: nat)
    requires k < |s| && s == s[..k] + "\n" + s[k + 1..]
    requires Lines(s) == [s[..k]] + Lines(s[k + 1..]) && (Lines(s[k + 1..]) == [] <==> s[k + 1..] == "")
    requires Together(Lines(s[k + 1..]), EndsLine(s[k + 1..])) == s[k + 1..]
    ensures Together(Lines(s), EndsLine(s)) == s
  {
    hide Find, Join, Lines;
    var first, rest := s[..k], s[k + 1..];
    JoinFirst(first, Lines(rest));
    if rest == "" {
      assert s == first + "\n";
    } else {
      assert s[|s| - 1] == rest[|rest| - 1];
      var end := if EndsLine(s) then "\n" else "";
      assert first + "\n" + Join(Lines(rest), "\n") + end == first + "\n" + (Join(Lines(rest), "\n") + end);
    }
  }

  /** What lines can be: only the last one may be left without its end, and then it is not empty. */
  ghost predicate Proper(lines: seq<string>, ended: bool) {
    && NoNewlines(lines)
    && (lines == [] ==> !ended) && (lines != [] && !ended ==> lines[|lines| - 1] != "")
  }

  /** No other lines are the text put together. */
  lemma {:induction false} LinesUnique(lines: seq<string>, ended: bool)
    requires Proper(lines, ended)
    ensures Lines(Together(lines, ended)) == lines && EndsLine(Together(lines, ended)) == ended
    decreases |lines|
  {
    if lines == [] {
    } else {
      var first, rest := lines[0], lines[1..];
      assert lines == [first] + rest;
      JoinFirst(first, rest);
      var s := Together(lines, ended);
      if rest == [] && !ended {
        NoNewline(s);
        assert s == first && s[|s| - 1] in s;
      } else {
        var tail := Together(rest, if rest == [] then false else ended);
        LinesUnique(rest, if rest == [] then false else ended);
        SplitFirst(first, rest, ended);
        hide Lines, Together, Find;
        CutAtNewline(first, tail);
        if rest != [] { TailEnds(rest, ended); }
        EndOf(first, tail);
      }
    }
  }

  lemma EndOf(first: string, tail: string)
    ensures EndsLine(first + "\n" + tail) == (tail == "" || EndsLine(tail))
  {
    var s := first + "\n" + tail;
    if tail != "" { assert s[|s| - 1] == tail[|tail| - 1]; }
  }

  lemma SplitFirst(first: string, rest: seq<string>, ended: bool)
    requires rest != [] || ended
    ensures Together([first] + rest, ended) == first + "\n" + Together(rest, if rest == [] then false else ended)
  {
    JoinFirst(first, rest);
    hide Join;
    var end := if ended then "\n" else "";
    if rest == [] {
      assert Join(rest, "\n") == "" by { NothingJoined(); }
      assert first + "\n" + ("" + "") == first + "\n";
    } else {
      assert first + "\n" + Join(rest, "\n") + end == first + "\n" + (Join(rest, "\n") + end);
    }
  }

  lemma NothingJoined()
    ensures Join([], "\n") == ""
  {}

  lemma TailEnds(rest: seq<string>, ended: bool)
    requires rest != [] && Proper(rest, ended) && Lines(Together(rest, ended)) == rest
    ensures Together(rest, ended) != ""
  {
    LinesMeaning(Together(rest, ended));
  }

  lemma CutAtNewline(first: string, tail: string)
    requires '\n' !in first
    ensures Lines(first + "\n" + tail) == [first] + Lines(tail)
  {
    var s, k := first + "\n" + tail, |first|;
    assert s[k..k + 1] == "\n" && StartsAt(s, k, "\n");
    forall i: nat | i < k ensures !StartsAt(s, i, "\n") { assert s[i..i + 1] == [first[i]]; }
    assert Find(s, "\n", 0) == Some(k);
    assert s[..k] == first && s[k + 1..] == tail;
  }

  /** The sources of all blocks, put together, are the text that came in, with its line ends unified. */
  lemma SourcesAreText(text: string)
    ensures var lines := Lines(NormalizeNewlines(text));
            Together(TelegramGrammar.Sources(Parse(lines)), EndsLine(Unified(text))) == Unified(text)
  {
    hide Lines, Parse, NormalizeNewlines, Unified, Join;
    NormalizeIsUnified(text);
    LinesMeaning(Unified(text));
    TelegramGrammar.ParseKeepsLines(Lines(Unified(text)));
  }
}
