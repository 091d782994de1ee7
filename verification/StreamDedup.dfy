/** The detector of repeated stream text: a window of the last long texts sent to the client,
    compared as they are and in normal form. */
module StreamDedup {
  import opened Text
  import Utf8Encoding

  const MIN_DEDUP_LENGTH: nat := 10
  const DEDUP_WINDOW: nat := 50

  /** The length of a string in UTF-8. */
  function ByteLength(s: string): nat {
    if s == "" then 0
    else
      var n := s[0] as int;
      (if n < 0x80 then 1 else if n < 0x800 then 2 else if n < 0x1_0000 then 3 else 4) + ByteLength(s[1..])
  }

  predicate IsLong(s: string) { ByteLength(s) >= MIN_DEDUP_LENGTH }

  lemma {:induction false} LengthIsEncoded(s: string)
    ensures ByteLength(s) == |Utf8Encoding.Encode(s)|
  {
    if s != "" { LengthIsEncoded(s[1..]); }
  }

  /** A text is long exactly if its encoding has ten bytes. */
  lemma LongIff(s: string)
    ensures IsLong(s) <==> |Utf8Encoding.Encode(s)| >= 10
  {
    LengthIsEncoded(s);
  }

  // Normal form. `lower` maps a character to the first character of its lower case.

  /** The characters pushed so far, and whether the last one read was whitespace. */
  function Collapse(s: string, lower: char -> char): (string, bool) {
    if s == "" then ("", false)
    else
      var (r, lastWasSpace) := Collapse(s[..|s| - 1], lower);
      var c := s[|s| - 1];
      if IsWhitespace(c) then (if lastWasSpace then (r, true) else (r + " ", true))
      else (r + [lower(c)], false)
  }

  function NormalForm(s: string, lower: char -> char): string { Trim(Collapse(s, lower).0) }

  method Normalize(text: string, lower: char -> char) returns (normal: string)
    ensures normal == NormalForm(text, lower)
  {
    hide IsWhitespace, Trim;
    var result, lastWasSpace := "", false;
    for i := 0 to |text|
      invariant (result, lastWasSpace) == Collapse(text[..i], lower)
    {
      assert text[..i + 1][..i] == text[..i];
      if IsWhitespace(text[i]) {
        if !lastWasSpace {
          result := result + " ";
          lastWasSpace := true;
        }
      } else {
        result := result + [lower(text[i])];
        lastWasSpace := false;
      }
    }
    assert text[..|text|] == text;
    normal := Trim(result);
  }

  // What the normal form means

  predicate EndsInWord(s: string) { s != "" && !IsWhitespace(s[|s| - 1]) }

  /** The words of a text in lower case: the longest runs without whitespace. */
  function Words(s: string, lower: char -> char): (w: seq<string>)
    ensures EndsInWord(s) ==> w != []
  {
    if s == "" then []
    else
      var front, c := s[..|s| - 1], s[|s| - 1];
      var w := Words(front, lower);
      if IsWhitespace(c) then w
      else if EndsInWord(front) then w[..|w| - 1] + [w[|w| - 1] + [lower(c)]]
      else w + [[lower(c)]]
  }

  /** Words joined by single spaces. */
  function Spaced(words: seq<string>): string {
    if words == [] then ""
    else if |words| == 1 then words[0]
    else Spaced(words[..|words| - 1]) + " " + words[|words| - 1]
  }

  /** Lowering never makes whitespace, and lowering again changes nothing. */
  ghost predicate IsLowering(lower: char -> char) {
    forall c :: lower(lower(c)) == lower(c) && (IsWhitespace(lower(c)) ==> IsWhitespace(c))
  }

  ghost predicate CleanWord(w: string, lower: char -> char) {
    w != "" && forall i :: 0 <= i < |w| ==> !IsWhitespace(w[i]) && lower(w[i]) == w[i]
  }

  ghost predicate CleanWords(words: seq<string>, lower: char -> char) {
    forall i :: 0 <= i < |words| ==> CleanWord(words[i], lower)
  }

  lemma {:induction false} WordsAreClean(s: string, lower: char -> char)
    requires IsLowering(lower)
    ensures CleanWords(Words(s, lower), lower)
  {
    hide IsWhitespace;
    if s == "" {
    } else {
      WordsAreClean(s[..|s| - 1], lower);
    }
  }

  /** A space in front if the text starts with whitespace, and one after the words if it ends
      with whitespace. */
  function Lead(s: string): string { if s != "" && IsWhitespace(s[0]) then " " else "" }

  function Trail(s: string, words: seq<string>): string {
    if words != [] && s != "" && !EndsInWord(s) then " " else ""
  }

  lemma SpacedExtend(words: seq<string>, c: char)
    requires words != []
    ensures Spaced(words[..|words| - 1] + [words[|words| - 1] + [c]]) == Spaced(words) + [c]
  {
    var longer := words[..|words| - 1] + [words[|words| - 1] + [c]];
    assert longer[..|longer| - 1] == words[..|words| - 1];
  }

  lemma SpacedAppend(words: seq<string>, w: string)
    ensures Spaced(words + [w]) == if words == [] then w else Spaced(words) + " " + w
  {
    assert (words + [w])[..|words|] == words;
  }

  /** What has been pushed after `s` was read. */
  function Pushed(s: string, words: seq<string>): string { Lead(s) + Spaced(words) + Trail(s, words) }

  lemma PushedBlank(front: string, c: char, words: seq<string>)
    requires IsWhitespace(c) && (words == [] ==> !EndsInWord(front))
    requires front == "" ==> words == []
    requires words == [] && front != "" ==> IsWhitespace(front[0])
    ensures Pushed(front + [c], words)
         == if front != "" && !EndsInWord(front) then Pushed(front, words) else Pushed(front, words) + " "
  {
    hide IsWhitespace, Spaced;
    EmptySpaced();
  }

  lemma PushedFirst(front: string, c: char, words: seq<string>, l: char)
    requires !IsWhitespace(c) && !EndsInWord(front)
    requires front == "" ==> words == []
    ensures Pushed(front + [c], words + [[l]]) == Pushed(front, words) + [l]
  {
    hide IsWhitespace, Spaced;
    EmptySpaced();
    SpacedAppend(words, [l]);
    assert Lead(front + [c]) == Lead(front);
  }

  lemma PushedMore(front: string, c: char, words: seq<string>, l: char)
    requires !IsWhitespace(c) && EndsInWord(front) && words != []
    ensures Pushed(front + [c], words[..|words| - 1] + [words[|words| - 1] + [l]]) == Pushed(front, words) + [l]
  {
    hide IsWhitespace, Spaced;
    SpacedExtend(words, l);
    assert Lead(front + [c]) == Lead(front);
  }

  /** A text without words is all whitespace. */
  lemma {:induction false} Wordless(s: string, lower: char -> char)
    requires Words(s, lower) == []
    ensures !EndsInWord(s) && (s != "" ==> IsWhitespace(s[0]))
  {
    hide IsWhitespace;
    if s == "" {
    } else {
      Wordless(s[..|s| - 1], lower);
    }
  }

  lemma {:induction false} CollapseMeaning(s: string, lower: char -> char)
    ensures Collapse(s, lower) == (Pushed(s, Words(s, lower)), s != "" && !EndsInWord(s))
  {
    hide IsWhitespace, Spaced, Pushed;
    if s == "" {
      assert Pushed("", []) == "" by { NothingPushed(); }
    } else {
      var front, c := s[..|s| - 1], s[|s| - 1];
      assert s == front + [c];
      CollapseMeaning(front, lower);
      var words := Words(front, lower);
      if IsWhitespace(c) {
        if words == [] { Wordless(front, lower); }
        PushedBlank(front, c, words);
      } else if EndsInWord(front) {
        PushedMore(front, c, words, lower(c));
      } else {
        PushedFirst(front, c, words, lower(c));
      }
    }
  }

  lemma NothingPushed()
    ensures Pushed("", []) == ""
  {}

  lemma EmptySpaced()
    ensures Spaced([]) == ""
  {}

  lemma {:induction false} SpacedEnds(words: seq<string>, lower: char -> char)
    requires CleanWords(words, lower) && words != []
    ensures var t := Spaced(words); t != "" && !IsWhitespace(t[0]) && !IsWhitespace(t[|t| - 1])
  {
    hide IsWhitespace;
    assert CleanWord(words[|words| - 1], lower);
    if |words| > 1 { SpacedEnds(words[..|words| - 1], lower); }
  }

  lemma DropPad(a: string, t: string, ws: char -> bool)
    requires (a == "" || (|a| == 1 && ws(a[0]))) && t != "" && !ws(t[0])
    ensures DropStart(a + t, ws) == t
  {
    if a == "" { assert a + t == t; } else { assert (a + t)[1..] == t; }
  }

  lemma DropEndPad(t: string, b: string, ws: char -> bool)
    requires (b == "" || (|b| == 1 && ws(b[0]))) && t != "" && !ws(t[|t| - 1])
    ensures DropEnd(t + b, ws) == t
  {
    if b == "" { assert t + b == t; } else { assert (t + b)[..|t|] == t; }
  }

  lemma StripPad(a: string, t: string, b: string, ws: char -> bool)
    requires (a == "" || (|a| == 1 && ws(a[0]))) && (b == "" || (|b| == 1 && ws(b[0])))
    requires t != "" && !ws(t[0]) && !ws(t[|t| - 1])
    ensures Strip(a + t + b, ws) == t
  {
    hide DropStart, DropEnd;
    assert a + t + b == a + (t + b);
    DropPad(a, t + b, ws);
    DropEndPad(t, b, ws);
  }

  lemma StripOnly(a: string, ws: char -> bool)
    requires a == "" || (|a| == 1 && ws(a[0]))
    ensures Strip(a, ws) == ""
  {
    if a != "" {
      assert a[1..] == "";
      assert DropStart(a, ws) == DropStart("", ws) == "";
    }
  }

  lemma SpaceIsBlank()
    ensures IsWhitespace(' ')
  {}

  /** The normal form is the lower-case words of the text joined by single spaces. */
  lemma NormalFormMeaning(s: string, lower: char -> char)
    requires IsLowering(lower)
    ensures NormalForm(s, lower) == Spaced(Words(s, lower))
  {
    hide IsWhitespace, Strip, Words, Spaced, Collapse, IsLowering;
    SpaceIsBlank();
    var words := Words(s, lower);
    CollapseMeaning(s, lower);
    WordsAreClean(s, lower);
    if words == [] {
      EmptySpaced();
      assert Lead(s) + "" + "" == Lead(s);
      StripOnly(Lead(s), IsWhitespace);
    } else {
      SpacedEnds(words, lower);
      StripPad(Lead(s), Spaced(words), Trail(s, words), IsWhitespace);
    }
  }

  /** A clean word after whitespace, or at the start, is one more word. */
  lemma {:induction false} WordsAppend(s: string, w: string, lower: char -> char)
    requires !EndsInWord(s) && CleanWord(w, lower)
    ensures Words(s + w, lower) == Words(s, lower) + [w]
  {
    hide IsWhitespace;
    var front := w[..|w| - 1];
    assert s + w == s + front + [w[|w| - 1]];
    assert (s + w)[..|s + w| - 1] == s + front;
    if front == "" {
      assert s + front == s;
    } else {
      WordsAppend(s, front, lower);
      assert w == front + [w[|w| - 1]];
      assert EndsInWord(s + front) by { assert (s + front)[|s + front| - 1] == front[|front| - 1]; }
    }
  }

  lemma {:induction false} WordsOfSpaced(words: seq<string>, lower: char -> char)
    requires CleanWords(words, lower)
    ensures Words(Spaced(words), lower) == words
  {
    hide IsWhitespace, Spaced, Words;
    if words == [] {
      EmptySpaced();
      NoWords(lower);
    } else {
      var front, w := words[..|words| - 1], words[|words| - 1];
      assert words == front + [w];
      assert CleanWord(w, lower);
      WordsOfSpaced(front, lower);
      SpacedAppend(front, w);
      if front == [] {
        NoWords(lower);
        WordsAppend("", w, lower);
        assert "" + w == w;
      } else {
        WordsGap(Spaced(front), lower);
        WordsAppend(Spaced(front) + " ", w, lower);
      }
    }
  }

  lemma NoWords(lower: char -> char)
    ensures Words("", lower) == []
  {}

  lemma WordsGap(s: string, lower: char -> char)
    ensures Words(s + " ", lower) == Words(s, lower) && !EndsInWord(s + " ")
  {
    hide IsWhitespace;
    SpaceIsBlank();
    assert (s + " ")[..|s|] == s;
  }

  /** Two texts have one normal form exactly when they have the same words. */
  lemma SameFormIff(a: string, b: string, lower: char -> char)
    requires IsLowering(lower)
    ensures NormalForm(a, lower) == NormalForm(b, lower) <==> Words(a, lower) == Words(b, lower)
  {
    hide NormalForm, Words, Spaced, IsLowering;
    NormalFormMeaning(a, lower);
    NormalFormMeaning(b, lower);
    WordsAreClean(a, lower);
    WordsAreClean(b, lower);
    WordsOfSpaced(Words(a, lower), lower);
    WordsOfSpaced(Words(b, lower), lower);
  }

  lemma NormalFormIdempotent(s: string, lower: char -> char)
    requires IsLowering(lower)
    ensures NormalForm(NormalForm(s, lower), lower) == NormalForm(s, lower)
  {
    hide NormalForm, Words, Spaced, IsLowering;
    NormalFormMeaning(s, lower);
    NormalFormMeaning(NormalForm(s, lower), lower);
    WordsAreClean(s, lower);
    WordsOfSpaced(Words(s, lower), lower);
  }

  // The window

  datatype State = State(chunks: seq<string>, normalized: seq<string>)

  datatype Op = Record(text: string) | Clear

  function Step(st: State, op: Op, lower: char -> char): State
    requires |st.chunks| == |st.normalized|
  {
    match op
    case Clear => State([], [])
    case Record(text) =>
      if !IsLong(text) then st
      else
        State((if |st.chunks| >= DEDUP_WINDOW then st.chunks[1..] else st.chunks) + [text],
              (if |st.chunks| >= DEDUP_WINDOW then st.normalized[1..] else st.normalized)
              + [NormalForm(text, lower)])
  }

  function IsDuplicate(st: State, text: string, lower: char -> char): bool {
    IsLong(text) && (text in st.chunks || NormalForm(text, lower) in st.normalized)
  }

  class Detector {
    const lower: char -> char
    var recentChunks: seq<string>
    var recentNormalized: seq<string>

    ghost predicate Valid() reads this { |recentChunks| == |recentNormalized| }

    ghost function Contents(): State reads this { State(recentChunks, recentNormalized) }

    constructor (lower: char -> char)
      ensures Valid() && this.lower == lower && Contents() == State([], [])
    {
      this.lower := lower;
      recentChunks, recentNormalized := [], [];
    }

    method Check(text: string) returns (duplicate: bool)
      ensures duplicate == IsDuplicate(Contents(), text, lower)
    {
      hide IsLong, NormalForm;
      if !IsLong(text) { return false; }
      for i := 0 to |recentChunks|
        invariant text !in recentChunks[..i]
      {
        if recentChunks[i] == text { return true; }
      }
      assert recentChunks[..|recentChunks|] == recentChunks;
      var normalized := Normalize(text, lower);
      for i := 0 to |recentNormalized|
        invariant normalized !in recentNormalized[..i]
      {
        if recentNormalized[i] == normalized { return true; }
      }
      assert recentNormalized[..|recentNormalized|] == recentNormalized;
      return false;
    }

    method RecordSent(text: string)
      requires Valid()
      modifies this
      ensures Valid() && Contents() == Step(old(Contents()), Record(text), lower)
    {
      hide IsLong, NormalForm;
      if !IsLong(text) { return; }
      if |recentChunks| >= DEDUP_WINDOW {
        recentChunks := recentChunks[1..];
        recentNormalized := recentNormalized[1..];
      }
      recentChunks := recentChunks + [text];
      var normal := Normalize(text, lower);
      recentNormalized := recentNormalized + [normal];
    }

    method Reset()
      requires Valid()
      modifies this
      ensures Valid() && Contents() == Step(old(Contents()), Clear, lower)
    {
      recentChunks := [];
      recentNormalized := [];
    }
  }

  // Whole runs

  function Run(ops: seq<Op>, lower: char -> char): (st: State)
    ensures |st.chunks| == |st.normalized|
  {
    if ops == [] then State([], []) else Step(Run(ops[..|ops| - 1], lower), ops[|ops| - 1], lower)
  }

  /** Every long text recorded since the window was last cleared. */
  function Log(ops: seq<Op>): seq<string> {
    if ops == [] then []
    else
      match ops[|ops| - 1]
      case Clear => []
      case Record(text) => Log(ops[..|ops| - 1]) + if IsLong(text) then [text] else []
  }

  function Recent(log: seq<string>): seq<string> {
    if |log| <= 50 then log else log[|log| - 50..]
  }

  function NormalForms(texts: seq<string>, lower: char -> char): (r: seq<string>) {
    seq(|texts|, i requires 0 <= i < |texts| => NormalForm(texts[i], lower))
  }

  /** In every run the two lists stay aligned: the first holds the last fifty entries of the log
      and the second their normal forms, in the same order. */
  lemma {:induction false} RunIsRecentLog(ops: seq<Op>, lower: char -> char)
    ensures Run(ops, lower) == State(Recent(Log(ops)), NormalForms(Recent(Log(ops)), lower))
  {
    hide IsLong, NormalForm, Step, Recent, NormalForms;
    NoForms(lower);
    if ops == [] {
    } else {
      var before, op := ops[..|ops| - 1], ops[|ops| - 1];
      RunIsRecentLog(before, lower);
      if op.Record? && IsLong(op.text) {
        RecentAppend(Log(before), op.text, lower);
      } else {
        ShortStep(Run(before, lower), op, lower);
        assert Log(before) + [] == Log(before);
      }
    }
  }

  lemma NoForms(lower: char -> char)
    ensures Recent([]) == [] && NormalForms([], lower) == []
  {}

  lemma ShortStep(st: State, op: Op, lower: char -> char)
    requires |st.chunks| == |st.normalized|
    requires op.Record? ==> !IsLong(op.text)
    ensures Step(st, op, lower) == if op.Clear? then State([], []) else st
  {}

  lemma RecentAppend(log: seq<string>, text: string, lower: char -> char)
    requires IsLong(text)
    ensures Step(State(Recent(log), NormalForms(Recent(log), lower)), Record(text), lower)
         == State(Recent(log + [text]), NormalForms(Recent(log + [text]), lower))
  {
    hide IsLong, NormalForm;
    var kept := if |Recent(log)| >= DEDUP_WINDOW then Recent(log)[1..] else Recent(log);
    assert Recent(log + [text]) == kept + [text];
    assert NormalForms(kept + [text], lower) == NormalForms(kept, lower) + [NormalForm(text, lower)];
    if |Recent(log)| >= DEDUP_WINDOW {
      assert NormalForms(Recent(log), lower)[1..] == NormalForms(kept, lower);
    }
  }

  /** One of the last fifty long texts has the words of this one. */
  ghost predicate SaidRecently(log: seq<string>, text: string, lower: char -> char) {
    exists i :: |log| - 50 <= i < |log| && 0 <= i && Words(log[i], lower) == Words(text, lower)
  }

  lemma RecentIndex(log: seq<string>, p: string -> bool)
    ensures (exists k :: 0 <= k < |Recent(log)| && p(Recent(log)[k]))
       <==> exists i :: |log| - 50 <= i < |log| && 0 <= i && p(log[i])
  {
    var from := |log| - |Recent(log)|;
    if k :| 0 <= k < |Recent(log)| && p(Recent(log)[k]) { assert p(log[from + k]); }
    if i :| |log| - 50 <= i < |log| && 0 <= i && p(log[i]) { assert Recent(log)[i - from] == log[i]; }
  }

  /** After any run, a text is a duplicate exactly when it is long and one of the last fifty long
      texts recorded since the last clear has the same words. So the comparison of whole texts
      adds nothing. */
  lemma DuplicateIff(ops: seq<Op>, text: string, lower: char -> char)
    requires IsLowering(lower)
    ensures IsDuplicate(Run(ops, lower), text, lower) <==> IsLong(text) && SaidRecently(Log(ops), text, lower)
    ensures IsDuplicate(Run(ops, lower), text, lower)
       <==> IsLong(text) && NormalForm(text, lower) in Run(ops, lower).normalized
  {
    hide IsLong, NormalForm, Words, Log, Run, IsLowering, Recent;
    RunIsRecentLog(ops, lower);
    var recent := Recent(Log(ops));
    var p := (t: string) => Words(t, lower) == Words(text, lower);
    RecentIndex(Log(ops), p);
    forall k | 0 <= k < |recent|
      ensures NormalForms(recent, lower)[k] == NormalForm(text, lower) <==> p(recent[k])
    {
      SameFormIff(recent[k], text, lower);
    }
    if text in recent {
      var k :| 0 <= k < |recent| && recent[k] == text;
      assert NormalForms(recent, lower)[k] == NormalForm(text, lower);
    }
    if NormalForm(text, lower) in NormalForms(recent, lower) {
      var k :| 0 <= k < |recent| && NormalForms(recent, lower)[k] == NormalForm(text, lower);
      assert p(recent[k]);
    }
  }
}
