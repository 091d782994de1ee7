/** The lines of an event stream and what they mean. Section 9.2.6 of the WHATWG HTML standard
    gives the line format; the clients read only lines that start with "data: ". */
module EventLines {
  import opened Text

  datatype Event<V> = Parsed(value: V) | RawData(data: string)

  /** What a line asks for. */
  datatype Line<V> = Skip | Stop | Yield(event: Event<V>)

  const DATA_PREFIX := "data: "
  const DONE_MARK := "[DONE]"

  /** What `trim` of JavaScript removes: White_Space without U+0085, and U+FEFF. */
  predicate JsSpace(c: char) {
    (IsWhitespace(c) && c as int != 0x85) || c as int == 0xFEFF
  }

  /** What `strip` of Python removes: White_Space and the four information separators. */
  predicate PySpace(c: char) {
    IsWhitespace(c) || 0x1C <= c as int <= 0x1F
  }

  function Classify<V>(line: string, space: char -> bool, json: string -> Option<V>): Line<V> {
    var stripped := Strip(line, space);
    if !(DATA_PREFIX <= stripped) then Skip
    else
      var data := stripped[|DATA_PREFIX|..];
      if data == DONE_MARK then Stop
      else
        match json(data)
        case Some(value) => Yield(Parsed(value))
        case None => Yield(RawData(data))
  }

  /** The line is "data: " and `data`, up to blanks around it. */
  ghost predicate Brings(line: string, data: string, before: string, after: string, space: char -> bool) {
    && AllSpace(before, space) && AllSpace(after, space)
    && data != "" && !space(data[|data| - 1])
    && line == before + ("data: " + data) + after
  }

  /** A line that brings data says stop for [DONE], and else gives the value that its data is read
      as, or the data as it is. */
  lemma ClassifyBrought<V>(line: string, data: string, before: string, after: string, space: char -> bool,
                           json: string -> Option<V>)
    requires Brings(line, data, before, after, space) && !space('d')
    ensures Classify(line, space, json)
         == if data == "[DONE]" then Stop
            else if json(data).Some? then Yield(Parsed(json(data).value))
            else Yield(RawData(data))
  {
    var s := "data: " + data;
    assert s[|s| - 1] == data[|data| - 1] && s[0] == 'd' && s[6..] == data;
    Strips(before, s, after, space);
  }

  /** All other lines are skipped. */
  lemma ClassifyElse<V>(line: string, space: char -> bool, json: string -> Option<V>)
      returns (before: string, after: string)
    requires space(' ')
    ensures Classify(line, space, json).Skip? ||
            exists data :: Brings(line, data, before, after, space)
  {
    var n := StripMeaning(line, space);
    var stripped := Strip(line, space);
    before, after := line[..n], line[n + |stripped|..];
    if "data: " <= stripped {
      var data := stripped[6..];
      assert line == before + stripped + after && stripped == "data: " + data;
      assert DATA_PREFIX[5] == ' ' && stripped[5] == ' ';
      assert data != "";
      assert data[|data| - 1] == stripped[|stripped| - 1];
      assert Brings(line, data, before, after, space);
    }
  }

  // The batch parse

  /** The complete lines of a text, and what follows the last newline. */
  function Split(text: string): (seq<string>, string) {
    if text == "" then ([], "")
    else
      var (lines, rest) := Split(text[..|text| - 1]);
      var c := text[|text| - 1];
      if c == '\n' then (lines + [rest], "") else (lines, rest + [c])
  }

  /** The events of some lines, up to the first that says stop, and whether one did. */
  function Read<V>(lines: seq<string>, space: char -> bool, json: string -> Option<V>): (seq<Event<V>>, bool) {
    if lines == [] then ([], false)
    else
      var (events, stopped) := Read(lines[..|lines| - 1], space, json);
      if stopped then (events, true)
      else
        match Classify(lines[|lines| - 1], space, json)
        case Skip => (events, false)
        case Stop => (events, true)
        case Yield(event) => (events + [event], false)
  }

  /** The events that some lines bring, one by one. */
  function Brought<V>(lines: seq<string>, space: char -> bool, json: string -> Option<V>): seq<Event<V>> {
    if lines == [] then []
    else
      var line := Classify(lines[0], space, json);
      (if line.Yield? then [line.event] else []) + Brought(lines[1..], space, json)
  }

  lemma {:induction false} BroughtLast<V>(lines: seq<string>, space: char -> bool, json: string -> Option<V>)
    requires lines != []
    ensures var line := Classify(lines[|lines| - 1], space, json);
            Brought(lines, space, json)
            == Brought(lines[..|lines| - 1], space, json) + if line.Yield? then [line.event] else []
  {
    hide Classify;
    if |lines| > 1 {
      BroughtLast(lines[1..], space, json);
      assert lines[1..][..|lines| - 2] == lines[..|lines| - 1][1..];
    }
  }

  /** None of the first `n` lines says stop, and the next one does, if there is one. */
  ghost predicate StopsAt<V>(lines: seq<string>, n: nat, space: char -> bool, json: string -> Option<V>) {
    && n <= |lines| && (forall i :: 0 <= i < n ==> !Classify(lines[i], space, json).Stop?)
    && (n < |lines| ==> Classify(lines[n], space, json).Stop?)
  }

  /** The events are those of all lines before the first that says stop. */
  lemma {:induction false} ReadMeaning<V>(lines: seq<string>, n: nat, space: char -> bool, json: string -> Option<V>)
    requires StopsAt(lines, n, space, json)
    ensures Read(lines, space, json) == (Brought(lines[..n], space, json), n < |lines|)
    decreases |lines|
  {
    hide Classify;
    if lines == [] {
    } else {
      var front := lines[..|lines| - 1];
      if n == |lines| {
        ReadMeaning(front, n - 1, space, json);
        BroughtLast(lines, space, json);
        assert lines[..n] == lines && front[..n - 1] == front;
        assert !Classify(lines[n - 1], space, json).Stop?;
        assert Brought(front, space, json) + [] == Brought(front, space, json);
      } else {
        ReadMeaning(front, n, space, json);
        assert front[..n] == lines[..n];
      }
    }
  }

  /** What a whole text means: the events of its complete lines, up to the first [DONE]. */
  function EventsOf<V>(text: string, space: char -> bool, json: string -> Option<V>): seq<Event<V>> {
    Read(Split(text).0, space, json).0
  }

  predicate Stops<V>(text: string, space: char -> bool, json: string -> Option<V>) {
    Read(Split(text).0, space, json).1
  }

  /** Each line followed by a newline. */
  function Unsplit(lines: seq<string>): string {
    if lines == [] then "" else Unsplit(lines[..|lines| - 1]) + lines[|lines| - 1] + "\n"
  }

  /** Splitting loses nothing: the lines have no newline, and they and the rest make the text. */
  lemma {:induction false} SplitMeaning(text: string)
    ensures var (lines, rest) := Split(text);
            && Unsplit(lines) + rest == text
            && '\n' !in rest
            && forall i :: 0 <= i < |lines| ==> '\n' !in lines[i]
  {
    if text == "" {
    } else {
      var front, c := text[..|text| - 1], text[|text| - 1];
      SplitMeaning(front);
      var (lines, rest) := Split(front);
      assert text == front + [c];
      if c == '\n' { assert (lines + [rest])[..|lines|] == lines; }
    }
  }

  lemma {:induction false} SplitGrows(text: string, more: string)
    ensures Split(text + more).0 == Split(text).0 + Split(Split(text).1 + more).0
    ensures Split(text + more).1 == Split(Split(text).1 + more).1
  {
    var rest := Split(text).1;
    if more == "" {
      assert text + more == text && rest + more == rest;
      RestHasNoLines(text);
      assert Split(text).0 + [] == Split(text).0;
    } else {
      var front, c := more[..|more| - 1], more[|more| - 1];
      SplitGrows(text, front);
      assert (text + more)[..|text + more| - 1] == text + front;
      assert (rest + more)[..|rest + more| - 1] == rest + front;
      assert (text + more)[|text + more| - 1] == c && (rest + more)[|rest + more| - 1] == c;
    }
  }

  lemma {:induction false} NoNewline(s: string)
    requires '\n' !in s
    ensures Split(s).0 == [] && Split(s).1 == s
  {
    if s == "" {
    } else {
      NoNewline(s[..|s| - 1]);
    }
  }

  lemma RestHasNoLines(text: string)
    ensures Split(Split(text).1).0 == [] && Split(Split(text).1).1 == Split(text).1
  {
    SplitMeaning(text);
    NoNewline(Split(text).1);
  }

  lemma {:induction false} ReadAppend<V>(a: seq<string>, b: seq<string>, space: char -> bool, json: string -> Option<V>)
    ensures var (ea, sa) := Read(a, space, json);
            var (eb, sb) := Read(b, space, json);
            && Read(a + b, space, json).0 == (if sa then ea else ea + eb)
            && Read(a + b, space, json).1 == (sa || sb)
  {
    hide Classify;
    if b == [] {
      assert a + b == a;
    } else {
      assert (a + b)[..|a + b| - 1] == a + b[..|b| - 1];
      ReadAppend(a, b[..|b| - 1], space, json);
    }
  }

  /** What the events of a longer text are, given those of its head. */
  lemma EventsGrow<V>(text: string, more: string, space: char -> bool, json: string -> Option<V>)
    ensures var lines := Split(Split(text).1 + more).0;
            var stopped := Stops(text, space, json);
            && Stops(text + more, space, json) == (stopped || Read(lines, space, json).1)
            && EventsOf(text + more, space, json)
            == if stopped then EventsOf(text, space, json)
               else EventsOf(text, space, json) + Read(lines, space, json).0
  {
    hide Split, Read;
    SplitGrows(text, more);
    ReadAppend(Split(text).0, Split(Split(text).1 + more).0, space, json);
  }

  // One batch of lines

  /** Handles some lines; `stopped` when one of them is [DONE]. */
  method ReadLines<V>(lines: seq<string>, space: char -> bool, json: string -> Option<V>, before: seq<Event<V>>)
      returns (events: seq<Event<V>>, stopped: bool)
    ensures events == before + Read(lines, space, json).0
    ensures stopped == Read(lines, space, json).1
  {
    hide Classify;
    events := before;
    for i := 0 to |lines|
      invariant events == before + Read(lines[..i], space, json).0 && !Read(lines[..i], space, json).1
    {
      assert lines[..i + 1][..i] == lines[..i];
      match Classify(lines[i], space, json)
      case Skip =>
      case Stop =>
        StopsFor(lines, i, space, json);
        return events, true;
      case Yield(event) => events := events + [event];
    }
    assert lines[..|lines|] == lines;
    stopped := false;
  }

  lemma StopsFor<V>(lines: seq<string>, i: nat, space: char -> bool, json: string -> Option<V>)
    requires i < |lines| && Read(lines[..i + 1], space, json).1
    ensures Read(lines, space, json).0 == Read(lines[..i + 1], space, json).0
    ensures Read(lines, space, json).1
  {
    assert lines == lines[..i + 1] + lines[i + 1..];
    ReadAppend(lines[..i + 1], lines[i + 1..], space, json);
  }
}
