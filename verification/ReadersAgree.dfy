/** Where the two clients agree. */
module ReadersAgree {
  import opened Text
  import opened Utf8
  import opened Utf8Text
  import opened Utf8Lossy
  import opened EventLines
  import opened SseReaders

  predicate Over(text: string, alphabet: set<char>) { forall i :: 0 <= i < |text| ==> text[i] in alphabet }

  lemma {:induction false} StripAgrees(s: string, a: char -> bool, b: char -> bool)
    requires forall i :: 0 <= i < |s| ==> a(s[i]) == b(s[i])
    ensures Strip(s, a) == Strip(s, b)
  {
    DropStartAgrees(s, a, b);
    DropStartMeaning(s, a);
    var d := DropStart(s, a);
    forall i | 0 <= i < |d| ensures a(d[i]) == b(d[i]) { assert d[i] == s[|s| - |d| + i]; }
    DropEndAgrees(d, a, b);
  }

  lemma {:induction false} DropStartAgrees(s: string, a: char -> bool, b: char -> bool)
    requires forall i :: 0 <= i < |s| ==> a(s[i]) == b(s[i])
    ensures DropStart(s, a) == DropStart(s, b)
  {
    if s == "" {
    } else {
      DropStartAgrees(s[1..], a, b);
    }
  }

  lemma {:induction false} DropEndAgrees(s: string, a: char -> bool, b: char -> bool)
    requires forall i :: 0 <= i < |s| ==> a(s[i]) == b(s[i])
    ensures DropEnd(s, a) == DropEnd(s, b)
  {
    if s == "" {
    } else {
      DropEndAgrees(s[..|s| - 1], a, b);
    }
  }

  lemma {:induction false} SplitOver(text: string, alphabet: set<char>)
    requires Over(text, alphabet)
    ensures Over(Split(text).1, alphabet)
    ensures forall i :: 0 <= i < |Split(text).0| ==> Over(Split(text).0[i], alphabet)
  {
    if text == "" {
    } else {
      SplitOver(text[..|text| - 1], alphabet);
    }
  }

  lemma {:induction false} ReadAgrees<V>(lines: seq<string>, alphabet: set<char>, a: char -> bool, b: char -> bool,
                                         json: string -> Option<V>)
    requires forall i :: 0 <= i < |lines| ==> Over(lines[i], alphabet)
    requires forall c :: c in alphabet ==> a(c) == b(c)
    ensures Read(lines, a, json) == Read(lines, b, json)
  {
    hide Strip;
    if lines == [] {
    } else {
      ReadAgrees(lines[..|lines| - 1], alphabet, a, b, json);
      StripAgrees(lines[|lines| - 1], a, b);
    }
  }

  /** A line that only one of the two recognizes. */
  function Witness(c: char): string { [c] + "data: x\n" }

  lemma WitnessLine(c: char)
    requires c != '\n'
    ensures Split(Witness(c)).0 == [[c] + "data: x"]
  {
    hide Split;
    var line := [c] + "data: x";
    NoNewline(line);
    SplitGrows(line, "\n");
    assert Witness(c) == line + "\n";
    NewlineEnds(line);
  }

  lemma NewlineEnds(line: string)
    requires Split(line).0 == [] && Split(line).1 == line
    ensures Split(line + "\n").0 == [line]
  {
    assert (line + "\n")[..|line|] == line;
  }

  lemma WitnessStripped(c: char, space: char -> bool)
    requires !space('d') && !space('x')
    ensures Strip([c] + "data: x", space) == if space(c) then "data: x" else [c] + "data: x"
  {
    var line := [c] + "data: x";
    assert line[1..] == "data: x";
    assert DropStart("data: x", space) == "data: x";
    if space(c) {
      assert DropStart(line, space) == "data: x";
      assert DropEnd("data: x", space) == "data: x";
    } else {
      assert DropStart(line, space) == line;
      assert DropEnd(line, space) == line;
    }
  }

  lemma WitnessEvents<V>(c: char, space: char -> bool, json: string -> Option<V>)
    requires c != '\n' && c != 'd' && !space('d') && !space('x')
    ensures EventsOf(Witness(c), space, json) != [] <==> space(c)
  {
    hide Split, Strip;
    WitnessLine(c);
    WitnessStripped(c, space);
    var line := [c] + "data: x";
    assert line[0] == c;
    ReadOne(line, space, json);
    if space(c) { assert "data: x"[|DATA_PREFIX|..] == "x"; }
  }

  lemma ReadOne<V>(line: string, space: char -> bool, json: string -> Option<V>)
    ensures Read([line], space, json).0 != [] <==> Classify(line, space, json).Yield?
  {
    hide Classify;
    assert [line][..0] == [];
  }

  /** The two clients yield the same events for every text over an alphabet that can spell a data
      line exactly when its characters are blanks to both or to neither. */
  lemma AgreeIff<V(!new)>(alphabet: set<char>, json: string -> Option<V>)
    requires Over("data: x\n", alphabet)
    ensures (forall text :: Over(text, alphabet) ==> EventsOf(text, JsSpace, json) == EventsOf(text, PySpace, json))
       <==> (forall c :: c in alphabet ==> JsSpace(c) == PySpace(c))
  {
    hide EventsOf, JsSpace, PySpace;
    if forall c :: c in alphabet ==> JsSpace(c) == PySpace(c) {
      forall text | Over(text, alphabet) ensures EventsOf(text, JsSpace, json) == EventsOf(text, PySpace, json) {
        TextsAgree(text, alphabet, json);
      }
    } else {
      var c :| c in alphabet && JsSpace(c) != PySpace(c);
      Letters(c);
      WitnessEvents(c, JsSpace, json);
      WitnessEvents(c, PySpace, json);
      assert Over(Witness(c), alphabet);
    }
  }

  lemma TextsAgree<V>(text: string, alphabet: set<char>, json: string -> Option<V>)
    requires Over(text, alphabet) && forall c :: c in alphabet ==> JsSpace(c) == PySpace(c)
    ensures EventsOf(text, JsSpace, json) == EventsOf(text, PySpace, json)
  {
    hide Split, Read, JsSpace, PySpace;
    SplitOver(text, alphabet);
    ReadAgrees(Split(text).0, alphabet, JsSpace, PySpace, json);
  }

  lemma Letters(c: char)
    ensures !JsSpace('d') && !JsSpace('x') && !PySpace('d') && !PySpace('x')
    ensures JsSpace(c) != PySpace(c) <==> c as int in {0x85, 0xFEFF, 0x1C, 0x1D, 0x1E, 0x1F}
  {}

  /** One well-formed stream of bytes, cut up in two ways: the JavaScript reader on the one and
      the Python reader on the other yield the same events, if the characters are blanks to both
      or to neither and the second cutting splits no character. */
  lemma ChunkingsAgree<V(!new)>(js: seq<Bytes>, python: seq<Bytes>, json: string -> Option<V>)
    requires Concat(js) == Concat(python) && Valid(Concat(js))
    requires forall i :: 0 <= i < |python| ==> python[i] != []
    requires CutsAtBoundaries(python)
    requires forall i :: 0 <= i < |LossyText(Concat(js))| ==>
               JsSpace(LossyText(Concat(js))[i]) == PySpace(LossyText(Concat(js))[i])
    ensures EventsOf(LossyText(Concat(js)), JsSpace, json) == EventsOf(TextOf(Concat(Decodable(python))), PySpace, json)
  {
    hide EventsOf, TextOf, LossyText, Concat, CutsAtBoundaries, Valid, JsSpace, PySpace, Decode;
    PythonReadsAll(python);
    LossyOfValid(Concat(js));
    WholeOfValid(Concat(js));
    var text := LossyText(Concat(js));
    TextsAgree(text, set i | 0 <= i < |text| :: text[i], json);
  }
}
