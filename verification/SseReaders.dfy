/** The event-stream readers of the JavaScript and Python clients: incremental parsers of bytes
    in chunks, against one parse of the whole text. */
module SseReaders {
  import opened Text
  import opened Utf8
  import opened Utf8Text
  import opened Utf8Lossy
  import opened EventLines

  /** The JavaScript reader. Its decoder keeps the bytes of an unfinished character for the next
      chunk, and replaces what is malformed. */
  method StreamJavaScript<V>(chunks: seq<Bytes>, json: string -> Option<V>) returns (events: seq<Event<V>>)
    ensures events == EventsOf(LossyText(Concat(chunks)), JsSpace, json)
  {
    hide EventsOf, Stops, Split, Read, LossyText, Used, JsSpace, Concat;
    EmptyText(JsSpace, json);
    var buffer, pending: Bytes := "", [];
    events := [];
    ghost var text := "";
    for i := 0 to |chunks|
      invariant text == LossyText(Concat(chunks[..i])) && buffer == Split(text).1
      invariant pending == Concat(chunks[..i])[Used(Concat(chunks[..i]))..]
      invariant events == EventsOf(text, JsSpace, json) && !Stops(text, JsSpace, json)
    {
      ConcatNext(chunks, i);
      LossyGrows(Concat(chunks[..i]), chunks[i]);
      var bytes := pending + chunks[i];
      var decoded := LossyText(bytes);
      pending := bytes[Used(bytes)..];
      EventsGrow(text, decoded, JsSpace, json);
      SplitGrows(text, decoded);
      var (lines, rest) := Split(buffer + decoded);
      text := text + decoded;
      buffer := rest;
      var stopped;
      events, stopped := ReadLines(lines, JsSpace, json, events);
      if stopped {
        LossyStopIsFinal(chunks, i + 1, JsSpace, json);
        return;
      }
    }
    assert chunks[..|chunks|] == chunks;
  }

  lemma EmptyText<V>(space: char -> bool, json: string -> Option<V>)
    ensures Concat([]) == [] && TextOf([]) == "" && LossyText([]) == "" && Used([]) == 0
    ensures Split("").0 == [] && Split("").1 == ""
    ensures EventsOf("", space, json) == [] && !Stops("", space, json)
  {}

  lemma ConcatNext(chunks: seq<Bytes>, i: nat)
    requires i < |chunks|
    ensures Concat(chunks[..i + 1]) == Concat(chunks[..i]) + chunks[i]
    ensures chunks[..0] == []
  {
    assert chunks[..i + 1][..i] == chunks[..i];
  }

  /** After [DONE] the rest of the stream does not matter. */
  lemma StopIsFinal<V>(chunks: seq<Bytes>, i: nat, space: char -> bool, json: string -> Option<V>)
    requires i <= |chunks| && Stops(TextOf(Concat(chunks[..i])), space, json)
    ensures Stops(TextOf(Concat(chunks)), space, json)
    ensures EventsOf(TextOf(Concat(chunks)), space, json) == EventsOf(TextOf(Concat(chunks[..i])), space, json)
  {
    hide EventsOf, Stops, Split, Read, TextOf, Whole, Concat;
    var a, b := Concat(chunks[..i]), Concat(chunks[i..]);
    assert chunks[..i] + chunks[i..] == chunks;
    ConcatAppend(chunks[..i], chunks[i..]);
    TextGrows(a, b);
    EventsGrow(TextOf(a), TextOf(a[Whole(a)..] + b), space, json);
  }

  lemma LossyStopIsFinal<V>(chunks: seq<Bytes>, i: nat, space: char -> bool, json: string -> Option<V>)
    requires i <= |chunks| && Stops(LossyText(Concat(chunks[..i])), space, json)
    ensures EventsOf(LossyText(Concat(chunks)), space, json) == EventsOf(LossyText(Concat(chunks[..i])), space, json)
  {
    hide EventsOf, Stops, Split, Read, LossyText, Used, Concat;
    var a, b := Concat(chunks[..i]), Concat(chunks[i..]);
    assert chunks[..i] + chunks[i..] == chunks;
    ConcatAppend(chunks[..i], chunks[i..]);
    LossyGrows(a, b);
    EventsGrow(LossyText(a), LossyText(a[Used(a)..] + b), space, json);
  }

  /** The chunks before the end of the stream, up to the first that does not decode. */
  function Decodable(chunks: seq<Bytes>): seq<Bytes> {
    TakeWhile(chunks, (c: Bytes) => c != [] && Valid(c))
  }

  /** The Python reader decodes every chunk by itself and fails on one that is not well-formed;
      an empty chunk is the end of the stream. */
  method StreamPython<V>(chunks: seq<Bytes>, json: string -> Option<V>)
      returns (events: seq<Event<V>>, failed: bool)
    ensures var good := Decodable(chunks);
            var text := TextOf(Concat(good));
            && events == EventsOf(text, PySpace, json)
            && (failed <==> !Stops(text, PySpace, json) && |good| < |chunks| && chunks[|good|] != [])
  {
    hide EventsOf, Stops, Split, Read, TextOf, Whole, PySpace, Concat, Decode, Decodable, Valid;
    EmptyText(PySpace, json);
    var buffer := "";
    events := [];
    ghost var text := "";
    for i := 0 to |chunks|
      invariant text == TextOf(Concat(chunks[..i])) && buffer == Split(text).1
      invariant Good(chunks, i)
      invariant events == EventsOf(text, PySpace, json) && !Stops(text, PySpace, json)
    {
      if chunks[i] == [] || !Valid(chunks[i]) {
        GoodEnds(chunks, i);
        return events, chunks[i] != [];
      }
      ConcatNext(chunks, i);
      WholeChunk(chunks, i);
      var decoded := Decode(chunks[i]);
      EventsGrow(text, decoded, PySpace, json);
      SplitGrows(text, decoded);
      var (lines, rest) := Split(buffer + decoded);
      text := text + decoded;
      buffer := rest;
      var stopped;
      events, stopped := ReadLines(lines, PySpace, json, events);
      if stopped {
        GoodStop(chunks, i + 1, json);
        return events, false;
      }
    }
    GoodEnds(chunks, |chunks|);
    failed := false;
  }

  ghost predicate Good(chunks: seq<Bytes>, i: nat)
    requires i <= |chunks|
  {
    forall k :: 0 <= k < i ==> chunks[k] != [] && Valid(chunks[k])
  }

  lemma GoodEnds(chunks: seq<Bytes>, i: nat)
    requires i <= |chunks| && Good(chunks, i)
    requires i < |chunks| ==> chunks[i] == [] || !Valid(chunks[i])
    ensures Decodable(chunks) == chunks[..i] && |Decodable(chunks)| == i
  {
    hide Valid;
    TakeWhileUnique(chunks, (c: Bytes) => c != [] && Valid(c), chunks[..i]);
  }

  lemma WholeChunk(chunks: seq<Bytes>, i: nat)
    requires i < |chunks| && Good(chunks, i) && Valid(chunks[i])
    ensures TextOf(Concat(chunks[..i]) + chunks[i]) == TextOf(Concat(chunks[..i])) + Decode(chunks[i])
  {
    hide TextOf, Whole, Concat, Decode, Valid;
    ValidConcat(chunks[..i]);
    var a := Concat(chunks[..i]);
    WholeOfValid(a);
    assert a[|a|..] + chunks[i] == chunks[i];
    TextGrows(a, chunks[i]);
    WholeOfValid(chunks[i]);
  }

  lemma GoodStop<V>(chunks: seq<Bytes>, i: nat, json: string -> Option<V>)
    requires i <= |chunks| && Good(chunks, i) && Stops(TextOf(Concat(chunks[..i])), PySpace, json)
    ensures var text := TextOf(Concat(Decodable(chunks)));
            && Stops(text, PySpace, json)
            && EventsOf(text, PySpace, json) == EventsOf(TextOf(Concat(chunks[..i])), PySpace, json)
  {
    hide EventsOf, Stops, Split, Read, TextOf, Whole, Concat, Valid, PySpace;
    var good := Decodable(chunks);
    assert i <= |good|;
    assert good[..i] == chunks[..i];
    StopIsFinal(good, i, PySpace, json);
  }

  /** Well-formed text in non-empty chunks that split no character is read in full by the Python
      reader. */
  lemma PythonReadsAll(chunks: seq<Bytes>)
    requires forall i :: 0 <= i < |chunks| ==> chunks[i] != []
    requires Valid(Concat(chunks))
    ensures CutsAtBoundaries(chunks) <==> Decodable(chunks) == chunks
  {
    hide Valid, Concat, CutsAtBoundaries;
    AllValidIff(chunks);
    if AllValid(chunks) {
      GoodEnds(chunks, |chunks|);
      assert chunks[..|chunks|] == chunks;
    }
  }
}
