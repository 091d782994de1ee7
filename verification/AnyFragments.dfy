/** What the reassembly of fragments does when the sender does not keep to one content for each
    part and one number of parts for each message. */
module AnyFragments {
  import opened Text
  import opened Utf8
  import opened Reassembly

  /** The fragment goes into the table. */
  predicate Stored(f: Fragment) { f.sum >= 2 && f.seqNo < f.sum }

  /** The latest content of a part. */
  function Latest(window: seq<Fragment>, part: nat): Bytes {
    if window == [] then []
    else
      var last := window[|window| - 1];
      if last.seqNo == part then last.payload else Latest(window[..|window| - 1], part)
  }

  function LatestParts(window: seq<Fragment>, sum: nat): seq<Bytes> {
    seq(sum, k requires 0 <= k < sum => Latest(window, k))
  }

  predicate Full(window: seq<Fragment>, sum: nat) { [] !in LatestParts(window, sum) }

  /** The fragments that still count for a message: those since it was last completed or its number
      of parts last changed. */
  function Window(run: seq<Fragment>, id: string): seq<Fragment> {
    if run == [] then []
    else
      var front, last := run[..|run| - 1], run[|run| - 1];
      if last.id != id || !Stored(last) then Window(front, id)
      else
        var window := Joined(Window(front, id), last);
        if Full(window, last.sum) then [] else window
  }

  /** A fragment with another number of parts starts the message over. */
  function Joined(window: seq<Fragment>, f: Fragment): seq<Fragment> {
    if window != [] && window[|window| - 1].sum == f.sum then window + [f] else [f]
  }

  ghost predicate Entry(table: Parts, id: string, window: seq<Fragment>) {
    && (forall i :: 0 <= i < |window| ==> Stored(window[i]) && window[i].sum == window[|window| - 1].sum)
    && (id in table <==> window != [])
    && (id in table ==> table[id] == LatestParts(window, window[|window| - 1].sum))
  }

  lemma LatestJoined(window: seq<Fragment>, f: Fragment, part: nat)
    ensures Latest(window + [f], part) == if f.seqNo == part then f.payload else Latest(window, part)
  {
    assert (window + [f])[..|window|] == window;
  }

  lemma PartsJoined(window: seq<Fragment>, f: Fragment)
    requires Stored(f)
    ensures LatestParts(window + [f], f.sum) == LatestParts(window, f.sum)[f.seqNo := f.payload]
  {
    hide Latest;
    forall k | 0 <= k < f.sum
      ensures LatestParts(window + [f], f.sum)[k] == LatestParts(window, f.sum)[f.seqNo := f.payload][k]
    {
      LatestJoined(window, f, k);
    }
  }

  lemma NoParts(sum: nat)
    ensures LatestParts([], sum) == Blank(sum)
  {}

  /** The slots before a check for completion. */
  lemma SlotsAre(table: Parts, f: Fragment, window: seq<Fragment>)
    requires Entry(table, f.id, window) && Stored(f)
    ensures var before := if f.id in table && |table[f.id]| == f.sum then table[f.id] else Blank(f.sum);
            before[f.seqNo := f.payload] == LatestParts(Joined(window, f), f.sum)
    ensures Joined(window, f) != [] && Joined(window, f)[|Joined(window, f)| - 1] == f
    ensures forall i :: 0 <= i < |Joined(window, f)|
                        ==> Stored(Joined(window, f)[i]) && Joined(window, f)[i].sum == f.sum
  {
    hide Latest;
    if window != [] && window[|window| - 1].sum == f.sum {
      PartsJoined(window, f);
    } else {
      NoParts(f.sum);
      PartsJoined([], f);
      assert [] + [f] == [f];
    }
  }

  lemma StepEntry(table: Parts, f: Fragment, id: string, window: seq<Fragment>)
    requires Entry(table, id, window)
    ensures var (out, table') := FragmentStep(f, table);
            if f.id != id || !Stored(f) then Entry(table', id, window)
            else
              var joined := Joined(window, f);
              && Entry(table', id, if Full(joined, f.sum) then [] else joined)
              && (out.Some? <==> Full(joined, f.sum))
              && (out.Some? ==> out.value == Concat(LatestParts(joined, f.sum)))
  {
    hide Concat, LatestParts, Latest, Joined;
    if f.id == id && Stored(f) { SlotsAre(table, f, window); }
  }

  /** For any fragments at all: the entry of a message holds the latest content of each part among
      the fragments that still count. */
  lemma {:induction false} TableIsLatest(run: seq<Fragment>, id: string)
    ensures Entry(Table(run), id, Window(run, id))
  {
    hide Entry, FragmentStep, Joined, Full, Stored;
    if run == [] {
      NothingStored(id);
    } else {
      var front, last := run[..|run| - 1], run[|run| - 1];
      TableIsLatest(front, id);
      StepEntry(Table(front), last, id, Window(front, id));
    }
  }

  lemma NothingStored(id: string)
    ensures Entry(map[], id, [])
  {}

  /** A stored fragment returns a payload exactly when every part has a content, the latest of which
      is not empty, since the message was last completed or its number of parts last changed. The
      payload is the latest contents in order. */
  lemma OutputIsLatest(run: seq<Fragment>)
    requires run != [] && Stored(run[|run| - 1])
    ensures var last := run[|run| - 1];
            var window := Joined(Window(run[..|run| - 1], last.id), last);
            && (Output(run).Some? <==> Full(window, last.sum))
            && (Output(run).Some? ==> Output(run).value == Concat(LatestParts(window, last.sum)))
  {
    hide Entry, FragmentStep, Joined, Full, Concat, LatestParts;
    var front, last := run[..|run| - 1], run[|run| - 1];
    TableIsLatest(front, last.id);
    StepEntry(Table(front), last, last.id, Window(front, last.id));
  }

  /** A resend with another content replaces the part; with another number of parts it drops all
      that was collected. */
  lemma ResendReplaces(run: seq<Fragment>, f: Fragment)
    requires Stored(f) && !Full(Joined(Window(run, f.id), f), f.sum)
    ensures var window := Window(run, f.id);
            var kept := if window != [] && window[|window| - 1].sum == f.sum then window else [];
            && f.id in Table(run + [f])
            && Table(run + [f])[f.id] == LatestParts(kept, f.sum)[f.seqNo := f.payload]
  {
    var all := run + [f];
    assert all[..|run|] == run;
    TableIsLatest(all, f.id);
    TableIsLatest(run, f.id);
    SlotsAre(Table(run), f, Window(run, f.id));
    hide Latest, Table;
    NoParts(f.sum);
  }
}
