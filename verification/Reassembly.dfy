/** Reassembly of fragmented WebSocket payloads. */
module Reassembly {
  import opened Text
  import opened Utf8

  datatype Header = Header(key: string, value: string)

  /** The first header with the key. */
  function WsHeader(headers: seq<Header>, key: string): Option<string> {
    if headers == [] then None
    else if headers[0].key == key then Some(headers[0].value)
    else WsHeader(headers[1..], key)
  }

  const USIZE_LIMIT: nat := 0x1_0000_0000_0000_0000

  function DigitsValue(s: string): Option<nat> {
    if s == "" then Some(0)
    else
      var c := s[|s| - 1];
      match DigitsValue(s[..|s| - 1])
      case None => None
      case Some(high) => if '0' <= c <= '9' then Some(10 * high + (c as int - '0' as int)) else None
  }

  /** Decimal digits with an optional plus sign, within 64 bits. */
  function ParseUsize(s: string): Option<nat> {
    var digits := if "+" <= s then s[1..] else s;
    if digits == "" then None
    else
      match DigitsValue(digits)
      case None => None
      case Some(n) => if n < USIZE_LIMIT then Some(n) else None
  }

  function ParsedHeader(headers: seq<Header>, key: string, default: nat): nat {
    match WsHeader(headers, key)
    case None => default
    case Some(v) =>
      match ParseUsize(v)
      case None => default
      case Some(n) => n
  }

  /** A header's value is that of the first header with its key. */
  lemma {:induction false} HeaderMeaning(headers: seq<Header>, key: string)
    ensures match WsHeader(headers, key)
            case None => forall i :: 0 <= i < |headers| ==> headers[i].key != key
            case Some(v) =>
              exists i :: 0 <= i < |headers| && headers[i] == Header(key, v)
                          && forall j :: 0 <= j < i ==> headers[j].key != key
  {
    if headers != [] && headers[0].key != key {
      HeaderMeaning(headers[1..], key);
      assert forall j :: 0 < j < |headers| ==> headers[j] == headers[1..][j - 1];
      if WsHeader(headers[1..], key).Some? {
        var v := WsHeader(headers[1..], key).value;
        var i :| 0 <= i < |headers| - 1 && headers[1..][i] == Header(key, v)
                 && forall j :: 0 <= j < i ==> headers[1..][j].key != key;
        assert headers[i + 1] == Header(key, v);
        assert forall j :: 0 <= j < i + 1 ==> headers[j].key != key;
      }
    }
  }

  function TenTo(n: nat): nat { if n == 0 then 1 else 10 * TenTo(n - 1) }

  ghost predicate AllDigits(s: string) { forall i :: 0 <= i < |s| ==> '0' <= s[i] <= '9' }

  /** What the digits are worth by their places. */
  function Worth(s: string): nat
    requires AllDigits(s)
  {
    if s == "" then 0 else (s[0] as int - '0' as int) * TenTo(|s| - 1) + Worth(s[1..])
  }

  lemma {:induction false} WorthLast(s: string)
    requires AllDigits(s) && s != ""
    ensures Worth(s) == 10 * Worth(s[..|s| - 1]) + (s[|s| - 1] as int - '0' as int)
  {
    if |s| > 1 {
      var d, n := s[0] as int - '0' as int, |s| - 2;
      WorthLast(s[1..]);
      assert s[1..][..|s| - 2] == s[..|s| - 1][1..];
      assert d * (10 * TenTo(n)) == 10 * (d * TenTo(n));
    }
  }

  lemma {:induction false} DigitsMeaning(s: string)
    ensures DigitsValue(s) == if AllDigits(s) then Some(Worth(s)) else None
  {
    if s != "" {
      var front := s[..|s| - 1];
      DigitsMeaning(front);
      if AllDigits(s) { WorthLast(s); }
      assert AllDigits(s) <==> AllDigits(front) && '0' <= s[|s| - 1] <= '9';
    }
  }

  /** Digits that are worth less than two to the power of 64. */
  ghost predicate IsNumber(s: string) { s != "" && AllDigits(s) && Worth(s) < 18446744073709551616 }

  /** A numeric header counts by its digits, after a plus sign or without one; a header that is
      missing or not such a number counts as the default. */
  lemma HeaderNumber(headers: seq<Header>, key: string, default: nat)
    ensures match WsHeader(headers, key)
            case None => ParsedHeader(headers, key, default) == default
            case Some(v) =>
              ParsedHeader(headers, key, default)
              == if IsNumber(v) then Worth(v)
                 else if "+" <= v && IsNumber(v[1..]) then Worth(v[1..])
                 else default
  {
    var header := WsHeader(headers, key);
    if header.Some? {
      var v := header.value;
      DigitsMeaning(v);
      if "+" <= v {
        assert v[0] == '+';
        DigitsMeaning(v[1..]);
      }
    }
  }

  type Parts = map<string, seq<Bytes>>

  function Blank(sum: nat): seq<Bytes> { seq(sum, _ => []) }

  /** One fragment on the table of partial messages: the reassembled payload, if this
      fragment completes it, and the new table. An empty part counts as missing. */
  function Combine(headers: seq<Header>, payload: Bytes, table: Parts): (Option<Bytes>, Parts) {
    var sum := ParsedHeader(headers, "sum", 1);
    if sum <= 1 then (Some(payload), table)
    else
      match WsHeader(headers, "message_id")
      case None => (None, table)
      case Some(id) => CombineFragment(sum, ParsedHeader(headers, "seq", 0), id, payload, table)
  }

  function CombineFragment(sum: nat, seqNo: nat, id: string, payload: Bytes, table: Parts): (Option<Bytes>, Parts) {
    if seqNo >= sum then (None, table)
    else
      var slots := (if id in table && |table[id]| == sum then table[id] else Blank(sum))[seqNo := payload];
      if [] in slots then (None, table[id := slots])
      else (Some(Concat(slots)), table - {id})
  }

  class Reassembler {
    var frameParts: Parts

    constructor ()
      ensures frameParts == map[]
    {
      frameParts := map[];
    }

    method CombinePayload(headers: seq<Header>, payload: Bytes) returns (result: Option<Bytes>)
      modifies this
      ensures (result, frameParts) == Combine(headers, payload, old(frameParts))
    {
      hide ParsedHeader, WsHeader, Concat;
      var sum := ParsedHeader(headers, "sum", 1);
      if sum <= 1 { return Some(payload); }
      var seqNo := ParsedHeader(headers, "seq", 0);
      var msgId := WsHeader(headers, "message_id");
      if msgId.None? { return None; }
      if seqNo >= sum { return None; }
      var entry := if msgId.value in frameParts then frameParts[msgId.value] else Blank(sum);
      if |entry| != sum { entry := Blank(sum); }
      entry := entry[seqNo := payload];
      frameParts := frameParts[msgId.value := entry];

      var missing := AnyEmpty(entry);
      if missing { return None; }
      var combined := ConcatAll(entry);
      assert frameParts - {msgId.value} == old(frameParts) - {msgId.value};
      frameParts := frameParts - {msgId.value};
      return Some(combined);
    }
  }

  method AnyEmpty(parts: seq<Bytes>) returns (found: bool)
    ensures found <==> [] in parts
  {
    var i := 0;
    while i < |parts|
      invariant 0 <= i <= |parts| && [] !in parts[..i]
    {
      if parts[i] == [] { return true; }
      i := i + 1;
    }
    return false;
  }

  method ConcatAll(parts: seq<Bytes>) returns (combined: Bytes)
    ensures combined == Concat(parts)
  {
    combined := [];
    for k := 0 to |parts|
      invariant combined == Concat(parts[..k])
    {
      assert parts[..k + 1][..k] == parts[..k];
      combined := combined + parts[k];
    }
    assert parts[..|parts|] == parts;
  }

  // Runs of fragments

  /** A fragment as the headers name it. */
  datatype Fragment = Fragment(id: string, sum: nat, seqNo: nat, payload: Bytes)

  function FragmentStep(f: Fragment, table: Parts): (Option<Bytes>, Parts) {
    if f.sum <= 1 then (Some(f.payload), table)
    else CombineFragment(f.sum, f.seqNo, f.id, f.payload, table)
  }

  function Table(run: seq<Fragment>): Parts {
    if run == [] then map[]
    else FragmentStep(run[|run| - 1], Table(run[..|run| - 1])).1
  }

  /** What the last fragment of the run returns. */
  function Output(run: seq<Fragment>): Option<Bytes>
    requires run != []
  {
    FragmentStep(run[|run| - 1], Table(run[..|run| - 1])).0
  }

  // Interleaving

  function Only(run: seq<Fragment>, id: string): seq<Fragment> {
    if run == [] then []
    else
      var last := run[|run| - 1];
      Only(run[..|run| - 1], id) + if last.id == id then [last] else []
  }

  /** The tables agree on a message. */
  ghost predicate SameEntry(a: Parts, b: Parts, id: string) {
    (id in a <==> id in b) && (id in a ==> a[id] == b[id])
  }

  /** A fragment looks at the entry of its own message, and changes no other. */
  lemma StepIsLocal(f: Fragment, a: Parts, b: Parts)
    requires SameEntry(a, b, f.id)
    ensures FragmentStep(f, a).0 == FragmentStep(f, b).0
    ensures SameEntry(FragmentStep(f, a).1, FragmentStep(f, b).1, f.id)
    ensures forall id :: id != f.id ==> SameEntry(FragmentStep(f, a).1, a, id)
  {
    hide Concat;
  }

  /** Other messages' fragments do not matter: the entry of a message is what its own
      fragments alone would have built. */
  lemma {:induction false} InterleavingIrrelevant(run: seq<Fragment>, id: string)
    ensures SameEntry(Table(run), Table(Only(run, id)), id)
  {
    hide FragmentStep;
    if run == [] {
    } else {
      var front, last := run[..|run| - 1], run[|run| - 1];
      InterleavingIrrelevant(front, id);
      if last.id == id {
        OnlyLast(run);
        StepIsLocal(last, Table(front), Table(Only(front, id)));
      } else {
        assert Only(run, id) == Only(front, id);
        StepIsLocal(last, Table(front), Table(front));
        assert SameEntry(FragmentStep(last, Table(front)).1, Table(front), id);
      }
    }
  }

  lemma OnlyLast(run: seq<Fragment>)
    requires run != []
    ensures var front, last := run[..|run| - 1], run[|run| - 1];
            var mine := Only(run, last.id);
            mine != [] && mine[..|mine| - 1] == Only(front, last.id) && mine[|mine| - 1] == last
  {}

  /** So is what a fragment returns. */
  lemma OutputIrrelevant(run: seq<Fragment>)
    requires run != []
    ensures var mine := Only(run, run[|run| - 1].id);
            mine != [] && Output(run) == Output(mine)
  {
    hide FragmentStep, Table, Only;
    var front, last := run[..|run| - 1], run[|run| - 1];
    InterleavingIrrelevant(front, last.id);
    OnlyLast(run);
    StepIsLocal(last, Table(front), Table(Only(front, last.id)));
  }

  // Completion

  /** What the sender cut each message into. */
  type Sent = map<string, seq<Bytes>>

  /** The fragment is one of the sender's. */
  predicate From(f: Fragment, sent: Sent) {
    && f.id in sent && f.sum == |sent[f.id]| >= 2 && f.seqNo < f.sum
    && f.payload == sent[f.id][f.seqNo]
  }

  predicate AllFrom(run: seq<Fragment>, sent: Sent) {
    forall i :: 0 <= i < |run| ==> From(run[i], sent)
  }

  /** The sequence numbers below `sum`. */
  function All(sum: nat): (s: set<nat>)
    ensures forall k: nat :: k in s <==> k < sum
  {
    if sum == 0 then {} else All(sum - 1) + {sum - 1}
  }

  /** The parts that can be told from missing ones. */
  predicate NoEmptyPart(parts: seq<Bytes>) { [] !in parts }

  /** The sequence numbers of a message received since it was last completed. */
  function Seen(run: seq<Fragment>, id: string, sent: Sent): set<nat>
    requires AllFrom(run, sent)
    decreases run, 1
  {
    if run == [] then {}
    else
      var front, last := run[..|run| - 1], run[|run| - 1];
      assert AllFrom(front, sent);
      if last.id != id then Seen(front, id, sent)
      else if Completes(run, sent) then {}
      else Seen(front, id, sent) + {last.seqNo}
  }

  /** The last fragment is the one its message was waiting for. */
  predicate Completes(run: seq<Fragment>, sent: Sent)
    requires run != [] && AllFrom(run, sent)
    decreases run, 0
  {
    var front, last := run[..|run| - 1], run[|run| - 1];
    assert AllFrom(front, sent);
    assert |front| < |run|;
    && Seen(front, last.id, sent) + {last.seqNo} == All(last.sum)
    && NoEmptyPart(sent[last.id])
  }

  /** The table holds, for every message, the received parts in their places. */
  ghost predicate Matches(table: Parts, id: string, seen: set<nat>, sent: Sent)
    requires id in sent
  {
    var slots := if id in table then table[id] else Blank(|sent[id]|);
    && |slots| == |sent[id]|
    && (forall k :: 0 <= k < |slots| ==> slots[k] == if k in seen then sent[id][k] else [])
    && forall k :: k in seen ==> k < |sent[id]|
  }

  /** The parts of a message after one more fragment. */
  function Slots(f: Fragment, table: Parts): seq<Bytes>
    requires f.seqNo < f.sum
  {
    (if f.id in table && |table[f.id]| == f.sum then table[f.id] else Blank(f.sum))[f.seqNo := f.payload]
  }

  ghost predicate SlotsHold(slots: seq<Bytes>, parts: seq<Bytes>, seen: set<nat>) {
    && |slots| == |parts|
    && (forall k :: 0 <= k < |slots| ==> slots[k] == if k in seen then parts[k] else [])
    && forall k :: k in seen ==> k < |parts|
  }

  lemma SlotsGrow(table: Parts, f: Fragment, seen: set<nat>, sent: Sent)
    requires From(f, sent) && Matches(table, f.id, seen, sent)
    ensures SlotsHold(Slots(f, table), sent[f.id], seen + {f.seqNo})
  {}

  /** No part is missing exactly when all have been seen and none is empty. */
  lemma CompleteIff(slots: seq<Bytes>, parts: seq<Bytes>, seen: set<nat>)
    requires SlotsHold(slots, parts, seen)
    ensures [] !in slots <==> seen == All(|parts|) && NoEmptyPart(parts)
    ensures seen == All(|parts|) ==> slots == parts
  {
    if seen == All(|parts|) {
      assert slots == parts;
    } else {
      var k :| 0 <= k < |parts| && k !in seen;
      assert slots[k] == [];
    }
  }

  lemma StepMatches(table: Parts, f: Fragment, seen: set<nat>, sent: Sent)
    requires From(f, sent) && Matches(table, f.id, seen, sent)
    ensures var (out, table') := FragmentStep(f, table);
            var now := seen + {f.seqNo};
            && (out.Some? <==> now == All(f.sum) && NoEmptyPart(sent[f.id]))
            && (out.Some? ==> out.value == Concat(sent[f.id]) && f.id !in table')
            && (out.None? ==> Matches(table', f.id, now, sent))
            && table' - {f.id} == table - {f.id}
  {
    SlotsGrow(table, f, seen, sent);
    CompleteIff(Slots(f, table), sent[f.id], seen + {f.seqNo});
    hide All, Concat;
    StepOfSlots(table, f, sent);
    hide FragmentStep;
    OthersKept(table, f.id, Slots(f, table));
  }

  lemma StepOfSlots(table: Parts, f: Fragment, sent: Sent)
    requires From(f, sent)
    ensures var slots := Slots(f, table);
            FragmentStep(f, table)
            == if [] in slots then (None, table[f.id := slots]) else (Some(Concat(slots)), table - {f.id})
  {
    hide Concat;
  }

  lemma OthersKept(table: Parts, id: string, slots: seq<Bytes>)
    ensures table[id := slots] - {id} == table - {id} && table - {id} - {id} == table - {id}
  {}

  lemma {:induction false} TableMatches(run: seq<Fragment>, id: string, sent: Sent)
    requires AllFrom(run, sent) && id in sent
    ensures Matches(Table(run), id, Seen(run, id, sent), sent)
  {
    if run == [] {
    } else {
      var front, last := run[..|run| - 1], run[|run| - 1];
      assert AllFrom(front, sent);
      TableMatches(front, id, sent);
      if last.id == id {
        StepMatches(Table(front), last, Seen(front, id, sent), sent);
      } else {
        TableMatches(front, last.id, sent);
        StepMatches(Table(front), last, Seen(front, last.id, sent), sent);
        assert id in Table(run) <==> id in Table(front) - {last.id};
      }
    }
  }

  /** For any interleaving, order and repetition of the fragments of any number of messages:
      a fragment returns a payload exactly when, with it, every part since the message was
      last completed has arrived, and no part is empty. The payload is the parts in sequence
      order. Other messages keep their entries. */
  lemma CompletionExact(run: seq<Fragment>, sent: Sent)
    requires run != [] && AllFrom(run, sent)
    ensures var last := run[|run| - 1];
            && (Output(run).Some? <==> Completes(run, sent))
            && (Output(run).Some? ==> Output(run).value == Concat(sent[last.id]))
            && Table(run) - {last.id} == Table(run[..|run| - 1]) - {last.id}
  {
    var front, last := run[..|run| - 1], run[|run| - 1];
    assert AllFrom(front, sent);
    TableMatches(front, last.id, sent);
    StepMatches(Table(front), last, Seen(front, last.id, sent), sent);
  }

  /** A message with an empty part is never delivered, however often it is sent. */
  lemma EmptyPartNeverCompletes(run: seq<Fragment>, sent: Sent)
    requires run != [] && AllFrom(run, sent) && !NoEmptyPart(sent[run[|run| - 1].id])
    ensures Output(run).None?
  {
    CompletionExact(run, sent);
  }

  /** The fragments of a message in sequence order. */
  function InOrder(id: string, parts: seq<Bytes>, n: nat): seq<Fragment>
    requires n <= |parts|
  {
    seq(n, k requires 0 <= k < n => Fragment(id, |parts|, k, parts[k]))
  }

  lemma {:induction false} SeenInOrder(id: string, parts: seq<Bytes>, n: nat)
    requires n < |parts| && |parts| >= 2
    ensures AllFrom(InOrder(id, parts, n), map[id := parts])
    ensures Seen(InOrder(id, parts, n), id, map[id := parts]) == All(n)
  {
    var run := InOrder(id, parts, n);
    if n > 0 {
      SeenInOrder(id, parts, n - 1);
      assert run[..n - 1] == InOrder(id, parts, n - 1);
      assert All(n - 1) + {n - 1} == All(n);
      assert n in All(|parts|) && n !in All(n);
    }
  }

  /** A message of two or more parts gets through in one sending exactly when it has no
      empty part. */
  lemma RoundTrip(id: string, parts: seq<Bytes>)
    requires |parts| >= 2
    ensures Output(InOrder(id, parts, |parts|)) == if NoEmptyPart(parts) then Some(Concat(parts)) else None
  {
    hide Concat, Table, Output;
    var run, n, sent := InOrder(id, parts, |parts|), |parts|, map[id := parts];
    SeenInOrder(id, parts, n - 1);
    assert run[..n - 1] == InOrder(id, parts, n - 1);
    assert AllFrom(run, sent);
    assert Completes(run, sent) <==> NoEmptyPart(parts);
    CompletionExact(run, sent);
  }
}
