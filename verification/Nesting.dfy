/** Words of opening and closing tags of several kinds: when they nest. */
module Nesting {
  import opened Text

  datatype Kind = Anchor | Bold | Code | Italic

  datatype Tag = Tag(kind: Kind, opens: bool)

  // Nesting, by a stack

  function Push(stack: seq<Kind>, t: Tag): Option<seq<Kind>> {
    if t.opens then Some([t.kind] + stack)
    else if stack != [] && stack[0] == t.kind then Some(stack[1..])
    else None
  }

  /** The kinds that are open after the tags, the innermost first. */
  function Nest(stack: seq<Kind>, tags: seq<Tag>): Option<seq<Kind>>
    decreases |tags|
  {
    if tags == [] then Some(stack)
    else
      match Push(stack, tags[0])
      case None => None
      case Some(next) => Nest(next, tags[1..])
  }

  predicate WellNested(tags: seq<Tag>) { Nest([], tags) == Some([]) }

  // One kind alone

  function Shift(depth: nat, t: Tag, kind: Kind): Option<nat> {
    if t.kind != kind then Some(depth)
    else if t.opens then Some(depth + 1)
    else if depth > 0 then Some(depth - 1)
    else None
  }

  /** How many tags of one kind are open after the tags. */
  function Level(depth: nat, tags: seq<Tag>, kind: Kind): Option<nat>
    decreases |tags|
  {
    if tags == [] then Some(depth)
    else
      match Shift(depth, tags[0], kind)
      case None => None
      case Some(next) => Level(next, tags[1..], kind)
  }

  /** The tags of one kind match, whatever stands between them. */
  predicate Matched(tags: seq<Tag>, kind: Kind) { Level(0, tags, kind) == Some(0) }

  /** An opening tag and the closing tag it is matched with. */
  predicate Span(tags: seq<Tag>, i: nat, j: nat, kind: Kind) {
    && i < j < |tags| && tags[i] == Tag(kind, true) && tags[j] == Tag(kind, false)
    && Matched(tags[i + 1..j], kind)
  }

  lemma {:induction false} NestAppend(stack: seq<Kind>, a: seq<Tag>, b: seq<Tag>)
    ensures Nest(stack, a + b)
         == if Nest(stack, a).None? then None else Nest(Nest(stack, a).value, b)
    decreases |a|
  {
    if a == [] {
      assert a + b == b;
    } else {
      assert (a + b)[1..] == a[1..] + b;
      if Push(stack, a[0]).Some? { NestAppend(Push(stack, a[0]).value, a[1..], b); }
    }
  }

  lemma {:induction false} LevelAppend(depth: nat, a: seq<Tag>, b: seq<Tag>, kind: Kind)
    ensures Level(depth, a + b, kind)
         == if Level(depth, a, kind).None? then None else Level(Level(depth, a, kind).value, b, kind)
    decreases |a|
  {
    if a == [] {
      assert a + b == b;
    } else {
      assert (a + b)[1..] == a[1..] + b;
      if Shift(depth, a[0], kind).Some? { LevelAppend(Shift(depth, a[0], kind).value, a[1..], b, kind); }
    }
  }

  lemma {:induction false} NestBelow(stack: seq<Kind>, below: seq<Kind>, tags: seq<Tag>)
    requires Nest(stack, tags).Some?
    ensures Nest(stack + below, tags) == Some(Nest(stack, tags).value + below)
    decreases |tags|
  {
    if tags == [] {
    } else {
      var next := Push(stack, tags[0]).value;
      assert Push(stack + below, tags[0]) == Some(next + below) by {
        if tags[0].opens {
          assert [tags[0].kind] + (stack + below) == [tags[0].kind] + stack + below;
        } else {
          assert (stack + below)[1..] == stack[1..] + below;
        }
      }
      NestBelow(next, below, tags[1..]);
    }
  }

  lemma {:induction false} LevelAbove(depth: nat, more: nat, tags: seq<Tag>, kind: Kind)
    requires Level(depth, tags, kind).Some?
    ensures Level(depth + more, tags, kind) == Some(Level(depth, tags, kind).value + more)
    decreases |tags|
  {
    if tags == [] {
    } else {
      LevelAbove(Shift(depth, tags[0], kind).value, more, tags[1..], kind);
    }
  }

  function Open(stack: seq<Kind>, kind: Kind): nat {
    if stack == [] then 0 else (if stack[0] == kind then 1 else 0) + Open(stack[1..], kind)
  }

  /** The stack knows how many tags of each kind are open. */
  lemma {:induction false} NestLevel(stack: seq<Kind>, tags: seq<Tag>, kind: Kind)
    requires Nest(stack, tags).Some?
    ensures Level(Open(stack, kind), tags, kind) == Some(Open(Nest(stack, tags).value, kind))
    decreases |tags|
  {
    if tags == [] {
    } else {
      var next := Push(stack, tags[0]).value;
      assert tags[0].opens ==> next[1..] == stack;
      NestLevel(next, tags[1..], kind);
    }
  }

  // Inside a span

  /** While the tags of the kind match, the open tag below is not touched. */
  lemma {:induction false} NestAbove(stack: seq<Kind>, kind: Kind, below: seq<Kind>, tags: seq<Tag>)
    requires Nest(stack + [kind] + below, tags).Some? && Level(Open(stack, kind), tags, kind).Some?
    ensures Nest(stack, tags).Some?
    decreases |tags|
  {
    if tags == [] {
    } else {
      var t, full := tags[0], stack + [kind] + below;
      if t.opens {
        assert [t.kind] + full == [t.kind] + stack + [kind] + below;
        assert ([t.kind] + stack)[1..] == stack;
        NestAbove([t.kind] + stack, kind, below, tags[1..]);
      } else if stack != [] {
        assert full[1..] == stack[1..] + [kind] + below;
        NestAbove(stack[1..], kind, below, tags[1..]);
      } else {
        assert full[0] == kind;
      }
    }
  }

  /** A span of a well nested word holds a well nested word. */
  lemma SpanNests(tags: seq<Tag>, i: nat, j: nat, kind: Kind)
    requires WellNested(tags) && Span(tags, i, j, kind)
    ensures WellNested(tags[i + 1..j])
  {
    var before, inner, after := tags[..i], tags[i + 1..j], tags[j + 1..];
    assert tags == before + ([tags[i]] + (inner + ([tags[j]] + after)));
    NestAppend([], before, [tags[i]] + (inner + ([tags[j]] + after)));
    var below := Nest([], before).value;
    NestOne(below, tags[i], inner + ([tags[j]] + after));
    NestAppend([kind] + below, inner, [tags[j]] + after);
    assert [] + [kind] + below == [kind] + below;
    NestAbove([], kind, below, inner);
    NestBelow([], [kind] + below, inner);
    var top := Nest([], inner).value;
    assert [] + ([kind] + below) == [kind] + below;
    NestLevel([], inner, kind);
    NestOne(top + ([kind] + below), tags[j], after);
  }

  lemma NestOne(stack: seq<Kind>, t: Tag, rest: seq<Tag>)
    ensures Nest(stack, [t] + rest) == if Push(stack, t).None? then None else Nest(Push(stack, t).value, rest)
  {
    assert ([t] + rest)[1..] == rest;
  }

  lemma LevelOne(depth: nat, t: Tag, rest: seq<Tag>, kind: Kind)
    ensures Level(depth, [t] + rest, kind)
         == if Shift(depth, t, kind).None? then None else Level(Shift(depth, t, kind).value, rest, kind)
  {
    assert ([t] + rest)[1..] == rest;
  }

  // Finding spans

  /** Where the tags of the kind first close one that they did not open. */
  lemma {:induction false} FirstUnmatched(depth: nat, tags: seq<Tag>, kind: Kind) returns (j: nat)
    requires Level(depth, tags, kind).None?
    ensures j < |tags| && tags[j] == Tag(kind, false) && Level(depth, tags[..j], kind) == Some(0)
    decreases |tags|
  {
    var t := tags[0];
    if Shift(depth, t, kind).None? {
      j := 0;
    } else {
      var next := Shift(depth, t, kind).value;
      var k := FirstUnmatched(next, tags[1..], kind);
      j := k + 1;
      assert tags[..j] == [t] + tags[1..][..k];
      LevelOne(depth, t, tags[1..][..k], kind);
    }
  }

  /** The closing tag of one that is open before the tags. */
  lemma Closing(depth: nat, tags: seq<Tag>, kind: Kind) returns (j: nat)
    requires Level(depth + 1, tags, kind) == Some(depth)
    ensures j < |tags| && tags[j] == Tag(kind, false) && Matched(tags[..j], kind)
  {
    if Level(0, tags, kind).Some? { LevelAbove(0, depth + 1, tags, kind); }
    j := FirstUnmatched(0, tags, kind);
  }

  /** The last tag that is still open after the tags. */
  lemma {:induction false} LastOpen(tags: seq<Tag>, kind: Kind) returns (i: nat)
    requires Level(0, tags, kind).Some? && Level(0, tags, kind).value > 0
    ensures i < |tags| && tags[i] == Tag(kind, true) && Matched(tags[i + 1..], kind)
    ensures Level(0, tags[..i], kind) == Some(Level(0, tags, kind).value - 1)
    decreases |tags|
  {
    hide Level;
    LevelNothing(0, kind);
    assert tags != [] by { if tags == [] { } }
    var front, t := tags[..|tags| - 1], tags[|tags| - 1];
    assert tags == front + [t];
    LevelAppend(0, front, [t], kind);
    var d := Level(0, front, kind).value;
    LevelLast(d, t, kind);
    if t.kind != kind {
      i := LastOpen(front, kind);
      assert tags[i + 1..] == front[i + 1..] + [t] && tags[..i] == front[..i];
      LevelAppend(0, front[i + 1..], [t], kind);
      LevelLast(0, t, kind);
    } else if t.opens {
      i := |front|;
      assert tags[i + 1..] == [];
    } else {
      var k := LastOpen(front, kind);
      i := LastOpen(front[..k], kind);
      var a, b := front[..k][i + 1..], front[k + 1..];
      assert tags[i + 1..] == a + ([Tag(kind, true)] + (b + [t]));
      assert tags[..i] == front[..k][..i];
      LevelAppend(0, a, [Tag(kind, true)] + (b + [t]), kind);
      LevelOne(0, Tag(kind, true), b + [t], kind);
      LevelAbove(0, 1, b, kind);
      LevelAppend(1, b, [t], kind);
      LevelLast(1, t, kind);
    }
  }

  lemma LevelNothing(depth: nat, kind: Kind)
    ensures Level(depth, [], kind) == Some(depth)
  {}

  lemma LevelLast(depth: nat, t: Tag, kind: Kind)
    ensures Level(depth, [t], kind) == Shift(depth, t, kind)
  {
    assert [t][1..] == [];
  }

  // The theorem

  ghost predicate AllMatched(tags: seq<Tag>) { forall k :: Matched(tags, k) }

  /** Between the tags of a span the tags of every kind match. */
  ghost predicate MatchedInside(tags: seq<Tag>) {
    forall i: nat, j: nat, kind :: Span(tags, i, j, kind) ==> AllMatched(tags[i + 1..j])
  }

  lemma SpanOfPart(tags: seq<Tag>, from: nat, to: nat, i: nat, j: nat, kind: Kind)
    requires from <= to <= |tags| && Span(tags[from..to], i, j, kind)
    ensures Span(tags, from + i, from + j, kind)
    ensures tags[from..to][i + 1..j] == tags[from + i + 1..from + j]
  {
    hide Level;
    SliceOfSlice(tags, from, to, i + 1, j);
  }

  lemma SliceOfSlice(tags: seq<Tag>, a: nat, b: nat, c: nat, d: nat)
    requires a <= b <= |tags| && c <= d <= b - a
    ensures tags[a..b][c..d] == tags[a + c..a + d]
  {
    forall i | 0 <= i < d - c ensures tags[a..b][c..d][i] == tags[a + c..a + d][i] {}
  }

  lemma PartMatchedInside(tags: seq<Tag>, from: nat, to: nat)
    requires from <= to <= |tags| && MatchedInside(tags)
    ensures MatchedInside(tags[from..to])
  {
    hide Matched, AllMatched;
    forall i: nat, j: nat, kind | Span(tags[from..to], i, j, kind) ensures AllMatched(tags[from..to][i + 1..j]) {
      SpanOfPart(tags, from, to, i, j, kind);
    }
  }

  /** A word whose kinds match begins with a span, and they match in it and after it. */
  lemma FirstSpan(tags: seq<Tag>) returns (j: nat)
    requires tags != [] && MatchedInside(tags) && AllMatched(tags)
    ensures Span(tags, 0, j, tags[0].kind)
    ensures AllMatched(tags[1..j]) && AllMatched(tags[j + 1..])
  {
    var kind, rest := tags[0].kind, tags[1..];
    assert Matched(tags, kind);
    assert tags == [tags[0]] + rest;
    LevelOne(0, tags[0], rest, kind);
    var n := Closing(0, rest, kind);
    hide Level;
    j := n + 1;
    assert tags[1..j] == rest[..n];
    assert Span(tags, 0, j, kind);
    assert AllMatched(tags[0 + 1..j]);
    assert tags == [tags[0]] + tags[1..j] + [tags[j]] + tags[j + 1..];
    var after := tags[j + 1..];
    forall k ensures Matched(after, k) {
      RestMatched(tags[0], tags[1..j], tags[j], after, k);
    }
  }

  lemma RestMatched(t: Tag, inner: seq<Tag>, u: Tag, rest: seq<Tag>, k: Kind)
    requires t.opens && u == Tag(t.kind, false) && Matched(inner, k) && Matched([t] + inner + [u] + rest, k)
    ensures Matched(rest, k)
  {
    hide Level;
    assert [t] + inner + [u] + rest == [t] + (inner + ([u] + rest));
    LevelOne(0, t, inner + ([u] + rest), k);
    var d := Shift(0, t, k).value;
    LevelAppend(d, inner, [u] + rest, k);
    LevelAbove(0, d, inner, k);
    LevelOne(d, u, rest, k);
  }

  lemma NestWrap(t: Tag, inner: seq<Tag>, u: Tag, rest: seq<Tag>)
    requires t.opens && u == Tag(t.kind, false) && WellNested(inner) && WellNested(rest)
    ensures WellNested([t] + inner + [u] + rest)
  {
    hide Nest;
    assert [t] + inner + [u] + rest == [t] + (inner + ([u] + rest));
    NestOne([], t, inner + ([u] + rest));
    assert [t.kind] + [] == [t.kind] && [] + [t.kind] == [t.kind];
    NestAppend([t.kind], inner, [u] + rest);
    NestBelow([], [t.kind], inner);
    NestOne([t.kind], u, rest);
  }

  lemma {:induction false} MatchedNests(tags: seq<Tag>)
    requires MatchedInside(tags) && AllMatched(tags)
    ensures WellNested(tags)
    decreases |tags|
  {
    hide Matched, AllMatched, MatchedInside;
    if tags == [] {
    } else {
      var j := FirstSpan(tags);
      PartMatchedInside(tags, 1, j);
      PartMatchedInside(tags, j + 1, |tags|);
      assert tags[j + 1..|tags|] == tags[j + 1..];
      MatchedNests(tags[1..j]);
      MatchedNests(tags[j + 1..]);
      NestWrap(tags[0], tags[1..j], tags[j], tags[j + 1..]);
      assert tags == [tags[0]] + tags[1..j] + [tags[j]] + tags[j + 1..];
    }
  }

  /** Tags nest exactly when those of each kind match, in the whole and inside every span. */
  lemma NestsIff(tags: seq<Tag>)
    ensures WellNested(tags) <==> MatchedInside(tags) && AllMatched(tags)
  {
    hide Nest, Level;
    if WellNested(tags) {
      forall k ensures Matched(tags, k) { NestLevel([], tags, k); }
      forall i: nat, j: nat, kind | Span(tags, i, j, kind) ensures AllMatched(tags[i + 1..j]) {
        SpanNests(tags, i, j, kind);
        var inner := tags[i + 1..j];
        forall k ensures Matched(inner, k) { NestLevel([], inner, k); }
      }
    }
    if MatchedInside(tags) && AllMatched(tags) { MatchedNests(tags); }
  }

  // Two kinds

  /** A closing tag inside a span that is matched with an opening tag before it. */
  lemma OpenedBefore(tags: seq<Tag>, i: nat, j: nat, n: nat, kind: Kind)  returns (a: nat)
    requires i < j <= |tags| && n < j - i - 1 && tags[i].kind != kind && tags[i + 1 + n] == Tag(kind, false)
    requires Level(0, tags[i + 1..i + 1 + n], kind) == Some(0) && Matched(tags, kind)
    ensures a < i && Span(tags, a, i + 1 + n, kind)
  {
    hide Level;
    var b := i + 1 + n;
    assert tags == tags[..b] + ([tags[b]] + tags[b + 1..]);
    LevelAppend(0, tags[..b], [tags[b]] + tags[b + 1..], kind);
    var d := Level(0, tags[..b], kind).value;
    LevelOne(d, tags[b], tags[b + 1..], kind);
    assert tags[..b] == tags[..i] + ([tags[i]] + tags[i + 1..b]);
    LevelAppend(0, tags[..i], [tags[i]] + tags[i + 1..b], kind);
    LevelOne(Level(0, tags[..i], kind).value, tags[i], tags[i + 1..b], kind);
    LevelAbove(0, Level(0, tags[..i], kind).value, tags[i + 1..b], kind);
    a := LastOpen(tags[..i], kind);
    assert tags[a + 1..b] == tags[..i][a + 1..] + ([tags[i]] + tags[i + 1..b]);
    assert tags[..i][a] == tags[a];
    LevelAppend(0, tags[..i][a + 1..], [tags[i]] + tags[i + 1..b], kind);
    LevelOne(0, tags[i], tags[i + 1..b], kind);
  }

  /** An opening tag inside a span that is matched with a closing tag after it. */
  lemma ClosedAfter(tags: seq<Tag>, i: nat, j: nat, a: nat, kind: Kind) returns (b: nat)
    requires i < a < j < |tags| && tags[j].kind != kind && tags[a] == Tag(kind, true)
    requires Matched(tags[a + 1..j], kind) && Matched(tags, kind)
    ensures j < b && Span(tags, a, b, kind)
  {
    hide Level;
    assert tags == tags[..a] + ([tags[a]] + (tags[a + 1..j] + tags[j..]));
    LevelAppend(0, tags[..a], [tags[a]] + (tags[a + 1..j] + tags[j..]), kind);
    var d := Level(0, tags[..a], kind).value;
    LevelOne(d, tags[a], tags[a + 1..j] + tags[j..], kind);
    LevelAppend(d + 1, tags[a + 1..j], tags[j..], kind);
    LevelAbove(0, d + 1, tags[a + 1..j], kind);
    if Level(0, tags[j..], kind).Some? { LevelAbove(0, d + 1, tags[j..], kind); }
    var m := FirstUnmatched(0, tags[j..], kind);
    b := j + m;
    assert tags[a + 1..b] == tags[a + 1..j] + tags[j..][..m];
    LevelAppend(0, tags[a + 1..j], tags[j..][..m], kind);
  }

  /** Spans of two kinds that cross: the tags of neither match inside the other. */
  lemma CrossingUnmatched(tags: seq<Tag>, a: nat, b: nat, kind: Kind, c: nat, d: nat, other: Kind)
    requires Span(tags, a, b, kind) && Span(tags, c, d, other) && kind != other && a < c < b < d
    ensures !Matched(tags[a + 1..b], other) && !Matched(tags[c + 1..d], kind)
  {
    hide Level;
    var x, y, z := tags[a + 1..c], tags[c + 1..b], tags[b + 1..d];
    assert tags[a + 1..b] == x + ([tags[c]] + y) && tags[c + 1..d] == y + ([tags[b]] + z);
    LevelAppend(0, y, [tags[b]] + z, other);
    LevelAppend(0, x, [tags[c]] + y, other);
    LevelAppend(0, x, [tags[c]] + y, kind);
    LevelAppend(0, y, [tags[b]] + z, kind);
    if Level(0, x, other).Some? {
      var n := Level(0, x, other).value;
      LevelOne(n, tags[c], y, other);
      LevelAbove(0, n + 1, y, other);
    }
    if Level(0, y, kind).Some? {
      var n := Level(0, x, kind).value;
      LevelOne(n, tags[c], y, kind);
      LevelAbove(0, n, y, kind);
      LevelOne(Level(0, y, kind).value, tags[b], z, kind);
    }
  }

  /** If the tags of one kind match inside all spans of another, so do those of the other inside
      all spans of the one. */
  lemma MatchedInsideBoth(tags: seq<Tag>, kind: Kind, other: Kind, c: nat, d: nat)
    requires kind != other && Matched(tags, kind) && Span(tags, c, d, other)
    requires forall a: nat, b: nat :: Span(tags, a, b, kind) ==> Matched(tags[a + 1..b], other)
    ensures Matched(tags[c + 1..d], kind)
  {
    var inner := tags[c + 1..d];
    if Level(0, inner, kind).None? {
      var n := FirstUnmatched(0, inner, kind);
      hide Level;
      assert inner[..n] == tags[c + 1..c + 1 + n];
      var a := OpenedBefore(tags, c, d, n, kind);
      CrossingUnmatched(tags, a, c + 1 + n, kind, c, d, other);
    } else if Level(0, inner, kind).value > 0 {
      var n := LastOpen(inner, kind);
      hide Level;
      var a := c + 1 + n;
      assert inner[n + 1..] == tags[a + 1..d];
      var b := ClosedAfter(tags, c, d, a, kind);
      CrossingUnmatched(tags, c, d, other, a, b, kind);
    }
  }

  // Kinds whose tags open and close in turn

  function CountOf(tags: seq<Tag>, kind: Kind): nat {
    if tags == [] then 0 else CountOf(tags[..|tags| - 1], kind) + if tags[|tags| - 1].kind == kind then 1 else 0
  }

  /** The tags of the kind open and close in turn, beginning with an opening one. */
  ghost predicate InTurn(tags: seq<Tag>, kind: Kind) {
    forall i :: 0 <= i < |tags| && tags[i].kind == kind ==> (tags[i].opens <==> CountOf(tags[..i], kind) % 2 == 0)
  }

  lemma InTurnFront(tags: seq<Tag>)
    requires tags != []
    ensures forall k :: InTurn(tags, k) ==> InTurn(tags[..|tags| - 1], k)
    ensures forall k :: InTurn(tags, k) && tags[|tags| - 1].kind == k
                        ==> (tags[|tags| - 1].opens <==> CountOf(tags[..|tags| - 1], k) % 2 == 0)
  {
    hide CountOf;
    var front := tags[..|tags| - 1];
    forall k | InTurn(tags, k) ensures InTurn(front, k) {
      forall i | 0 <= i < |front| && front[i].kind == k ensures front[i].opens <==> CountOf(front[..i], k) % 2 == 0 {
        assert front[..i] == tags[..i] && tags[i].kind == k;
      }
    }
  }

  lemma {:induction false} LevelInTurn(tags: seq<Tag>, from: nat, to: nat, kind: Kind)
    requires InTurn(tags, kind) && from <= to <= |tags|
    ensures CountOf(tags[..from], kind) <= CountOf(tags[..to], kind)
    ensures CountOf(tags[..from], kind) % 2 == 0
            ==> Level(0, tags[from..to], kind) == Some(CountOf(tags[..to], kind) % 2)
    ensures CountOf(tags[..from], kind) % 2 == 1 && CountOf(tags[..from], kind) == CountOf(tags[..to], kind)
            ==> Level(0, tags[from..to], kind) == Some(0)
    ensures CountOf(tags[..from], kind) % 2 == 1 && CountOf(tags[..from], kind) < CountOf(tags[..to], kind)
            ==> Level(0, tags[from..to], kind) == None
  {
    hide Level;
    if from == to {
      LevelNothing(0, kind);
    } else {
      LevelInTurn(tags, from, to - 1, kind);
      var t := tags[to - 1];
      assert tags[from..to] == tags[from..to - 1] + [t];
      assert tags[..to][..to - 1] == tags[..to - 1];
      LevelAppend(0, tags[from..to - 1], [t], kind);
      if Level(0, tags[from..to - 1], kind).Some? {
        LevelLast(Level(0, tags[from..to - 1], kind).value, t, kind);
      }
    }
  }

  /** The numbers of tags before two places, for the tags in between to match. */
  predicate EqualOrEven(p: nat, q: nat) { p == q || (p % 2 == 0 && q % 2 == 0) }

  lemma InTurnMatchedIff(tags: seq<Tag>, from: nat, to: nat, kind: Kind)
    requires InTurn(tags, kind) && from <= to <= |tags|
    ensures Matched(tags[from..to], kind) <==> EqualOrEven(CountOf(tags[..from], kind), CountOf(tags[..to], kind))
  {
    hide Level, CountOf;
    LevelInTurn(tags, from, to, kind);
  }
}
