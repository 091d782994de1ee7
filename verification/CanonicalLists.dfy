/** Lists sorted by a name and stripped of repeated names, the way definitions store them. */
module CanonicalLists {
  import opened Text

  /** The order of strings by code point. */
  predicate Less(a: string, b: string) {
    b != "" && (a == "" || a[0] < b[0] || (a[0] == b[0] && Less(a[1..], b[1..])))
  }

  lemma {:induction false} LessTransitive(a: string, b: string, c: string)
    requires Less(a, b) && Less(b, c)
    ensures Less(a, c)
  {
    if a != "" && a[0] == b[0] && b[0] == c[0] { LessTransitive(a[1..], b[1..], c[1..]); }
  }

  lemma {:induction false} LessTotal(a: string, b: string)
    ensures Less(a, b) || a == b || Less(b, a)
    ensures Less(a, b) ==> a != b && !Less(b, a)
  {
    if a != "" && b != "" {
      LessTotal(a[1..], b[1..]);
      assert a == [a[0]] + a[1..] && b == [b[0]] + b[1..];
    }
  }

  // Sorting and deduplication by a key

  /** `x` goes after everything that is not greater, so equal keys keep their order. */
  function InsertAfter<T>(s: seq<T>, x: T, key: T -> string): seq<T> {
    if s == [] then [x]
    else if Less(key(x), key(s[0])) then [x] + s
    else [s[0]] + InsertAfter(s[1..], x, key)
  }

  function SortBy<T>(s: seq<T>, key: T -> string): seq<T> {
    if s == [] then [] else InsertAfter(SortBy(s[..|s| - 1], key), s[|s| - 1], key)
  }

  /** Of neighbours with one key, the first stays. */
  function DedupBy<T>(s: seq<T>, key: T -> string): seq<T> {
    if s == [] then []
    else
      var d, last := DedupBy(s[..|s| - 1], key), s[|s| - 1];
      if d != [] && key(d[|d| - 1]) == key(last) then d else d + [last]
  }

  function Canonical<T>(s: seq<T>, key: T -> string): seq<T> { DedupBy(SortBy(s, key), key) }

  ghost predicate InOrder(a: string, b: string) { !Less(b, a) }

  ghost predicate Sorted<T>(s: seq<T>, key: T -> string) {
    forall i, j :: 0 <= i < j < |s| ==> InOrder(key(s[i]), key(s[j]))
  }

  ghost predicate StrictlySorted<T>(s: seq<T>, key: T -> string) {
    forall i, j :: 0 <= i < j < |s| ==> Less(key(s[i]), key(s[j]))
  }

  /** The first element with a name. */
  function FirstWith<T>(s: seq<T>, key: T -> string, name: string): Option<T> {
    if s == [] then None else if key(s[0]) == name then Some(s[0]) else FirstWith(s[1..], key, name)
  }

  /** The two lists agree on the first element of every name. */
  ghost predicate SameFirsts<T>(a: seq<T>, b: seq<T>, key: T -> string) {
    forall name :: FirstWith(a, key, name) == FirstWith(b, key, name)
  }

  lemma {:induction false} FirstWithAppend<T>(a: seq<T>, b: seq<T>, key: T -> string, name: string)
    ensures FirstWith(a + b, key, name)
         == if FirstWith(a, key, name).Some? then FirstWith(a, key, name) else FirstWith(b, key, name)
  {
    if a == [] {
      assert a + b == b;
    } else {
      assert (a + b)[1..] == a[1..] + b;
      FirstWithAppend(a[1..], b, key, name);
    }
  }

  lemma {:induction false} FirstWithIn<T>(s: seq<T>, key: T -> string, name: string)
    ensures FirstWith(s, key, name).Some? <==> exists i :: 0 <= i < |s| && key(s[i]) == name
    ensures FirstWith(s, key, name).Some? ==> key(FirstWith(s, key, name).value) == name
    ensures FirstWith(s, key, name).Some? ==> FirstWith(s, key, name).value in s
  {
    if s == [] {
    } else {
      FirstWithIn(s[1..], key, name);
      if i :| 0 <= i < |s| && key(s[i]) == name {
        if i > 0 { assert s[1..][i - 1] == s[i]; }
      }
    }
  }

  lemma NotBelow<T>(s: seq<T>, x: T, k: nat, key: T -> string)
    requires Sorted(s, key) && k < |s| && Less(key(x), key(s[0]))
    ensures InOrder(key(x), key(s[k]))
  {
    LessTotal(key(s[k]), key(s[0]));
    assert k == 0 || InOrder(key(s[0]), key(s[k]));
    if Less(key(s[k]), key(x)) { LessTransitive(key(s[k]), key(x), key(s[0])); }
  }

  lemma NotAbove(a: string, b: string)
    requires !Less(b, a)
    ensures InOrder(a, b)
  {}

  lemma {:induction false} InsertMembers<T>(s: seq<T>, x: T, key: T -> string, y: T)
    requires y in InsertAfter(s, x, key)
    ensures y in s || y == x
  {
    hide Less;
    if s != [] && !Less(key(x), key(s[0])) && y != s[0] {
      InsertMembers(s[1..], x, key, y);
    }
  }

  lemma {:induction false} InsertKeepsSorted<T>(s: seq<T>, x: T, key: T -> string)
    requires Sorted(s, key)
    ensures Sorted(InsertAfter(s, x, key), key)
  {
    hide Less, InOrder;
    if s == [] {
    } else if Less(key(x), key(s[0])) {
      forall k | 0 <= k < |s| ensures InOrder(key(x), key(s[k])) { NotBelow(s, x, k, key); }
    } else {
      NotAbove(key(s[0]), key(x));
      InsertKeepsSorted(s[1..], x, key);
      var rest := InsertAfter(s[1..], x, key);
      forall k | 0 <= k < |rest| ensures InOrder(key(s[0]), key(rest[k])) {
        if rest[k] != x {
          InsertMembers(s[1..], x, key, rest[k]);
          var i :| 0 <= i < |s| - 1 && s[1..][i] == rest[k];
          assert s[i + 1] == rest[k];
        }
      }
    }
  }

  lemma {:induction false} InsertFirst<T>(s: seq<T>, x: T, key: T -> string, name: string)
    requires Sorted(s, key)
    ensures FirstWith(InsertAfter(s, x, key), key, name)
         == if FirstWith(s, key, name).Some? then FirstWith(s, key, name)
            else if key(x) == name then Some(x) else None
  {
    if s == [] {
      assert [x][1..] == [];
    } else if Less(key(x), key(s[0])) {
      assert ([x] + s)[1..] == s;
      if key(x) == name {
        FirstWithIn(s, key, name);
        forall i | 0 <= i < |s| ensures key(s[i]) != name {
          if key(s[i]) == name { LessTotal(key(s[i]), key(s[0])); }
        }
      }
    } else {
      InsertFirst(s[1..], x, key, name);
      assert ([s[0]] + InsertAfter(s[1..], x, key))[1..] == InsertAfter(s[1..], x, key);
    }
  }

  lemma {:induction false} SortBySorted<T>(s: seq<T>, key: T -> string)
    ensures Sorted(SortBy(s, key), key)
  {
    if s == [] {
    } else {
      SortBySorted(s[..|s| - 1], key);
      InsertKeepsSorted(SortBy(s[..|s| - 1], key), s[|s| - 1], key);
    }
  }

  /** The sort is stable: the first element with a name stays the first. */
  lemma {:induction false} SortByFirst<T>(s: seq<T>, key: T -> string, name: string)
    ensures FirstWith(SortBy(s, key), key, name) == FirstWith(s, key, name)
  {
    if s == [] {
    } else {
      var front, last := s[..|s| - 1], s[|s| - 1];
      SortByFirst(front, key, name);
      SortBySorted(front, key);
      InsertFirst(SortBy(front, key), last, key, name);
      assert s == front + [last] && [last][1..] == [];
      FirstWithAppend(front, [last], key, name);
    }
  }

  lemma {:induction false} DedupByStrict<T>(s: seq<T>, key: T -> string)
    requires Sorted(s, key)
    ensures StrictlySorted(DedupBy(s, key), key)
    ensures s != [] ==> DedupBy(s, key) != [] && key(DedupBy(s, key)[|DedupBy(s, key)| - 1]) == key(s[|s| - 1])
  {
    if s == [] {
    } else {
      var front, last := s[..|s| - 1], s[|s| - 1];
      DedupByStrict(front, key);
      var d := DedupBy(front, key);
      if d != [] && key(d[|d| - 1]) != key(last) {
        LessTotal(key(d[|d| - 1]), key(last));
        assert front != [] && key(front[|front| - 1]) == key(d[|d| - 1]);
        assert !Less(key(s[|s| - 1]), key(s[|s| - 2]));
        forall i | 0 <= i < |d| ensures Less(key(d[i]), key(last)) {
          if i < |d| - 1 { LessTransitive(key(d[i]), key(d[|d| - 1]), key(last)); }
        }
      }
    }
  }

  lemma {:induction false} DedupByFirst<T>(s: seq<T>, key: T -> string, name: string)
    ensures FirstWith(DedupBy(s, key), key, name) == FirstWith(s, key, name)
  {
    if s == [] {
    } else {
      var front, last := s[..|s| - 1], s[|s| - 1];
      DedupByFirst(front, key, name);
      var d := DedupBy(front, key);
      assert s == front + [last] && [last][1..] == [];
      FirstWithAppend(front, [last], key, name);
      FirstWithAppend(d, [last], key, name);
      if d != [] && key(d[|d| - 1]) == key(last) && key(last) == name {
        FirstWithIn(d, key, name);
      }
    }
  }

  /** The canonical list is strictly sorted by name. */
  lemma CanonicalStrict<T>(s: seq<T>, key: T -> string)
    ensures StrictlySorted(Canonical(s, key), key)
  {
    SortBySorted(s, key);
    DedupByStrict(SortBy(s, key), key);
  }

  /** It has for every name the first element of the list with that name. */
  lemma CanonicalFirst<T>(s: seq<T>, key: T -> string, name: string)
    ensures FirstWith(Canonical(s, key), key, name) == FirstWith(s, key, name)
  {
    SortByFirst(s, key, name);
    DedupByFirst(SortBy(s, key), key, name);
  }

  /** A strictly sorted list is determined by its first element of each name. */
  lemma {:induction false} StrictUnique<T>(a: seq<T>, b: seq<T>, key: T -> string)
    requires StrictlySorted(a, key) && StrictlySorted(b, key)
    requires SameFirsts(a, b, key)
    ensures a == b
  {
    if a == [] {
      HeadIsFirst(b, key);
    } else {
      assert FirstWith(a, key, key(a[0])) == Some(a[0]);
      HeadIsLeast(a, b, key);
      HeadIsLeast(b, a, key);
      LessTotal(key(a[0]), key(b[0]));
      assert a[0] == b[0];
      forall name ensures FirstWith(a[1..], key, name) == FirstWith(b[1..], key, name) {
        assert FirstWith(a, key, name) == FirstWith(b, key, name);
        if name == key(a[0]) {
          NotInTail(a, key);
          NotInTail(b, key);
        }
      }
      StrictUnique(a[1..], b[1..], key);
    }
  }

  lemma HeadIsFirst<T>(b: seq<T>, key: T -> string)
    ensures b != [] ==> FirstWith(b, key, key(b[0])) == Some(b[0])
  {}

  lemma HeadIsLeast<T>(a: seq<T>, b: seq<T>, key: T -> string)
    requires a != [] && StrictlySorted(b, key) && StrictlySorted(a, key)
    requires SameFirsts(a, b, key)
    ensures b != [] && !Less(key(a[0]), key(b[0]))
  {
    var name := key(a[0]);
    assert FirstWith(a, key, name).Some?;
    FirstWithIn(b, key, name);
    var i :| 0 <= i < |b| && key(b[i]) == name;
    LessTotal(key(b[0]), key(b[i]));
  }

  lemma NotInTail<T>(a: seq<T>, key: T -> string)
    requires a != [] && StrictlySorted(a, key)
    ensures FirstWith(a[1..], key, key(a[0])).None?
  {
    FirstWithIn(a[1..], key, key(a[0]));
    forall i | 0 <= i < |a[1..]| ensures key(a[1..][i]) != key(a[0]) {
      assert a[1..][i] == a[i + 1];
      LessTotal(key(a[0]), key(a[i + 1]));
    }
  }

  /** Two lists have the same canonical list exactly when they agree on the first element of
      every name. */
  lemma CanonicalIff<T>(a: seq<T>, b: seq<T>, key: T -> string)
    ensures Canonical(a, key) == Canonical(b, key)
        <==> SameFirsts(a, b, key)
  {
    hide FirstWith, Canonical, StrictlySorted;
    CanonicalStrict(a, key);
    CanonicalStrict(b, key);
    if SameFirsts(a, b, key) {
      forall name ensures FirstWith(Canonical(a, key), key, name) == FirstWith(Canonical(b, key), key, name) {
        CanonicalFirst(a, key, name);
        CanonicalFirst(b, key, name);
      }
      StrictUnique(Canonical(a, key), Canonical(b, key), key);
    }
    if Canonical(a, key) == Canonical(b, key) {
      forall name ensures FirstWith(a, key, name) == FirstWith(b, key, name) {
        CanonicalFirst(a, key, name);
        CanonicalFirst(b, key, name);
      }
    }
  }

  lemma CanonicalIdempotent<T>(s: seq<T>, key: T -> string)
    ensures Canonical(Canonical(s, key), key) == Canonical(s, key)
  {
    hide FirstWith, Canonical;
    forall name ensures FirstWith(Canonical(s, key), key, name) == FirstWith(s, key, name) {
      CanonicalFirst(s, key, name);
    }
    CanonicalIff(Canonical(s, key), s, key);
  }

  // String lists

  function Same(s: string): string { s }

  function TrimEach(values: seq<string>): seq<string> {
    if values == [] then [] else TrimEach(values[..|values| - 1]) + [Trim(values[|values| - 1])]
  }

  function DropEmpty(values: seq<string>): seq<string> {
    if values == [] then []
    else
      var last := values[|values| - 1];
      DropEmpty(values[..|values| - 1]) + if last != "" then [last] else []
  }

  function CanonicalStrings(values: seq<string>): seq<string> {
    Canonical(DropEmpty(TrimEach(values)), Same)
  }

  method SortStably<T>(values: seq<T>, key: T -> string) returns (sorted: seq<T>)
    ensures sorted == SortBy(values, key)
  {
    sorted := [];
    for i := 0 to |values|
      invariant sorted == SortBy(values[..i], key)
    {
      assert values[..i + 1][..i] == values[..i];
      sorted := InsertAfter(sorted, values[i], key);
    }
    assert values[..|values|] == values;
  }

  method DropRepeats<T>(values: seq<T>, key: T -> string) returns (kept: seq<T>)
    ensures kept == DedupBy(values, key)
  {
    kept := [];
    for i := 0 to |values|
      invariant kept == DedupBy(values[..i], key)
    {
      assert values[..i + 1][..i] == values[..i];
      if kept != [] && key(kept[|kept| - 1]) == key(values[i]) { continue; }
      kept := kept + [values[i]];
    }
    assert values[..|values|] == values;
  }

  method DedupeAndSortStrings(input: seq<string>) returns (values: seq<string>)
    ensures values == CanonicalStrings(input)
  {
    var trimmed: seq<string> := [];
    for i := 0 to |input|
      invariant trimmed == TrimEach(input[..i])
    {
      assert input[..i + 1][..i] == input[..i];
      trimmed := trimmed + [Trim(input[i])];
    }
    assert input[..|input|] == input;
    values := [];
    for i := 0 to |trimmed|
      invariant values == DropEmpty(trimmed[..i])
    {
      assert trimmed[..i + 1][..i] == trimmed[..i];
      if trimmed[i] != "" { values := values + [trimmed[i]]; }
    }
    assert trimmed[..|trimmed|] == trimmed;
    values := SortStably(values, Same);
    values := DropRepeats(values, Same);
  }

  /** The names a list stands for: its trimmed values, without the empty one. */
  ghost predicate Names(values: seq<string>, name: string) {
    name != "" && exists i :: 0 <= i < |values| && Trim(values[i]) == name
  }

  lemma NamesOfLast(values: seq<string>, name: string)
    requires values != []
    ensures var front, last := values[..|values| - 1], values[|values| - 1];
            Names(values, name) <==> Names(front, name) || (name != "" && Trim(last) == name)
  {
    hide Trim;
    var front, last := values[..|values| - 1], values[|values| - 1];
    if Names(values, name) && Trim(last) != name {
      var i :| 0 <= i < |values| && Trim(values[i]) == name;
      assert front[i] == values[i];
    }
    if Names(front, name) {
      var i :| 0 <= i < |front| && Trim(front[i]) == name;
      assert values[i] == front[i];
    }
  }

  lemma {:induction false} KeptNames(values: seq<string>, name: string)
    ensures name in DropEmpty(TrimEach(values)) <==> Names(values, name)
  {
    if values == [] {
    } else {
      hide Trim, Names;
      KeptNames(values[..|values| - 1], name);
      NamesOfLast(values, name);
      assert TrimEach(values)[..|TrimEach(values)| - 1] == TrimEach(values[..|values| - 1]);
    }
  }

  lemma {:induction false} FirstOfStrings(s: seq<string>, name: string)
    ensures FirstWith(s, Same, name) == if name in s then Some(name) else None
  {
    if s == [] {
    } else {
      FirstOfStrings(s[1..], name);
      assert s == [s[0]] + s[1..];
    }
  }

  /** The canonical list of strings is strictly sorted and holds exactly the trimmed non-empty
      values. */
  lemma StringsMeaning(values: seq<string>)
    ensures StrictlySorted(CanonicalStrings(values), Same)
    ensures forall name :: name in CanonicalStrings(values) <==> Names(values, name)
  {
    var kept := DropEmpty(TrimEach(values));
    CanonicalStrict(kept, Same);
    forall name ensures name in CanonicalStrings(values) <==> Names(values, name) {
      CanonicalFirst(kept, Same, name);
      FirstOfStrings(kept, name);
      FirstOfStrings(CanonicalStrings(values), name);
      KeptNames(values, name);
    }
  }

  /** Two lists normalize alike exactly when they have the same trimmed non-empty values, in
      whatever order and however often. */
  lemma StringsIff(a: seq<string>, b: seq<string>)
    ensures CanonicalStrings(a) == CanonicalStrings(b) <==> forall name :: Names(a, name) <==> Names(b, name)
  {
    StringsMeaning(a);
    StringsMeaning(b);
    if forall name :: Names(a, name) <==> Names(b, name) {
      forall name
        ensures FirstWith(CanonicalStrings(a), Same, name) == FirstWith(CanonicalStrings(b), Same, name)
      {
        FirstOfStrings(CanonicalStrings(a), name);
        FirstOfStrings(CanonicalStrings(b), name);
        assert Names(a, name) <==> Names(b, name);
      }
      StrictUnique(CanonicalStrings(a), CanonicalStrings(b), Same);
    } else {
      var name :| Names(a, name) != Names(b, name);
      assert name in CanonicalStrings(a) <==> Names(a, name);
      assert name in CanonicalStrings(b) <==> Names(b, name);
    }
  }

  lemma StringsIdempotent(values: seq<string>)
    ensures CanonicalStrings(CanonicalStrings(values)) == CanonicalStrings(values)
  {
    var once := CanonicalStrings(values);
    StringsMeaning(values);
    forall name ensures Names(once, name) <==> Names(values, name) {
      forall i | 0 <= i < |once| ensures Trim(once[i]) == once[i] && once[i] != "" {
        assert Names(values, once[i]);
        var k :| 0 <= k < |values| && Trim(values[k]) == once[i];
        StripIdempotent(values[k], IsWhitespace);
      }
      if Names(values, name) {
        assert name in once;
        var i :| 0 <= i < |once| && once[i] == name;
        assert Trim(once[i]) == name;
      }
      if Names(once, name) {
        var i :| 0 <= i < |once| && Trim(once[i]) == name;
        assert once[i] == name;
        assert name in once;
      }
    }
    StringsIff(once, values);
  }
}
