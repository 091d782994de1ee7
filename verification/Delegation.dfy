/** The delegation styles of a definition and their canonical list. */
module Delegation {
  import opened Text
  import opened CanonicalLists

  datatype DelegationKind = Call | Send | Spawn | Unknown(value: string)

  function AsStr(k: DelegationKind): string {
    match k
    case Call => "call"
    case Send => "send"
    case Spawn => "spawn"
    case Unknown(value) => value
  }

  function KnownKind(name: string): Option<DelegationKind> {
    if name == "call" then Some(Call)
    else if name == "send" then Some(Send)
    else if name == "spawn" then Some(Spawn)
    else None
  }

  /** What a value in a file stands for: case and surrounding blanks do not matter. */
  function FromRaw(raw: string): DelegationKind {
    var known := KnownKind(AsciiLower(Trim(raw)));
    if known.Some? then known.value else Unknown(Trim(raw))
  }

  lemma LowerFixed(s: string)
    requires forall i :: 0 <= i < |s| ==> 'a' <= s[i] <= 'z'
    ensures AsciiLower(s) == s
  {}

  lemma CleanEnds(s: string, ws: char -> bool)
    requires s != "" && !ws(s[0]) && !ws(s[|s| - 1])
    ensures Strip(s, ws) == s
  {}

  lemma LetterNotBlank(c: char)
    requires 'a' <= c <= 'z'
    ensures !IsWhitespace(c)
  {}

  lemma LettersAreTrimmed(s: string)
    requires s != "" && forall i :: 0 <= i < |s| ==> 'a' <= s[i] <= 'z'
    ensures Trim(s) == s && AsciiLower(s) == s
  {
    hide AsciiLower, Strip, IsWhitespace;
    LowerFixed(s);
    LetterNotBlank(s[0]);
    LetterNotBlank(s[|s| - 1]);
    CleanEnds(s, IsWhitespace);
  }

  lemma NamesAreLetters(k: DelegationKind)
    requires !k.Unknown?
    ensures forall i :: 0 <= i < |AsStr(k)| ==> 'a' <= AsStr(k)[i] <= 'z'
    ensures AsStr(k) != ""
  {}

  lemma NamesAreKnown(k: DelegationKind)
    requires !k.Unknown?
    ensures KnownKind(AsStr(k)) == Some(k)
  {}

  lemma KnownRoundTrip(k: DelegationKind)
    requires !k.Unknown?
    ensures FromRaw(AsStr(k)) == k
  {
    hide AsciiLower, Trim, AsStr, KnownKind;
    NamesAreLetters(k);
    LettersAreTrimmed(AsStr(k));
    NamesAreKnown(k);
  }

  /** A kind that was read is written as a string that reads as the same kind. */
  lemma ReadBack(raw: string)
    ensures FromRaw(AsStr(FromRaw(raw))) == FromRaw(raw)
  {
    hide AsciiLower, Trim;
    if FromRaw(raw).Unknown? {
      assert Trim(Trim(raw)) == Trim(raw) by { TrimTwice(raw); }
    } else {
      KnownRoundTrip(FromRaw(raw));
    }
  }

  lemma TrimTwice(raw: string)
    ensures Trim(Trim(raw)) == Trim(raw)
  {
    StripIdempotent(raw, IsWhitespace);
  }

  // Canonical lists

  /** No two different kinds of the list are written alike. */
  ghost predicate Faithful(kinds: seq<DelegationKind>) {
    forall a, b :: a in kinds && b in kinds && AsStr(a) == AsStr(b) ==> a == b
  }

  function FromRawAll(raws: seq<string>): seq<DelegationKind> {
    if raws == [] then [] else [FromRaw(raws[0])] + FromRawAll(raws[1..])
  }

  lemma {:induction false} ReadBackAll(raws: seq<string>, k: DelegationKind)
    requires k in FromRawAll(raws)
    ensures FromRaw(AsStr(k)) == k
  {
    hide FromRaw;
    if k == FromRaw(raws[0]) { ReadBack(raws[0]); } else { ReadBackAll(raws[1..], k); }
  }

  /** Every list that was read is faithful. */
  lemma ReadIsFaithful(raws: seq<string>)
    ensures Faithful(FromRawAll(raws))
  {
    hide FromRaw, AsStr;
    var kinds := FromRawAll(raws);
    forall a, b | a in kinds && b in kinds && AsStr(a) == AsStr(b) ensures a == b {
      ReadBackAll(raws, a);
      ReadBackAll(raws, b);
    }
  }

  function CanonicalKinds(kinds: seq<DelegationKind>): seq<DelegationKind> { Canonical(kinds, AsStr) }

  method DedupeAndSortDelegation(kinds: seq<DelegationKind>) returns (r: seq<DelegationKind>)
    ensures r == CanonicalKinds(kinds)
  {
    r := SortStably(kinds, AsStr);
    r := DropRepeats(r, AsStr);
  }

  predicate AllKnown(kinds: seq<DelegationKind>) {
    forall i :: 0 <= i < |kinds| ==> !kinds[i].Unknown?
  }

  /** Nothing is invented: the canonical list holds elements of the list. */
  lemma KindsKept(kinds: seq<DelegationKind>, k: DelegationKind)
    ensures k in CanonicalKinds(kinds) <==> FirstWith(kinds, AsStr, AsStr(k)) == Some(k)
  {
    hide AsStr, FirstWith, Canonical;
    var c := CanonicalKinds(kinds);
    CanonicalFirst(kinds, AsStr, AsStr(k));
    CanonicalStrict(kinds, AsStr);
    FirstWithIn(c, AsStr, AsStr(k));
    if k in c {
      var i :| 0 <= i < |c| && c[i] == k;
      var f := FirstWith(c, AsStr, AsStr(k)).value;
      var j :| 0 <= j < |c| && c[j] == f;
      LessTotal(AsStr(c[i]), AsStr(c[j]));
      LessTotal(AsStr(c[j]), AsStr(c[i]));
    }
  }

  /** In a faithful list the first of a name is the only one of that name. */
  lemma FaithfulFirst(kinds: seq<DelegationKind>, k: DelegationKind)
    requires Faithful(kinds)
    ensures FirstWith(kinds, AsStr, AsStr(k)) == Some(k) <==> k in kinds
  {
    hide AsStr, FirstWith;
    FirstWithIn(kinds, AsStr, AsStr(k));
  }

  /** For lists that are written faithfully, the canonical list depends exactly on the set of
      kinds: order and repetition do not matter. */
  lemma KindsOrderFree(a: seq<DelegationKind>, b: seq<DelegationKind>)
    requires Faithful(a) && Faithful(b)
    ensures CanonicalKinds(a) == CanonicalKinds(b) <==> forall k :: k in a <==> k in b
  {
    hide AsStr, FirstWith, Canonical;
    CanonicalIff(a, b, AsStr);
    if forall k :: k in a <==> k in b {
      forall name ensures FirstWith(a, AsStr, name) == FirstWith(b, AsStr, name) {
        FirstWithIn(a, AsStr, name);
        FirstWithIn(b, AsStr, name);
        SameFirst(a, b, name);
      }
    }
    if SameFirsts(a, b, AsStr) {
      forall k ensures k in a <==> k in b {
        FaithfulFirst(a, k);
        FaithfulFirst(b, k);
        assert FirstWith(a, AsStr, AsStr(k)) == FirstWith(b, AsStr, AsStr(k));
      }
    }
  }

  lemma SameFirst(a: seq<DelegationKind>, b: seq<DelegationKind>, name: string)
    requires Faithful(a) && Faithful(b) && forall k :: k in a <==> k in b
    ensures FirstWith(a, AsStr, name) == FirstWith(b, AsStr, name)
  {
    hide AsStr, FirstWith;
    FirstWithIn(a, AsStr, name);
    FirstWithIn(b, AsStr, name);
    var fa, fb := FirstWith(a, AsStr, name), FirstWith(b, AsStr, name);
    if fa.Some? {
      assert fa.value in b;
      FaithfulFirst(b, fa.value);
    } else if fb.Some? {
      assert fb.value in a;
      FaithfulFirst(a, fb.value);
    }
  }

  /** The list with its element at `i` moved to the front. */
  function Fronted(kinds: seq<DelegationKind>, i: nat): (r: seq<DelegationKind>)
    requires i < |kinds|
    ensures multiset(r) == multiset(kinds)
  {
    assert kinds == kinds[..i] + [kinds[i]] + kinds[i + 1..];
    [kinds[i]] + kinds[..i] + kinds[i + 1..]
  }

  /** Every reordering of the list has the same canonical list. */
  ghost predicate ForgetsOrder(kinds: seq<DelegationKind>) {
    forall b :: multiset(b) == multiset(kinds) ==> CanonicalKinds(b) == CanonicalKinds(kinds)
  }

  lemma FrontedFirst(kinds: seq<DelegationKind>, i: nat)
    requires i < |kinds| && ForgetsOrder(kinds)
    ensures FirstWith(kinds, AsStr, AsStr(kinds[i])) == Some(kinds[i])
  {
    hide AsStr, Canonical;
    var b := Fronted(kinds, i);
    assert FirstWith(b, AsStr, AsStr(kinds[i])) == Some(kinds[i]);
    assert CanonicalKinds(b) == CanonicalKinds(kinds);
    CanonicalIff(b, kinds, AsStr);
  }

  /** Order does not matter exactly for the lists that are written faithfully. */
  lemma OrderFreeIff(kinds: seq<DelegationKind>)
    ensures ForgetsOrder(kinds) <==> Faithful(kinds)
  {
    hide AsStr, CanonicalKinds, FirstWith;
    if Faithful(kinds) {
      forall b | multiset(b) == multiset(kinds) ensures CanonicalKinds(b) == CanonicalKinds(kinds) {
        forall k ensures k in b <==> k in kinds { assert k in multiset(b) <==> k in multiset(kinds); }
        KindsOrderFree(b, kinds);
      }
    }
    if ForgetsOrder(kinds) {
      forall x, y | x in kinds && y in kinds && AsStr(x) == AsStr(y) ensures x == y {
        var i, j :| 0 <= i < |kinds| && 0 <= j < |kinds| && kinds[i] == x && kinds[j] == y;
        FrontedFirst(kinds, i);
        FrontedFirst(kinds, j);
      }
    }
  }

  /** Of two kinds written alike the first wins, so a list that no file can contain has a
      normal form that depends on its order, and may lose an unknown kind to it. */
  lemma UnfaithfulOrderMatters()
    ensures var (a, b) := ([Call, Unknown("call")], [Unknown("call"), Call]);
            && (forall k :: k in a <==> k in b) && CanonicalKinds(a) != CanonicalKinds(b)
            && AllKnown(CanonicalKinds(a)) && !AllKnown(a)
  {
    var a, b := [Call, Unknown("call")], [Unknown("call"), Call];
    KindsKept(a, Call);
    KindsKept(b, Call);
    KindsKept(a, Unknown("call"));
    var c := CanonicalKinds(a);
    forall i | 0 <= i < |c| ensures c[i] == Call {
      KindsKept(a, c[i]);
      FirstWithIn(a, AsStr, AsStr(c[i]));
    }
    assert a[1].Unknown?;
  }

  /** The canonical list has only known kinds exactly when every first of a name is known;
      for a faithful list, exactly when the list itself has only known kinds. */
  lemma KnownKept(kinds: seq<DelegationKind>)
    ensures AllKnown(kinds) ==> AllKnown(CanonicalKinds(kinds))
    ensures Faithful(kinds) ==> (AllKnown(CanonicalKinds(kinds)) <==> AllKnown(kinds))
  {
    hide AsStr, FirstWith, CanonicalKinds, Faithful;
    var c := CanonicalKinds(kinds);
    if AllKnown(kinds) {
      forall i | 0 <= i < |c| ensures !c[i].Unknown? {
        KindsKept(kinds, c[i]);
        FirstWithIn(kinds, AsStr, AsStr(c[i]));
      }
    }
    if Faithful(kinds) && AllKnown(c) {
      forall i | 0 <= i < |kinds| ensures !kinds[i].Unknown? {
        FaithfulFirst(kinds, kinds[i]);
        KindsKept(kinds, kinds[i]);
        var j :| 0 <= j < |c| && c[j] == kinds[i];
      }
    }
  }
}
