/** Decoding UTF-8 that may be malformed, as section 4.1.1 of the WHATWG Encoding standard does:
    what begins a character and breaks off is replaced, and decoding goes on behind it. */
module Utf8Lossy {
  import opened Utf8
  import opened Utf8Text

  /** The length of the characters that begin with `b`, or 0. */
  function Needed(b: byte): nat {
    if 0xC2 <= b <= 0xDF then 2 else if 0xE0 <= b <= 0xEF then 3 else if 0xF0 <= b <= 0xF4 then 4 else 0
  }

  predicate Second(a: byte, b: byte) {
    && Continuation(b)
    && (a == 0xE0 ==> b >= 0xA0) && (a == 0xED ==> b <= 0x9F)
    && (a == 0xF0 ==> b >= 0x90) && (a == 0xF4 ==> b <= 0x8F)
  }

  /** How many bytes at the head of `s` could begin a longer character. */
  function Begun(s: Bytes): (n: nat)
    ensures n <= |s| && n <= 3
  {
    if s == [] || Needed(s[0]) == 0 then 0
    else if |s| == 1 || Needed(s[0]) == 2 || !Second(s[0], s[1]) then 1
    else if |s| == 2 || Needed(s[0]) == 3 || !Continuation(s[2]) then 2
    else 3
  }

  /** More bytes may make a character of all that is left. */
  predicate Waits(s: Bytes) { s == [] || (Head(s) == 0 && Begun(s) == |s|) }

  /** How many bytes the next character or replacement stands for. */
  function Unit(s: Bytes): (n: nat)
    requires !Waits(s)
    ensures 0 < n <= |s|
  {
    if Head(s) > 0 then Head(s) else if Begun(s) > 0 then Begun(s) else 1
  }

  function UnitText(s: Bytes): char
    requires !Waits(s)
  {
    if Head(s) > 0 then Scalar(s[..Head(s)]) else '\U{FFFD}'
  }

  /** The text decoded so far. */
  function LossyText(s: Bytes): string {
    if Waits(s) then "" else [UnitText(s)] + LossyText(s[Unit(s)..])
  }

  /** How many bytes were decoded; the others are kept for the next chunk. */
  function Used(s: Bytes): (n: nat)
    ensures n <= |s|
  {
    if Waits(s) then 0 else Unit(s) + Used(s[Unit(s)..])
  }

  /** What was decoded once stays. */
  lemma UnitAppend(a: Bytes, x: Bytes)
    requires !Waits(a)
    ensures !Waits(a + x) && Unit(a + x) == Unit(a) && UnitText(a + x) == UnitText(a)
  {
    var s := a + x;
    if Head(a) > 0 {
      HeadAppend(a, x);
      assert s[..Head(a)] == a[..Head(a)];
    } else {
      BegunAppend(a, x);
    }
  }

  /** A byte that breaks a character off breaks it off whatever follows. */
  lemma BegunAppend(a: Bytes, x: Bytes)
    requires a != [] && Head(a) == 0 && Begun(a) < |a|
    ensures Head(a + x) == 0 && Begun(a + x) == Begun(a)
  {}

  /** Decoding what was left over together with what comes next continues the text. */
  lemma {:induction false} LossyGrows(a: Bytes, x: Bytes)
    ensures var rest := a[Used(a)..] + x;
            && LossyText(a + x) == LossyText(a) + LossyText(rest)
            && (a + x)[Used(a + x)..] == rest[Used(rest)..]
    decreases |a|
  {
    if Waits(a) {
      assert a[0..] == a;
      assert [] + LossyText(a + x) == LossyText(a + x);
    } else {
      LossyGrows(a[Unit(a)..], x);
      LossyStep(a, x);
    }
  }

  lemma LossyStep(a: Bytes, x: Bytes)
    requires !Waits(a)
    requires var tail := a[Unit(a)..];
             var rest := tail[Used(tail)..] + x;
             && LossyText(tail + x) == LossyText(tail) + LossyText(rest)
             && (tail + x)[Used(tail + x)..] == rest[Used(rest)..]
    ensures var rest := a[Used(a)..] + x;
            && LossyText(a + x) == LossyText(a) + LossyText(rest)
            && (a + x)[Used(a + x)..] == rest[Used(rest)..]
  {
    hide Waits, Unit, UnitText, LossyText, Used;
    UnitAppend(a, x);
    LossyFirst(a);
    LossyFirst(a + x);
    var n := Unit(a);
    assert (a + x)[n..] == a[n..] + x;
    var rest := a[Used(a)..] + x;
    assert [UnitText(a)] + (LossyText(a[n..]) + LossyText(rest)) == [UnitText(a)] + LossyText(a[n..]) + LossyText(rest);
  }

  lemma LossyFirst(s: Bytes)
    requires !Waits(s)
    ensures var rest := s[Unit(s)..];
            LossyText(s) == [UnitText(s)] + LossyText(rest) && s[Used(s)..] == rest[Used(rest)..]
  {
    hide Waits, Unit, UnitText;
  }

  /** Nothing is replaced in well-formed text. */
  lemma {:induction false} LossyOfValid(s: Bytes)
    requires Valid(s)
    ensures LossyText(s) == Decode(s) && Used(s) == |s|
  {
    hide Head;
    if s == [] {
    } else {
      LossyOfValid(s[Head(s)..]);
    }
  }

  // What is replaced

  /** More bytes would make one well-formed character of these. */
  ghost predicate Extends(p: Bytes) { exists x: Bytes :: x != [] && Head(p + x) == |p + x| }

  /** Bytes that complete what a character begins with. */
  function Completion(p: Bytes): Bytes
    requires 1 <= |p| <= 3
  {
    var second: byte := if p[0] == 0xE0 then 0xA0 else if p[0] == 0xF0 then 0x90 else 0x80;
    match Needed(p[0])
    case 2 => [second]
    case 3 => if |p| == 1 then [second, 0x80] else [0x80]
    case _ => if |p| == 1 then [second, 0x80, 0x80] else if |p| == 2 then [0x80, 0x80] else [0x80]
  }

  lemma Completes(s: Bytes, n: nat)
    requires Head(s) == 0 && 0 < n <= Begun(s)
    ensures var p := s[..n]; var x := Completion(p); x != [] && Head(p + x) == |p + x|
  {
    var p := s[..n];
    assert forall i :: 0 <= i < n ==> p[i] == s[i];
  }

  lemma CompletedHead(p: Bytes, x: Bytes)
    requires p != [] && x != [] && Head(p + x) == |p + x|
    ensures |p| < Needed(p[0]) && (|p| >= 2 ==> Second(p[0], p[1])) && (|p| >= 3 ==> Continuation(p[2]))
  {
    var s := p + x;
    assert forall i :: 0 <= i < |p| ==> s[i] == p[i];
  }

  /** What is replaced by one character, or waits for the next chunk, is the longest piece that more
      bytes could have completed: "the maximal subpart" of section 3.9 of the Unicode Standard. */
  lemma BegunMeaning(s: Bytes, n: nat)
    requires Head(s) == 0 && 0 < n <= |s|
    ensures Extends(s[..n]) <==> n <= Begun(s)
  {
    var p := s[..n];
    if n <= Begun(s) {
      Completes(s, n);
      assert Extends(p);
    }
    if Extends(p) {
      var x: Bytes :| x != [] && Head(p + x) == |p + x|;
      CompletedHead(p, x);
      assert forall i :: 0 <= i < n ==> p[i] == s[i];
      hide Head;
    }
  }
}
