/** Decoding against the encoding it reads (section 3 of RFC 3629). */
module Utf8Encoding {
  import opened Utf8
  import opened Utf8Text

  function EncodeChar(c: char): Bytes {
    var n := c as int;
    if n < 0x80 then [n as byte]
    else if n < 0x800 then [(0xC0 + n / 0x40) as byte, (0x80 + n % 0x40) as byte]
    else if n < 0x1_0000 then
      [(0xE0 + n / 0x1000) as byte, (0x80 + n / 0x40 % 0x40) as byte, (0x80 + n % 0x40) as byte]
    else
      [(0xF0 + n / 0x4_0000) as byte, (0x80 + n / 0x1000 % 0x40) as byte,
       (0x80 + n / 0x40 % 0x40) as byte, (0x80 + n % 0x40) as byte]
  }

  function Encode(s: string): Bytes {
    if s == "" then [] else EncodeChar(s[0]) + Encode(s[1..])
  }

  lemma Digits(n: nat)
    ensures n / 0x40 / 0x40 == n / 0x1000 && n / 0x1000 / 0x40 == n / 0x4_0000
    ensures n == n / 0x40 * 0x40 + n % 0x40
    ensures n / 0x40 == n / 0x1000 * 0x40 + n / 0x40 % 0x40
    ensures n / 0x1000 == n / 0x4_0000 * 0x40 + n / 0x1000 % 0x40
  {}

  /** The bytes of a character are one well-formed character. */
  lemma EncodedHead(c: char, rest: Bytes)
    ensures Head(EncodeChar(c) + rest) == |EncodeChar(c)|
  {
    var n := c as int;
    var b := EncodeChar(c) + rest;
    assert forall i :: 0 <= i < |EncodeChar(c)| ==> b[i] == EncodeChar(c)[i];
    if 0x800 <= n < 0x1_0000 { ThreeHead(c); }
    if n >= 0x1_0000 { FourHead(c); }
    hide EncodeChar;
    HeadAppend(EncodeChar(c), rest);
  }

  lemma ThreeHead(c: char)
    requires 0x800 <= c as int < 0x1_0000
    ensures Head(EncodeChar(c)) == 3
  {
    Digits(c as int);
  }

  lemma FourHead(c: char)
    requires c as int >= 0x1_0000
    ensures Head(EncodeChar(c)) == 4
  {
    Digits(c as int);
  }

  /** They read as that character. */
  lemma EncodedChar(c: char)
    ensures Head(EncodeChar(c)) > 0 && Scalar(EncodeChar(c)) == c
  {
    EncodedHead(c, []);
    assert EncodeChar(c) + [] == EncodeChar(c);
    Digits(c as int);
    hide Head;
  }

  /** The bytes of a character that was read are those that it was read from. */
  lemma EncodedScalar(s: Bytes)
    requires Head(s) > 0
    ensures EncodeChar(Scalar(s)) == s[..Head(s)]
  {
    var h := Head(s);
    if h == 3 { ThreeScalar(s); }
    else if h == 4 { FourScalar(s); }
    else if h == 2 { TwoScalar(s); }
  }

  lemma TwoScalar(s: Bytes)
    requires Head(s) == 2
    ensures EncodeChar(Scalar(s)) == s[..2]
  {
    SplitTwo(s[0] as int - 0xC0, s[1] as int - 0x80);
  }

  lemma ThreeScalar(s: Bytes)
    requires Head(s) == 3
    ensures EncodeChar(Scalar(s)) == s[..3]
  {
    SplitThree(s[0] as int - 0xE0, s[1] as int - 0x80, s[2] as int - 0x80);
  }

  lemma FourScalar(s: Bytes)
    requires Head(s) == 4
    ensures EncodeChar(Scalar(s)) == s[..4]
  {
    SplitFour(s[0] as int - 0xF0, s[1] as int - 0x80, s[2] as int - 0x80, s[3] as int - 0x80);
  }

  lemma SplitTwo(a: nat, d: nat)
    requires d < 0x40
    ensures (a * 0x40 + d) / 0x40 == a && (a * 0x40 + d) % 0x40 == d
  {}

  lemma SplitThree(a: nat, b: nat, d: nat)
    requires b < 0x40 && d < 0x40
    ensures var n := a * 0x1000 + b * 0x40 + d;
            n / 0x1000 == a && n / 0x40 % 0x40 == b && n % 0x40 == d
  {
    Digits(a * 0x1000 + b * 0x40 + d);
    SplitTwo(a * 0x40 + b, d);
    SplitTwo(a, b);
  }

  lemma SplitFour(a: nat, b: nat, e: nat, d: nat)
    requires b < 0x40 && e < 0x40 && d < 0x40
    ensures var n := a * 0x4_0000 + b * 0x1000 + e * 0x40 + d;
            n / 0x4_0000 == a && n / 0x1000 % 0x40 == b && n / 0x40 % 0x40 == e && n % 0x40 == d
  {
    Digits(a * 0x4_0000 + b * 0x1000 + e * 0x40 + d);
    SplitTwo(a * 0x1000 + b * 0x40 + e, d);
    SplitThree(a, b, e);
  }

  /** What was encoded reads back as it was. */
  lemma {:induction false} DecodeEncode(s: string)
    ensures Valid(Encode(s)) && Decode(Encode(s)) == s
  {
    hide EncodeChar, Head, Scalar;
    if s != "" {
      DecodeEncode(s[1..]);
      EncodedHead(s[0], Encode(s[1..]));
      EncodedChar(s[0]);
      assert Encode(s)[..|EncodeChar(s[0])|] == EncodeChar(s[0]);
      assert Encode(s)[|EncodeChar(s[0])|..] == Encode(s[1..]);
    }
  }

  /** What was decoded is written back as it was. */
  lemma {:induction false} EncodeDecode(b: Bytes)
    requires Valid(b)
    ensures Encode(Decode(b)) == b
  {
    hide EncodeChar, Head, Scalar;
    if b != [] {
      var h := Head(b);
      EncodeDecode(b[h..]);
      HeadOfPrefix(b, h);
      EncodedScalar(b[..h]);
      assert Decode(b)[1..] == Decode(b[h..]);
    }
  }
}
