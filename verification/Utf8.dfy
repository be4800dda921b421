/** The strings of the model: byte sequences that `String::from_utf8` accepts. */
module Utf8 {
  import opened Errors
  import opened Bytes

  /** A `String`, as its UTF-8 bytes. */
  type Str = s: seq<byte> | ValidUtf8(s) witness []

  /** A continuation byte, UTF8-tail in section 4 of RFC 3629. */
  predicate IsTail(b: byte) {
    0x80 <= b <= 0xbf
  }

  /** The length of the well-formed character `s` starts with (section 4 of RFC 3629), 0 if there is none. */
  function HeadLength(s: seq<byte>): (n: nat)
    ensures n <= |s|
  {
    if |s| >= 1 && s[0] <= 0x7f then 1
    else if |s| >= 2 && 0xc2 <= s[0] <= 0xdf && IsTail(s[1]) then 2
    else if |s| >= 3 && IsTail(s[1]) && IsTail(s[2])
            && ((s[0] == 0xe0 && 0xa0 <= s[1]) || 0xe1 <= s[0] <= 0xec
                || (s[0] == 0xed && s[1] <= 0x9f) || 0xee <= s[0] <= 0xef) then 3
    else if |s| >= 4 && IsTail(s[1]) && IsTail(s[2]) && IsTail(s[3])
            && ((s[0] == 0xf0 && 0x90 <= s[1]) || 0xf1 <= s[0] <= 0xf3
                || (s[0] == 0xf4 && s[1] <= 0x8f)) then 4
    else 0
  }

  /** The bytes `String::from_utf8` accepts. */
  predicate ValidUtf8(s: seq<byte>) {
    s == [] || (HeadLength(s) > 0 && ValidUtf8(s[HeadLength(s)..]))
  }

  /** A Unicode scalar value: a code point that is not a surrogate. */
  predicate IsScalar(c: int) {
    0 <= c <= 0xd7ff || 0xe000 <= c <= 0x10ffff
  }

  /** The bit layout of section 3 of RFC 3629. */
  function EncodeScalar(c: int): (bs: seq<byte>)
    requires IsScalar(c)
    ensures 1 <= |bs| <= 4
  {
    if c < 0x80 then [c]
    else if c < 0x800 then [0xc0 + c / 0x40, 0x80 + c % 0x40]
    else if c < 0x1_0000 then [0xe0 + c / 0x1000, 0x80 + c / 0x40 % 0x40, 0x80 + c % 0x40]
    else [0xf0 + c / 0x4_0000, 0x80 + c / 0x1000 % 0x40, 0x80 + c / 0x40 % 0x40, 0x80 + c % 0x40]
  }

  function EncodeScalars(cs: seq<int>): seq<byte>
    requires forall c :: c in cs ==> IsScalar(c)
  {
    if cs == [] then [] else EncodeScalar(cs[0]) + EncodeScalars(cs[1..])
  }

  lemma HeadOfEncodedScalar(c: int, t: seq<byte>)
    requires IsScalar(c)
    ensures HeadLength(EncodeScalar(c) + t) == |EncodeScalar(c)|
  {
  }

  /** The six-bit groups of section 3 of RFC 3629 can be taken apart again. */
  lemma SixBitGroups(a: int, b: int, c: int)
    requires 0 <= b < 0x40 && 0 <= c < 0x40
    ensures var x := a * 0x1000 + b * 0x40 + c; x / 0x1000 == a && x / 0x40 % 0x40 == b && x % 0x40 == c
  {
    assert (a * 0x1000 + b * 0x40 + c) / 0x40 == a * 0x40 + b;
  }

  /** Every well-formed head is the encoding of one scalar value. */
  lemma ScalarOfHead(s: seq<byte>) returns (c: int)
    requires HeadLength(s) > 0
    ensures IsScalar(c) && EncodeScalar(c) == s[..HeadLength(s)]
  {
    var n := HeadLength(s);
    var b0: int := s[0];
    if n == 1 {
      return b0;
    }
    var b1: int := s[1] - 0x80;
    if n == 2 {
      return (b0 - 0xc0) * 0x40 + b1;
    }
    var b2: int := s[2] - 0x80;
    if n == 3 {
      SixBitGroups(b0 - 0xe0, b1, b2);
      return (b0 - 0xe0) * 0x1000 + b1 * 0x40 + b2;
    }
    var b3: int := s[3] - 0x80;
    var high := (b0 - 0xf0) * 0x40 + b1;
    SixBitGroups(high, b2, b3);
    c := high * 0x1000 + b2 * 0x40 + b3;
    assert c / 0x4_0000 == high / 0x40 == b0 - 0xf0;
    assert high % 0x40 == b1;
    assert EncodeScalar(c) == [s[0], s[1], s[2], s[3]];
  }

  lemma {:induction false} EncodedScalarsAreValid(cs: seq<int>)
    requires forall c :: c in cs ==> IsScalar(c)
    ensures ValidUtf8(EncodeScalars(cs))
  {
    if cs != [] {
      var head, tail := EncodeScalar(cs[0]), EncodeScalars(cs[1..]);
      HeadOfEncodedScalar(cs[0], tail);
      assert (head + tail)[|head|..] == tail;
      EncodedScalarsAreValid(cs[1..]);
    }
  }

  lemma {:induction false} ValidDecodes(s: seq<byte>) returns (cs: seq<int>)
    requires ValidUtf8(s)
    ensures (forall c :: c in cs ==> IsScalar(c)) && EncodeScalars(cs) == s
  {
    if s == [] {
      cs := [];
    } else {
      var n := HeadLength(s);
      var c := ScalarOfHead(s);
      var rest := ValidDecodes(s[n..]);
      cs := [c] + rest;
      assert cs[1..] == rest;
      assert s == s[..n] + s[n..];
    }
  }

  /** The grammar of section 4 accepts exactly the encodings of section 3 of RFC 3629. */
  lemma ValidUtf8IsEncodedScalars(s: seq<byte>)
    ensures ValidUtf8(s) <==> exists cs: seq<int> :: (forall c :: c in cs ==> IsScalar(c)) && EncodeScalars(cs) == s
  {
    if ValidUtf8(s) {
      var cs := ValidDecodes(s);
    }
    if cs: seq<int> :| (forall c :: c in cs ==> IsScalar(c)) && EncodeScalars(cs) == s {
      EncodedScalarsAreValid(cs);
    }
  }

  /** Hexadecimal digits are ASCII, hence always a string. */
  lemma {:induction false} HexIsUtf8(s: seq<byte>)
    requires AllHex(s)
    ensures ValidUtf8(s)
  {
    if s != [] {
      assert IsHexDigit(s[0]);
      HexIsUtf8(s[1..]);
    }
  }
}
