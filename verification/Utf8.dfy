/** Well-formed UTF-8, as section 4 of RFC 3629 defines it and Python's strict decoder accepts
    it. */
module Utf8 {
  import opened Crc

  predicate IsTail(s: seq<byte>, i: nat) {
    i < |s| && 0x80 <= s[i] <= 0xbf
  }

  /** The length of the character that the bytes begin with, or 0 if they begin with none. */
  function CharacterLength(s: seq<byte>): (n: nat)
    ensures n <= |s|
  {
    if s == [] then 0
    else if s[0] <= 0x7f then 1
    else if 0xc2 <= s[0] <= 0xdf && IsTail(s, 1) then 2
    else if |s| >= 3 && IsTail(s, 2) && IsSecondOfThree(s[0], s[1]) then 3
    else if |s| >= 4 && IsTail(s, 2) && IsTail(s, 3) && IsSecondOfFour(s[0], s[1]) then 4
    else 0
  }

  /** No overlong forms and no surrogates. */
  predicate IsSecondOfThree(first: byte, second: byte) {
    || (first == 0xe0 && 0xa0 <= second <= 0xbf)
    || (0xe1 <= first <= 0xec && 0x80 <= second <= 0xbf)
    || (first == 0xed && 0x80 <= second <= 0x9f)
    || (0xee <= first <= 0xef && 0x80 <= second <= 0xbf)
  }

  /** No overlong forms and nothing beyond U+10FFFF. */
  predicate IsSecondOfFour(first: byte, second: byte) {
    || (first == 0xf0 && 0x90 <= second <= 0xbf)
    || (0xf1 <= first <= 0xf3 && 0x80 <= second <= 0xbf)
    || (first == 0xf4 && 0x80 <= second <= 0x8f)
  }

  predicate IsUtf8(s: seq<byte>) {
    s == [] ||
    var n := CharacterLength(s);
    n > 0 && IsUtf8(s[n..])
  }

  // ---------- What the bytes mean ----------

  /** A Unicode scalar value: any code point but the surrogates. */
  type scalar = v: int | 0 <= v <= 0xd7ff || 0xe000 <= v <= 0x10_ffff

  /** The last six bits of the number behind the bits 10. */
  function Tail(n: nat): byte {
    0x80 + n % 0x40
  }

  /** The bits of the value in groups of six, behind a prefix that tells how many follow. */
  function EncodeScalar(v: scalar): seq<byte> {
    if v < 0x80 then [v as byte]
    else if v < 0x800 then [(0xc0 + v / 0x40) as byte, Tail(v)]
    else if v < 0x1_0000 then [(0xe0 + v / 0x1000) as byte, Tail(v / 0x40), Tail(v)]
    else [(0xf0 + v / 0x4_0000) as byte, Tail(v / 0x1000), Tail(v / 0x40), Tail(v)]
  }

  function EncodeText(text: seq<scalar>): seq<byte> {
    if text == [] then [] else EncodeScalar(text[0]) + EncodeText(text[1..])
  }

  lemma EncodedScalarIsCharacter(v: scalar)
    ensures |EncodeScalar(v)| > 0 && CharacterLength(EncodeScalar(v)) == |EncodeScalar(v)|
  {
    hide Tail;
    TailRange(v);
    TailRange(v / 0x40);
    TailRange(v / 0x1000);
    if 0x800 <= v < 0x1_0000 {
      SecondOfThree(v);
    } else if v >= 0x1_0000 {
      SecondOfFour(v);
    }
  }

  lemma TailRange(n: nat)
    ensures 0x80 <= Tail(n) <= 0xbf
  {
  }

  lemma SecondOfThree(v: scalar)
    requires 0x800 <= v < 0x1_0000
    ensures IsSecondOfThree((0xe0 + v / 0x1000) as byte, Tail(v / 0x40))
  {
  }

  lemma SecondOfFour(v: scalar)
    requires v >= 0x1_0000
    ensures IsSecondOfFour((0xf0 + v / 0x4_0000) as byte, Tail(v / 0x1000))
  {
  }

  lemma MoreBytesFollow(s: seq<byte>, rest: seq<byte>)
    requires CharacterLength(s) > 0
    ensures CharacterLength(s + rest) == CharacterLength(s)
  {
  }

  /** The value of the character that the bytes begin with. */
  function DecodeScalar(s: seq<byte>): (v: scalar)
    requires CharacterLength(s) > 0
  {
    match CharacterLength(s)
    case 1 => s[0] as int
    case 2 => Join(s[0], 0xc0, s[1])
    case 3 => Join(Join(s[0], 0xe0, s[1]), 0, s[2])
    case _ => Join(Join(Join(s[0], 0xf0, s[1]), 0, s[2]), 0, s[3])
  }

  /** A number less its prefix, with six more bits behind it. */
  function Join(n: int, prefix: int, tail: int): int {
    (n - prefix) * 0x40 + (tail - 0x80)
  }

  lemma JoinSplits(n: int, prefix: int, tail: byte)
    requires n >= prefix && 0x80 <= tail <= 0xbf
    ensures var v := Join(n, prefix, tail);
            && v == (n - prefix) * 0x40 + (tail - 0x80) && v >= 0
            && v / 0x40 == n - prefix && Tail(v) == tail
  {
  }

  lemma SplitJoins(n: nat)
    ensures Join(n / 0x40, 0, Tail(n)) == n
    ensures n / 0x1000 == n / 0x40 / 0x40 && n / 0x4_0000 == n / 0x40 / 0x40 / 0x40
  {
  }

  lemma EncodeDecodedScalar(s: seq<byte>)
    requires CharacterLength(s) > 0
    ensures EncodeScalar(DecodeScalar(s)) == s[..CharacterLength(s)]
  {
    hide Join, Tail;
    var n := CharacterLength(s);
    SplitJoins(DecodeScalar(s));
    if n == 2 {
      JoinSplits(s[0], 0xc0, s[1]);
    } else if n == 3 {
      JoinSplits(s[0], 0xe0, s[1]);
      JoinSplits(Join(s[0], 0xe0, s[1]), 0, s[2]);
    } else if n == 4 {
      JoinSplits(s[0], 0xf0, s[1]);
      JoinSplits(Join(s[0], 0xf0, s[1]), 0, s[2]);
      JoinSplits(Join(Join(s[0], 0xf0, s[1]), 0, s[2]), 0, s[3]);
    }
  }

  lemma DecodeEncodedScalar(v: scalar, rest: seq<byte>)
    ensures CharacterLength(EncodeScalar(v) + rest) == |EncodeScalar(v)|
    ensures DecodeScalar(EncodeScalar(v) + rest) == v
  {
    hide Tail;
    EncodedScalarIsCharacter(v);
    MoreBytesFollow(EncodeScalar(v), rest);
    SplitJoins(v);
    SplitJoins(v / 0x40);
    SplitJoins(v / 0x40 / 0x40);
  }

  function DecodeText(s: seq<byte>): seq<scalar>
    requires IsUtf8(s)
  {
    if s == [] then [] else [DecodeScalar(s)] + DecodeText(s[CharacterLength(s)..])
  }

  lemma {:induction false} DecodedTextEncodes(s: seq<byte>)
    requires IsUtf8(s)
    ensures EncodeText(DecodeText(s)) == s
    decreases |s|
  {
    hide CharacterLength, DecodeScalar, EncodeScalar;
    if s != [] {
      var n := CharacterLength(s);
      EncodeDecodedScalar(s);
      DecodedTextEncodes(s[n..]);
      assert DecodeText(s)[1..] == DecodeText(s[n..]);
      assert s == s[..n] + s[n..];
    }
  }

  lemma {:induction false} EncodedTextIsUtf8(text: seq<scalar>)
    ensures IsUtf8(EncodeText(text)) && DecodeText(EncodeText(text)) == text
    decreases |text|
  {
    hide CharacterLength, DecodeScalar, EncodeScalar;
    if text != [] {
      var first, rest := EncodeScalar(text[0]), EncodeText(text[1..]);
      EncodedScalarIsCharacter(text[0]);
      EncodedTextIsUtf8(text[1..]);
      assert (first + rest)[|first|..] == rest;
      DecodeEncodedScalar(text[0], rest);
    }
  }

  /** The bytes that are accepted are exactly the encodings of sequences of scalar values. */
  lemma IsUtf8IffEncoded(s: seq<byte>)
    ensures IsUtf8(s) <==> exists text: seq<scalar> :: EncodeText(text) == s
  {
    if IsUtf8(s) {
      DecodedTextEncodes(s);
    }
    forall text: seq<scalar> | EncodeText(text) == s
      ensures IsUtf8(s)
    {
      EncodedTextIsUtf8(text);
    }
  }

  lemma EncodeTextIsInjective(text: seq<scalar>, text': seq<scalar>)
    requires EncodeText(text) == EncodeText(text')
    ensures text == text'
  {
    EncodedTextIsUtf8(text);
    EncodedTextIsUtf8(text');
  }

  /** Only the scalar value 0 has a zero byte in its encoding. */
  lemma {:induction false} NulOnlyEncodesNul(text: seq<scalar>)
    ensures 0 in EncodeText(text) <==> 0 in text
    ensures |text| <= |EncodeText(text)|
    decreases |text|
  {
    if text != [] {
      NulOnlyEncodesNul(text[1..]);
    }
  }
}
