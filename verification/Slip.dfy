/** SLIP framing as in the PROTOCOL section of RFC 1055, with an END on both sides of a
    frame, and the packet content that goes between them: command, data, checksum. */
module Slip {
  import opened Crc

  const END: byte := 0xC0
  const ESC: byte := 0xDB
  const ESC_END: byte := 0xDC
  const ESC_ESC: byte := 0xDD

  // ---------- Sending ----------

  predicate IsSpecial(b: byte) {
    b == END || b == ESC
  }

  function EscapeByte(b: byte): seq<byte> {
    if b == END then [ESC, ESC_END] else if b == ESC then [ESC, ESC_ESC] else [b]
  }

  function Escape(s: seq<byte>): seq<byte> {
    if s == [] then [] else EscapeByte(s[0]) + Escape(s[1..])
  }

  /** The checksum of a packet: the command first, then continued over the data. */
  function PacketCrc(cmd: byte, data: seq<byte>): byte {
    Crc8(Crc8(0, [cmd]), data)
  }

  function Content(cmd: byte, data: seq<byte>): seq<byte> {
    [cmd] + data + [PacketCrc(cmd, data)]
  }

  function FrameOf(content: seq<byte>): seq<byte> {
    [END] + Escape(content) + [END]
  }

  function Frame(cmd: byte, data: seq<byte>): seq<byte> {
    FrameOf(Content(cmd, data))
  }

  // ---------- Receiving ----------

  /** What the byte after an ESC stands for; any other byte than the two codes stands for
      itself. */
  function Unescaped(b: byte): byte {
    if b == ESC_END then END else if b == ESC_ESC then ESC else b
  }

  function Unescape(body: seq<byte>): seq<byte> {
    if body == [] then []
    else if body[0] != ESC then [body[0]] + Unescape(body[1..])
    else if |body| == 1 then []
    else [Unescaped(body[1])] + Unescape(body[2..])
  }

  /** The number of bytes before the first END that no ESC precedes. */
  function BodyLength(s: seq<byte>): (n: nat)
    ensures n <= |s|
  {
    if s == [] || s[0] == END then 0
    else if s[0] != ESC then 1 + BodyLength(s[1..])
    else if |s| == 1 then 1
    else 2 + BodyLength(s[2..])
  }

  predicate IsBody(s: seq<byte>) {
    BodyLength(s) == |s|
  }

  /** The string ends between an ESC and the byte that it escapes. */
  predicate IsDangling(s: seq<byte>) {
    s != [] &&
    if s[0] != ESC then IsDangling(s[1..]) else |s| == 1 || IsDangling(s[2..])
  }

  // ---------- The checksum of a whole packet ----------

  lemma PacketCrcIsCrcOfConcatenation(cmd: byte, data: seq<byte>)
    ensures PacketCrc(cmd, data) == Crc8(0, [cmd] + data)
  {
    CrcChains(0, [cmd], data);
  }

  /** What the receiver tests is whether the checksum of everything it collected is zero. */
  lemma AcceptanceIsZeroResidue(cmd: byte, data: seq<byte>, crc: byte)
    ensures crc == PacketCrc(cmd, data) <==> Crc8(0, [cmd] + data + [crc]) == 0
  {
    PacketCrcIsCrcOfConcatenation(cmd, data);
    ResidueIsZeroIffCrcMatches([cmd] + data, crc);
  }

  lemma OneByteChecksums()
    ensures Crc8(0x00, [0x01]) == 0x07 && Crc8(0x07, [0x01]) == 0x12
    ensures Crc8(0x07, [0x02]) == 0x1b && Crc8(0x1b, [0x03]) == 0x48
    ensures Crc8(0x00, [0xc0]) == 0x4e && Crc8(0x4e, [0x02]) == 0xe3 && Crc8(0xe3, [0x03]) == 0xae
    ensures Crc8(0x00, [0xdb]) == 0x0f && Crc8(0x0f, [0x02]) == 0x23 && Crc8(0x23, [0x03]) == 0xe0
  {
    hide Crc8;
    CrcOfOneByteUnrolled(0x00, 0x01);
    CrcOfOneByteUnrolled(0x07, 0x01);
    CrcOfOneByteUnrolled(0x07, 0x02);
    CrcOfOneByteUnrolled(0x1b, 0x03);
    CrcOfOneByteUnrolled(0x00, 0xc0);
    CrcOfOneByteUnrolled(0x4e, 0x02);
    CrcOfOneByteUnrolled(0xe3, 0x03);
    CrcOfOneByteUnrolled(0x00, 0xdb);
    CrcOfOneByteUnrolled(0x0f, 0x02);
    CrcOfOneByteUnrolled(0x23, 0x03);
  }

  /** Checksums that the repository's tests spell out, and one more. */
  lemma KnownChecksums()
    ensures Crc8(0, [0x01]) == 0x07
    ensures Crc8(0, [0x01, 0x02]) == 0x1b
    ensures Crc8(0, [0x01, 0x02, 0x03]) == 0x48
    ensures Crc8(0, [0xc0, 0x02, 0x03]) == 0xae
    ensures Crc8(0, [0xdb, 0x02, 0x03]) == 0xe0
    ensures Crc8(0, [0x01, 0x01]) == 0x12
  {
    hide Crc8;
    OneByteChecksums();
    CrcChains(0, [0x01], [0x01]);
    CrcChains(0, [0x01], [0x02]);
    CrcChains(0, [0x01, 0x02], [0x03]);
    CrcChains(0, [0xc0], [0x02]);
    CrcChains(0, [0xc0, 0x02], [0x03]);
    CrcChains(0, [0xdb], [0x02]);
    CrcChains(0, [0xdb, 0x02], [0x03]);
    assert [0x01] + [0x01] == [0x01, 0x01] && [0x01] + [0x02] == [0x01, 0x02];
    assert [0x01, 0x02] + [0x03] == [0x01, 0x02, 0x03];
    assert [0xc0] + [0x02] == [0xc0, 0x02] && [0xc0, 0x02] + [0x03] == [0xc0, 0x02, 0x03];
    assert [0xdb] + [0x02] == [0xdb, 0x02] && [0xdb, 0x02] + [0x03] == [0xdb, 0x02, 0x03];
  }

  // ---------- Escaping is a lossless, self-delimiting code ----------

  lemma EscapedByteFirst(b: byte, tail: seq<byte>)
    ensures BodyLength(EscapeByte(b) + tail) == |EscapeByte(b)| + BodyLength(tail)
    ensures Unescape(EscapeByte(b) + tail) == [b] + Unescape(tail)
    ensures IsDangling(EscapeByte(b) + tail) <==> IsDangling(tail)
  {
    assert (EscapeByte(b) + tail)[|EscapeByte(b)|..] == tail;
  }

  lemma {:induction false} EscapedIsABody(s: seq<byte>)
    ensures IsBody(Escape(s)) && !IsDangling(Escape(s))
    ensures Unescape(Escape(s)) == s
    decreases |s|
  {
    if s != [] {
      EscapedIsABody(s[1..]);
      EscapedByteFirst(s[0], Escape(s[1..]));
    }
  }

  lemma {:induction false} BodyStopsAtEnd(s: seq<byte>, rest: seq<byte>)
    requires rest != [] && rest[0] == END
    ensures BodyLength(Escape(s) + rest) == |Escape(s)|
    decreases |s|
  {
    if s == [] {
      assert Escape(s) + rest == rest;
    } else {
      BodyStopsAtEnd(s[1..], rest);
      EscapedByteFirst(s[0], Escape(s[1..]) + rest);
      assert Escape(s) + rest == EscapeByte(s[0]) + (Escape(s[1..]) + rest);
    }
  }

  lemma {:induction false} EscapeHasNoEnd(s: seq<byte>)
    ensures END !in Escape(s)
    decreases |s|
  {
    if s != [] {
      EscapeHasNoEnd(s[1..]);
    }
  }

  /** An ESC on the wire is always followed by one of the two codes. */
  lemma {:induction false} EscapesAreComplete(s: seq<byte>, i: nat)
    requires i < |Escape(s)| && Escape(s)[i] == ESC
    ensures i + 1 < |Escape(s)| && Escape(s)[i + 1] in {ESC_END, ESC_ESC}
    decreases |s|
  {
    var width := |EscapeByte(s[0])|;
    if i >= width {
      EscapesAreComplete(s[1..], i - width);
    }
  }

  function Specials(s: seq<byte>): nat {
    if s == [] then 0 else (if IsSpecial(s[0]) then 1 else 0) + Specials(s[1..])
  }

  lemma {:induction false} EscapeLength(s: seq<byte>)
    ensures |Escape(s)| == |s| + Specials(s)
    ensures Specials(s) <= |s|
    decreases |s|
  {
    if s != [] {
      EscapeLength(s[1..]);
    }
  }

  /** A packet of n data bytes takes n + 4 bytes and one more for each END or ESC in its
      content, hence between n + 4 and 2n + 6. */
  lemma FrameLength(cmd: byte, data: seq<byte>)
    ensures |Frame(cmd, data)| == |data| + 4 + Specials(Content(cmd, data))
    ensures |data| + 4 <= |Frame(cmd, data)| <= 2 * |data| + 6
  {
    EscapeLength(Content(cmd, data));
  }

  /** No frame is a prefix of another: a frame determines its command and data, even when
      more bytes follow it. */
  lemma FramesArePrefixFree(cmd: byte, data: seq<byte>, cmd': byte, data': seq<byte>)
    requires Frame(cmd, data) <= Frame(cmd', data')
    ensures cmd == cmd' && data == data'
  {
    hide Escape, BodyLength, Unescape, IsDangling, PacketCrc;
    var c, c' := Content(cmd, data), Content(cmd', data');
    var rest := FrameOf(c')[|FrameOf(c)|..];
    assert FrameOf(c') == FrameOf(c) + rest;
    var tail := FrameOf(c')[1..];
    assert tail == Escape(c) + ([END] + rest);
    assert tail == Escape(c') + [END];
    BodyStopsAtEnd(c, [END] + rest);
    BodyStopsAtEnd(c', [END]);
    assert Escape(c) == tail[..BodyLength(tail)] == Escape(c');
    EscapedIsABody(c);
    EscapedIsABody(c');
    assert c == c';
    assert data == c[1..|c| - 1] && data' == c'[1..|c'| - 1];
    assert cmd == c[0] && cmd' == c'[0];
  }
}
