/** The bytes of a frame in numbers, as a peer that knows nothing of this model expects
    them. */
module WireFormat {
  import opened Crc
  import opened Slip

  function WireByte(b: byte): seq<byte> {
    if b == 0xC0 then [0xDB, 0xDC] else if b == 0xDB then [0xDB, 0xDD] else [b]
  }

  function WireBytes(s: seq<byte>): seq<byte> {
    if s == [] then [] else WireByte(s[0]) + WireBytes(s[1..])
  }

  /** Command, data and checksum between two 0xC0. */
  function WireFrame(cmd: byte, data: seq<byte>): seq<byte> {
    [0xC0] + WireBytes([cmd] + data + [PacketCrc(cmd, data)]) + [0xC0]
  }

  lemma {:induction false} EscapedOnTheWire(s: seq<byte>)
    ensures Escape(s) == WireBytes(s)
    decreases |s|
  {
    if s != [] {
      EscapedOnTheWire(s[1..]);
    }
  }

  lemma FrameOnTheWire(cmd: byte, data: seq<byte>)
    ensures Frame(cmd, data) == WireFrame(cmd, data)
  {
    hide Escape, WireBytes, PacketCrc;
    EscapedOnTheWire(Content(cmd, data));
  }

  lemma WireBytesChain(b: byte, s: seq<byte>)
    ensures WireBytes([b] + s) == WireByte(b) + WireBytes(s)
  {
    assert ([b] + s)[1..] == s;
  }

  /** The frames that the encoder's tests expect. */
  lemma KnownFrames()
    ensures Frame(0x01, []) == [0xC0, 0x01, 0x07, 0xC0]
    ensures Frame(0x01, [0x02]) == [0xC0, 0x01, 0x02, 0x1B, 0xC0]
    ensures Frame(0x01, [0x02, 0x03]) == [0xC0, 0x01, 0x02, 0x03, 0x48, 0xC0]
    ensures Frame(0xC0, [0x02, 0x03]) == [0xC0, 0xDB, 0xDC, 0x02, 0x03, 0xAE, 0xC0]
    ensures Frame(0xDB, [0x02, 0x03]) == [0xC0, 0xDB, 0xDD, 0x02, 0x03, 0xE0, 0xC0]
  {
    hide Crc8, PacketCrc, Frame, WireBytes;
    KnownChecksums();
    assert [0x01] + [] == [0x01] && [0x01] + [0x02] == [0x01, 0x02];
    assert [0x01] + [0x02, 0x03] == [0x01, 0x02, 0x03];
    assert [0xC0] + [0x02, 0x03] == [0xC0, 0x02, 0x03] && [0xDB] + [0x02, 0x03] == [0xDB, 0x02, 0x03];
    KnownFrame(0x01, []);
    KnownFrame(0x01, [0x02]);
    KnownFrame(0x01, [0x02, 0x03]);
    KnownFrame(0xC0, [0x02, 0x03]);
    KnownFrame(0xDB, [0x02, 0x03]);
  }

  lemma KnownFrame(cmd: byte, data: seq<byte>)
    requires |data| <= 2
    ensures var crc := Crc8(0, [cmd] + data);
            Frame(cmd, data)
            == [0xC0] + WireByte(cmd)
               + (if |data| > 0 then WireByte(data[0]) else [])
               + (if |data| > 1 then WireByte(data[1]) else [])
               + WireByte(crc) + [0xC0]
  {
    hide Crc8, PacketCrc, Frame, WireByte;
    var crc := Crc8(0, [cmd] + data);
    FrameOnTheWire(cmd, data);
    PacketCrcIsCrcOfConcatenation(cmd, data);
    assert [cmd] + data + [crc] == [cmd] + (data + [crc]);
    WireBytesChain(cmd, data + [crc]);
    WireBytesChain(crc, []);
    assert [crc] + [] == [crc];
    if |data| == 0 {
      assert data + [crc] == [crc];
    } else if |data| == 1 {
      assert data + [crc] == [data[0]] + [crc];
      WireBytesChain(data[0], [crc]);
    } else {
      assert data + [crc] == [data[0]] + ([data[1]] + [crc]);
      WireBytesChain(data[0], [data[1]] + [crc]);
      WireBytesChain(data[1], [crc]);
    }
  }
}
