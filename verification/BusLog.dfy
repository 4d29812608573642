/** Log messages sent over the bus. The formatter is any source of characters; it may stop at
    the first character that is refused or go on offering more. */
module BusLog {
  import opened Crc
  import opened Slip
  import opened WireFormat
  import opened Decoding
  import opened Packets
  import opened Decoders
  import opened Packing
  import opened DeviceBus
  import opened Utf8

  const LOG: byte := 0x03

  /** Appends a character while that leaves room for the NUL, and returns how many it stored. */
  method LogCharToPacket(packet: CppPacket, ch: byte) returns (stored: nat)
    requires packet.Valid()
    modifies packet`dataLen, packet.storage
    ensures packet.Valid()
    ensures stored == if old(packet.SpaceRemaining()) > 1 then 1 else 0
    ensures packet.Data() == if stored == 1 then old(packet.Data()) + [ch] else old(packet.Data())
  {
    if packet.SpaceRemaining() > 1 {
      packet.AppendByte(ch);
      return 1;
    }
    return 0;
  }

  /** How many characters of a message a log packet takes: level, length and NUL go with
      them. */
  function Taken(message: seq<byte>, cap: nat): (k: nat)
    requires cap >= 3
    ensures k <= |message| && k <= cap - 3
  {
    if |message| <= cap - 3 then |message| else cap - 3
  }

  function LogRecord(level: byte, message: seq<byte>, cap: nat): seq<byte>
    requires cap >= 3
  {
    var k := Taken(message, cap);
    [level, (k + 1) % 256] + message[..k] + [0]
  }

  /** The formatter, once it has expanded its arguments: it offers the characters of the
      message one by one. */
  method Format(log: CppPacket, message: seq<byte>, stopsWhenRefused: bool) returns (bytesWritten: nat)
    requires log.Valid() && log.dataLen == 2 && log.storage.Length >= 3
    modifies log`dataLen, log.storage
    ensures log.Valid() && bytesWritten == Taken(message, log.storage.Length)
    ensures log.Data() == old(log.Data()) + message[..bytesWritten]
    ensures log.dataLen < log.storage.Length
  {
    ghost var cap := log.storage.Length;
    bytesWritten := 0;
    var i := 0;
    while i < |message|
      invariant i <= |message| && bytesWritten == if i <= cap - 3 then i else cap - 3
      invariant log.Valid() && log.Data() == old(log.Data()) + message[..bytesWritten]
    {
      var stored := LogCharToPacket(log, message[i]);
      bytesWritten := bytesWritten + stored;
      i := i + 1;
      if stored == 0 && stopsWhenRefused {
        break;
      }
    }
  }

  /** Fills the packet; no assert fails, whichever way the formatter behaves. */
  method FillRecord(log: CppPacket, level: byte, message: seq<byte>, stopsWhenRefused: bool)
    requires log.storage.Length >= 3
    modifies log, log.storage
    ensures log.Valid() && log.command == 0x03
    ensures log.Data() == LogRecord(level, message, log.storage.Length)
    ensures |message| <= log.storage.Length - 3 ==>
      log.Data() == [level, (|message| + 1) % 0x100] + message + [0]
    ensures |message| > log.storage.Length - 3 ==>
      log.Data() == [level, (log.storage.Length - 2) % 0x100] + message[..log.storage.Length - 3] + [0]
  {
    log.SetCommand(LOG);
    log.SetData([]);
    log.AppendByte(level);
    assert log.Data() == [level];
    var strLen := log.GetWriteData(1);
    ghost var unset := log.storage[strLen];
    assert log.Data() == [level, unset];
    var bytesWritten := Format(log, message, stopsWhenRefused);
    log.AppendByte(0);
    ghost var before := log.Data();
    assert before == [level, unset] + message[..bytesWritten] + [0];
    log.storage[strLen] := (bytesWritten + 1) % 256;
    assert log.Data() == before[1 := (bytesWritten + 1) % 256];
  }

  /** Without a log packet nothing happens; with one of at least three bytes the record is
      filled in and written. */
  method DoLog(bus: Bus, log: CppPacket?, level: byte, message: seq<byte>, stopsWhenRefused: bool)
    requires log != null ==> log.storage.Length >= 3
    modifies bus`written, bus.encoder
    modifies log, if log == null then {} else {log.storage}
    ensures log == null ==> bus.written == old(bus.written)
    ensures log != null ==>
      && log.Valid() && log.command == 0x03
      && log.Data() == LogRecord(level, message, log.storage.Length)
      && bus.written == old(bus.written) + WireFrame(0x03, log.Data())
  {
    hide Frame, WireFrame, LogRecord;
    if log == null {
      return;
    }
    FillRecord(log, level, message, stopsWhenRefused);
    var _ := bus.WritePacket(log);
  }

  /** The host reads the level and then the string. It gets exactly the characters that were
      taken if and only if they are between 1 and 254 bytes of UTF-8: with none it gets the NUL
      itself, and with more the length byte has wrapped. A log packet of at most 257 bytes
      never takes more than 254. */
  lemma HostReadsLogRecord(level: byte, message: seq<byte>, cap: nat)
    requires cap >= 3
    ensures var record, k := LogRecord(level, message, cap), Taken(message, cap);
            && record[0] == level
            && (ReadStr(record, 1) == (Value(message[..k]), |record|) <==> 1 <= k <= 254 && IsUtf8(message[..k]))
            && (1 <= k <= 254 && !IsUtf8(message[..k]) ==> ReadStr(record, 1).0 == UnicodeDecodeError)
            && (cap <= 257 ==> k <= 254)
  {
    hide IsUtf8;
    var record, k := LogRecord(level, message, cap), Taken(message, cap);
    var n := (k + 1) % 256;
    var text := message[..k] + [0];
    assert record == [level, n] + text;
    if k <= 254 {
      assert record == [level, n] + text + [];
      SliceInTheMiddle([level, n], text, []);
      assert text[..k] == message[..k];
    } else {
      assert |Slice(record, 2, n)| <= n < k;
    }
  }

  /** Truncation counts bytes, so it can cut a character in two: the two-byte message C3 A9 is
      UTF-8, but of a log packet of four bytes the host can read no string. */
  lemma TruncationCanSplitCharacter(level: byte)
    ensures IsUtf8([0xc3, 0xa9])
    ensures ReadStr(LogRecord(level, [0xc3, 0xa9], 4), 1).0 == UnicodeDecodeError
  {
    var message: seq<byte> := [0xc3, 0xa9];
    assert CharacterLength(message) == 2 && message[2..] == [];
    assert message[..1] == [0xc3] && CharacterLength([0xc3]) == 0;
    HostReadsLogRecord(level, message, 4);
  }

  /** A log record that fits the host's packet, and that leaves the text whole, reaches the
      host, byte by byte over the wire, as the level and the first characters of the message. */
  lemma LogReachesHost(s: Decoder, level: byte, message: seq<byte>, cap: nat)
    requires 3 < cap && |LogRecord(level, message, cap)| < MAX_DATA_LEN
    requires message != [] && IsUtf8(message[..Taken(message, cap)])
    requires s.mode == Idle && !s.escape
    ensures var record, k := LogRecord(level, message, cap), Taken(message, cap);
            var t := Run(Python, MAX_DATA_LEN, s, Frame(LOG, record));
            && t.reports == DeliveryReports(LOG, record)
            && t.end.cmd == LOG && t.end.data == record
            && record[0] == level && ReadStr(record, 1) == (Value(message[..k]), |record|)
  {
    hide Run, DeliveryReports, Frame, ReadStr, IsUtf8;
    FrameIsDelivered(Python, MAX_DATA_LEN, s, LOG, LogRecord(level, message, cap));
    HostReadsLogRecord(level, message, cap);
  }
}
