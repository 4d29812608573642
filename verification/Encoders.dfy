/** The two encoders. A state of an encoder is described by the bytes that it has still to
    emit; each call emits the first of them. */
module Encoders {
  import opened Crc
  import opened Slip
  import opened WireFormat
  import opened Decoding
  import opened Packets

  datatype EncoderMode = Start | SendCommand | SendData | SendEscape

  /** The bytes still to be emitted for a packet: data bytes before idx are out, idx |data| is
      the checksum, and idx |data| + 1 the closing END. */
  function Pending(mode: EncoderMode, idx: nat, escapeChar: byte, cmd: byte, data: seq<byte>): (p: seq<byte>)
    requires mode in {SendData, SendEscape} ==> idx <= |data| + 1
    ensures p != []
  {
    match mode
    case Start => Frame(cmd, data)
    case SendCommand => Escape(Content(cmd, data)) + [END]
    case SendData => Escape(Content(cmd, data)[1 + idx..]) + [END]
    case SendEscape => [escapeChar] + (Escape(Content(cmd, data)[1 + idx..]) + [END])
  }

  /** A content byte goes out: whole, or its ESC first and the code for it next. */
  predicate Emits(b: byte, next: EncoderMode, out: byte, escapeChar: byte) {
    || (next == SendData && [out] == WireByte(b))
    || (next == SendEscape && [out, escapeChar] == WireByte(b))
  }

  lemma EmitEnd(idx: nat, e: byte, cmd: byte, data: seq<byte>)
    ensures Pending(Start, idx, e, cmd, data) == [END] + Pending(SendCommand, idx, e, cmd, data)
  {
    assert Frame(cmd, data) == [END] + (Escape(Content(cmd, data)) + [END]);
  }

  lemma EmitCommand(idx: nat, e: byte, next: EncoderMode, out: byte, e': byte, cmd: byte, data: seq<byte>)
    requires Emits(cmd, next, out, e')
    ensures Pending(SendCommand, idx, e, cmd, data) == [out] + Pending(next, 0, e', cmd, data)
  {
  }

  lemma EscapedInOrder(b: byte)
    ensures EscapeByte(b) == WireByte(b)
  {
  }

  lemma EmitContent(idx: nat, e: byte, next: EncoderMode, out: byte, e': byte, cmd: byte, data: seq<byte>)
    requires idx <= |data| && Emits((data + [PacketCrc(cmd, data)])[idx], next, out, e')
    ensures Pending(SendData, idx, e, cmd, data) == [out] + Pending(next, idx + 1, e', cmd, data)
  {
    hide EscapeByte, WireByte, PacketCrc;
    EscapedInOrder((data + [PacketCrc(cmd, data)])[idx]);
    var content := Content(cmd, data);
    assert content[1 + idx] == (data + [PacketCrc(cmd, data)])[idx];
    assert content[1 + idx..][1..] == content[1 + (idx + 1)..];
    assert Escape(content[1 + idx..]) == EscapeByte(content[1 + idx]) + Escape(content[1 + (idx + 1)..]);
  }

  lemma EmitLast(e: byte, cmd: byte, data: seq<byte>)
    ensures Pending(SendData, |data| + 1, e, cmd, data) == [END]
  {
  }

  lemma EmitEscape(idx: nat, e: byte, cmd: byte, data: seq<byte>)
    requires idx <= |data| + 1
    ensures Pending(SendEscape, idx, e, cmd, data) == [e] + Pending(SendData, idx, e, cmd, data)
  {
  }

  const NO_BYTE: byte := 0

  class CppEncoder {
    var packet: CppPacket?
    var state: EncoderMode
    var encodeIdx: nat
    var escapeChar: byte

    /** A packet has been given, and the index is within it. */
    predicate Ready()
      reads this, packet
    {
      packet != null && packet.Valid() &&
      (state in {SendData, SendEscape} ==> encodeIdx <= packet.dataLen + 1)
    }

    ghost function Remaining(): seq<byte>
      requires Ready()
      reads this, packet, packet.storage
    {
      Pending(state, encodeIdx, escapeChar, packet.command, packet.Data())
    }

    constructor ()
      ensures packet == null && state == Start
    {
      packet, state, encodeIdx, escapeChar := null, Start, 0, 0;
    }

    method EncodeStart(p: CppPacket)
      requires p.Valid()
      modifies this, p`crc
      ensures packet == p && state == Start && Ready()
      ensures Remaining() == Frame(p.command, p.Data())
      ensures p.crc == PacketCrc(p.command, p.Data())
    {
      p.CalcAndStoreCrc();
      packet := p;
      state := Start;
    }

    method HandleEscape(b: byte) returns (next: EncoderMode, out: byte)
      modifies `escapeChar
      ensures Emits(b, next, out, escapeChar)
    {
      if b == END {
        escapeChar := ESC_END;
        return SendEscape, ESC;
      }
      if b == ESC {
        escapeChar := ESC_ESC;
        return SendEscape, ESC;
      }
      return SendData, b;
    }

    /** Emits the first of the remaining bytes; NONE comes with the last of them. */
    method EncodeByte() returns (b: byte, code: ErrorCode)
      requires Ready()
      modifies `state, `encodeIdx, `escapeChar
      ensures Ready()
      ensures || (code == NONE && state == Start && old(Remaining()) == [b])
              || (code == NOT_DONE && old(Remaining()) == [b] + Remaining())
    {
      hide Pending, WireByte;
      ghost var idx, e, cmd, data := encodeIdx, escapeChar, packet.command, packet.Data();
      match state
      case Start =>
        EmitEnd(idx, e, cmd, data);
        state := SendCommand;
        return END, NOT_DONE;
      case SendCommand =>
        state, b := HandleEscape(packet.command);
        encodeIdx := 0;
        EmitCommand(idx, e, state, b, escapeChar, cmd, data);
        return b, NOT_DONE;
      case SendData =>
        if encodeIdx < packet.dataLen {
          b := packet.storage[encodeIdx];
          encodeIdx := encodeIdx + 1;
          state, b := HandleEscape(b);
          EmitContent(idx, e, state, b, escapeChar, cmd, data);
          return b, NOT_DONE;
        }
        if encodeIdx == packet.dataLen {
          state, b := HandleEscape(packet.CalcCrc());
          encodeIdx := encodeIdx + 1;
          EmitContent(idx, e, state, b, escapeChar, cmd, data);
          return b, NOT_DONE;
        }
        EmitLast(e, cmd, data);
        state := Start;
        return END, NONE;
      case SendEscape =>
        EmitEscape(idx, e, cmd, data);
        state := SendData;
        return escapeChar, NOT_DONE;
    }
  }

  class PyEncoder {
    var packet: PyPacket
    var state: EncoderMode
    var encodeIdx: nat
    var escapeChar: byte

    predicate Ready()
      reads this, packet
    {
      state in {SendData, SendEscape} ==> encodeIdx <= |packet.data| + 1
    }

    ghost function Remaining(): seq<byte>
      requires Ready()
      reads this, packet
    {
      Pending(state, encodeIdx, escapeChar, packet.cmd, packet.data)
    }

    constructor ()
      ensures Ready() && state == Start && fresh(packet)
    {
      packet := new PyPacket(0, []);
      state, encodeIdx, escapeChar := Start, 0, 0;
    }

    method EncodeStart(p: PyPacket)
      modifies this, p`crc
      ensures packet == p && state == Start && Ready()
      ensures Remaining() == Frame(p.cmd, p.data)
      ensures p.crc == PacketCrc(p.cmd, p.data)
    {
      packet := p;
      packet.CalcAndStoreCrc();
      state := Start;
    }

    method HandleEscape(b: byte) returns (next: EncoderMode, out: byte)
      modifies `escapeChar
      ensures Emits(b, next, out, escapeChar)
    {
      if b == END {
        escapeChar := ESC_END;
        return SendEscape, ESC;
      }
      if b == ESC {
        escapeChar := ESC_ESC;
        return SendEscape, ESC;
      }
      return SendData, b;
    }

    /** As in C++: emits the first of the remaining bytes. */
    method EncodeByte() returns (b: byte, code: ErrorCode)
      requires Ready()
      modifies `state, `encodeIdx, `escapeChar
      ensures Ready()
      ensures || (code == NONE && state == Start && old(Remaining()) == [b])
              || (code == NOT_DONE && old(Remaining()) == [b] + Remaining())
    {
      if state == Start {
        b, code := EncodeByteIdle();
        return;
      }
      if state == SendCommand {
        b, code := EncodeByteCommand();
        return;
      }
      if state == SendData {
        b, code := EncodeByteData();
        return;
      }
      if state == SendEscape {
        b, code := EncodeByteEscape();
        return;
      }
      return NO_BYTE, BAD_STATE;
    }

    method EncodeByteIdle() returns (b: byte, code: ErrorCode)
      requires state == Start
      modifies `state
      ensures Ready() && code == NOT_DONE && old(Remaining()) == [b] + Remaining()
    {
      EmitEnd(encodeIdx, escapeChar, packet.cmd, packet.data);
      state := SendCommand;
      return END, NOT_DONE;
    }

    method EncodeByteCommand() returns (b: byte, code: ErrorCode)
      requires state == SendCommand
      modifies `state, `encodeIdx, `escapeChar
      ensures Ready() && code == NOT_DONE && old(Remaining()) == [b] + Remaining()
    {
      hide Pending, WireByte;
      ghost var idx, e := encodeIdx, escapeChar;
      state, b := HandleEscape(packet.cmd);
      encodeIdx := 0;
      EmitCommand(idx, e, state, b, escapeChar, packet.cmd, packet.data);
      return b, NOT_DONE;
    }

    method EncodeByteData() returns (b: byte, code: ErrorCode)
      requires Ready() && state == SendData
      modifies `state, `encodeIdx, `escapeChar
      ensures Ready()
      ensures || (code == NONE && state == Start && old(Remaining()) == [b])
              || (code == NOT_DONE && old(Remaining()) == [b] + Remaining())
    {
      hide Pending, WireByte;
      ghost var idx, e := encodeIdx, escapeChar;
      if encodeIdx < |packet.data| {
        state, b := HandleEscape(packet.data[encodeIdx]);
        encodeIdx := encodeIdx + 1;
        EmitContent(idx, e, state, b, escapeChar, packet.cmd, packet.data);
        return b, NOT_DONE;
      }
      if encodeIdx == |packet.data| {
        state, b := HandleEscape(packet.CalcCrc());
        encodeIdx := encodeIdx + 1;
        EmitContent(idx, e, state, b, escapeChar, packet.cmd, packet.data);
        return b, NOT_DONE;
      }
      EmitLast(e, packet.cmd, packet.data);
      state := Start;
      return END, NONE;
    }

    method EncodeByteEscape() returns (b: byte, code: ErrorCode)
      requires Ready() && state == SendEscape
      modifies `state
      ensures Ready() && code == NOT_DONE && old(Remaining()) == [b] + Remaining()
    {
      EmitEscape(encodeIdx, escapeChar, packet.cmd, packet.data);
      state := SendData;
      return escapeChar, NOT_DONE;
    }
  }
}
