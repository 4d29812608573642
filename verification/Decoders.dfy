/** The two decoders as their sources write them, each proved to take exactly the step that
    Decoding.Step describes; what Step does over whole streams is proved there and in the
    modules built on it. */
module Decoders {
  import opened Crc
  import opened Slip
  import opened Decoding
  import opened Packets

  class CppDecoder {
    const packet: CppPacket
    var state: Mode
    var escape: bool

    /** The abstract state. */
    function Snapshot(): Decoder
      requires packet.Valid()
      reads this, packet, packet.storage
    {
      Decoder(state, escape, packet.command, packet.Data(), packet.crc)
    }

    constructor (pkt: CppPacket)
      ensures packet == pkt && state == Idle && !escape
    {
      packet, state, escape := pkt, Idle, false;
    }

    /** No assert of the packet fails, no write is out of bounds, and BAD_STATE is never
        returned, in any state and on any byte. */
    method DecodeByte(raw: byte) returns (code: ErrorCode)
      requires packet.Valid()
      modifies `state, `escape, packet, packet.storage
      ensures packet.Valid()
      ensures Outcome(Snapshot(), code) == Step(Cpp, packet.storage.Length, old(Snapshot()), raw)
      ensures old(state == Data && escape && packet.dataLen < packet.storage.Length) && raw !in {0xDC, 0xDD} ==>
        code == NOT_DONE && packet.Data() == old(packet.Data()) + [raw]
      ensures code != BAD_STATE
    {
      var b := raw;
      if state != Idle {
        if escape {
          if b == ESC_END {
            b := END;
          } else if b == ESC_ESC {
            b := ESC;
          }
        } else if b == ESC {
          escape := true;
          return NOT_DONE;
        }
      }
      match state
      case Idle =>
        if b == END {
          state := Command;
        }
        return NOT_DONE;
      case Command =>
        if b == END && !escape {
          return NOT_DONE;
        }
        escape := false;
        packet.SetCommand(b);
        packet.SetData([]);
        state := Data;
        return NOT_DONE;
      case Data =>
        if b == END && !escape {
          if packet.dataLen == 0 {
            return TOO_SMALL;
          }
          ghost var before := packet.Data();
          var rcvdCrc := packet.ExtractCrc();
          assert packet.Data() == before[..|before| - 1] && rcvdCrc == before[|before| - 1];
          var expectedCrc := packet.CalcCrc();
          if rcvdCrc == expectedCrc {
            state := Idle;
            return NONE;
          }
          return CRC;
        }
        escape := false;
        if packet.dataLen >= packet.storage.Length {
          return TOO_MUCH_DATA;
        }
        packet.AppendByte(b);
        return NOT_DONE;
    }
  }

  const MAX_DATA_LEN: nat := 256

  class PyDecoder {
    const packet: PyPacket
    var state: Mode
    var escape: bool

    /** The abstract state. */
    function Snapshot(): Decoder
      reads this, packet
    {
      Decoder(state, escape, packet.cmd, packet.data, packet.crc)
    }

    constructor (pkt: PyPacket)
      ensures packet == pkt && state == Idle && !escape
    {
      packet, state, escape := pkt, Idle, false;
    }

    method DecodeByte(raw: byte) returns (code: ErrorCode)
      modifies `state, `escape, packet
      ensures Outcome(Snapshot(), code) == Step(Python, MAX_DATA_LEN, old(Snapshot()), raw)
      ensures old(state == Data && escape && |packet.data| < 256) && raw !in {0xDC, 0xDD} ==>
        code == NOT_DONE && packet.data == old(packet.data) + [raw]
      ensures code != BAD_STATE
    {
      var b := raw;
      if state != Idle {
        if escape {
          if b == ESC_END {
            b := END;
          } else if b == ESC_ESC {
            b := ESC;
          }
        } else if b == ESC {
          escape := true;
          return NOT_DONE;
        }
      }
      if state == Idle {
        code := DecodeByteIdle(b);
        return;
      }
      if state == Command {
        code := DecodeByteCommand(b);
        return;
      }
      if state == Data {
        code := DecodeByteData(b);
        return;
      }
      return BAD_STATE;
    }

    method DecodeByteIdle(b: byte) returns (code: ErrorCode)
      modifies `state
      ensures Outcome(Snapshot(), code) == IdleStep(old(Snapshot()), b)
    {
      if b == END {
        state := Command;
      }
      return NOT_DONE;
    }

    method DecodeByteCommand(b: byte) returns (code: ErrorCode)
      modifies `state, `escape, packet
      ensures Outcome(Snapshot(), code) == CommandStep(old(Snapshot()), b)
    {
      if b == END && !escape {
        return NOT_DONE;
      }
      escape := false;
      packet.SetCommand(b);
      packet.SetData([]);
      state := Data;
      return NOT_DONE;
    }

    method DecodeByteData(b: byte) returns (code: ErrorCode)
      modifies `state, `escape, packet
      ensures Outcome(Snapshot(), code) == DataStep(Python, MAX_DATA_LEN, old(Snapshot()), b)
    {
      if b == END && !escape {
        state := Idle;
        if packet.data == [] {
          state := Command;
          return TOO_SMALL;
        }
        state := Idle;
        ghost var before := packet.data;
        var rcvdCrc := packet.ExtractCrc();
        assert packet.data == before[..|before| - 1] && rcvdCrc == before[|before| - 1];
        var expectedCrc := packet.CalcCrc();
        if rcvdCrc == expectedCrc {
          return NONE;
        }
        return CRC;
      }
      escape := false;
      if |packet.data| >= MAX_DATA_LEN {
        return TOO_MUCH_DATA;
      }
      packet.AppendByte(b);
      return NOT_DONE;
    }
  }
}
