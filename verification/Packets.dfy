/** The packet containers of the two implementations. */
module Packets {
  import opened Crc
  import opened Slip

  /** The C++ packet: a length and a buffer that the caller provides. The source's asserts are
      preconditions here. */
  class CppPacket {
    var command: byte
    const storage: array<byte>
    var dataLen: nat
    var crc: byte

    predicate Valid()
      reads this
    {
      dataLen <= storage.Length
    }

    function Data(): seq<byte>
      requires Valid()
      reads this, storage
    {
      storage[..dataLen]
    }

    constructor (data: array<byte>)
      ensures storage == data && command == 0
      ensures Valid() && Data() == []
    {
      storage, command, dataLen := data, 0, 0;
    }

    function SpaceRemaining(): nat
      requires Valid()
      reads this
    {
      storage.Length - dataLen
    }

    function CalcCrc(): byte
      requires Valid()
      reads this, storage
    {
      PacketCrc(command, Data())
    }

    method SetCommand(cmd: byte)
      modifies `command
      ensures command == cmd
    {
      command := cmd;
    }

    method SetData(data: seq<byte>)
      requires |data| <= storage.Length
      modifies `dataLen, storage
      ensures Valid() && Data() == data
    {
      dataLen := 0;
      if |data| > 0 {
        AppendData(data);
      }
    }

    method AppendByte(b: byte)
      requires dataLen < storage.Length
      modifies `dataLen, storage
      ensures Valid() && Data() == old(Data()) + [b]
    {
      storage[dataLen] := b;
      dataLen := dataLen + 1;
    }

    method AppendData(data: seq<byte>)
      requires dataLen + |data| <= storage.Length
      modifies `dataLen, storage
      ensures Valid() && Data() == old(Data()) + data
    {
      if |data| > 0 {
        forall i | 0 <= i < |data| {
          storage[dataLen + i] := data[i];
        }
        dataLen := dataLen + |data|;
      }
    }

    /** Reserves bytes for the caller to fill in and returns where they start. Nothing tests
        that there is room: the packet stays valid exactly if there is. */
    method GetWriteData(count: nat) returns (position: nat)
      requires Valid()
      modifies `dataLen
      ensures position == old(dataLen) && dataLen == position + count
      ensures Valid() <==> count <= old(SpaceRemaining())
    {
      position := dataLen;
      dataLen := dataLen + count;
    }

    method RemoveByte()
      requires Valid()
      modifies `dataLen
      ensures Valid()
      ensures Data() == if old(dataLen) == 0 then [] else old(Data())[..old(dataLen) - 1]
    {
      if dataLen > 0 {
        dataLen := dataLen - 1;
      }
    }

    method ExtractCrc() returns (c: byte)
      requires Valid() && dataLen >= 1
      modifies `dataLen, `crc
      ensures Valid() && c == crc && Data() + [c] == old(Data())
    {
      dataLen := dataLen - 1;
      crc := storage[dataLen];
      c := crc;
    }

    method CalcAndStoreCrc()
      requires Valid()
      modifies `crc
      ensures crc == PacketCrc(command, Data())
    {
      crc := CalcCrc();
    }
  }

  /** The Python packet, whose bytearray grows as needed. */
  class PyPacket {
    var cmd: byte
    var data: seq<byte>
    var crc: byte

    constructor (cmd: byte, data: seq<byte>)
      ensures this.cmd == cmd && this.data == data && crc == 0
    {
      this.cmd, this.data, crc := cmd, data, 0;
    }

    function CalcCrc(): byte
      reads this
    {
      PacketCrc(cmd, data)
    }

    method SetCommand(cmd: byte)
      modifies `cmd
      ensures this.cmd == cmd
    {
      this.cmd := cmd;
    }

    method SetData(data: seq<byte>)
      modifies `data
      ensures this.data == data
    {
      this.data := data;
    }

    method AppendByte(b: byte)
      modifies `data
      ensures data == old(data) + [b]
    {
      data := data + [b];
    }

    method AppendData(s: seq<byte>)
      modifies `data
      ensures data == old(data) + s
    {
      data := data + s;
    }

    method ExtractCrc() returns (c: byte)
      requires data != []
      modifies `data, `crc
      ensures c == crc && data + [c] == old(data)
    {
      crc := data[|data| - 1];
      data := data[..|data| - 1];
      c := crc;
    }

    method CalcAndStoreCrc()
      modifies `crc
      ensures crc == PacketCrc(cmd, data)
    {
      crc := CalcCrc();
    }
  }
}
