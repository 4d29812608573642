/** The classes of both implementations put together, from typed fields to typed fields: what
    an application on one side does with a packer, a packet and a bus, and what one on the
    other side does with a decoder and an unpacker. */
module Pipelines {
  import opened Crc
  import opened Slip
  import opened WireFormat
  import opened Decoding
  import opened Packets
  import opened Decoders
  import opened Encoders
  import opened Delivery
  import opened DeviceBus
  import opened Utf8
  import opened Packing

  // ---------- From the device to the host ----------

  method PackField(packer: CppPacker, f: Field) returns (ok: bool)
    requires packer.packet.Valid()
    modifies packer.packet`dataLen, packer.packet.storage
    ensures packer.packet.Valid()
    ensures Packed(ok, packer.packet.Data())
         == PackCall(packer.packet.storage.Length, old(packer.packet.Data()), CallFor(f))
  {
    match f
    case U8(value) => ok := packer.PackScalar(value, 1);
    case U16(value) => ok := packer.PackScalar(value, 2);
    case U32(value) => ok := packer.PackScalar(value, 4);
    case Str(str) => ok := packer.PackString(str);
  }

  /** All calls are made; the result says whether every one of them succeeded. */
  method PackFields(packer: CppPacker, fields: seq<Field>) returns (ok: bool)
    requires packer.packet.Valid()
    modifies packer.packet`dataLen, packer.packet.storage
    ensures packer.packet.Valid()
    ensures Packed(ok, packer.packet.Data())
         == PackAll(packer.packet.storage.Length, old(packer.packet.Data()), CallsFor(fields))
    decreases fields
  {
    hide PackCall, CallFor;
    if fields == [] {
      return true;
    }
    assert CallsFor(fields)[1..] == CallsFor(fields[1..]);
    var first := PackField(packer, fields[0]);
    var rest := PackFields(packer, fields[1..]);
    return first && rest;
  }

  /** Bytes from the wire into the Python decoder, as the decoder's tests feed it. */
  method Feed(decoder: PyDecoder, wire: seq<byte>) returns (codes: seq<ErrorCode>)
    modifies decoder, decoder.packet
    ensures var t := Run(Python, MAX_DATA_LEN, old(decoder.Snapshot()), wire);
            decoder.Snapshot() == t.end && codes == Codes(t.reports)
  {
    hide Run, Step, ReportOf;
    ghost var s := decoder.Snapshot();
    RunOnNothing(Python, MAX_DATA_LEN, s);
    codes := [];
    var i := 0;
    assert wire[..0] == [];
    while i < |wire|
      invariant i <= |wire|
      invariant var t := Run(Python, MAX_DATA_LEN, s, wire[..i]);
                decoder.Snapshot() == t.end && codes == Codes(t.reports)
    {
      ghost var before := decoder.Snapshot();
      var code := decoder.DecodeByte(wire[i]);
      codes := codes + [code];
      RunOne(Python, MAX_DATA_LEN, before, wire[i]);
      RunChains(Python, MAX_DATA_LEN, s, wire[..i], [wire[i]]);
      assert wire[..i + 1] == wire[..i] + [wire[i]];
      CodeOfReport(Step(Python, MAX_DATA_LEN, before, wire[i]));
      i := i + 1;
    }
    assert wire[..i] == wire;
  }

  method UnpackOne(u: PyUnpacker, kind: Kind) returns (r: Unpacked<Field>)
    modifies u`idx
    ensures (r, u.idx) == ReadField(u.data, old(u.idx), kind)
  {
    match kind
    case KindU8 =>
      var value := u.UnpackU8();
      return if value.Value? then Value(U8(value.value)) else IndexError;
    case KindU16 =>
      var value := u.UnpackU16();
      return Value(U16(value));
    case KindU32 =>
      var value := u.UnpackU32();
      return Value(U32(value));
    case KindStr =>
      var s := u.UnpackStr();
      match s
      case Value(str) => return Value(Str(str));
      case IndexError => return IndexError;
      case UnicodeDecodeError => return UnicodeDecodeError;
  }

  /** One call after the other, up to the first that raises. */
  method UnpackAll(u: PyUnpacker, kinds: seq<Kind>) returns (r: Unpacked<seq<Field>>)
    modifies u`idx
    ensures (r, u.idx) == ReadFields(u.data, old(u.idx), kinds)
    decreases kinds
  {
    hide ReadField;
    if kinds == [] {
      return Value([]);
    }
    var first := UnpackOne(u, kinds[0]);
    match first
    case IndexError => return IndexError;
    case UnicodeDecodeError => return UnicodeDecodeError;
    case Value(f) =>
      var rest := UnpackAll(u, kinds[1..]);
      return if rest.Value? then Value([f] + rest.value) else rest;
  }

  /** Fields packed in C++ and written to the bus come out of the Python decoder and unpacker
      as they went in, and the unpacker is at its end. */
  method DeviceToHost(bus: Bus, packet: CppPacket, decoder: PyDecoder, cmd: byte, fields: seq<Field>)
    returns (codes: seq<ErrorCode>, received: Unpacked<seq<Field>>, more: bool)
    requires forall f <- fields :: IsHostField(f)
    requires |AllBytes(CallsFor(fields))| <= packet.storage.Length
    requires |AllBytes(CallsFor(fields))| < MAX_DATA_LEN
    requires decoder.state == Idle && !decoder.escape
    modifies bus`written, bus.encoder, packet, packet.storage, decoder, decoder.packet
    ensures codes == Codes(DeliveryReports(cmd, AllBytes(CallsFor(fields))))
    ensures decoder.packet.cmd == cmd
    ensures received == Value(fields) && !more
  {
    hide Run, DeliveryReports, Frame, WireFrame, PacketCrc, PackAll, AllBytes, ReadFields, IsHostField;
    TypedPipeline(packet.storage.Length, decoder.Snapshot(), cmd, fields);
    packet.SetCommand(cmd);
    packet.SetData([]);
    var packer := new CppPacker(packet);
    var _ := PackFields(packer, fields);
    var start := |bus.written|;
    var _ := bus.WritePacket(packet);
    var wire := bus.written[start..];
    assert wire == Frame(cmd, packet.Data());
    codes := Feed(decoder, wire);
    var unpacker := new PyUnpacker(decoder.packet.data);
    received := UnpackAll(unpacker, KindsOf(fields));
    more := unpacker.MoreData();
  }

  /** Any text of Unicode scalar values, without NUL and such that string and checksum fit the
      host's packet, is on the host what it was on the device. */
  method SendText(bus: Bus, packet: CppPacket, decoder: PyDecoder, cmd: byte, text: seq<scalar>)
    returns (codes: seq<ErrorCode>, read: seq<scalar>)
    requires text != [] && 0 !in text
    requires |EncodeText(text)| <= 253 && |EncodeText(text)| + 2 <= packet.storage.Length
    requires decoder.state == Idle && !decoder.escape
    modifies bus`written, bus.encoder, packet, packet.storage, decoder, decoder.packet
    ensures codes == Codes(DeliveryReports(cmd, [|EncodeText(text)| + 1] + EncodeText(text) + [0]))
    ensures read == text
  {
    hide DeliveryReports, EncodeText, DecodeText, IsUtf8, TextBytes;
    var str := EncodeText(text);
    EncodedTextIsUtf8(text);
    NulOnlyEncodesNul(text);
    TextBytesInNumbers(str);
    OneText(str);
    var received, more;
    codes, received, more := DeviceToHost(bus, packet, decoder, cmd, [Str(str)]);
    read := DecodeText(received.value[0].str);
  }

  lemma OneText(str: seq<byte>)
    ensures AllBytes(CallsFor([Str(str)])) == TextBytes(str)
  {
    assert [Str(str)][1..] == [];
  }

  /** The host takes packets of up to 255 data bytes; of a larger one it reports the excess
      byte by byte and judges the first 256 by the last of them. */
  lemma HostPacketSize(s: Decoder, cmd: byte, data: seq<byte>)
    requires s.mode == Idle && !s.escape
    ensures var reports := Run(Python, MAX_DATA_LEN, s, WireFrame(cmd, data)).reports;
            if |data| <= 255 then reports == DeliveryReports(cmd, data)
            else
              && Count(reports, TOO_MUCH_DATA) == |data| - 255
              && reports[|reports| - 1]
                 == Report(if PacketCrc(cmd, data[..255]) == data[255] then NONE else CRC, [cmd] + data[..256])
  {
    hide Run, BodyReports, DeliveryReports, Frame, WireFrame, Escape, PacketCrc, Crc8, Count;
    FrameOnTheWire(cmd, data);
    if |data| <= 255 {
      FrameIsDelivered(Python, MAX_DATA_LEN, s, cmd, data);
    } else {
      OversizeFrame(s, cmd, data);
    }
  }

  lemma OversizeFrame(s: Decoder, cmd: byte, data: seq<byte>)
    requires s.mode == Idle && !s.escape && |data| >= 256
    ensures var reports := Run(Python, 256, s, Frame(cmd, data)).reports;
            && Count(reports, TOO_MUCH_DATA) == |data| - 255
            && reports[|reports| - 1]
               == Report(if PacketCrc(cmd, data[..255]) == data[255] then NONE else CRC, [cmd] + data[..256])
  {
    hide Run, BodyReports, Escape, PacketCrc, Crc8, Count;
    var content := Content(cmd, data);
    FrameRun(Python, 256, s, content);
    OversizePacketIsTruncated(Python, 256, s, cmd, data);
    var body := Run(Python, 256, s, [END] + Escape(content)).reports;
    CountChains(body, [Verdict(256, content)], TOO_MUCH_DATA);
    CountOne(Verdict(256, content), TOO_MUCH_DATA);
    AcceptanceIsZeroResidue(cmd, data[..255], data[255]);
    assert content[..257] == [cmd] + data[..256] == [cmd] + data[..255] + [data[255]];
  }

  // ---------- From the host to the device ----------

  method PyPackField(packer: PyPacker, f: Field)
    modifies packer.packet`data
    ensures packer.packet.data == old(packer.packet.data) + PyBytes(f)
  {
    hide LittleEndian, PyTextBytes;
    match f
    case U8(value) => packer.PackU8(value);
    case U16(value) => packer.PackU16(value);
    case U32(value) => packer.PackU32(value);
    case Str(str) => packer.PackStr(str);
  }

  method PyPackFields(packer: PyPacker, fields: seq<Field>)
    modifies packer.packet`data
    ensures packer.packet.data == old(packer.packet.data) + AllPyBytes(fields)
    decreases fields
  {
    hide PyBytes;
    if fields != [] {
      PyPackField(packer, fields[0]);
      PyPackFields(packer, fields[1..]);
    }
  }

  /** The host's write loop, on a channel that accepts so many bytes and then fails: what is on
      the wire is the frame, or as much of it as was accepted, and the code says which. */
  method WritePacket(encoder: PyEncoder, packet: PyPacket, accepted: nat)
    returns (wire: seq<byte>, code: ErrorCode)
    modifies encoder, packet`crc
    ensures var frame := WireFrame(packet.cmd, packet.data);
            if |frame| <= accepted then wire == frame && code == NONE
            else wire == frame[..accepted] && code == OS
  {
    hide Frame, WireFrame, Pending;
    FrameOnTheWire(packet.cmd, packet.data);
    ghost var frame := Frame(packet.cmd, packet.data);
    encoder.EncodeStart(packet);
    code, wire := NOT_DONE, [];
    while code == NOT_DONE
      invariant encoder.packet == packet && encoder.Ready() && |wire| <= accepted
      invariant code == NOT_DONE ==> wire + encoder.Remaining() == frame
      invariant code != NOT_DONE ==> code == NONE && wire == frame
      decreases if code == NOT_DONE then |encoder.Remaining()| else 0
    {
      ghost var before := wire;
      var b;
      b, code := encoder.EncodeByte();
      OneByteOn(before, b, if code == NONE then [] else encoder.Remaining(), frame);
      if |wire| == accepted {
        return wire, OS;
      }
      wire := wire + [b];
    }
  }

  lemma OneByteOn(before: seq<byte>, b: byte, rest: seq<byte>, frame: seq<byte>)
    requires before + ([b] + rest) == frame || (rest == [] && before + [b] == frame)
    ensures before + [b] + rest == frame
    ensures |before| < |frame| && frame[..|before|] == before
  {
  }

  /** The C++ unpacker's call for one kind of field; a string is read up to its NUL. */
  method ViewOne(u: CppUnpacker, kind: Kind) returns (r: Option<Field>)
    requires u.Valid()
    modifies u`position, u`remaining
    ensures u.Valid()
    ensures match ViewField(old(u.View()), kind)
            case None => r == None
            case Some(read) => r == Some(read.0) && u.View() == read.1
  {
    var ok, value, at;
    match kind
    case KindU8 =>
      ok, value := u.UnpackScalar(1);
      return if ok then Some(U8(value)) else None;
    case KindU16 =>
      ok, value := u.UnpackScalar(2);
      return if ok then Some(U16(value)) else None;
    case KindU32 =>
      ok, value := u.UnpackScalar(4);
      return if ok then Some(U32(value)) else None;
    case KindStr =>
      ghost var view, start := u.View(), u.position;
      ok, at := u.UnpackString();
      if !ok {
        return None;
      }
      assert view == u.buffer[start..u.position + u.remaining];
      var memory := u.buffer[at..u.position + u.remaining];
      assert memory == view[1..];
      return Some(Str(CString(memory)));
  }

  /** One call after the other, up to the first that fails. */
  method ViewAll(u: CppUnpacker, kinds: seq<Kind>) returns (r: Option<seq<Field>>)
    requires u.Valid()
    modifies u`position, u`remaining
    ensures u.Valid()
    ensures match ViewFields(old(u.View()), kinds)
            case None => r == None
            case Some(read) => r == Some(read.0) && u.View() == read.1
    decreases kinds
  {
    hide ViewField;
    if kinds == [] {
      return Some([]);
    }
    var first := ViewOne(u, kinds[0]);
    if first == None {
      return None;
    }
    var rest := ViewAll(u, kinds[1..]);
    return if rest.Some? then Some([first.value] + rest.value) else None;
  }

  /** Packs, frames and writes on a channel that accepts everything. */
  method HostSend(encoder: PyEncoder, cmd: byte, fields: seq<Field>) returns (wire: seq<byte>)
    modifies encoder
    ensures wire == Frame(cmd, AllPyBytes(fields))
  {
    hide AllPyBytes, Frame, WireFrame;
    var packet := new PyPacket(cmd, []);
    var packer := new PyPacker(packet);
    PyPackFields(packer, fields);
    assert packet.data == AllPyBytes(fields);
    FrameLength(cmd, packet.data);
    FrameOnTheWire(cmd, packet.data);
    var code;
    wire, code := WritePacket(encoder, packet, 2 * |packet.data| + 6);
  }

  /** Fields packed in Python and written by the host's loop come out of the C++ decoder and
      unpacker as they went in, with nothing left. */
  method HostToDevice(encoder: PyEncoder, bus: Bus, cmd: byte, fields: seq<Field>)
    returns (codes: seq<ErrorCode>, received: Option<seq<Field>>, left: nat)
    requires forall f <- fields :: IsField(f)
    requires bus.Valid() && bus.decoder.state == Idle && !bus.decoder.escape
    requires |AllPyBytes(fields)| < bus.cmdPacket.storage.Length
    modifies encoder, bus`input, bus.decoder, bus.cmdPacket, bus.cmdPacket.storage
    ensures codes == Codes(DeliveryReports(cmd, AllPyBytes(fields)))
    ensures bus.Valid() && bus.cmdPacket.command == cmd
    ensures received == Some(fields) && left == 0
  {
    hide Run, DeliveryReports, Frame, PacketCrc, AllPyBytes, ViewFields, IsField;
    TypedPipelineToDevice(bus.cmdPacket.storage.Length, bus.decoder.Snapshot(), cmd, fields);
    bus.input := HostSend(encoder, cmd, fields);
    codes := ReceiveAll(bus);
    var unpacker := new CppUnpacker(bus.cmdPacket);
    received := ViewAll(unpacker, KindsOf(fields));
    left := unpacker.remaining;
    assert |unpacker.View()| == left;
  }
}
