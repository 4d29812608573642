/** The device's bus: reading bytes through the decoder, writing packets through the encoder,
    and dispatching a received packet to the first handler that accepts it. The hardware is an
    input byte sequence and an append-only output sequence. */
module DeviceBus {
  import opened Crc
  import opened Slip
  import opened WireFormat
  import opened Decoding
  import opened Packets
  import opened Decoders
  import opened Encoders
  import opened Delivery

  // ---------- Handlers ----------

  const PING: byte := 0x01
  const DEBUG: byte := 0x02
  const STACK_INFO: byte := 0x04
  const HEAP_INFO: byte := 0x05

  /** Whether a handler accepted a command, and the contents of the response packet. */
  datatype Handled = Handled(accepted: bool, response: Message)

  type Reaction = (Message, Message) -> Handled

  /** The handler for core commands, whose answers other than to PING come from the platform,
      or any other handler. */
  datatype Handler = Core(platform: (Message, Message) -> Message) | Other(react: Reaction)

  function React(h: Handler, cmd: Message, response: Message): Handled {
    match h
    case Core(platform) =>
      if cmd.cmd == PING then Handled(true, Message(PING, cmd.data))
      else if cmd.cmd in {DEBUG, STACK_INFO, HEAP_INFO} then Handled(true, platform(cmd, response))
      else Handled(false, response)
    case Other(react) => react(cmd, response)
  }

  /** The handlers in turn, up to the first that accepts. */
  function Dispatch(handlers: seq<Handler>, cmd: Message, response: Message): Handled {
    if handlers == [] then Handled(false, response)
    else
      var h := React(handlers[0], cmd, response);
      if h.accepted then h else Dispatch(handlers[1..], cmd, h.response)
  }

  /** No handler that is asked overfills the response packet, which it would fail an assert
      for. */
  predicate ResponsesFit(handlers: seq<Handler>, cmd: Message, response: Message, cap: nat) {
    handlers == [] ||
    var h := React(handlers[0], cmd, response);
    && |h.response.data| <= cap
    && (!h.accepted ==> ResponsesFit(handlers[1..], cmd, h.response, cap))
  }

  class Bus {
    const cmdPacket: CppPacket
    const rspPacket: CppPacket
    const decoder: CppDecoder
    const encoder: CppEncoder
    var handlers: seq<Handler>
    var input: seq<byte>
    var written: seq<byte>

    /** The two packets and their buffers are distinct objects. */
    predicate Valid()
      reads this, cmdPacket, rspPacket
    {
      && cmdPacket.Valid() && rspPacket.Valid() && decoder.packet == cmdPacket
      && cmdPacket != rspPacket && cmdPacket.storage != rspPacket.storage
    }

    constructor (cmd: CppPacket, rsp: CppPacket, input: seq<byte>)
      requires cmd.Valid() && rsp.Valid() && cmd != rsp && cmd.storage != rsp.storage
      ensures Valid() && fresh(decoder) && fresh(encoder)
      ensures cmdPacket == cmd && rspPacket == rsp && this.input == input
      ensures written == [] && handlers == [] && decoder.state == Idle && !decoder.escape
    {
      cmdPacket, rspPacket, handlers, this.input, written := cmd, rsp, [], input, [];
      decoder := new CppDecoder(cmd);
      encoder := new CppEncoder();
    }

    function Received(): Message
      requires cmdPacket.Valid()
      reads cmdPacket, cmdPacket.storage
    {
      Message(cmdPacket.command, cmdPacket.Data())
    }

    function Response(): Message
      requires rspPacket.Valid()
      reads rspPacket, rspPacket.storage
    {
      Message(rspPacket.command, rspPacket.Data())
    }

    method Add(handler: Handler)
      modifies `handlers
      ensures handlers == old(handlers) + [handler]
    {
      handlers := handlers + [handler];
    }

    method ProcessByte() returns (code: ErrorCode)
      requires Valid()
      modifies `input, decoder, cmdPacket, cmdPacket.storage
      ensures Valid()
      ensures old(input) == [] ==> code == NOT_DONE && input == [] && decoder.Snapshot() == old(decoder.Snapshot())
      ensures old(input) != [] ==>
        && input == old(input)[1..]
        && Outcome(decoder.Snapshot(), code)
           == Step(Cpp, cmdPacket.storage.Length, old(decoder.Snapshot()), old(input)[0])
    {
      if input == [] {
        return NOT_DONE;
      }
      var b := input[0];
      input := input[1..];
      code := decoder.DecodeByte(b);
    }

    /** Emits exactly the frame of the packet, and of the packet changes only its checksum. */
    method WritePacket(packet: CppPacket) returns (code: ErrorCode)
      requires packet.Valid()
      modifies `written, encoder, packet`crc
      ensures written == old(written) + Frame(packet.command, packet.Data())
      ensures written == old(written) + WireFrame(packet.command, packet.Data())
      ensures packet.crc == PacketCrc(packet.command, packet.Data())
      ensures code == NONE && encoder.state == Start
    {
      hide Frame, WireFrame;
      FrameOnTheWire(packet.command, packet.Data());
      encoder.EncodeStart(packet);
      code := NOT_DONE;
      while code == NOT_DONE
        invariant encoder.packet == packet && encoder.Ready()
        invariant packet.crc == PacketCrc(packet.command, packet.Data())
        invariant code == NOT_DONE ==>
          written + encoder.Remaining() == old(written) + Frame(packet.command, packet.Data())
        invariant code != NOT_DONE ==>
          && code == NONE && encoder.state == Start
          && written == old(written) + Frame(packet.command, packet.Data())
        decreases if code == NOT_DONE then |encoder.Remaining()| else 0
      {
        ghost var remaining := encoder.Remaining();
        var b;
        b, code := encoder.EncodeByte();
        assert code == NOT_DONE ==> (written + [b]) + encoder.Remaining() == written + remaining;
        written := written + [b];
      }
    }

    /** Runs one handler on the response packet in place. */
    method Ask(h: Handler) returns (accepted: bool)
      requires Valid()
      requires |React(h, Received(), Response()).response.data| <= rspPacket.storage.Length
      modifies rspPacket`command, rspPacket`dataLen, rspPacket.storage
      ensures Valid()
      ensures Handled(accepted, Response()) == React(h, old(Received()), old(Response()))
      ensures h.Other? ==> Handled(accepted, Response()) == h.react(old(Received()), old(Response()))
      ensures h.Core? ==> (accepted <==> cmdPacket.command in {0x01, 0x02, 0x04, 0x05})
      ensures h.Core? && !accepted ==> Response() == old(Response())
      ensures Received() == old(Received())
    {
      match h
      case Core(platform) =>
        var cmd := cmdPacket.command;
        if cmd == PING {
          HandlePing();
          return true;
        }
        if cmd in {DEBUG, STACK_INFO, HEAP_INFO} {
          var answer := platform(Received(), Response());
          rspPacket.SetCommand(answer.cmd);
          rspPacket.SetData(answer.data);
          return true;
        }
        return false;
      case Other(react) =>
        var answer := react(Received(), Response());
        rspPacket.SetCommand(answer.response.cmd);
        rspPacket.SetData(answer.response.data);
        return answer.accepted;
    }

    /** Echoes the data of the PING command. */
    method HandlePing()
      requires Valid() && cmdPacket.dataLen <= rspPacket.storage.Length
      modifies rspPacket`command, rspPacket`dataLen, rspPacket.storage
      ensures Valid() && Response() == Message(0x01, Received().data)
      ensures Received() == old(Received())
    {
      rspPacket.SetCommand(PING);
      rspPacket.SetData(cmdPacket.Data());
    }

    /** The first handler that accepts decides the response, which is written to the bus if it
        has a command; if none accepts, nothing is written. */
    method HandlePacket() returns (accepted: bool)
      requires Valid()
      requires ResponsesFit(handlers, Received(), Message(0, []), rspPacket.storage.Length)
      modifies `written, encoder, rspPacket, rspPacket.storage
      ensures Valid() && Received() == old(Received())
      ensures Handled(accepted, Response()) == Dispatch(handlers, Received(), Message(0, []))
      ensures !accepted <==> forall k :: 0 <= k < |handlers| ==> Refuses(handlers, Received(), Message(0, []), k)
      ensures !accepted || Response().cmd == 0 ==> written == old(written)
      ensures accepted && Response().cmd != 0 ==>
        written == old(written) + WireFrame(Response().cmd, Response().data)
    {
      hide Frame, WireFrame, React;
      DispatchAcceptsIff(handlers, Received(), Message(0, []));
      rspPacket.SetCommand(0);
      rspPacket.SetData([]);
      var i := 0;
      while i < |handlers|
        invariant 0 <= i <= |handlers| && Valid()
        invariant Received() == old(Received()) && written == old(written)
        invariant ResponsesFit(handlers[i..], Received(), Response(), rspPacket.storage.Length)
        invariant Dispatch(handlers[i..], Received(), Response())
               == Dispatch(handlers, Received(), Message(0, []))
      {
        assert handlers[i..][1..] == handlers[i + 1..];
        accepted := Ask(handlers[i]);
        if accepted {
          if rspPacket.command != 0 {
            var _ := WritePacket(rspPacket);
          }
          return true;
        }
        i := i + 1;
      }
      return false;
    }
  }

  // ---------- First match ----------

  /** The responses that the first k handlers leave, as long as none accepts. */
  function Passed(handlers: seq<Handler>, cmd: Message, response: Message, k: nat): Message
    requires k <= |handlers|
  {
    if k == 0 then response
    else Passed(handlers[1..], cmd, React(handlers[0], cmd, response).response, k - 1)
  }

  predicate Refuses(handlers: seq<Handler>, cmd: Message, response: Message, k: nat)
    requires k < |handlers|
  {
    !React(handlers[k], cmd, Passed(handlers, cmd, response, k)).accepted
  }

  /** Handler k answers exactly if it accepts and all before it refuse; what it sees of the
      response is what they left. */
  lemma {:induction false} FirstMatchAnswers(handlers: seq<Handler>, cmd: Message, response: Message, k: nat)
    requires k < |handlers|
    requires forall j: nat :: j < k ==> Refuses(handlers, cmd, response, j)
    requires !Refuses(handlers, cmd, response, k)
    ensures Dispatch(handlers, cmd, response)
         == React(handlers[k], cmd, Passed(handlers, cmd, response, k))
    decreases k
  {
    if k > 0 {
      var left := React(handlers[0], cmd, response).response;
      assert Refuses(handlers, cmd, response, 0);
      forall j: nat | j < k - 1
        ensures Refuses(handlers[1..], cmd, left, j)
      {
        assert Refuses(handlers, cmd, response, j + 1);
      }
      FirstMatchAnswers(handlers[1..], cmd, left, k - 1);
    }
  }

  /** Some handler accepts exactly if not all refuse, and if all do, each has seen what those
      before it left of the response. */
  lemma {:induction false} DispatchAcceptsIff(handlers: seq<Handler>, cmd: Message, response: Message)
    ensures var h := Dispatch(handlers, cmd, response);
            && (!h.accepted <==> forall k :: 0 <= k < |handlers| ==> Refuses(handlers, cmd, response, k))
            && (!h.accepted ==> h.response == Passed(handlers, cmd, response, |handlers|))
    decreases |handlers|
  {
    hide React;
    if handlers != [] {
      var left := React(handlers[0], cmd, response).response;
      DispatchAcceptsIff(handlers[1..], cmd, left);
      assert Refuses(handlers, cmd, response, 0) <==> !React(handlers[0], cmd, response).accepted;
      forall k: nat | k < |handlers| - 1
        ensures Refuses(handlers[1..], cmd, left, k) == Refuses(handlers, cmd, response, k + 1)
      {
      }
      if forall k :: 0 <= k < |handlers| ==> Refuses(handlers, cmd, response, k) {
        assert forall k :: 0 <= k < |handlers| - 1 ==>
          Refuses(handlers[1..], cmd, left, k) == Refuses(handlers, cmd, response, k + 1);
      } else if !React(handlers[0], cmd, response).accepted {
        var k :| 0 <= k < |handlers| && !Refuses(handlers, cmd, response, k);
        assert !Refuses(handlers[1..], cmd, left, k - 1);
      }
    }
  }

  // ---------- The core handler among others ----------

  /** Of a command that is none of its four, a core handler takes no notice wherever it is
      registered: it neither answers nor touches what later handlers see. */
  lemma {:induction false} CoreIsPassedOver(handlers: seq<Handler>, cmd: Message, response: Message, k: nat)
    requires k < |handlers| && handlers[k].Core?
    requires cmd.cmd !in {0x01, 0x02, 0x04, 0x05}
    ensures Dispatch(handlers, cmd, response)
         == Dispatch(handlers[..k] + handlers[k + 1..], cmd, response)
    decreases k
  {
    var others := handlers[..k] + handlers[k + 1..];
    if k == 0 {
      assert others == handlers[1..];
    } else {
      CoreIsPassedOver(handlers[1..], cmd, React(handlers[0], cmd, response).response, k - 1);
      assert others[1..] == handlers[1..][..k - 1] + handlers[1..][k..];
    }
  }

  /** Its four commands never fall through a core handler: if those before it refuse, it
      accepts, and answers PING with the command's own data. */
  lemma CoreAccepts(handlers: seq<Handler>, cmd: Message, response: Message, k: nat)
    requires k < |handlers| && handlers[k].Core?
    requires cmd.cmd in {0x01, 0x02, 0x04, 0x05}
    ensures Dispatch(handlers, cmd, response).accepted
    ensures (forall j: nat :: j < k ==> Refuses(handlers, cmd, response, j)) ==>
      Dispatch(handlers, cmd, response).response
      == if cmd.cmd == 0x01 then Message(0x01, cmd.data)
         else handlers[k].platform(cmd, Passed(handlers, cmd, response, k))
  {
    assert !Refuses(handlers, cmd, response, k);
    DispatchAcceptsIff(handlers, cmd, response);
    if forall j: nat :: j < k ==> Refuses(handlers, cmd, response, j) {
      FirstMatchAnswers(handlers, cmd, response, k);
    }
  }

  /** A handler that lets a command pass and leaves the empty response alone. */
  predicate LetsPass(h: Handler, cmd: Message) {
    match h
    case Core(_) => cmd.cmd !in {0x01, 0x02, 0x04, 0x05}
    case Other(react) => react(cmd, Message(0, [])) == Handled(false, Message(0, []))
  }

  /** Handlers that let a command pass may as well not be there. */
  lemma {:induction false} PassedOn(handlers: seq<Handler>, cmd: Message, k: nat, cap: nat)
    requires k <= |handlers| && forall j :: 0 <= j < k ==> LetsPass(handlers[j], cmd)
    ensures Dispatch(handlers, cmd, Message(0, [])) == Dispatch(handlers[k..], cmd, Message(0, []))
    ensures ResponsesFit(handlers[k..], cmd, Message(0, []), cap) ==> ResponsesFit(handlers, cmd, Message(0, []), cap)
    decreases k
  {
    if k == 0 {
      assert handlers[0..] == handlers;
    } else {
      assert LetsPass(handlers[0], cmd);
      PassedOn(handlers[1..], cmd, k - 1, cap);
      assert handlers[1..][k - 1..] == handlers[k..];
    }
  }

  lemma PingIsEchoed(handlers: seq<Handler>, data: seq<byte>, k: nat, cap: nat)
    requires k < |handlers| && handlers[k].Core?
    requires forall j :: 0 <= j < k ==> LetsPass(handlers[j], Message(0x01, data))
    requires |data| <= cap
    ensures Dispatch(handlers, Message(0x01, data), Message(0, [])) == Handled(true, Message(0x01, data))
    ensures ResponsesFit(handlers, Message(0x01, data), Message(0, []), cap)
  {
    PassedOn(handlers, Message(0x01, data), k, cap);
  }

  // ---------- The device's loop ----------

  /** Every byte of input through ProcessByte, as the bus tests do it; the codes are those of
      the run over the input. */
  method ReceiveAll(bus: Bus) returns (codes: seq<ErrorCode>)
    requires bus.Valid()
    modifies bus`input, bus.decoder, bus.cmdPacket, bus.cmdPacket.storage
    ensures bus.Valid() && bus.input == []
    ensures var t := Run(Cpp, bus.cmdPacket.storage.Length, old(bus.decoder.Snapshot()), old(bus.input));
            bus.decoder.Snapshot() == t.end && codes == Codes(t.reports)
    ensures bus.Response() == old(bus.Response())
  {
    hide Run, Step, ReportOf;
    ghost var cap, s, whole := bus.cmdPacket.storage.Length, bus.decoder.Snapshot(), bus.input;
    ghost var i := 0;
    codes := [];
    RunOnNothing(Cpp, cap, s);
    assert whole[..0] == [];
    while bus.input != []
      invariant bus.Valid() && bus.Response() == old(bus.Response())
      invariant i <= |whole| && bus.input == whole[i..]
      invariant var t := Run(Cpp, cap, s, whole[..i]); bus.decoder.Snapshot() == t.end && codes == Codes(t.reports)
      decreases |bus.input|
    {
      ghost var before := bus.decoder.Snapshot();
      var code := bus.ProcessByte();
      codes := codes + [code];
      RunOne(Cpp, cap, before, whole[i]);
      RunChains(Cpp, cap, s, whole[..i], [whole[i]]);
      assert whole[..i + 1] == whole[..i] + [whole[i]];
      CodeOfReport(Step(Cpp, cap, before, whole[i]));
      i := i + 1;
    }
    assert whole[..i] == whole;
  }

  /** A PING frame through the decoder, and the packet to the handlers, as the device does on
      NONE: the frame comes back byte for byte. */
  method AnswerPing(bus: Bus, data: seq<byte>, k: nat) returns (codes: seq<ErrorCode>, accepted: bool)
    requires bus.Valid() && bus.decoder.state == Idle && !bus.decoder.escape
    requires bus.input == WireFrame(0x01, data)
    requires |data| < bus.cmdPacket.storage.Length && |data| <= bus.rspPacket.storage.Length
    requires k < |bus.handlers| && bus.handlers[k].Core?
    requires forall j :: 0 <= j < k ==> LetsPass(bus.handlers[j], Message(0x01, data))
    modifies bus`input, bus`written, bus.decoder, bus.encoder
    modifies bus.cmdPacket, bus.cmdPacket.storage, bus.rspPacket, bus.rspPacket.storage
    ensures codes == Codes(DeliveryReports(0x01, data)) && accepted
    ensures bus.written == old(bus.written) + old(bus.input)
  {
    hide Run, DeliveryReports, Frame, WireFrame;
    FrameOnTheWire(0x01, data);
    FrameIsDelivered(Cpp, bus.cmdPacket.storage.Length, bus.decoder.Snapshot(), 0x01, data);
    codes := ReceiveAll(bus);
    PingIsEchoed(bus.handlers, data, k, bus.rspPacket.storage.Length);
    accepted := bus.HandlePacket();
  }

  /** The frame of any command, answered by the first handler that does not let it pass: what
      that handler answers is written as a frame, or nothing if the answer has no command. If
      every handler lets the command pass, core handlers among them, it is not accepted and
      nothing is written. */
  method AnswerCommand(bus: Bus, cmd: Message, k: nat) returns (codes: seq<ErrorCode>, accepted: bool)
    requires bus.Valid() && bus.decoder.state == Idle && !bus.decoder.escape
    requires bus.input == WireFrame(cmd.cmd, cmd.data) && |cmd.data| < bus.cmdPacket.storage.Length
    requires k <= |bus.handlers| && forall j :: 0 <= j < k ==> LetsPass(bus.handlers[j], cmd)
    requires k < |bus.handlers| ==>
      && bus.handlers[k].Other?
      && var answer := bus.handlers[k].react(cmd, Message(0, []));
         answer.accepted && |answer.response.data| <= bus.rspPacket.storage.Length
    modifies bus`input, bus`written, bus.decoder, bus.encoder
    modifies bus.cmdPacket, bus.cmdPacket.storage, bus.rspPacket, bus.rspPacket.storage
    ensures codes == Codes(DeliveryReports(cmd.cmd, cmd.data))
    ensures bus.handlers == old(bus.handlers) && (accepted <==> k < |bus.handlers|)
    ensures !accepted ==> bus.written == old(bus.written)
    ensures accepted ==>
      var answer := bus.handlers[k].react(cmd, Message(0, [])).response;
      bus.written == old(bus.written) + if answer.cmd == 0 then [] else WireFrame(answer.cmd, answer.data)
  {
    hide Run, DeliveryReports, Frame, WireFrame;
    FrameOnTheWire(cmd.cmd, cmd.data);
    FrameIsDelivered(Cpp, bus.cmdPacket.storage.Length, bus.decoder.Snapshot(), cmd.cmd, cmd.data);
    codes := ReceiveAll(bus);
    PassedOn(bus.handlers, cmd, k, bus.rspPacket.storage.Length);
    accepted := bus.HandlePacket();
  }
}
