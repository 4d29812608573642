# Verified model of duino_bus

duino_bus carries packets between a device (C++) and a host (Python). A packet is a command, data
and a CRC-8; on the wire it is framed with SLIP (the PROTOCOL section of RFC 1055, with an END on
both sides). Each side has its own encoder and its own decoder, which work one byte at a time. This
project models both implementations and proves what they do over whole byte streams:

- **Recovery.** After any noise, from any reachable state, the Python decoder loses at most one
  packet, and exactly which states lose it is proved. The same claim is false of the C++ decoder, and
  a three-byte frame shows it. For C++ the exact condition is proved: it loses nothing if and only if
  the noise left it outside DATA with no escape pending, and at most one packet if and only if that
  holds or what an END closes during the first frame happens to have checksum zero.
- **Streaming is parsing.** Fed byte by byte, the Python decoder reports on every stream what a
  recursive parser without states or escape flag says of the stream as a whole.
- **Error detection.** Odd numbers of flipped bits and bursts within eight bits are always reported,
  at any packet length; two flipped bits are reported exactly if 127 does not divide their distance.
- **Round trips.** Packet sequences with noise between frames, typed fields in both directions
  through the classes of both sides, log records and PING echoes arrive as they were sent.
- **The wire in numbers.** Every frame that either side writes is given in literal bytes, and both
  decoders deliver a packet from every spelling of it, with each byte plain, as its code or behind an
  ESC that it does not need.
- **Agreement.** The two decoders are the same up to and including the first CRC or TOO_SMALL.
- **The layers on top.** Bounded packing, first-match dispatch, truncated log messages, and a hex
  dump whose reused line buffer never shows stale bytes.

## How the model is built

| file | contents |
|---|---|
| `Crc.dfy` | the checksum, byte by byte and bit by bit, as a linear invertible map |
| `ErrorPatterns.dfy` | parity, bursts, and the order of x modulo the polynomial |
| `Slip.dfy` | escaping, frames, and reading them back |
| `WireFormat.dfy` | the bytes of a frame in numbers |
| `Decoding.dfy` | the decoders' step function, runs, and what happens inside one frame |
| `Spellings.dfy` | all the ways to write a packet, and that both decoders deliver it from any of them |
| `BatchParsing.dfy` | the recursive parser and the refinement |
| `Delivery.dfy` | packet sequences, corrupted and oversize packets, agreement of the two decoders |
| `Resynchronising.dfy` | self-stabilisation: always in Python, and exactly when in C++ |
| `Packets.dfy`, `Decoders.dfy`, `Encoders.dfy` | the classes of the two implementations |
| `DeviceBus.dfy` | the device's bus, dispatch, PING |
| `Utf8.dfy` | which byte strings Python accepts as text, and which text they are |
| `Packing.dfy` | packers, unpackers, and what typed fields become on the way |
| `Pipelines.dfy` | packer, bus, decoder and unpacker objects put together, in both directions |
| `BusLog.dfy` | log records |
| `HexDump.dfy` | the memory dump, and what its reader sees |

Objects whose methods update fields are classes; their methods are proved against functions on
abstract states (`Decoding.Step` for the decoders, the bytes still to be sent for the encoders), and
the theorems are about those functions over whole runs. `DeviceBus.AnswerPing`,
`DeviceBus.AnswerCommand`, `Pipelines.DeviceToHost` and `Pipelines.HostToDevice` run the classes
themselves end to end. `Decoding.Dialect` chooses between the two decoders, which differ only in the
state after CRC and TOO_SMALL. A `Report` is what the caller of one decoding step sees: the code
and, unless it is NOT_DONE, what the packet holds. The capacity `cap` is a parameter everywhere; in
Python it is the constant 256. A bus is an input byte sequence and an append-only output sequence.
The source's asserts are preconditions, so that a verified call is an assert that cannot fail.
Integers are unbounded; eight-bit lengths wrap explicitly. Multi-byte integers are little-endian,
which the Python side fixes and the C++ side gets from its targets. `hide` statements keep
definitions out of proofs that need only their laws.

Places where the code is narrower than its comments, each with its exact condition:

- The C++ decoder stays in DATA after an error and may never deliver again. It loses nothing if and
  only if the noise left it synchronised, and at most the first packet if and only if
  `Resynchronising.CppRecovers` (`Resynchronising.CppDecoderStabilisesIff`). As long as everything
  fits, that depends on the state alone (`Resynchronising.CppRecoversWithRoom`): with nothing
  collected, for instance, on whether the command is 0.
- The last byte of a frame can report the frame's packet though it was spoilt, if the buffer is full
  of the same content already (`Resynchronising.LastReportIsThePacket`).
- A string survives C++ packing and Python unpacking if and only if it is UTF-8 of 1 to 254 bytes: the
  length byte wraps from 255 on, and an empty string comes back as its NUL (`Packing.StringSurvives`).
  A truncated log message may end within a character, and then the host cannot read it
  (`BusLog.HostReadsLogRecord`, `BusLog.TruncationCanSplitCharacter`).
- The hex dump's address column holds addresses from -0xfff to 0xffff; others raise ValueError
  (`HexDump.AddrFitsFourColumns`, `HexDump.AddrsFitIffEndsDo`).

## Model

| member | source | states |
|---|---|---|
| Resynchronising.PythonDecoderStabilises | duino_bus/packet_decoder.py:31-109 | from any reachable state, after any noise, every packet but the first gets NOT_DONE on all bytes but its last and NONE with its command, data and checksum on its last; the first one is delivered too if and only if the noise left no escape pending and nothing collected |
| Resynchronising.FrameSynchronises | duino_bus/packet_decoder.py:35-109 | whatever state a frame finds, it leaves the decoder outside DATA with no escape pending, and its packet is delivered exactly from the clean states |
| Resynchronising.FrameFromAnyState | src/PacketDecoder.cpp:31-111 | in either implementation and from any reachable state: everything reported after a frame's opening END, and whether the decoder is synchronised after the frame |
| Resynchronising.FrameIsDeliveredIffOpen | src/PacketDecoder.cpp:51-109 | a frame's packet is delivered if and only if the state is clean in Python and synchronised in C++; the difference is DATA with nothing collected |
| Resynchronising.SpoiltFrame | duino_bus/packet_decoder.py:67-109 | the reports of a frame whose content follows other content are never those of a clean delivery: something is reported before the last byte, or the last byte reports something else |
| Resynchronising.LastReportIsThePacket | duino_bus/packet_decoder.py:67-109 | the last byte alone reports the packet if and only if the decoder was collecting and what it kept of everything seen is the packet's content |
| Resynchronising.BrokenOffPacketIsCompleted | duino_bus/packet_decoder.py:67-109 | an instance with other content before: the packet itself, broken off in its checksum |
| Resynchronising.SynchronisedDelivers | duino_bus/packet_decoder.py:31-109 | once synchronised, either decoder delivers all of back-to-back frames |
| Resynchronising.CppDecoderStabilisesIff | src/PacketDecoder.cpp:31-111 | after any noise from any reachable state: the first packet, and with it all packets, is delivered if and only if the noise left the C++ decoder synchronised; all but the first are delivered if and only if the first frame brings it back, by the residues that `CppRecovers` names |
| Resynchronising.CppDeliversIffSynchronised | src/PacketDecoder.cpp:51-109 | back-to-back packets are all delivered if and only if the C++ decoder starts synchronised |
| Resynchronising.CppFrameSynchronises | src/PacketDecoder.cpp:72-95 | the C++ decoder is synchronised after a frame if and only if it was before, or what an END closes meanwhile has checksum zero: one case each for an escape pending, nothing collected, and something collected |
| Resynchronising.CppRecoversWithRoom | src/PacketDecoder.cpp:72-107 | when everything fits, the frame's content plays no part: what counts is the checksum of what was collected before, and with nothing collected that the command is 0 |
| Resynchronising.ShortFrameDeafensCpp | src/PacketDecoder.cpp:72-95 | after END 01 END the C++ decoder delivers none of any number of PING packets, whatever its capacity, while the Python decoder delivers all of them |
| Resynchronising.DeafToPings | src/PacketDecoder.cpp:75-95 | the C++ states that no run of PING packets ever leaves |
| BatchParsing.StreamingRefinesParsing | duino_bus/packet_decoder.py:31-109 | on every byte stream the reports of the stepwise decoder are those of the recursive parser: skip to END, drop further ENDs, gather to the next END that no ESC precedes, judge; only a TOO_SMALL END opens the next frame. What the parser reads between two ENDs is settled in numbers by `Spellings.BodiesAreSpellings` |
| BatchParsing.FrameRefinesParsing | duino_bus/packet_decoder.py:65-100 | the same from inside the COMMAND state |
| Decoding.BodyRun | duino_bus/packet_decoder.py:31-109 | a frame body, with canonical or other escapes, broken off anywhere, leaves its unescaped content in the packet cut at the capacity, and each content byte beyond it is reported as TOO_MUCH_DATA; `Spellings.BodiesAreSpellings` says in numbers what the content is |
| Decoding.ClosingEnd | duino_bus/packet_decoder.py:80-100 | the closing END reports TOO_SMALL, NONE or CRC by the length and the residue of the content kept, and the state after it in each implementation |
| Decoding.FrameIsDelivered | src/PacketDecoder.cpp:51-109 | encode then decode is the identity: a packet that fits is delivered by the last byte of its frame and by no other, in both implementations |
| Decoding.RunIsSafe | src/PacketDecoder.cpp:31-111 | over any stream, also after errors: the data collected never exceeds the capacity, IDLE has no escape pending, BAD_STATE is never reported |
| Delivery.EveryPacketIsDelivered | src/PacketDecoder.cpp:31-111 | both decoders deliver exactly the packets of any sequence, with END-free noise and extra ENDs before each frame, and report nothing else |
| Delivery.FrameIsJudgedByItsResidue | duino_bus/packet_decoder.py:91-100 | any content that fits is accepted by its closing END if and only if its checksum is zero |
| Delivery.CorruptionIsReported | duino_bus/packet_decoder.py:91-100 | which bit flips in a packet's content go unnoticed: those that form a codeword, and no others |
| Delivery.OddAndBurstErrorsAreRejected | src/PacketDecoder.cpp:80-95 | an odd number of flipped bits, or flips within eight consecutive bits, end in CRC after NOT_DONE only, for packets of any length and in both implementations |
| Delivery.TwoBitErrorsAreRejected | src/PacketDecoder.cpp:80-95 | two flipped bits end in CRC if and only if their distance is not a multiple of 127 |
| Delivery.OversizePacketIsTruncated | src/PacketDecoder.cpp:97-107 | n data bytes into m: exactly n + 1 - m reports of TOO_MUCH_DATA, none before the first m are stored, and just before the closing END the buffer is the first m bytes of data and checksum |
| Delivery.StepsAgree | src/PacketDecoder.cpp:72-108 | from equal states the two decoders report the same and hold the same packet, and their states differ exactly after CRC and TOO_SMALL |
| Delivery.DialectsAgreeUntilError | src/PacketDecoder.cpp:72-108 | on every stream their reports agree up to and including the first CRC or TOO_SMALL, and their whole states agree before it |
| ErrorPatterns.OrderOfX | duino_bus/packet.py:58 | x has order exactly 127 modulo the CRC polynomial |
| ErrorPatterns.RegisterParity | duino_bus/packet.py:58 | the parity of the register is the parity of the bits fed to it, because x + 1 divides the polynomial |
| ErrorPatterns.BurstIsDetected | duino_bus/packet.py:58 | a burst within eight bits leaves a register other than zero |
| ErrorPatterns.PairIsDetectedUnless127Divides | duino_bus/packet.py:58 | two bits leave the register at zero exactly if 127 divides their distance |
| Crc.RegisterByBits | src/Packet.cpp:98-102 | feeding bytes is feeding their bits, most significant first |
| Crc.RegisterIsLinear | src/Packet.cpp:98-102 | the register is linear in its start value and in the message |
| Crc.StepIsInjective | duino_bus/packet.py:123-126 | the checksum step is injective in the byte and in the state |
| Crc.StepIsSurjective | duino_bus/packet.py:123-126 | and surjective in both, so a bijection |
| Slip.KnownChecksums | tests/PacketDecoderTest.cpp:75-141 | the checksums of the frames in the tests |
| Crc.CrcChains | src/Packet.cpp:98-102 | a checksum continued over a second block is that of the concatenation |
| Crc.ResidueBeforeCodeword | src/Packet.cpp:98-102 | in front of a message with checksum zero, the whole has checksum zero if and only if what comes before does |
| Crc.ResidueIsZeroIffCrcMatches | duino_bus/packet_decoder.py:91-93 | message and checksum together have checksum zero if and only if the checksum is the message's |
| Slip.PacketCrcIsCrcOfConcatenation | duino_bus/packet.py:123-126 | command first and then data is the checksum of command and data in one |
| Slip.AcceptanceIsZeroResidue | duino_bus/packet.py:132-138 | comparing the extracted checksum with the calculated one is testing the whole content for checksum zero |
| Slip.EscapedIsABody | src/PacketEncoder.cpp:40-52 | unescaping undoes escaping, and an escaped string never ends within an escape |
| Slip.BodyStopsAtEnd | src/PacketEncoder.cpp:81-83 | the first END after an escaped string is the one that closes it |
| Slip.EscapeHasNoEnd | src/PacketEncoder.cpp:40-52 | no END between the outer ENDs of a frame |
| Slip.EscapesAreComplete | src/PacketEncoder.cpp:40-52 | every ESC on the wire is followed by ESC_END or ESC_ESC |
| Slip.FrameLength | src/Bus.cpp:37-47 | a packet of n bytes takes n + 4 bytes and one for each END or ESC in its content, so between n + 4 and 2n + 6 |
| Slip.FramesArePrefixFree | src/PacketEncoder.cpp:54-93 | no frame is a prefix of another packet's frame; in particular encoding is injective |
| WireFormat.EscapedOnTheWire | src/PacketEncoder.cpp:40-52 | in numbers: 0xC0 goes out as 0xDB 0xDC, 0xDB as 0xDB 0xDD, any other byte as itself |
| WireFormat.FrameOnTheWire | src/PacketEncoder.cpp:54-93 | in numbers: 0xC0, then command, data and checksum so escaped, then 0xC0 |
| WireFormat.KnownFrames | tests/PacketEncoderTest.cpp:75-103 | the frames that the encoder's tests expect |
| Spellings.EscapedByteIsContent | src/PacketDecoder.cpp:35-49 | in numbers: outside IDLE 0xDB is dropped, and the byte after it, 0xC0 included, becomes the command or is stored if there is room, 0xDC as 0xC0, 0xDD as 0xDB and any other byte as itself |
| Spellings.BodiesAreSpellings | duino_bus/packet_decoder.py:35-46 | the strings that are read as some content up to the next END that no ESC precedes are exactly those that write each of its bytes plain, as its code, or as ESC and itself |
| Spellings.AnySpellingIsDelivered | src/PacketDecoder.cpp:31-111 | a packet that fits is delivered by the last byte of its frame and by no other, in both implementations, with every content byte in any of these forms |
| Spellings.NeedlessEscape | tests/PacketDecoderTest.cpp:166-175 | the test's stream C0 DB 01 02 03 48 C0 is the packet 01 with 02 03 |
| Encoders.CppEncoder.EncodeStart | src/PacketEncoder.cpp:29-38 | stores the checksum and leaves the whole frame to be emitted |
| Encoders.CppEncoder.HandleEscape | src/PacketEncoder.cpp:40-52 | the byte out and the escape character pending are 0xDB 0xDC for 0xC0, 0xDB 0xDD for 0xDB, and any other byte goes out as itself |
| Encoders.CppEncoder.EncodeByte | src/PacketEncoder.cpp:54-93 | emits the first of the bytes still to be sent and leaves the rest; NONE comes with the last, BAD_STATE never |
| Encoders.PyEncoder.EncodeStart | duino_bus/packet_encoder.py:30-36 | stores the checksum and leaves the whole frame to be emitted |
| Encoders.PyEncoder.HandleEscape | duino_bus/packet_encoder.py:38-46 | the byte out and the escape character pending are 0xDB 0xDC for 0xC0, 0xDB 0xDD for 0xDB, and any other byte goes out as itself |
| Encoders.PyEncoder.EncodeByte | duino_bus/packet_encoder.py:48-62 | emits the first of the bytes still to be sent and leaves the rest; NONE comes with the last, BAD_STATE never |
| Encoders.PyEncoder.EncodeByteIdle | duino_bus/packet_encoder.py:64-67 | emits the opening END |
| Encoders.PyEncoder.EncodeByteCommand | duino_bus/packet_encoder.py:69-73 | emits the first byte of the escaped content |
| Encoders.PyEncoder.EncodeByteData | duino_bus/packet_encoder.py:75-86 | emits the next byte of escaped data or checksum, or the closing END with NONE |
| Encoders.PyEncoder.EncodeByteEscape | duino_bus/packet_encoder.py:88-91 | emits the pending escape character |
| Decoders.CppDecoder.DecodeByte | src/PacketDecoder.cpp:31-111 | takes exactly the step of `Decoding.Step` in any state, with no assert failing, no write out of bounds and no BAD_STATE; after an ESC, with room left, a byte other than 0xDC and 0xDD is stored as itself |
| Decoders.PyDecoder.DecodeByte | duino_bus/packet_decoder.py:31-57 | takes exactly the step of `Decoding.Step` in any state; no BAD_STATE; after an ESC, with less than 256 bytes held, a byte other than 0xDC and 0xDD is stored as itself |
| Decoders.PyDecoder.DecodeByteIdle | duino_bus/packet_decoder.py:59-63 | waits for END |
| Decoders.PyDecoder.DecodeByteCommand | duino_bus/packet_decoder.py:65-76 | ignores further ENDs, else takes the command and empties the data |
| Decoders.PyDecoder.DecodeByteData | duino_bus/packet_decoder.py:78-109 | closes the frame on an END that is not escaped, else stores the byte if there is room |
| Packets.CppPacket.SetData | src/Packet.cpp:63-68 | replaces the data |
| Packets.CppPacket.AppendByte | src/Packet.cpp:70-73 | appends within the capacity |
| Packets.CppPacket.AppendData | src/Packet.cpp:75-81 | appends within the capacity |
| Packets.CppPacket.ExtractCrc | src/Packet.cpp:104-112 | moves the last data byte to the checksum field |
| Packets.CppPacket.CalcAndStoreCrc | src/Packet.cpp:114-116 | stores the checksum and changes nothing else |
| Packets.CppPacket.GetWriteData | src/duino_bus/Packet.h:121-127 | advances by any count and returns where the bytes start; the packet stays within its buffer exactly if the count fits |
| Packets.CppPacket.RemoveByte | src/duino_bus/Packet.h:174-179 | drops the last byte, if there is one |
| Packets.CppPacket.SetCommand | src/duino_bus/Packet.h:95-99 | replaces the command |
| Packets.PyPacket.SetCommand | duino_bus/packet.py:88-90 | replaces the command |
| Packets.PyPacket.SetData | duino_bus/packet.py:104-109 | replaces the data |
| Packets.PyPacket.AppendByte | duino_bus/packet.py:111-113 | appends a byte |
| Packets.PyPacket.AppendData | duino_bus/packet.py:115-117 | appends bytes |
| Packets.PyPacket.ExtractCrc | duino_bus/packet.py:132-138 | moves the last data byte to the checksum field |
| Packets.PyPacket.CalcAndStoreCrc | duino_bus/packet.py:128-130 | stores the checksum |
| DeviceBus.Bus.ProcessByte | src/Bus.cpp:29-35 | takes one byte of input through the decoder; without input nothing happens |
| DeviceBus.Bus.WritePacket | src/Bus.cpp:37-47 | terminates, emits exactly the frame of the packet, given in numbers by `WireFormat.WireFrame`, returns NONE with the encoder back in its start state, and of the packet changes only the checksum |
| DeviceBus.Bus.Add | src/Bus.cpp:49-52 | appends a handler |
| DeviceBus.Bus.HandlePacket | src/Bus.cpp:54-69 | refuses exactly if every handler does, and then writes nothing; otherwise the response of the first handler that accepts is written as its frame, or nothing if it has command 0 |
| DeviceBus.Bus.Ask | src/CorePacketHandler.cpp:41-61 | a handler's answer, filled into the response packet in place; a core handler accepts the commands 0x01, 0x02, 0x04, 0x05 and no others, and leaves the response of others alone |
| DeviceBus.Bus.HandlePing | src/CorePacketHandler.cpp:95-99 | the response becomes PING with the data of the command |
| DeviceBus.FirstMatchAnswers | src/Bus.cpp:57-66 | handler k answers if all before it refuse and it accepts, on the response that they left |
| DeviceBus.DispatchAcceptsIff | src/Bus.cpp:57-69 | a command is refused if and only if every handler refuses it on the response that those before it left |
| DeviceBus.CoreIsPassedOver | src/CorePacketHandler.cpp:42-60 | for commands other than 0x01, 0x02, 0x04 and 0x05 a core handler anywhere in the list changes nothing |
| DeviceBus.CoreAccepts | src/CorePacketHandler.cpp:41-59 | those four are accepted whenever there is a core handler, and answered by it if those before it refuse, PING with its own data |
| DeviceBus.PingIsEchoed | src/CorePacketHandler.cpp:41-46 | PING is answered with itself when the core handler is the first to accept it and those before it leave the response alone |
| DeviceBus.ReceiveAll | tests/BusTest.cpp:97-110 | all input through ProcessByte leaves the state and returns the codes of the run over it |
| DeviceBus.AnswerPing | tests/BusTest.cpp:97-110 | the frame of any PING that fits both packets, through ProcessByte and HandlePacket, is written back byte for byte, with NONE on its last byte only |
| DeviceBus.AnswerCommand | src/Bus.cpp:54-69 | the frame of any command that the handlers before k let pass, core handlers among them, through ProcessByte and HandlePacket: the answer of handler k is written as its frame, or nothing if it has command 0; if all let it pass it is refused and nothing is written |
| Packing.CppPacker.PackScalar | src/duino_bus/Packer.h:36-47 | packs a little-endian integer or leaves the packet as it is |
| Packing.CppPacker.PackString | src/Packer.cpp:23-41 | packs length, characters and NUL, with the length byte as it wraps |
| Packing.PackCallIsSafe | src/Packer.cpp:23-41 | a call succeeds exactly if all it sends fits; a failed scalar leaves nothing, a failed string its length byte exactly if there is a byte of room |
| Packing.PackAllIsSafe | src/Packer.cpp:23-41 | any interleaving of calls stays within the capacity and keeps what was packed; all succeed exactly if everything fits |
| Packing.CppUnpacker.UnpackScalar | src/duino_bus/Unpacker.h:43-56 | succeeds exactly if enough is left, returns the integer, and consumed plus remaining is constant |
| Packing.CppUnpacker.UnpackData | src/Unpacker.cpp:31-39 | succeeds exactly if enough is left, and returns where the bytes start |
| Packing.CppUnpacker.UnpackString | src/Unpacker.cpp:41-60 | succeeds exactly if length and string are there; a string cut short costs its length byte |
| Packing.PyPacker.PackU8 | duino_bus/packer.py:19-21 | appends the low byte |
| Packing.PyPacker.PackU16 | duino_bus/packer.py:23-26 | appends two bytes, low byte first |
| Packing.PyPacker.PackU32 | duino_bus/packer.py:28-33 | appends four bytes, low byte first |
| Packing.PyPacker.PackData | duino_bus/packer.py:35-37 | appends the bytes |
| Packing.PyPacker.PackStr | duino_bus/packer.py:39-48 | appends the wrapped length, the whole string and NUL |
| Packing.PyUnpacker.UnpackU8 | duino_bus/unpacker.py:19-23 | returns the byte, or raises IndexError and stays |
| Packing.PyUnpacker.UnpackU16 | duino_bus/unpacker.py:25-29 | returns the integer of at most two bytes and moves on by two |
| Packing.PyUnpacker.UnpackU32 | duino_bus/unpacker.py:31-35 | returns the integer of at most four bytes and moves on by four |
| Packing.PyUnpacker.UnpackData | duino_bus/unpacker.py:37-41 | returns the slice, cut at the end of the data |
| Packing.PyUnpacker.UnpackStr | duino_bus/unpacker.py:43-52 | returns the string without its NUL if it is longer than one byte and UTF-8; raises IndexError without a length byte, where the index stays, and UnicodeDecodeError on malformed text, where it has moved on; what is UTF-8 is settled by `Utf8.IsUtf8IffEncoded` |
| Packing.LittleEndianRoundTrip | duino_bus/unpacker.py:25-35 | unpacking an integer undoes packing it |
| Packing.LittleEndianInNumbers | duino_bus/packer.py:19-33 | the bytes of one-, two- and four-byte integers, low byte first, of any number the low ones |
| Packing.IntegersInNumbers | duino_bus/unpacker.py:25-35 | two and four bytes are read low byte first, at the end of the data as if zeros followed |
| Packing.Slice | duino_bus/unpacker.py:37-41 | the bytes from an index on, as many as asked for or as there are |
| Packing.ShortString | duino_bus/unpacker.py:43-52 | a string cut short loses its last byte, whatever it is, and the index moves as if all were there |
| Packing.TextBytesInNumbers | src/Packer.cpp:23-41 | a C++ string goes out as length, characters and NUL up to 254 characters, as 0 with 255, and as 1 and its first character with more |
| Packing.PackersAgree | duino_bus/packer.py:39-48 | the two packers write the same string bytes exactly up to 254 characters |
| Packing.StringSurvives | duino_bus/unpacker.py:43-52 | what Python reads of a C++ string of any length: itself if and only if it is UTF-8 of 1 to 254 bytes, its NUL if it is empty, nothing at 255, its first byte from 256 on; malformed text raises; the index ends behind it in every case |
| Packing.TextSurvives | duino_bus/unpacker.py:43-52 | any text of Unicode scalar values with 1 to 254 encoded bytes is read back as its encoding, which decodes to it |
| Utf8.IsUtf8IffEncoded | duino_bus/unpacker.py:52 | bytes are accepted as text if and only if they are the encodings, by arithmetic, of some sequence of Unicode scalar values |
| Utf8.EncodedTextIsUtf8 | duino_bus/unpacker.py:52 | decoding undoes encoding, so every text has its own bytes |
| Utf8.DecodedTextEncodes | duino_bus/unpacker.py:52 | encoding undoes decoding, so every accepted string is one text |
| Packing.TypedPipeline | src/Packer.cpp:23-41 | any fields that fit, framed as C++ packs them and run through the Python decoder: they read back as the same list with the index at the end |
| Packing.TypedPipelineToDevice | duino_bus/packer.py:19-48 | any fields that fit, framed as Python packs them and run through the C++ decoder: they read back as the same list with nothing left, empty strings and text that is not UTF-8 among them |
| Pipelines.DeviceToHost | src/Packer.cpp:23-41 | the same through the objects: C++ packer, `WritePacket`, Python `DecodeByte` over what was written, Python unpacker; the fields come back, NONE comes on the last byte only, no more data is left |
| Pipelines.SendText | duino_bus/unpacker.py:43-52 | any text of Unicode scalar values without NUL that fits is on the host what it was on the device |
| Pipelines.HostPacketSize | duino_bus/packet_decoder.py:102-109 | the host takes packets of up to 255 data bytes; of n >= 256 it reports n - 255 times TOO_MUCH_DATA and judges the first 256 by the last of them |
| Pipelines.HostToDevice | duino_bus/bus.py:104-112 | the same the other way: Python packer, the host's write loop, `ProcessByte`, C++ unpacker |
| Pipelines.PackFields | src/Packer.cpp:23-41 | a run of C++ pack calls is `PackAll` |
| Pipelines.UnpackAll | duino_bus/unpacker.py:19-52 | a run of Python unpack calls, up to the first that raises, is `ReadFields` |
| Pipelines.ViewAll | src/Unpacker.cpp:31-60 | a run of C++ unpack calls, up to the first that fails, is `ViewFields` |
| Pipelines.PyPackFields | duino_bus/packer.py:19-48 | a run of Python pack calls appends `AllPyBytes` |
| Pipelines.Feed | tests/test_packet_decoder.py:19-30 | all bytes through the Python `DecodeByte` leave the state and return the codes of the run over them |
| Pipelines.WritePacket | duino_bus/bus.py:104-112 | the host's write loop terminates: the whole frame and NONE, or on a channel that fails exactly what it accepted of the frame and OS; the frame is given in numbers by `WireFormat.WireFrame` |
| BusLog.LogCharToPacket | src/BusLog.cpp:31-39 | stores a character exactly while that leaves room for the NUL |
| BusLog.Format | src/BusLog.cpp:62 | the first characters of the message that fit are stored, whether the formatter stops when refused or not |
| BusLog.FillRecord | src/BusLog.cpp:52-65 | with at least three bytes no assert fails and the packet holds level, count + 1, the whole message if it leaves three bytes free and otherwise exactly as much of it as does, NUL |
| BusLog.DoLog | src/BusLog.cpp:41-68 | writes the frame of the record with command 0x03, or nothing without a log packet |
| BusLog.HostReadsLogRecord | duino_bus/bus.py:162-166 | the host reads back exactly the characters taken if and only if they are 1 to 254 bytes of UTF-8, of which capacities up to 257 guarantee the upper bound; what is cut within a character raises |
| BusLog.TruncationCanSplitCharacter | src/BusLog.cpp:31-39 | a well-formed message whose log record raises on the host |
| BusLog.LogReachesHost | duino_bus/bus.py:162-166 | through frame and Python decoder, the host reads the level and the truncated message |
| HexDump.DumpMem | duino_bus/dump_mem.py:25-82 | the lines show the buffer, chunk by chunk and position by position: prefix, address read back through the digits 0-9a-f as that of the chunk, hex columns read back as its bytes, blanks, its printable characters; it raises ValueError exactly for a zero width or an address that does not fit, after logging the lines before it |
| HexDump.DumpLines | duino_bus/dump_mem.py:63-82 | the loop, with whatever earlier lines left in the buffer |
| HexDump.FormatLine | duino_bus/dump_mem.py:64-81 | a line depends on its own chunk and address alone; `HexDump.ShowsIffLine` says what is on it |
| HexDump.ShowsIffLine | duino_bus/dump_mem.py:63-81 | the position-by-position description of a line leaves nothing open: it holds of exactly one line, and of none if the address does not fit |
| HexDump.WriteAscii | duino_bus/dump_mem.py:71-80 | blanks the missing hex columns and writes the printable characters |
| HexDump.Prepare | duino_bus/dump_mem.py:40-61 | the label and the separator that every line relies on |
| HexDump.DumpIsLossless | duino_bus/dump_mem.py:63-82 | any lines that show a buffer, as those of `DumpMem` do, read back through the digits 0-9a-f as that buffer |
| HexDump.AddrFitsFourColumns | duino_bus/dump_mem.py:64-66 | an address has four characters exactly from -0xfff to 0xffff |
| HexDump.AddrsFitIffEndsDo | duino_bus/dump_mem.py:63-82 | all addresses of a dump fit exactly if the first and the last do |

## Left out

- Concrete buses on sockets, serial lines and USB: operating system and hardware calls.
- The host's reader thread, queue and timeouts in `duino_bus/bus.py`: it queues one mutable packet object for every code but NOT_DONE, so delivery of responses is not what it provides.
- HEAP_INFO, STACK_INFO and DEBUG answers: platform calls, a parameter of the core handler here.
- Handlers' effects outside the response packet: a handler is a function of the command and of the response so far.
- Debug flags, logging of errors, `dump` and the `as_str` tables: output only.
- `Packet::append(char const*)`: the bytes of `Packer::pack` with asserts in place of the failure returns.
- The formatter's own expansion of its arguments: it is a source of characters here.
- Python text: a decoded string is passed on as its UTF-8 bytes, and a packer's `str` argument is given as those; which text they are is `Utf8.DecodeText`.
- Packing.PyPacker.constructor: a Python packer shares its packet's bytearray until the packet is given another one; here it appends to the packet whatever happens to that.
- DeviceBus.Bus.Add: does not model `setBus`, because a handler's only use of its bus here would be to set debug flags, which are left out.
- Hex text from MicroPython's `binascii`: only the CPython branch of `hexlify` is modelled.
- Reading a C string behind the end of a malformed packet: the C++ unpacker returns a position, and what a caller reads from there is the caller's.
