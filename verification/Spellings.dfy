/** All the ways in which a sender may write a packet, and what the decoders make of them: in
    numbers, independent of how the decoders tell the bytes apart. */
module Spellings {
  import opened Crc
  import opened Slip
  import opened WireFormat
  import opened Decoding

  // ---------- One byte after an ESC ----------

  function Meaning(b: byte): byte {
    if b == 0xDC then 0xC0 else if b == 0xDD then 0xDB else b
  }

  /** Outside IDLE, 0xDB is dropped and the next byte is content, an END included: it becomes
      the command, or is stored if there is room. */
  lemma EscapedByteIsContent(d: Dialect, cap: nat, s: Decoder, b: byte)
    requires !s.escape && s.mode != Idle
    ensures var t := s.(escape := true);
            && Step(d, cap, s, 0xDB) == Outcome(t, NOT_DONE)
            && Step(d, cap, t, b) ==
               if s.mode == Command then Outcome(Decoder(Data, false, Meaning(b), [], s.crc), NOT_DONE)
               else if |s.data| < cap then Outcome(s.(data := s.data + [Meaning(b)]), NOT_DONE)
               else Outcome(s, TOO_MUCH_DATA)
  {
  }

  // ---------- Spellings ----------

  /** A content byte as itself, as its code, or after an ESC that it does not need. */
  datatype Form = Plain | Coded | Verbatim

  predicate IsForm(b: byte, form: Form) {
    match form
    case Plain => b != 0xC0 && b != 0xDB
    case Coded => b == 0xC0 || b == 0xDB
    case Verbatim => b != 0xDC && b != 0xDD
  }

  function Spell(b: byte, form: Form): seq<byte> {
    match form
    case Plain => [b]
    case Coded => [0xDB, if b == 0xC0 then 0xDC else 0xDD]
    case Verbatim => [0xDB, b]
  }

  predicate AreForms(content: seq<byte>, forms: seq<Form>) {
    |forms| == |content| && forall i :: 0 <= i < |content| ==> IsForm(content[i], forms[i])
  }

  function SpellAll(content: seq<byte>, forms: seq<Form>): seq<byte>
    requires |forms| == |content|
  {
    if content == [] then [] else Spell(content[0], forms[0]) + SpellAll(content[1..], forms[1..])
  }

  lemma SpeltByteFirst(b: byte, form: Form, tail: seq<byte>)
    requires IsForm(b, form)
    ensures BodyLength(Spell(b, form) + tail) == |Spell(b, form)| + BodyLength(tail)
    ensures Unescape(Spell(b, form) + tail) == [b] + Unescape(tail)
    ensures IsDangling(Spell(b, form) + tail) <==> IsDangling(tail)
  {
    assert (Spell(b, form) + tail)[|Spell(b, form)|..] == tail;
  }

  lemma {:induction false} SpeltIsABody(content: seq<byte>, forms: seq<Form>)
    requires AreForms(content, forms)
    ensures var body := SpellAll(content, forms);
            IsBody(body) && !IsDangling(body) && Unescape(body) == content
    decreases |content|
  {
    if content != [] {
      SpeltIsABody(content[1..], forms[1..]);
      SpeltByteFirst(content[0], forms[0], SpellAll(content[1..], forms[1..]));
    }
  }

  /** The forms in which a body spells its content. */
  function FormsOf(body: seq<byte>): seq<Form> {
    if body == [] then []
    else if body[0] != 0xDB then [Plain] + FormsOf(body[1..])
    else if |body| == 1 then []
    else [if body[1] == 0xDC || body[1] == 0xDD then Coded else Verbatim] + FormsOf(body[2..])
  }

  lemma {:induction false} BodyIsSpelt(body: seq<byte>)
    requires IsBody(body) && !IsDangling(body)
    ensures AreForms(Unescape(body), FormsOf(body))
    ensures SpellAll(Unescape(body), FormsOf(body)) == body
    decreases |body|
  {
    if body == [] {
    } else if body[0] != ESC {
      BodyIsSpelt(body[1..]);
    } else {
      BodyIsSpelt(body[2..]);
    }
  }

  /** The strings that a decoder reads as some content, up to the first END that no ESC
      precedes, are exactly the spellings of that content. */
  lemma BodiesAreSpellings(body: seq<byte>, content: seq<byte>)
    ensures IsBody(body) && !IsDangling(body) && Unescape(body) == content
       <==> exists forms :: AreForms(content, forms) && SpellAll(content, forms) == body
  {
    if IsBody(body) && !IsDangling(body) && Unescape(body) == content {
      BodyIsSpelt(body);
    }
    forall forms | AreForms(content, forms) && SpellAll(content, forms) == body
      ensures IsBody(body) && !IsDangling(body) && Unescape(body) == content
    {
      SpeltIsABody(content, forms);
    }
  }

  /** A packet that fits, each of its content bytes in any form, is delivered by the last byte
      of the frame, and nothing is reported before. */
  lemma AnySpellingIsDelivered(d: Dialect, cap: nat, s: Decoder, cmd: byte, data: seq<byte>, forms: seq<Form>)
    requires s.mode != Data && !s.escape && |data| < cap
    requires AreForms(Content(cmd, data), forms)
    ensures var content, crc := [cmd] + data + [PacketCrc(cmd, data)], PacketCrc(cmd, data);
            var body := SpellAll(content, forms);
            Run(d, cap, s, [0xC0] + body + [0xC0])
            == Trace(Decoder(Idle, false, cmd, data, crc), Quiet(|body| + 1) + [Report(NONE, content)])
  {
    hide Run, BodyReports, SpellAll, PacketCrc, Crc8, IsDangling, Unescape;
    var content := Content(cmd, data);
    var body := SpellAll(content, forms);
    SpeltIsABody(content, forms);
    BodyRun(d, cap, Step(d, cap, s, END).next, [], body, content);
    FittingBodyIsQuiet(cap, content, 0, body);
    RunOne(d, cap, s, END);
    RunChains(d, cap, s, [END], body);
    var t := Run(d, cap, s, [END] + body).end;
    AcceptanceIsZeroResidue(cmd, data, PacketCrc(cmd, data));
    ClosingEnd(d, cap, t, content);
    RunOne(d, cap, t, END);
    RunChains(d, cap, s, [END] + body, [END]);
    assert [t.cmd] + t.data == content;
    FullPacketCloses(d, t, cmd, data);
  }

  /** The stream of the decoder tests in which an ESC precedes a byte that needs none. */
  lemma NeedlessEscape(d: Dialect, cap: nat, s: Decoder)
    requires s.mode != Data && !s.escape && cap > 2
    ensures Run(d, cap, s, [0xC0, 0xDB, 0x01, 0x02, 0x03, 0x48, 0xC0])
         == Trace(Decoder(Idle, false, 0x01, [0x02, 0x03], 0x48),
                  Quiet(6) + [Report(NONE, [0x01, 0x02, 0x03, 0x48])])
  {
    hide Run, PacketCrc, Crc8;
    KnownChecksums();
    PacketCrcIsCrcOfConcatenation(0x01, [0x02, 0x03]);
    assert [0x01] + [0x02, 0x03] == [0x01, 0x02, 0x03];
    var content, forms := [0x01, 0x02, 0x03, 0x48], [Verbatim, Plain, Plain, Plain];
    assert Content(0x01, [0x02, 0x03]) == content;
    assert SpellAll(content, forms) == [0xDB, 0x01, 0x02, 0x03, 0x48];
    AnySpellingIsDelivered(d, cap, s, 0x01, [0x02, 0x03], forms);
    assert [0xC0] + [0xDB, 0x01, 0x02, 0x03, 0x48] + [0xC0] == [0xC0, 0xDB, 0x01, 0x02, 0x03, 0x48, 0xC0];
  }
}
