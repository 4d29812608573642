/** Recovery from arbitrary noise: the Python decoder loses at most one packet, the C++
    decoder can be deaf for ever. */
module Resynchronising {
  import opened Crc
  import opened Slip
  import opened Decoding
  import opened Delivery

  function Frames(messages: seq<Message>): seq<byte> {
    if messages == [] then [] else Frame(messages[0].cmd, messages[0].data) + Frames(messages[1..])
  }

  function AllDelivered(messages: seq<Message>): seq<Report> {
    if messages == [] then []
    else Deliver(messages[0]) + AllDelivered(messages[1..])
  }

  function Deliver(m: Message): seq<Report> {
    DeliveryReports(m.cmd, m.data)
  }

  /** The frame's last byte delivers the packet, and no other byte but possibly the opening
      END reports anything. */
  predicate IsDelivered(reports: seq<Report>, m: Message) {
    |reports| == |Frame(m.cmd, m.data)| && reports[1..] == Deliver(m)[1..]
  }

  /** The states from which the very next frame is delivered: no escape pending, and nothing
      collected that the frame's opening END would close. */
  predicate IsClean(s: Decoder) {
    !s.escape && (s.mode == Data ==> s.data == [])
  }

  predicate IsSynchronised(s: Decoder) {
    !s.escape && s.mode != Data
  }

  // ---------- One frame from an arbitrary state ----------

  /** What the decoder has collected in the frame that it takes itself to be in. */
  function Collected(s: Decoder): seq<byte> {
    if s.mode == Data then [s.cmd] + s.data else []
  }

  /** Where a frame's opening END leaves the decoder: outside any frame, or collecting, with
      this content seen before the frame's own. */
  datatype Opening = Outside | Collecting(seen: seq<byte>)

  /** The opening END is content after an ESC, and opens the frame from IDLE and COMMAND. In
      DATA it closes what was collected; only then the implementations differ. */
  function OpeningOf(d: Dialect, s: Decoder): Opening {
    if s.escape then Collecting(Collected(s) + [END])
    else if s.mode != Data then Collecting([])
    else if s.data == [] then Collecting(if d == Python then [] else [s.cmd])
    else if d == Python || Crc8(0, Collected(s)) == 0 then Outside
    else Collecting([s.cmd] + s.data[..|s.data| - 1])
  }

  lemma AfterOpeningEnd(d: Dialect, cap: nat, s: Decoder)
    requires s.Reachable(cap)
    ensures var t := Step(d, cap, s, END).next;
            match OpeningOf(d, s)
            case Outside => t.mode == Idle && !t.escape
            case Collecting(seen) => Holds(cap, t, seen)
  {
    hide Crc8, PacketCrc;
    if s.escape {
      ByteStep(d, cap, s, Collected(s), END, Collected(s) + [END]);
    } else if s.mode == Data && s.data != [] {
      var n := |s.data| - 1;
      AcceptanceIsZeroResidue(s.cmd, s.data[..n], s.data[n]);
      assert Collected(s) == [s.cmd] + s.data[..n] + [s.data[n]];
    }
  }

  /** The rest of a frame, when the decoder takes the content to follow what it has seen. */
  lemma RestOfFrame(d: Dialect, cap: nat, s: Decoder, seen: seq<byte>, content: seq<byte>)
    requires Holds(cap, s, seen) && |content| > 1 && cap > 0
    ensures var t := Run(d, cap, s, Escape(content) + [END]);
            && t.reports == BodyReports(cap, seen + content, |seen|, Escape(content)) + [Verdict(cap, seen + content)]
            && (IsSynchronised(t.end) <==> d == Python || Crc8(0, Kept(cap, seen + content)) == 0)
  {
    hide Run, Step, Holds, BodyReports, ReportOf, Crc8;
    EscapedIsABody(content);
    BodyRun(d, cap, s, seen, Escape(content), seen + content);
    RunChains(d, cap, s, Escape(content), [END]);
    var t := Run(d, cap, s, Escape(content)).end;
    ClosingEnd(d, cap, t, seen + content);
    RunOne(d, cap, t, END);
  }

  lemma SplitFrame(d: Dialect, cap: nat, s: Decoder, content: seq<byte>)
    ensures var o := Step(d, cap, s, END);
            var t := Run(d, cap, o.next, Escape(content) + [END]);
            Run(d, cap, s, FrameOf(content)) == Trace(t.end, [ReportOf(o)] + t.reports)
  {
    assert FrameOf(content)[1..] == Escape(content) + [END];
  }

  /** A frame whose opening END closed another: the body is skipped, and the closing END opens
      the next frame. */
  lemma FrameSkipped(d: Dialect, cap: nat, s: Decoder, content: seq<byte>)
    requires s.mode == Idle && !s.escape
    ensures var t := Run(d, cap, s, Escape(content) + [END]);
            t.reports == Quiet(|Escape(content)| + 1) && IsSynchronised(t.end)
  {
    hide Run;
    EscapeHasNoEnd(content);
    NoiseIsSkipped(d, cap, s, Escape(content));
    RunChains(d, cap, s, Escape(content), [END]);
    RunOne(d, cap, s, END);
  }

  /** What either decoder makes of a frame, from any reachable state: everything it reports
      after the opening END, and whether it is synchronised afterwards. */
  lemma FrameFromAnyState(d: Dialect, cap: nat, s: Decoder, m: Message)
    requires s.Reachable(cap) && |m.data| < cap
    ensures var content := Content(m.cmd, m.data);
            var t := Run(d, cap, s, Frame(m.cmd, m.data));
            match OpeningOf(d, s)
            case Outside => t.reports[1..] == Quiet(|Escape(content)| + 1) && IsSynchronised(t.end)
            case Collecting(seen) =>
              && t.reports[1..]
                 == BodyReports(cap, seen + content, |seen|, Escape(content)) + [Verdict(cap, seen + content)]
              && (IsSynchronised(t.end) <==> d == Python || Crc8(0, Kept(cap, seen + content)) == 0)
  {
    hide Run, Step, ReportOf, Holds, BodyReports, Verdict, PacketCrc, Escape, OpeningOf, Crc8, Kept, IsSynchronised;
    var content := Content(m.cmd, m.data);
    var next := Step(d, cap, s, END).next;
    SplitFrame(d, cap, s, content);
    AfterOpeningEnd(d, cap, s);
    match OpeningOf(d, s)
    case Outside =>
      FrameSkipped(d, cap, next, content);
    case Collecting(seen) =>
      RestOfFrame(d, cap, next, seen, content);
  }

  lemma CleanFrame(cap: nat, m: Message)
    requires |m.data| < cap
    ensures var content := Content(m.cmd, m.data);
            BodyReports(cap, content, 0, Escape(content)) + [Verdict(cap, content)] == Deliver(m)[1..]
  {
    var content := Content(m.cmd, m.data);
    EscapedIsABody(content);
    FittingBodyIsQuiet(cap, content, 0, Escape(content));
    AcceptanceIsZeroResidue(m.cmd, m.data, PacketCrc(m.cmd, m.data));
  }

  lemma {:induction false} CountQuiet(n: nat)
    ensures Count(Quiet(n), TOO_MUCH_DATA) == 0
  {
    if n != 0 {
      assert Quiet(n)[1..] == Quiet(n - 1);
      CountQuiet(n - 1);
    }
  }

  /** Content that follows other content is never a clean delivery: either the closing END
      reports more than was sent, or something before it did not fit and was reported. */
  lemma SpoiltFrame(cap: nat, seen: seq<byte>, m: Message)
    requires seen != []
    ensures var content := Content(m.cmd, m.data);
            BodyReports(cap, seen + content, |seen|, Escape(content)) + [Verdict(cap, seen + content)]
            != Deliver(m)[1..]
  {
    hide BodyReports, PacketCrc, Escape, Crc8, Count;
    var content := Content(m.cmd, m.data);
    var body := BodyReports(cap, seen + content, |seen|, Escape(content));
    var verdict := Verdict(cap, seen + content);
    if body + [verdict] == Deliver(m)[1..] {
      var quiet := Quiet(|Escape(content)|);
      assert Deliver(m)[1..] == quiet + [Report(NONE, content)];
      assert body == (body + [verdict])[..|body|] == quiet;
      assert verdict == (body + [verdict])[|body|];
      assert |Kept(cap, seen + content)| == |content|;
      OverflowsInBody(cap, seen + content, |seen|, content);
      CountQuiet(|Escape(content)|);
    }
  }

  /** The states from which the very next frame is delivered, in each implementation. */
  predicate IsOpen(d: Dialect, s: Decoder) {
    if d == Python then IsClean(s) else IsSynchronised(s)
  }

  /** From any reachable state, a frame's packet is delivered exactly if the state is clean in
      Python, and synchronised in C++. */
  lemma FrameIsDeliveredIffOpen(d: Dialect, cap: nat, s: Decoder, m: Message)
    requires s.Reachable(cap) && |m.data| < cap
    ensures IsDelivered(Run(d, cap, s, Frame(m.cmd, m.data)).reports, m) <==> IsOpen(d, s)
  {
    hide Run, BodyReports, Verdict, PacketCrc, Escape, Crc8, Kept;
    var content := Content(m.cmd, m.data);
    FrameFromAnyState(d, cap, s, m);
    match OpeningOf(d, s)
    case Outside =>
      var t := Run(d, cap, s, Frame(m.cmd, m.data));
      assert t.reports[1..][|Escape(content)|] == QUIET;
    case Collecting(seen) =>
      if seen == [] {
        CleanFrame(cap, m);
        assert seen + content == content;
      } else {
        SpoiltFrame(cap, seen, m);
      }
  }

  /** The last byte of a frame alone: it reports exactly the packet if and only if the decoder
      was collecting and what it kept is the packet's content. Apart from the clean start that
      takes a full buffer, which then hides that more was sent. */
  lemma LastReportIsThePacket(d: Dialect, cap: nat, s: Decoder, m: Message)
    requires s.Reachable(cap) && |m.data| < cap
    ensures var content := Content(m.cmd, m.data);
            var r := Run(d, cap, s, Frame(m.cmd, m.data)).reports;
            r[|r| - 1] == Report(NONE, content) <==>
            OpeningOf(d, s).Collecting? && Kept(cap, OpeningOf(d, s).seen + content) == content
  {
    hide Run, BodyReports, PacketCrc, Escape, Crc8, Kept, OpeningOf, IsSynchronised;
    var content := Content(m.cmd, m.data);
    var r := Run(d, cap, s, Frame(m.cmd, m.data)).reports;
    FrameFromAnyState(d, cap, s, m);
    AcceptanceIsZeroResidue(m.cmd, m.data, PacketCrc(m.cmd, m.data));
    assert r[|r| - 1] == r[1..][|r| - 2];
  }

  /** A packet that fills the buffer and whose checksum is END, broken off between the ESC and
      the code of that checksum and then sent again: the opening END completes the first copy,
      the second one is all excess, and its last byte reports the packet. */
  lemma BrokenOffPacketIsCompleted(d: Dialect, s: Decoder, m: Message)
    requires s.mode == Data && s.escape && s.cmd == m.cmd && s.data == m.data
    requires PacketCrc(m.cmd, m.data) == END
    ensures var r := Run(d, |m.data| + 1, s, Frame(m.cmd, m.data)).reports;
            r[|r| - 1] == Report(NONE, Content(m.cmd, m.data)) && !IsDelivered(r, m)
  {
    hide Run, PacketCrc, IsDelivered;
    var content := Content(m.cmd, m.data);
    assert Collected(s) + [END] == content;
    assert (content + content)[..|content|] == content;
    LastReportIsThePacket(d, |m.data| + 1, s, m);
    FrameIsDeliveredIffOpen(d, |m.data| + 1, s, m);
  }

  // ---------- Self-stabilisation of the Python decoder ----------

  /** Any frame, from any reachable state, leaves the Python decoder synchronised; and the
      frame's own packet is delivered exactly if the state was clean. */
  lemma FrameSynchronises(cap: nat, s: Decoder, m: Message)
    requires s.Reachable(cap) && |m.data| < cap
    ensures var t := Run(Python, cap, s, Frame(m.cmd, m.data));
            && IsSynchronised(t.end)
            && (IsDelivered(t.reports, m) <==> IsClean(s))
  {
    hide Run, IsDelivered, IsClean, IsSynchronised, OpeningOf;
    FrameFromAnyState(Python, cap, s, m);
    FrameIsDeliveredIffOpen(Python, cap, s, m);
  }

  /** Once synchronised, either decoder delivers back-to-back frames. */
  lemma {:induction false} SynchronisedDelivers(d: Dialect, cap: nat, s: Decoder, messages: seq<Message>)
    requires IsSynchronised(s)
    requires forall m <- messages :: |m.data| < cap
    ensures Run(d, cap, s, Frames(messages)).reports == AllDelivered(messages)
    decreases |messages|
  {
    hide Step, ReportOf, Frame;
    if messages != [] {
      var m := messages[0];
      RunChains(d, cap, s, Frame(m.cmd, m.data), Frames(messages[1..]));
      FrameIsDelivered(d, cap, s, m.cmd, m.data);
      SynchronisedDelivers(d, cap, Run(d, cap, s, Frame(m.cmd, m.data)).end, messages[1..]);
    }
  }

  /** The reports of noise, a frame and further frames are those of the three parts. */
  lemma RunsInParts(d: Dialect, cap: nat, s: Decoder, noise: seq<byte>, first: Message, others: seq<Message>)
    ensures var frame := Frame(first.cmd, first.data);
            var t := Run(d, cap, s, noise);
            var u := Run(d, cap, t.end, frame);
            Run(d, cap, s, noise + (frame + Frames(others))).reports
            == t.reports + (u.reports + Run(d, cap, u.end, Frames(others)).reports)
  {
    hide Run, Frame;
    var frame := Frame(first.cmd, first.data);
    RunChains(d, cap, s, noise, frame + Frames(others));
    RunChains(d, cap, Run(d, cap, s, noise).end, frame, Frames(others));
  }

  /** From any reachable state and after any noise, at most the first packet is lost: each of
      the others gets NOT_DONE on every byte but its last and NONE, with its command, data
      and checksum, on its last. The first one is delivered too exactly if the noise left the
      decoder in a clean state. */
  lemma PythonDecoderStabilises(cap: nat, s: Decoder, noise: seq<byte>, first: Message, others: seq<Message>)
    requires s.Reachable(cap)
    requires |first.data| < cap && forall m <- others :: |m.data| < cap
    ensures var t := Run(Python, cap, s, noise);
            var r := Run(Python, cap, t.end, Frame(first.cmd, first.data)).reports;
            && Run(Python, cap, s, noise + (Frame(first.cmd, first.data) + Frames(others))).reports
               == t.reports + (r + AllDelivered(others))
            && (IsDelivered(r, first) <==> IsClean(t.end))
  {
    hide Run, Frame, IsDelivered, IsClean, IsSynchronised;
    RunsInParts(Python, cap, s, noise, first, others);
    RunIsSafe(Python, cap, s, noise);
    var t := Run(Python, cap, s, noise).end;
    FrameSynchronises(cap, t, first);
    SynchronisedDelivers(Python, cap, Run(Python, cap, t, Frame(first.cmd, first.data)).end, others);
  }

  // ---------- When the C++ decoder stabilises ----------

  /** Back-to-back frames are all delivered exactly from the synchronised states: from any
      other, the first of them is lost already. */
  lemma CppDeliversIffSynchronised(cap: nat, s: Decoder, messages: seq<Message>)
    requires s.Reachable(cap) && messages != []
    requires forall m <- messages :: |m.data| < cap
    ensures Run(Cpp, cap, s, Frames(messages)).reports == AllDelivered(messages) <==> IsSynchronised(s)
  {
    hide Run, Frame, IsSynchronised, DeliveryReports;
    var m := messages[0];
    var frame, rest := Frame(m.cmd, m.data), Frames(messages[1..]);
    if IsSynchronised(s) {
      SynchronisedDelivers(Cpp, cap, s, messages);
    } else {
      var t := Run(Cpp, cap, s, frame);
      RunChains(Cpp, cap, s, frame, rest);
      FrameIsDeliveredIffOpen(Cpp, cap, s, m);
      DeliverLength(m);
      var u := Run(Cpp, cap, t.end, rest);
      assert (t.reports + u.reports)[..|frame|] == t.reports;
      assert (Deliver(m) + AllDelivered(messages[1..]))[..|frame|] == Deliver(m);
    }
  }

  lemma DeliverLength(m: Message)
    ensures |Deliver(m)| == |Frame(m.cmd, m.data)|
  {
  }

  /** Whether one frame brings the C++ decoder back: by the residue of what an END that no ESC
      precedes closes meanwhile. With an escape pending that is the frame's own closing END,
      after what was collected and the swallowed opening END; in DATA with nothing collected
      it is the closing END, after the old command; otherwise it is the opening END, or failing
      that the closing END after what was collected, less the byte that was taken for its
      checksum. */
  predicate CppRecovers(cap: nat, s: Decoder, m: Message) {
    var content := Content(m.cmd, m.data);
    if IsSynchronised(s) then true
    else if s.escape then Crc8(0, Kept(cap, Collected(s) + [END] + content)) == 0
    else if s.data == [] then Crc8(0, Kept(cap, [s.cmd] + content)) == 0
    else
      || Crc8(0, [s.cmd] + s.data) == 0
      || Crc8(0, Kept(cap, [s.cmd] + s.data[..|s.data| - 1] + content)) == 0
  }

  lemma CppFrameSynchronises(cap: nat, s: Decoder, m: Message)
    requires s.Reachable(cap) && |m.data| < cap
    ensures IsSynchronised(Run(Cpp, cap, s, Frame(m.cmd, m.data)).end) <==> CppRecovers(cap, s, m)
  {
    hide Run, BodyReports, Verdict, PacketCrc, Escape, Crc8;
    var content := Content(m.cmd, m.data);
    FrameFromAnyState(Cpp, cap, s, m);
    AcceptanceIsZeroResidue(m.cmd, m.data, PacketCrc(m.cmd, m.data));
    assert [] + content == content;
  }

  /** The C++ decoder, from any reachable state and after any noise. Nothing is lost exactly if
      the noise left it synchronised; and at most the first packet is lost exactly if the
      first frame brings it back. */
  lemma CppDecoderStabilisesIff(cap: nat, s: Decoder, noise: seq<byte>, first: Message, others: seq<Message>)
    requires s.Reachable(cap) && others != []
    requires |first.data| < cap && forall m <- others :: |m.data| < cap
    ensures var t := Run(Cpp, cap, s, noise);
            var u := Run(Cpp, cap, t.end, Frame(first.cmd, first.data));
            var rest := Run(Cpp, cap, u.end, Frames(others)).reports;
            && Run(Cpp, cap, s, noise + (Frame(first.cmd, first.data) + Frames(others))).reports
               == t.reports + (u.reports + rest)
            && (IsDelivered(u.reports, first) && rest == AllDelivered(others) <==> IsSynchronised(t.end))
            && (IsDelivered(u.reports, first) <==> IsSynchronised(t.end))
            && (rest == AllDelivered(others) <==> CppRecovers(cap, t.end, first))
  {
    hide Run, Frame, IsDelivered, IsSynchronised, CppRecovers;
    var frame := Frame(first.cmd, first.data);
    var t := Run(Cpp, cap, s, noise).end;
    RunsInParts(Cpp, cap, s, noise, first, others);
    RunIsSafe(Cpp, cap, s, noise);
    RunIsSafe(Cpp, cap, t, frame);
    FrameIsDeliveredIffOpen(Cpp, cap, t, first);
    CppFrameSynchronises(cap, t, first);
    CppDeliversIffSynchronised(cap, Run(Cpp, cap, t, frame).end, others);
    if IsSynchronised(t) {
      SynchronisedRecovers(cap, t, first);
    }
  }

  lemma SynchronisedRecovers(cap: nat, s: Decoder, m: Message)
    requires IsSynchronised(s)
    ensures CppRecovers(cap, s, m)
  {
  }

  /** As long as the buffer is large enough for what was collected and the frame, its content
      plays no part: a packet's own residue is zero, so what counts is the residue before it. */
  predicate RecoversWithRoom(s: Decoder) {
    if IsSynchronised(s) then true
    else if s.escape then Crc8(0, Collected(s) + [END]) == 0
    else if s.data == [] then s.cmd == 0
    else Crc8(0, [s.cmd] + s.data) == 0 || Crc8(0, [s.cmd] + s.data[..|s.data| - 1]) == 0
  }

  lemma CppRecoversWithRoom(cap: nat, s: Decoder, m: Message)
    requires |Collected(s)| + 1 + |m.data| + 2 <= cap + 1
    ensures CppRecovers(cap, s, m) <==> RecoversWithRoom(s)
  {
    hide Crc8, PacketCrc;
    var content := Content(m.cmd, m.data);
    AcceptanceIsZeroResidue(m.cmd, m.data, PacketCrc(m.cmd, m.data));
    if !IsSynchronised(s) {
      if s.escape {
        ResidueBeforeCodeword(Collected(s) + [END], content);
      } else if s.data == [] {
        ResidueBeforeCodeword([s.cmd], content);
        ResidueOfOneByte(s.cmd);
      } else {
        ResidueBeforeCodeword([s.cmd] + s.data[..|s.data| - 1], content);
      }
    }
  }

  lemma ResidueOfOneByte(b: byte)
    ensures Crc8(0, [b]) == 0 <==> b == 0
  {
    hide Crc8, Register;
    assert [] + [b] == [b];
    ResidueIsZeroIffCrcMatches([], b);
    CrcOfNothing();
  }

  // ---------- The C++ decoder stays in DATA after an error ----------

  const PING: Message := Message(0x01, [])

  function Pings(n: nat): seq<byte> {
    if n == 0 then [] else Frame(PING.cmd, PING.data) + Pings(n - 1)
  }

  /** Where a C++ decoder is stuck: in DATA, with nothing or just the byte 01 collected for
      the command 01. */
  predicate IsDeaf(s: Decoder) {
    s.mode == Data && !s.escape && s.cmd == 0x01 && s.data in {[], [0x01]}
  }

  lemma PingFrame()
    ensures Frame(PING.cmd, PING.data) == [END, 0x01, 0x07, END]
    ensures PacketCrc(0x01, []) == 0x07 && PacketCrc(0x01, [0x01]) != 0x07
  {
    hide Crc8;
    KnownChecksums();
    PacketCrcIsCrcOfConcatenation(0x01, []);
    PacketCrcIsCrcOfConcatenation(0x01, [0x01]);
    assert [0x01] + [] == [0x01];
    assert [0x01] + [0x01] == [0x01, 0x01];
    assert Content(0x01, []) == [0x01, 0x07];
    EscapedByteFirst(0x01, []);
    assert Escape([0x01, 0x07]) == [0x01] + Escape([0x07]);
    assert Escape([0x07]) == [0x07] + Escape([]);
  }

  /** An END closes what a deaf decoder has collected, a PING frame's content included, and
      leaves it deaf. */
  lemma DeafToEnd(cap: nat, s: Decoder)
    requires IsDeaf(s.(data := [])) && s.data in {[], [0x01], [0x01, 0x07]}
    ensures var o := Step(Cpp, cap, s, END);
            IsDeaf(o.next) && o.code != NONE && (s.data != [0x01, 0x07] ==> o.next.data == [])
  {
    hide PacketCrc, Frame;
    PingFrame();
    if s.data == [0x01] {
      assert s.data[..0] == [];
    } else if s.data == [0x01, 0x07] {
      assert s.data[..1] == [0x01];
    }
  }

  lemma DeafTo01(cap: nat, s: Decoder)
    requires IsDeaf(s) && s.data == []
    ensures Step(Cpp, cap, s, 0x01)
         == if cap == 0 then Outcome(s, TOO_MUCH_DATA) else Outcome(s.(data := [0x01]), NOT_DONE)
  {
    hide CloseStep;
    assert s.data + [0x01] == [0x01];
  }

  lemma DeafTo07(cap: nat, s: Decoder)
    requires IsDeaf(s) && |s.data| <= cap && (cap > 0 ==> s.data == [0x01])
    ensures Step(Cpp, cap, s, 0x07)
         == if cap <= 1 then Outcome(s, TOO_MUCH_DATA) else Outcome(s.(data := [0x01, 0x07]), NOT_DONE)
  {
    hide CloseStep;
    assert cap > 0 ==> s.data + [0x07] == [0x01, 0x07];
  }

  lemma DeafToPing(cap: nat, s: Decoder)
    requires IsDeaf(s)
    ensures var t := Run(Cpp, cap, s, Frame(PING.cmd, PING.data));
            IsDeaf(t.end) && forall r <- t.reports :: r.code != NONE
  {
    hide Step, ReportOf, Run, Frame;
    PingFrame();
    var frame: seq<byte> := [END, 0x01, 0x07, END];
    var o := Step(Cpp, cap, s, END);
    DeafToEnd(cap, s);
    var p := Step(Cpp, cap, o.next, 0x01);
    DeafTo01(cap, o.next);
    var q := Step(Cpp, cap, p.next, 0x07);
    DeafTo07(cap, p.next);
    var r := Step(Cpp, cap, q.next, END);
    DeafToEnd(cap, q.next);
    RunFirst(Cpp, cap, s, frame);
    assert frame[1..] == [0x01, 0x07, END];
    RunFirst(Cpp, cap, o.next, [0x01, 0x07, END]);
    assert [0x01, 0x07, END][1..] == [0x07, END];
    RunFirst(Cpp, cap, p.next, [0x07, END]);
    assert [0x07, END][1..] == [END];
    RunOne(Cpp, cap, q.next, END);
    CodeOfReport(o);
    CodeOfReport(p);
    CodeOfReport(q);
    CodeOfReport(r);
    assert Run(Cpp, cap, s, frame) == Trace(r.next, [ReportOf(o), ReportOf(p), ReportOf(q), ReportOf(r)]);
  }

  lemma {:induction false} DeafToPings(cap: nat, s: Decoder, n: nat)
    requires IsDeaf(s)
    ensures forall r <- Run(Cpp, cap, s, Pings(n)).reports :: r.code != NONE
    decreases n
  {
    hide IsDeaf, Frame;
    if n != 0 {
      var frame := Frame(PING.cmd, PING.data);
      RunChains(Cpp, cap, s, frame, Pings(n - 1));
      DeafToPing(cap, s);
      DeafToPings(cap, Run(Cpp, cap, s, frame).end, n - 1);
    }
  }

  lemma {:induction false} PingsAreFrames(n: nat)
    ensures Pings(n) == Frames(seq(n, _ => PING))
  {
    if n != 0 {
      assert seq(n, _ => PING)[1..] == seq(n - 1, _ => PING);
      PingsAreFrames(n - 1);
    }
  }

  lemma ShortFrame(d: Dialect, cap: nat, s: Decoder)
    requires s.mode == Idle && !s.escape
    ensures var t := Run(d, cap, s, [END, 0x01, END]);
            && t.reports == [QUIET, QUIET, Report(TOO_SMALL, [0x01])]
            && (d == Cpp ==> IsDeaf(t.end))
            && (d == Python ==> IsSynchronised(t.end))
  {
    var o := Step(d, cap, s, END);
    var p := Step(d, cap, o.next, 0x01);
    assert [END, 0x01, END][1..] == [0x01, END];
    assert [0x01, END][1..] == [END];
    RunFirst(d, cap, s, [END, 0x01, END]);
    RunFirst(d, cap, o.next, [0x01, END]);
    assert [p.next.cmd] + p.next.data == [0x01];
    RunOne(d, cap, p.next, END);
  }

  /** The short frame END 01 END is an input on which the C++ decoder does not stabilise: it
      leaves the command 01 with nothing collected, from where no frame that fits brings it
      back, since the residue of 01 is not zero. With PING it stays that way for ever: it
      delivers none of any number of well-formed PING packets, whatever the capacity; the
      Python decoder delivers every one of them. */
  lemma ShortFrameDeafensCpp(cap: nat, s: Decoder, n: nat)
    requires s.mode == Idle && !s.escape
    ensures forall r <- Run(Cpp, cap, s, [END, 0x01, END] + Pings(n)).reports :: r.code != NONE
    ensures cap > 0 ==>
      Run(Python, cap, s, [END, 0x01, END] + Pings(n)).reports
      == [QUIET, QUIET, Report(TOO_SMALL, [0x01])] + AllDelivered(seq(n, _ => PING))
  {
    hide Run, IsDeaf;
    ShortFrame(Cpp, cap, s);
    RunChains(Cpp, cap, s, [END, 0x01, END], Pings(n));
    DeafToPings(cap, Run(Cpp, cap, s, [END, 0x01, END]).end, n);
    if cap > 0 {
      ShortFrame(Python, cap, s);
      RunChains(Python, cap, s, [END, 0x01, END], Pings(n));
      PingsAreFrames(n);
      SynchronisedDelivers(Python, cap, Run(Python, cap, s, [END, 0x01, END]).end, seq(n, _ => PING));
    }
  }
}
