/** The decoders' step function and runs over byte streams. The two implementations differ
    only in the state they are in after they have reported TOO_SMALL or CRC. */
module Decoding {
  import opened Crc
  import opened Slip

  datatype ErrorCode = NONE | NOT_DONE | CRC | TOO_MUCH_DATA | TOO_SMALL | BAD_STATE | OS

  datatype Dialect = Python | Cpp

  datatype Mode = Idle | Command | Data

  /** A decoder together with the packet that it fills. */
  datatype Decoder = Decoder(mode: Mode, escape: bool, cmd: byte, data: seq<byte>, crc: byte)
  {
    /** Holds of the initial state, whatever the packet contains, and after every step. */
    predicate Reachable(cap: nat) {
      && (mode == Idle ==> !escape)
      && (mode == Data ==> |data| <= cap)
    }
  }

  datatype Outcome = Outcome(next: Decoder, code: ErrorCode)

  function IdleStep(s: Decoder, b: byte): Outcome {
    Outcome(if b == END then s.(mode := Command) else s, NOT_DONE)
  }

  function CommandStep(s: Decoder, b: byte): Outcome {
    if b == END && !s.escape then Outcome(s, NOT_DONE)
    else Outcome(s.(mode := Data, escape := false, cmd := b, data := []), NOT_DONE)
  }

  function CloseStep(dialect: Dialect, s: Decoder): Outcome {
    if s.data == [] then
      Outcome(s.(mode := if dialect == Python then Command else Data), TOO_SMALL)
    else
      var n := |s.data| - 1;
      var t := s.(data := s.data[..n], crc := s.data[n]);
      if t.crc == PacketCrc(t.cmd, t.data) then Outcome(t.(mode := Idle), NONE)
      else Outcome(t.(mode := if dialect == Python then Idle else Data), CRC)
  }

  function DataStep(dialect: Dialect, cap: nat, s: Decoder, b: byte): Outcome {
    if b == END && !s.escape then CloseStep(dialect, s)
    else if |s.data| >= cap then Outcome(s.(escape := false), TOO_MUCH_DATA)
    else Outcome(s.(escape := false, data := s.data + [b]), NOT_DONE)
  }

  function Step(dialect: Dialect, cap: nat, s: Decoder, raw: byte): Outcome {
    if s.mode != Idle && !s.escape && raw == ESC then Outcome(s.(escape := true), NOT_DONE)
    else
      var b := if s.mode != Idle && s.escape then Unescaped(raw) else raw;
      match s.mode
      case Idle => IdleStep(s, b)
      case Command => CommandStep(s, b)
      case Data => DataStep(dialect, cap, s, b)
  }

  /** What a caller sees of one step: the code and, unless it is NOT_DONE, the contents of
      the packet (with the extracted checksum once there is one). */
  datatype Report = Report(code: ErrorCode, held: seq<byte>)

  const QUIET := Report(NOT_DONE, [])

  function ReportOf(o: Outcome): Report {
    match o.code
    case NOT_DONE => QUIET
    case NONE => Report(NONE, [o.next.cmd] + o.next.data + [o.next.crc])
    case CRC => Report(CRC, [o.next.cmd] + o.next.data + [o.next.crc])
    case _ => Report(o.code, [o.next.cmd] + o.next.data)
  }

  function Codes(reports: seq<Report>): (codes: seq<ErrorCode>)
    ensures |codes| == |reports|
  {
    seq(|reports|, i requires 0 <= i < |reports| => reports[i].code)
  }

  function Quiet(n: nat): (r: seq<Report>)
    ensures |r| == n && forall i :: 0 <= i < n ==> r[i] == QUIET
  {
    seq(n, _ => QUIET)
  }

  datatype Trace = Trace(end: Decoder, reports: seq<Report>)

  function Run(dialect: Dialect, cap: nat, s: Decoder, bs: seq<byte>): (t: Trace)
    ensures |t.reports| == |bs|
    decreases |bs|
  {
    if bs == [] then Trace(s, [])
    else
      var o := Step(dialect, cap, s, bs[0]);
      var t := Run(dialect, cap, o.next, bs[1..]);
      Trace(t.end, [ReportOf(o)] + t.reports)
  }

  lemma {:induction false} RunChains(d: Dialect, cap: nat, s: Decoder, a: seq<byte>, b: seq<byte>)
    ensures var t := Run(d, cap, s, a);
            var u := Run(d, cap, t.end, b);
            Run(d, cap, s, a + b) == Trace(u.end, t.reports + u.reports)
    decreases |a|
  {
    hide Step, ReportOf;
    if a == [] {
      assert a + b == b;
    } else {
      assert (a + b)[1..] == a[1..] + b;
      RunChains(d, cap, Step(d, cap, s, a[0]).next, a[1..], b);
    }
  }

  lemma RunOne(d: Dialect, cap: nat, s: Decoder, b: byte)
    ensures Run(d, cap, s, [b]) == Trace(Step(d, cap, s, b).next, [ReportOf(Step(d, cap, s, b))])
  {
    hide Step, ReportOf;
    assert [b][1..] == [];
    assert Run(d, cap, Step(d, cap, s, b).next, []) == Trace(Step(d, cap, s, b).next, []);
  }

  lemma RunFirst(d: Dialect, cap: nat, s: Decoder, bs: seq<byte>)
    requires bs != []
    ensures var o := Step(d, cap, s, bs[0]);
            var t := Run(d, cap, o.next, bs[1..]);
            Run(d, cap, s, bs) == Trace(t.end, [ReportOf(o)] + t.reports)
  {
  }

  lemma RunOnNothing(d: Dialect, cap: nat, s: Decoder)
    ensures Run(d, cap, s, []) == Trace(s, [])
  {
  }

  lemma CodeOfReport(o: Outcome)
    ensures ReportOf(o).code == o.code
  {
  }

  /** After any bytes whatever, from any reachable state: the data collected fits the packet,
      IDLE has no escape pending, and no report is BAD_STATE. */
  lemma {:induction false} RunIsSafe(d: Dialect, cap: nat, s: Decoder, bs: seq<byte>)
    requires s.Reachable(cap)
    ensures Run(d, cap, s, bs).end.Reachable(cap)
    ensures forall r <- Run(d, cap, s, bs).reports :: r.code != BAD_STATE
    decreases |bs|
  {
    if bs != [] {
      RunIsSafe(d, cap, Step(d, cap, s, bs[0]).next, bs[1..]);
    }
  }

  // ---------- Inside a frame ----------

  /** The part of the content that fits: the command and cap bytes of data and checksum. */
  function Kept(cap: nat, content: seq<byte>): seq<byte> {
    if |content| <= cap + 1 then content else content[..cap + 1]
  }

  /** The decoder is inside a frame, not after an ESC, and has seen this content so far. */
  predicate Holds(cap: nat, s: Decoder, seen: seq<byte>) {
    && !s.escape
    && if seen == [] then s.mode == Command
       else s.mode == Data && [s.cmd] + s.data == Kept(cap, seen)
  }

  /** The report for content byte k, counting the command as byte 0. */
  function ByteReport(cap: nat, content: seq<byte>, k: nat): Report {
    if k <= cap then QUIET else Report(TOO_MUCH_DATA, Kept(cap, content))
  }

  /** The reports for a frame body of which k content bytes came before. */
  function BodyReports(cap: nat, content: seq<byte>, k: nat, body: seq<byte>): seq<Report>
    decreases |body|
  {
    if body == [] then []
    else if body[0] != ESC then [ByteReport(cap, content, k)] + BodyReports(cap, content, k + 1, body[1..])
    else if |body| == 1 then [QUIET]
    else [QUIET, ByteReport(cap, content, k)] + BodyReports(cap, content, k + 1, body[2..])
  }

  /** What the END that closes a frame reports about its content. */
  function Verdict(cap: nat, content: seq<byte>): Report {
    var kept := Kept(cap, content);
    Report(if |kept| < 2 then TOO_SMALL else if Crc8(0, kept) == 0 then NONE else CRC, kept)
  }

  /** One content byte, plain or after an ESC. */
  lemma ByteStep(d: Dialect, cap: nat, s: Decoder, seen: seq<byte>, b: byte, content: seq<byte>)
    requires s.mode != Idle && Holds(cap, s.(escape := false), seen)
    requires s.escape || (b != ESC && b != END)
    requires seen + [if s.escape then Unescaped(b) else b] <= content
    ensures var o := Step(d, cap, s, b);
            && Holds(cap, o.next, seen + [if s.escape then Unescaped(b) else b])
            && ReportOf(o) == ByteReport(cap, content, |seen|)
  {
    var b' := if s.escape then Unescaped(b) else b;
    var o := Step(d, cap, s, b);
    if seen != [] {
      assert s.data == Kept(cap, seen)[1..];
      if |seen| <= cap {
        assert [s.cmd] + (s.data + [b']) == seen + [b'];
      } else {
        assert Kept(cap, content) == Kept(cap, seen) == Kept(cap, seen + [b']);
      }
    }
  }

  lemma {:induction false} BodyRun(d: Dialect, cap: nat, s: Decoder, seen: seq<byte>, body: seq<byte>,
                                   content: seq<byte>)
    requires Holds(cap, s, seen) && IsBody(body)
    requires content == seen + Unescape(body)
    ensures var t := Run(d, cap, s, body);
            && t.reports == BodyReports(cap, content, |seen|, body)
            && (!IsDangling(body) ==> Holds(cap, t.end, content))
    decreases |body|
  {
    hide Step, ReportOf, Holds, ByteReport;
    if body == [] {
      assert content == seen;
    } else if body[0] != ESC {
      var seen' := seen + [body[0]];
      assert content == seen' + Unescape(body[1..]);
      PlainByte(d, cap, s, seen, body[0], content);
      BodyRun(d, cap, Step(d, cap, s, body[0]).next, seen', body[1..], content);
    } else {
      EscStep(d, cap, s, seen);
      var t := Step(d, cap, s, ESC).next;
      if |body| == 1 {
        assert body == [ESC];
        RunOne(d, cap, s, ESC);
      } else {
        var seen' := seen + [Unescaped(body[1])];
        assert content == seen' + Unescape(body[2..]);
        EscapedByteStep(d, cap, t, seen, body[1], content);
        BodyRun(d, cap, Step(d, cap, t, body[1]).next, seen', body[2..], content);
        assert body[1..][1..] == body[2..];
        assert Run(d, cap, t, body[1..]).reports
            == [ByteReport(cap, content, |seen|)] + BodyReports(cap, content, |seen| + 1, body[2..]);
      }
    }
  }

  lemma PlainByte(d: Dialect, cap: nat, s: Decoder, seen: seq<byte>, b: byte, content: seq<byte>)
    requires Holds(cap, s, seen) && b != ESC && b != END && seen + [b] <= content
    ensures Holds(cap, Step(d, cap, s, b).next, seen + [b])
    ensures ReportOf(Step(d, cap, s, b)) == ByteReport(cap, content, |seen|)
  {
    assert s.(escape := false) == s;
    ByteStep(d, cap, s, seen, b, content);
  }

  lemma EscStep(d: Dialect, cap: nat, s: Decoder, seen: seq<byte>)
    requires Holds(cap, s, seen)
    ensures Step(d, cap, s, ESC).next == s.(escape := true) && s.mode != Idle
    ensures ReportOf(Step(d, cap, s, ESC)) == QUIET
    ensures Holds(cap, Step(d, cap, s, ESC).next.(escape := false), seen)
  {
  }

  lemma EscapedByteStep(d: Dialect, cap: nat, s: Decoder, seen: seq<byte>, b: byte, content: seq<byte>)
    requires s.escape && s.mode != Idle && Holds(cap, s.(escape := false), seen)
    requires seen + [Unescaped(b)] <= content
    ensures Holds(cap, Step(d, cap, s, b).next, seen + [Unescaped(b)])
    ensures ReportOf(Step(d, cap, s, b)) == ByteReport(cap, content, |seen|)
  {
    ByteStep(d, cap, s, seen, b, content);
  }

  /** The END that closes a frame. */
  lemma ClosingEnd(d: Dialect, cap: nat, s: Decoder, content: seq<byte>)
    requires Holds(cap, s, content) && content != []
    ensures var o := Step(d, cap, s, END);
            && ReportOf(o) == Verdict(cap, content)
            && !o.next.escape
            && o.next.mode == match Verdict(cap, content).code
                              case NONE => Idle
                              case CRC => (if d == Python then Idle else Data)
                              case _ => (if d == Python then Command else Data)
  {
    var kept := Kept(cap, content);
    var n := |kept| - 1;
    if n > 0 {
      assert s.data == kept[1..];
      assert kept == [s.cmd] + s.data[..n - 1] + [s.data[n - 1]];
      AcceptanceIsZeroResidue(s.cmd, s.data[..n - 1], s.data[n - 1]);
    }
  }

  // ---------- Whole frames ----------

  lemma {:induction false} FittingBodyIsQuiet(cap: nat, content: seq<byte>, k: nat, body: seq<byte>)
    requires k + |Unescape(body)| <= cap + 1
    ensures BodyReports(cap, content, k, body) == Quiet(|body|)
    decreases |body|
  {
    if body == [] {
    } else if body[0] != ESC {
      FittingBodyIsQuiet(cap, content, k + 1, body[1..]);
    } else if |body| > 1 {
      FittingBodyIsQuiet(cap, content, k + 1, body[2..]);
    }
  }

  /** A frame with fitting content, from the END that opens it to the one that closes it,
      for a decoder whose next content byte is the first. */
  lemma FrameRun(d: Dialect, cap: nat, s: Decoder, content: seq<byte>)
    requires s.mode != Data && !s.escape
    requires content != []
    ensures var t := Run(d, cap, s, [END] + Escape(content));
            && t.reports == [QUIET] + BodyReports(cap, content, 0, Escape(content))
            && Holds(cap, t.end, content)
    ensures var t := Run(d, cap, s, FrameOf(content));
            && t.reports == [QUIET] + BodyReports(cap, content, 0, Escape(content)) + [Verdict(cap, content)]
            && !t.end.escape
            && (Verdict(cap, content).code == NONE ==> t.end.mode == Idle)
            && (d == Python ==> t.end.mode != Data)
  {
    var open := Step(d, cap, s, END).next;
    RunOne(d, cap, s, END);
    EscapedIsABody(content);
    BodyRun(d, cap, open, [], Escape(content), content);
    RunChains(d, cap, s, [END], Escape(content));
    var t := Run(d, cap, s, [END] + Escape(content)).end;
    ClosingEnd(d, cap, t, content);
    RunOne(d, cap, t, END);
    RunChains(d, cap, s, [END] + Escape(content), [END]);
  }

  /** A packet that fits is delivered by its last byte, and nothing is reported before. */
  function DeliveryReports(cmd: byte, data: seq<byte>): seq<Report> {
    Quiet(|Frame(cmd, data)| - 1) + [Report(NONE, Content(cmd, data))]
  }

  lemma FrameIsDelivered(d: Dialect, cap: nat, s: Decoder, cmd: byte, data: seq<byte>)
    requires s.mode != Data && !s.escape && |data| < cap
    ensures var t := Run(d, cap, s, Frame(cmd, data));
            && t.reports == DeliveryReports(cmd, data)
            && t.end == Decoder(Idle, false, cmd, data, PacketCrc(cmd, data))
  {
    hide Run, BodyReports, Escape, PacketCrc, Crc8;
    var content := Content(cmd, data);
    FrameRun(d, cap, s, content);
    EscapedIsABody(content);
    FittingBodyIsQuiet(cap, content, 0, Escape(content));
    AcceptanceIsZeroResidue(cmd, data, PacketCrc(cmd, data));
    var t := Run(d, cap, s, [END] + Escape(content)).end;
    RunChains(d, cap, s, [END] + Escape(content), [END]);
    RunOne(d, cap, t, END);
    assert [t.cmd] + t.data == content;
    FullPacketCloses(d, t, cmd, data);
  }

  lemma FullPacketCloses(d: Dialect, s: Decoder, cmd: byte, data: seq<byte>)
    requires !s.escape && [s.cmd] + s.data == Content(cmd, data)
    ensures CloseStep(d, s).next == Decoder(Idle, false, cmd, data, PacketCrc(cmd, data))
  {
    assert s.cmd == ([s.cmd] + s.data)[0];
    assert s.data == ([s.cmd] + s.data)[1..] == data + [PacketCrc(cmd, data)];
    assert s.data[..|data|] == data;
  }
}
