/** What reaches the caller: packets through noise, through a corrupted frame, into a packet
    that is too small, and from one implementation to the other. */
module Delivery {
  import opened Crc
  import opened ErrorPatterns
  import opened Slip
  import opened Decoding

  datatype Message = Message(cmd: byte, data: seq<byte>)

  // ---------- Many packets, with noise between the frames ----------

  /** Bytes without END, then extra ENDs, then the frame. */
  datatype Burst = Burst(noise: seq<byte>, extra: nat, message: Message)

  function Ends(n: nat): seq<byte> {
    seq(n, _ => END)
  }

  function Wire(bursts: seq<Burst>): seq<byte> {
    if bursts == [] then []
    else
      var b := bursts[0];
      b.noise + (Ends(b.extra) + (Frame(b.message.cmd, b.message.data) + Wire(bursts[1..])))
  }

  function Deliveries(bursts: seq<Burst>): seq<Report> {
    if bursts == [] then []
    else
      var b := bursts[0];
      Quiet(|b.noise|) + (Quiet(b.extra) + (DeliveryReports(b.message.cmd, b.message.data) + Deliveries(bursts[1..])))
  }

  lemma {:induction false} NoiseIsSkipped(d: Dialect, cap: nat, s: Decoder, noise: seq<byte>)
    requires s.mode == Idle && END !in noise
    ensures Run(d, cap, s, noise) == Trace(s, Quiet(|noise|))
    decreases |noise|
  {
    if noise != [] {
      NoiseIsSkipped(d, cap, s, noise[1..]);
    }
  }

  lemma {:induction false} ExtraEndsAreDropped(d: Dialect, cap: nat, s: Decoder, n: nat)
    requires s.mode != Data && !s.escape
    ensures var t := Run(d, cap, s, Ends(n));
            && t.reports == Quiet(n)
            && t.end.mode != Data && !t.end.escape
    decreases n
  {
    if n != 0 {
      assert Ends(n)[1..] == Ends(n - 1);
      ExtraEndsAreDropped(d, cap, Step(d, cap, s, END).next, n - 1);
    }
  }

  /** Both decoders, started in IDLE, deliver exactly the packets sent, each at the last byte
      of its frame, and report no error. */
  lemma {:induction false} EveryPacketIsDelivered(d: Dialect, cap: nat, s: Decoder, bursts: seq<Burst>)
    requires s.mode == Idle && !s.escape
    requires forall b <- bursts :: END !in b.noise && |b.message.data| < cap
    ensures Run(d, cap, s, Wire(bursts)).reports == Deliveries(bursts)
    decreases |bursts|
  {
    hide Step, ReportOf, Frame, DeliveryReports, Ends;
    if bursts != [] {
      var b := bursts[0];
      var rest := Wire(bursts[1..]);
      var frame := Frame(b.message.cmd, b.message.data);
      RunChains(d, cap, s, b.noise, Ends(b.extra) + (frame + rest));
      NoiseIsSkipped(d, cap, s, b.noise);
      RunChains(d, cap, s, Ends(b.extra), frame + rest);
      ExtraEndsAreDropped(d, cap, s, b.extra);
      var t := Run(d, cap, s, Ends(b.extra)).end;
      RunChains(d, cap, t, frame, rest);
      FrameIsDelivered(d, cap, t, b.message.cmd, b.message.data);
      EveryPacketIsDelivered(d, cap, Run(d, cap, t, frame).end, bursts[1..]);
    }
  }

  // ---------- Corrupted content ----------

  /** A decoder in IDLE, fed any frame whose content fits, reports nothing before the closing
      END, and then accepts exactly if the content's checksum is zero. */
  lemma FrameIsJudgedByItsResidue(d: Dialect, cap: nat, s: Decoder, content: seq<byte>)
    requires s.mode == Idle && !s.escape
    requires 2 <= |content| <= cap + 1
    ensures Run(d, cap, s, FrameOf(content)).reports
         == Quiet(|FrameOf(content)| - 1)
            + [Report(if Crc8(0, content) == 0 then NONE else CRC, content)]
  {
    hide Run, BodyReports, Escape, Crc8, Unescape, IsDangling;
    FrameRun(d, cap, s, content);
    EscapedIsABody(content);
    FittingBodyIsQuiet(cap, content, 0, Escape(content));
  }

  /** Which corruptions of a packet's content go unnoticed: those whose pattern of flipped
      bits is itself a codeword. */
  lemma CorruptionIsReported(d: Dialect, cap: nat, s: Decoder, cmd: byte, data: seq<byte>, flips: seq<byte>)
    requires s.mode == Idle && !s.escape
    requires |data| < cap && |flips| == |data| + 2
    ensures var content := Xor(Content(cmd, data), flips);
            Run(d, cap, s, FrameOf(content)).reports
            == Quiet(|FrameOf(content)| - 1)
               + [Report(if BitRegister(0, BitString(flips)) == 0 then NONE else CRC, content)]
  {
    var content := Xor(Content(cmd, data), flips);
    FrameIsJudgedByItsResidue(d, cap, s, content);
    AcceptanceIsZeroResidue(cmd, data, PacketCrc(cmd, data));
    ResidueOfSum(Content(cmd, data), flips);
  }

  lemma ResidueOfSum(content: seq<byte>, flips: seq<byte>)
    requires |content| == |flips| && Crc8(0, content) == 0
    ensures Crc8(0, Xor(content, flips)) == 0 <==> BitRegister(0, BitString(flips)) == 0
  {
    hide Sum, Bits, Value, Register, BitRegister;
    ZeroBits();
    SumCancels(0, 0, 0);
    RegisterIsLinear(0, 0, content, flips);
    BitsOfValue(Register(0, content));
    SumCancels(Register(0, flips), 0, 0);
    RegisterByBits(0, flips);
    BitsOfValue(Register(0, flips));
  }

  /** The last report is CRC, and all before it are NOT_DONE. */
  predicate IsRejected(reports: seq<Report>, content: seq<byte>) {
    reports == Quiet(|FrameOf(content)| - 1) + [Report(CRC, content)]
  }

  /** An odd number of flipped bits, or a burst of flips within eight consecutive bits, in a
      packet of any length, is always reported as a CRC error. */
  lemma OddAndBurstErrorsAreRejected(d: Dialect, cap: nat, s: Decoder, cmd: byte, data: seq<byte>, flips: seq<byte>)
    requires s.mode == Idle && !s.escape
    requires |data| < cap && |flips| == |data| + 2
    requires Weight(BitString(flips)) % 2 == 1 || IsBurst(BitString(flips))
    ensures var content := Xor(Content(cmd, data), flips);
            IsRejected(Run(d, cap, s, FrameOf(content)).reports, content)
  {
    CorruptionIsReported(d, cap, s, cmd, data, flips);
    if IsBurst(BitString(flips)) {
      BurstIsDetected(BitString(flips));
    } else {
      OddWeightIsDetected(BitString(flips));
    }
  }

  /** Two flipped bits are reported as a CRC error if and only if their distance is not a
      multiple of 127. */
  lemma TwoBitErrorsAreRejected(d: Dialect, cap: nat, s: Decoder, cmd: byte, data: seq<byte>, flips: seq<byte>,
                                i: nat, j: nat)
    requires s.mode == Idle && !s.escape
    requires |data| < cap && |flips| == |data| + 2
    requires IsPair(BitString(flips), i, j)
    ensures var content := Xor(Content(cmd, data), flips);
            IsRejected(Run(d, cap, s, FrameOf(content)).reports, content) <==> (j - i) % 127 != 0
  {
    hide Run, FrameOf, BitRegister;
    CorruptionIsReported(d, cap, s, cmd, data, flips);
    PairIsDetectedUnless127Divides(BitString(flips), i, j);
    var content := Xor(Content(cmd, data), flips);
    var reports := Run(d, cap, s, FrameOf(content)).reports;
    if (j - i) % 127 == 0 {
      assert reports[|reports| - 1].code == NONE;
    }
  }

  // ---------- A packet too large for its buffer ----------

  function Count(reports: seq<Report>, code: ErrorCode): nat {
    if reports == [] then 0 else (if reports[0].code == code then 1 else 0) + Count(reports[1..], code)
  }

  lemma {:induction false} CountChains(a: seq<Report>, b: seq<Report>, code: ErrorCode)
    ensures Count(a + b, code) == Count(a, code) + Count(b, code)
    decreases |a|
  {
    if a == [] {
      assert a + b == b;
    } else {
      assert (a + b)[1..] == a[1..] + b;
      CountChains(a[1..], b, code);
    }
  }

  lemma {:induction false} OverflowsInBody(cap: nat, content: seq<byte>, k: nat, s: seq<byte>)
    ensures Count(BodyReports(cap, content, k, Escape(s)), TOO_MUCH_DATA)
         == if k + |s| <= cap + 1 then 0 else if k <= cap then k + |s| - (cap + 1) else |s|
    decreases |s|
  {
    if s != [] {
      ByteReportsFirst(cap, content, k, s[0], Escape(s[1..]));
      OverflowsInBody(cap, content, k + 1, s[1..]);
      var first := (if IsSpecial(s[0]) then [QUIET] else []) + [ByteReport(cap, content, k)];
      CountChains(first, BodyReports(cap, content, k + 1, Escape(s[1..])), TOO_MUCH_DATA);
      CountChains(if IsSpecial(s[0]) then [QUIET] else [], [ByteReport(cap, content, k)], TOO_MUCH_DATA);
      CountOne(QUIET, TOO_MUCH_DATA);
      CountOne(ByteReport(cap, content, k), TOO_MUCH_DATA);
    }
  }

  /** Decoding a packet with n data bytes into a buffer of m <= n bytes reports TOO_MUCH_DATA
      exactly n + 1 - m times, never before the first m data bytes have been stored; before
      the closing END the buffer holds the first m bytes of data and checksum, wherever the
      escapes fall. */
  lemma OversizePacketIsTruncated(d: Dialect, m: nat, s: Decoder, cmd: byte, data: seq<byte>)
    requires s.mode == Idle && !s.escape && m <= |data|
    ensures var content := Content(cmd, data);
            var t := Run(d, m, s, [END] + Escape(content));
            && Count(t.reports, TOO_MUCH_DATA) == |data| + 1 - m
            && t.end.cmd == cmd
            && t.end.data == (data + [PacketCrc(cmd, data)])[..m]
            && Quiet(1 + |Escape(content[..m + 1])|) <= t.reports
  {
    hide Run, BodyReports, Escape, PacketCrc, Count;
    var content := Content(cmd, data);
    FrameRun(d, m, s, content);
    OverflowsInBody(m, content, 0, content);
    var body := BodyReports(m, content, 0, Escape(content));
    CountChains([QUIET], body, TOO_MUCH_DATA);
    QuietUntilFull(m, content, 0, content);
    CountOne(QUIET, TOO_MUCH_DATA);
    var t := Run(d, m, s, [END] + Escape(content));
    assert [t.end.cmd] + t.end.data == content[..m + 1];
    assert t.end.cmd == ([t.end.cmd] + t.end.data)[0];
    assert t.end.data == content[1..m + 1];
    assert content[1..] == data + [PacketCrc(cmd, data)];
  }

  lemma CountOne(r: Report, code: ErrorCode)
    ensures Count([r], code) == if r.code == code then 1 else 0
  {
  }

  lemma {:induction false} QuietUntilFull(cap: nat, content: seq<byte>, k: nat, s: seq<byte>)
    requires k <= cap + 1 <= k + |s|
    ensures Quiet(|Escape(s[..cap + 1 - k])|) <= BodyReports(cap, content, k, Escape(s))
    decreases |s|
  {
    hide BodyReports, ByteReport, IsSpecial;
    if k <= cap {
      QuietUntilFull(cap, content, k + 1, s[1..]);
      ByteReportsFirst(cap, content, k, s[0], Escape(s[1..]));
      assert s[..cap + 1 - k][1..] == s[1..][..cap - k];
      QuietByte(cap, content, k);
      EscapedWidth(s[0]);
    }
  }

  lemma QuietByte(cap: nat, content: seq<byte>, k: nat)
    requires k <= cap
    ensures ByteReport(cap, content, k) == QUIET
  {
  }

  lemma EscapedWidth(b: byte)
    ensures |EscapeByte(b)| == if IsSpecial(b) then 2 else 1
  {
  }

  lemma ByteReportsFirst(cap: nat, content: seq<byte>, k: nat, b: byte, tail: seq<byte>)
    ensures BodyReports(cap, content, k, EscapeByte(b) + tail)
         == (if IsSpecial(b) then [QUIET] else []) + [ByteReport(cap, content, k)]
            + BodyReports(cap, content, k + 1, tail)
  {
    hide ByteReport;
    assert (EscapeByte(b) + tail)[|EscapeByte(b)|..] == tail;
  }

  // ---------- Python and C++ side by side ----------

  /** The report after which the two implementations part. */
  predicate Parts(r: Report) {
    r.code == CRC || r.code == TOO_SMALL
  }

  /** In every state and on every byte the implementations report the same and hold the same
      packet; their states differ after exactly the reports CRC and TOO_SMALL. */
  lemma StepsAgree(cap: nat, s: Decoder, b: byte)
    ensures var p, c := Step(Python, cap, s, b), Step(Cpp, cap, s, b);
            && p.code == c.code && ReportOf(p) == ReportOf(c)
            && p.next.(mode := c.next.mode) == c.next
            && (p.next == c.next <==> !Parts(ReportOf(p)))
  {
  }

  /** On every stream the implementations report the same up to and including the first CRC
      or TOO_SMALL, and until then are in the same state. */
  lemma {:induction false} DialectsAgreeUntilError(cap: nat, s: Decoder, bs: seq<byte>, k: nat)
    requires k < |bs|
    requires forall i :: 0 <= i < k ==> !Parts(Run(Python, cap, s, bs).reports[i])
    ensures Run(Python, cap, s, bs).reports[..k + 1] == Run(Cpp, cap, s, bs).reports[..k + 1]
    ensures Run(Python, cap, s, bs[..k]).end == Run(Cpp, cap, s, bs[..k]).end
    decreases |bs|
  {
    hide Step, ReportOf, Run, Parts;
    StepsAgree(cap, s, bs[0]);
    RunFirst(Python, cap, s, bs);
    RunFirst(Cpp, cap, s, bs);
    if k == 0 {
      RunOnNothing(Python, cap, s);
      RunOnNothing(Cpp, cap, s);
    } else {
      var next := Step(Python, cap, s, bs[0]).next;
      assert !Parts(Run(Python, cap, s, bs).reports[0]);
      var rest := Run(Python, cap, next, bs[1..]).reports;
      assert forall i :: 0 <= i < k - 1 ==> rest[i] == Run(Python, cap, s, bs).reports[i + 1];
      DialectsAgreeUntilError(cap, next, bs[1..], k - 1);
      assert bs[..k][1..] == bs[1..][..k - 1];
      RunFirst(Python, cap, s, bs[..k]);
      RunFirst(Cpp, cap, s, bs[..k]);
    }
  }
}
