/** The Python decoder, fed one byte at a time, does what this parser does with the whole
    stream in hand. The parser knows no states and no escape flag: it cuts the stream at the
    ENDs that close frames and judges each frame's content as a whole. */
module BatchParsing {
  import opened Crc
  import opened Slip
  import opened Decoding

  /** Outside a frame: skip to an END. */
  function ParseOutside(cap: nat, s: seq<byte>): seq<Report>
    decreases |s|, 0
  {
    if s == [] then []
    else [QUIET] + if s[0] == END then ParseFrame(cap, s[1..]) else ParseOutside(cap, s[1..])
  }

  /** After an END that opens a frame: drop further ENDs, gather the body, judge it. Only a
      frame that was too small has its closing END open the next one. */
  function ParseFrame(cap: nat, s: seq<byte>): seq<Report>
    decreases |s|, 1
  {
    if s == [] then []
    else if s[0] == END then [QUIET] + ParseFrame(cap, s[1..])
    else
      var n := BodyLength(s);
      var content := Unescape(s[..n]);
      BodyReports(cap, content, 0, s[..n]) +
      if n == |s| then []
      else
        var verdict := Verdict(cap, content);
        [verdict] +
        if verdict.code == TOO_SMALL then ParseFrame(cap, s[n + 1..]) else ParseOutside(cap, s[n + 1..])
  }

  lemma {:induction false} CutAtBody(s: seq<byte>)
    ensures var n := BodyLength(s);
            && IsBody(s[..n])
            && (n < |s| ==> s[n] == END && !IsDangling(s[..n]))
    decreases |s|
  {
    var n := BodyLength(s);
    if s == [] || s[0] == END {
    } else if s[0] != ESC {
      CutAtBody(s[1..]);
      assert s[..n][1..] == s[1..][..n - 1];
    } else if |s| > 1 {
      CutAtBody(s[2..]);
      assert s[..n][2..] == s[2..][..n - 2];
    }
  }

  lemma UnescapedIsNotEmpty(body: seq<byte>)
    requires body != [] && !IsDangling(body)
    ensures Unescape(body) != []
  {
  }

  /** Streaming refines parsing, for every byte stream. */
  lemma {:induction false} StreamingRefinesParsing(cap: nat, s: Decoder, bs: seq<byte>)
    requires s.mode == Idle && !s.escape
    ensures Run(Python, cap, s, bs).reports == ParseOutside(cap, bs)
    decreases |bs|, 0
  {
    if bs != [] {
      if bs[0] == END {
        FrameRefinesParsing(cap, IdleStep(s, END).next, bs[1..]);
      } else {
        StreamingRefinesParsing(cap, s, bs[1..]);
      }
    }
  }

  lemma {:induction false} FrameRefinesParsing(cap: nat, s: Decoder, bs: seq<byte>)
    requires s.mode == Command && !s.escape
    ensures Run(Python, cap, s, bs).reports == ParseFrame(cap, bs)
    decreases |bs|, 1
  {
    if bs == [] {
    } else if bs[0] == END {
      FrameRefinesParsing(cap, s, bs[1..]);
    } else {
      BodyRefinesParsing(cap, s, bs);
    }
  }

  lemma {:induction false} BodyRefinesParsing(cap: nat, s: Decoder, bs: seq<byte>)
    requires s.mode == Command && !s.escape
    requires bs != [] && bs[0] != END
    ensures Run(Python, cap, s, bs).reports == ParseFrame(cap, bs)
    decreases |bs|, 0
  {
    hide Step, ReportOf, Verdict, Run, BodyReports;
    var n := BodyLength(bs);
    var body, rest := bs[..n], bs[n..];
    var content := Unescape(body);
    CutAtBody(bs);
    assert bs == body + rest;
    RunChains(Python, cap, s, body, rest);
    assert Holds(cap, s, []);
    BodyRun(Python, cap, s, [], body, content);
    var t := Run(Python, cap, s, body).end;
    if n == |bs| {
      assert rest == [];
      RunOnNothing(Python, cap, t);
    } else {
      UnescapedIsNotEmpty(body);
      ClosingEnd(Python, cap, t, content);
      var u := Step(Python, cap, t, END).next;
      assert rest == [END] + bs[n + 1..];
      RunChains(Python, cap, t, [END], bs[n + 1..]);
      RunOne(Python, cap, t, END);
      VerdictCodes(cap, content);
      if Verdict(cap, content).code == TOO_SMALL {
        FrameRefinesParsing(cap, u, bs[n + 1..]);
      } else {
        StreamingRefinesParsing(cap, u, bs[n + 1..]);
      }
    }
  }

  lemma VerdictCodes(cap: nat, content: seq<byte>)
    ensures Verdict(cap, content).code in {NONE, CRC, TOO_SMALL}
  {
  }
}
