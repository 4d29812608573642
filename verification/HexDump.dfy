/** The memory dump, which formats every line in one reused buffer. Text is its UTF-8 bytes;
    everything but the prefix is ASCII. */
module HexDump {
  import opened Crc

  const SPACE: byte := 0x20
  const COLON: byte := 0x3a
  const DOT: byte := 0x2e
  const ZERO_DIGIT: byte := 0x30
  const MINUS: byte := 0x2d
  const NO_DATA: seq<byte> := [0x4e, 0x6f, 0x20, 0x64, 0x61, 0x74, 0x61]

  // ---------- Hexadecimal text ----------

  function HexDigit(n: nat): byte
    requires n < 16
  {
    if n < 10 then 0x30 + n else 0x57 + n
  }

  function Hexlify(s: seq<byte>): (h: seq<byte>)
    ensures |h| == if s == [] then 0 else 3 * |s| - 1
  {
    if s == [] then []
    else [HexDigit(s[0] / 16), HexDigit(s[0] % 16)] + if |s| == 1 then [] else [SPACE] + Hexlify(s[1..])
  }

  function HexNumber(n: nat): (h: seq<byte>)
    ensures h != []
  {
    (if n < 16 then [] else HexNumber(n / 16)) + [HexDigit(n % 16)]
  }

  function Repeat(b: byte, n: int): (s: seq<byte>)
    ensures |s| == if n < 0 then 0 else n
    ensures forall i :: 0 <= i < |s| ==> s[i] == b
  {
    seq(if n < 0 then 0 else n, _ => b)
  }

  /** At least four characters: a minus sign if there is one, zeros, the digits. */
  function AddrText(addr: int): seq<byte> {
    if addr < 0 then [MINUS] + Repeat(ZERO_DIGIT, 3 - |HexNumber(-addr)|) + HexNumber(-addr)
    else Repeat(ZERO_DIGIT, 4 - |HexNumber(addr)|) + HexNumber(addr)
  }

  /** The address fits the four columns that the line has for it. */
  predicate AddrFits(addr: int) {
    |AddrText(addr)| == 4
  }

  lemma HexNumberWidth(n: nat)
    ensures |HexNumber(n)| <= 3 <==> n <= 0xfff
    ensures |HexNumber(n)| <= 4 <==> n <= 0xffff
  {
    assert HexNumber(n / 16 / 16 / 16 / 16) != [];
    assert n > 0xffff ==> |HexNumber(n / 16)| == |HexNumber(n / 16 / 16)| + 1;
  }

  lemma AddrFitsFourColumns(addr: int)
    ensures AddrFits(addr) <==> -0xfff <= addr <= 0xffff
  {
    HexNumberWidth(if addr < 0 then -addr else addr);
  }

  /** What is shown for a byte. */
  function Printable(b: byte): byte {
    if b < 0x20 || b > 0x7e then DOT else b
  }

  function Ascii(s: seq<byte>): (t: seq<byte>)
    ensures |t| == |s|
  {
    seq(|s|, i requires 0 <= i < |s| => Printable(s[i]))
  }

  // ---------- A line, and the lines of a buffer, as pure functions ----------

  datatype Layout = Layout(prefix: seq<byte>, width: nat, showAscii: bool, showAddr: bool)
  {
    /** The prefix, if any, with its colon and the space after it. */
    function Label(): seq<byte> {
      if prefix == [] then [] else prefix + [COLON, SPACE]
    }

    function HexOffset(): nat {
      |Label()| + if showAddr then 6 else 0
    }

    function AsciiOffset(): nat {
      HexOffset() + 3 * width
    }

    function MaxLen(): int {
      HexOffset() + 3 * width - 1 + if showAscii then width + 1 else 0
    }

    function AddrColumn(addr: int): seq<byte> {
      if showAddr then AddrText(addr) + [COLON, SPACE] else []
    }

    function Line(chunk: seq<byte>, addr: int): seq<byte>
      requires |chunk| <= width
    {
      Label() + AddrColumn(addr) + Hexlify(chunk) +
      if showAscii then AsciiColumn(chunk) else []
    }

    /** Blanks for the missing hex columns, a separator, and the characters. */
    function AsciiColumn(chunk: seq<byte>): seq<byte>
      requires |chunk| <= width
    {
      Repeat(SPACE, 3 * (width - |chunk|) + 1) + Ascii(chunk)
    }

    function Chunk(buf: seq<byte>): seq<byte> {
      if |buf| <= width then buf else buf[..width]
    }

    function Lines(buf: seq<byte>, addr: int): seq<seq<byte>>
      requires width > 0
    {
      if buf == [] then []
      else [Line(Chunk(buf), addr)] + Lines(buf[|Chunk(buf)|..], addr + width)
    }

    /** Every line's address fits, if addresses are shown. */
    predicate AddrsFit(size: nat, addr: int)
      requires width > 0
    {
      !showAddr || size == 0 ||
      (AddrFits(addr) && AddrsFit(if size <= width then 0 else size - width, addr + width))
    }
  }

  // ---------- The reused line buffer ----------

  /** Assigns to a slice of the buffer. */
  method Write(out: array<byte>, at: nat, s: seq<byte>)
    requires at + |s| <= out.Length
    modifies out
    ensures out[..at + |s|] == old(out[..at]) + s && out[at + |s|..] == old(out[at + |s|..])
  {
    forall i | 0 <= i < |s| {
      out[at + i] := s[i];
    }
  }

  method Blank(out: array<byte>, start: nat, end: nat)
    requires start <= end <= out.Length
    modifies out
    ensures out[..end] == old(out[..start]) + Repeat(SPACE, end - start)
  {
    var i := start;
    while i < end
      invariant start <= i <= end
      invariant forall j :: start <= j < i ==> out[j] == SPACE
      invariant out[..start] == old(out[..start])
    {
      out[i] := SPACE;
      i := i + 1;
    }
  }

  method ReplaceUnprintable(out: array<byte>, at: nat, count: nat)
    requires at + count <= out.Length
    modifies out
    ensures out[..at + count] == old(out[..at]) + Ascii(old(out[at..at + count]))
  {
    var i := 0;
    while i < count
      invariant i <= count
      invariant forall j :: at <= j < at + i ==> out[j] == Printable(old(out[j]))
      invariant forall j :: at + i <= j < at + count ==> out[j] == old(out[j])
      invariant out[..at] == old(out[..at])
    {
      if out[at + i] < 0x20 || out[at + i] > 0x7e {
        out[at + i] := DOT;
      }
      i := i + 1;
    }
    assert out[..at + count] == out[..at] + out[at..at + count];
    assert out[at..at + count] == Ascii(old(out[at..at + count]));
  }

  /** What the buffer must hold between lines; the rest of it may be left over from earlier
      lines. */
  ghost predicate IsPrepared(out: array<byte>, layout: Layout)
    reads out
  {
    && layout.width > 0 && out.Length == layout.MaxLen()
    && out[..|layout.Label()|] == layout.Label()
    && (layout.showAscii ==> out[layout.AsciiOffset() - 1] == SPACE)
  }

  /** One turn of the loop: whatever was in the buffer, the line is a function of the chunk
      and its address alone. */
  method FormatLine(out: array<byte>, layout: Layout, chunk: seq<byte>, addr: int) returns (line: seq<byte>)
    requires IsPrepared(out, layout) && 0 < |chunk| <= layout.width
    requires layout.showAddr ==> AddrFits(addr)
    modifies out
    ensures IsPrepared(out, layout) && line == layout.Line(chunk, addr)
  {
    hide Hexlify, AddrText, Ascii, HexNumber;
    var outLen := layout.HexOffset() + 3 * |chunk| - 1;
    WriteAddrAndHex(out, layout, chunk, addr);
    ghost var columns := out[..outLen];
    if layout.showAscii {
      outLen := WriteAscii(out, layout, chunk);
      assert out[layout.AsciiOffset() - 1]
          == (columns + layout.AsciiColumn(chunk))[layout.AsciiOffset() - 1];
    }
    line := out[..outLen];
    assert line == layout.Line(chunk, addr);
    assert out[..|layout.Label()|] == line[..|layout.Label()|];
  }

  /** Blanks what is left of the hex columns and writes the characters. */
  method WriteAscii(out: array<byte>, layout: Layout, chunk: seq<byte>) returns (outLen: nat)
    requires out.Length == layout.MaxLen() && layout.showAscii && 0 < |chunk| <= layout.width
    requires out[layout.AsciiOffset() - 1] == SPACE
    modifies out
    ensures outLen == layout.AsciiOffset() + |chunk| <= out.Length
    ensures out[..outLen] == old(out[..layout.HexOffset() + 3 * |chunk| - 1]) + layout.AsciiColumn(chunk)
  {
    hide Ascii, Repeat, Layout.HexOffset, Layout.AsciiOffset, Layout.MaxLen, Layout.Label;
    Offsets(layout);
    var n, asciiOffset := |chunk|, layout.AsciiOffset();
    var start := layout.HexOffset() + 3 * n - 1;
    ghost var columns := out[..start];
    if n < layout.width {
      Blank(out, start, asciiOffset);
    } else {
      OneBlank();
      assert out[..asciiOffset] == out[..start] + [out[start]];
    }
    ShowChunk(out, asciiOffset, chunk);
    outLen := asciiOffset + n;
    ghost var blanks := Repeat(SPACE, 3 * (layout.width - n) + 1);
    assert columns + blanks + Ascii(chunk) == columns + (blanks + Ascii(chunk));
  }

  lemma Offsets(layout: Layout)
    ensures layout.HexOffset() == |layout.Label()| + if layout.showAddr then 6 else 0
    ensures layout.AsciiOffset() == layout.HexOffset() + 3 * layout.width
    ensures layout.MaxLen() == layout.AsciiOffset() + if layout.showAscii then layout.width else -1
  {
  }

  lemma OneBlank()
    ensures Repeat(SPACE, 1) == [SPACE]
  {
  }

  method ShowChunk(out: array<byte>, at: nat, chunk: seq<byte>)
    requires at + |chunk| <= out.Length
    modifies out
    ensures out[..at + |chunk|] == old(out[..at]) + Ascii(chunk)
  {
    hide Ascii;
    ghost var before := out[..at];
    Write(out, at, chunk);
    assert out[at..at + |chunk|] == out[..at + |chunk|][at..] == chunk;
    assert out[..at] == out[..at + |chunk|][..at] == before;
    ReplaceUnprintable(out, at, |chunk|);
  }

  /** The part of a line that does not depend on showAscii; it leaves the separator alone. */
  method WriteAddrAndHex(out: array<byte>, layout: Layout, chunk: seq<byte>, addr: int)
    requires IsPrepared(out, layout) && 0 < |chunk| <= layout.width
    requires layout.showAddr ==> AddrFits(addr)
    modifies out
    ensures out[..layout.HexOffset() + 3 * |chunk| - 1]
         == layout.Label() + layout.AddrColumn(addr) + Hexlify(chunk)
    ensures layout.showAscii ==> out[layout.AsciiOffset() - 1] == SPACE
  {
    hide Hexlify, AddrText, HexNumber;
    ghost var separator := layout.AsciiOffset() - 1;
    if layout.showAddr {
      var start := |layout.Label()|;
      Write(out, start, AddrText(addr) + [COLON, SPACE]);
      assert layout.showAscii ==> out[separator] == out[start + 6..][separator - start - 6];
    }
    var hexOffset := layout.HexOffset();
    assert out[..hexOffset] == layout.Label() + layout.AddrColumn(addr);
    ghost var end := hexOffset + 3 * |chunk| - 1;
    assert layout.showAscii ==> out[separator] == out[end..][separator - end];
    Write(out, hexOffset, Hexlify(chunk));
    assert layout.showAscii ==> out[separator] == out[end..][separator - end];
  }

  // ---------- The whole dump ----------

  /** Logs the lines of the buffer. A false ok stands for the ValueError of a zero width, or
      of an address that does not fit its columns; the lines before it have been logged. */
  method DumpMem(buf: seq<byte>, prefix: seq<byte>, addr: int, lineWidth: int, showAscii: bool, showAddr: bool)
    returns (lines: seq<seq<byte>>, ok: bool)
    ensures buf == [] ==>
      && ok && |lines| == 1
      && lines[0] == (if prefix == [] then [] else prefix + [0x3a]) + [0x4e, 0x6f, 0x20, 0x64, 0x61, 0x74, 0x61]
    ensures buf != [] && lineWidth == 0 ==> !ok && lines == []
    ensures buf != [] && lineWidth != 0 ==>
      var width := if lineWidth < 0 then 16 else lineWidth;
      var layout := Layout(prefix, width, showAscii, showAddr);
      && IsDump(lines, ok, buf, addr, layout)
      && (ok <==> layout.AddrsFit(|buf|, addr))
      && (ok ==> lines == layout.Lines(buf, addr))
      && (!ok ==> lines <= layout.Lines(buf, addr))
  {
    if buf == [] {
      return [(if prefix == [] then [] else prefix + [COLON]) + NO_DATA], true;
    }
    var width := if lineWidth < 0 then 16 else lineWidth;
    if width == 0 {
      return [], false;
    }
    hide Layout.Lines, Layout.AddrsFit, Layout.MaxLen, IsPrepared, AreShown;
    var layout := Layout(prefix, width, showAscii, showAddr);
    MaxLenIsNotNegative(layout);
    var out := new byte[layout.MaxLen()](_ => 0);
    Prepare(out, layout);
    lines, ok := DumpLines(out, layout, buf, addr);
  }

  /** The loop over the offsets. */
  method DumpLines(out: array<byte>, layout: Layout, buf: seq<byte>, addr: int)
    returns (lines: seq<seq<byte>>, ok: bool)
    requires IsPrepared(out, layout) && layout.width > 0
    modifies out
    ensures ok <==> layout.AddrsFit(|buf|, addr)
    ensures if ok then lines == layout.Lines(buf, addr) else lines <= layout.Lines(buf, addr)
    ensures IsDump(lines, ok, buf, addr, layout)
  {
    hide AddrFits, Layout.Line, Layout.Lines, Layout.AddrsFit, Layout.Chunk, IsPrepared, AreShown, ChunkAt;
    ghost var all := layout.Lines(buf, addr);
    NoneAreShown(buf, addr, layout);
    var offset, lineAddr := 0, addr;
    lines := [];
    assert buf[0..] == buf;
    while offset < |buf|
      invariant offset <= |buf| && IsPrepared(out, layout)
      invariant lines + layout.Lines(buf[offset..], lineAddr) == all
      invariant layout.AddrsFit(|buf|, addr) <==> layout.AddrsFit(|buf| - offset, lineAddr)
      invariant AreShown(lines, buf, addr, layout)
      invariant lineAddr == addr + |lines| * layout.width
      invariant if offset < |buf| then offset == |lines| * layout.width
                else (|lines| - 1) * layout.width < |buf| <= |lines| * layout.width
    {
      ghost var rest := buf[offset..];
      var chunk := layout.Chunk(buf[offset..]);
      OneLine(layout, rest, lineAddr);
      ChunkSize(layout, rest);
      OneMore(|lines|, layout.width);
      ChunkAtOffset(layout, buf, |lines|);
      if layout.showAddr && !AddrFits(lineAddr) {
        AddrFitsFourColumns(lineAddr);
        return lines, false;
      }
      var line := FormatLine(out, layout, chunk, lineAddr);
      ghost var others := layout.Lines(rest[|chunk|..], lineAddr + layout.width);
      assert lines + ([line] + others) == (lines + [line]) + others;
      assert rest[|chunk|..] == buf[offset + |chunk|..];
      OneMoreIsShown(lines, buf, addr, layout);
      lines := lines + [line];
      offset := offset + |chunk|;
      lineAddr := lineAddr + layout.width;
    }
    assert buf[offset..] == [];
    NoLines(layout, lineAddr);
    return lines, true;
  }

  lemma ChunkAtOffset(layout: Layout, buf: seq<byte>, k: nat)
    requires k * layout.width < |buf|
    ensures layout.Chunk(buf[k * layout.width..]) == ChunkAt(buf, k, layout.width)
  {
    OneMore(k, layout.width);
  }

  lemma MaxLenIsNotNegative(layout: Layout)
    requires layout.width > 0
    ensures layout.MaxLen() >= 0
  {
  }

  lemma OneLine(layout: Layout, buf: seq<byte>, addr: int)
    requires layout.width > 0 && buf != []
    ensures var chunk := layout.Chunk(buf);
            && layout.Lines(buf, addr)
               == [layout.Line(chunk, addr)] + layout.Lines(buf[|chunk|..], addr + layout.width)
            && (layout.AddrsFit(|buf|, addr) <==>
                 (layout.showAddr ==> AddrFits(addr)) && layout.AddrsFit(|buf| - |chunk|, addr + layout.width))
  {
    hide AddrFits, Layout.Line, Layout.Chunk;
    ChunkSize(layout, buf);
    OneLineOfAddrs(layout, |buf|, addr);
  }

  lemma OneLineOfAddrs(layout: Layout, size: nat, addr: int)
    requires layout.width > 0 && size > 0
    ensures layout.AddrsFit(size, addr) <==>
      (layout.showAddr ==> AddrFits(addr))
      && layout.AddrsFit(if size <= layout.width then 0 else size - layout.width, addr + layout.width)
  {
    hide AddrFits;
  }

  lemma NoLines(layout: Layout, addr: int)
    requires layout.width > 0
    ensures layout.Lines([], addr) == [] && layout.AddrsFit(0, addr)
  {
  }

  /** The prefix and the separator are written once, before the first line. */
  method Prepare(out: array<byte>, layout: Layout)
    requires layout.width > 0 && out.Length == layout.MaxLen()
    modifies out
    ensures IsPrepared(out, layout)
  {
    hide Layout.HexOffset, Layout.AsciiOffset, Layout.MaxLen, Layout.Label;
    Offsets(layout);
    var n := |layout.Label()|;
    WriteLabel(out, layout);
    if layout.showAscii {
      var separator := layout.AsciiOffset() - 1;
      ghost var before := out[..separator];
      Write(out, separator, [SPACE]);
      ghost var after := out[..separator + 1];
      assert after == before + [SPACE];
      assert out[separator] == after[separator];
      assert out[..n] == after[..n] == before[..n];
    }
  }

  method WriteLabel(out: array<byte>, layout: Layout)
    requires |layout.Label()| <= out.Length
    modifies out
    ensures out[..|layout.Label()|] == layout.Label()
  {
    if layout.prefix != [] {
      Write(out, 0, layout.prefix + [COLON]);
      Write(out, |layout.prefix| + 1, [SPACE]);
      assert layout.prefix + [COLON] + [SPACE] == layout.Label();
    }
  }

  // ---------- What a dump looks like to its reader ----------

  /** The position of a character in the table of digits, or -1 for any other character. */
  function DigitValue(c: byte): (v: int)
    ensures -1 <= v < 16
    ensures v >= 0 ==> "0123456789abcdef"[v] as int == c
    ensures v < 0 ==> forall d <- "0123456789abcdef" :: d as int != c
  {
    if 0x30 <= c <= 0x39 then c as int - 0x30 else if 0x61 <= c <= 0x66 then c as int - 0x57 else -1
  }

  /** The number that the digits stand for, or -1 if they are not all digits. */
  function HexValue(s: seq<byte>): (n: int)
    ensures n >= -1
  {
    if s == [] then 0
    else
      var high, low := HexValue(s[..|s| - 1]), DigitValue(s[|s| - 1]);
      if high < 0 || low < 0 then -1 else 16 * high + low
  }

  /** Four characters for the address, with a minus sign among them if it is negative. */
  predicate ShowsAddr(s: seq<byte>, addr: int) {
    && |s| == 6 && s[4..] == [0x3a, 0x20]
    && if addr >= 0 then HexValue(s[..4]) == addr else s[0] == 0x2d && HexValue(s[1..4]) == -addr
  }

  /** Two digits for each byte, with a blank between one byte and the next. */
  predicate ShowsBytes(line: seq<byte>, at: nat, chunk: seq<byte>)
    requires at + 3 * |chunk| - 1 <= |line|
  {
    forall i :: 0 <= i < |chunk| ==>
      HexValue(line[at + 3 * i..at + 3 * i + 2]) == chunk[i] && (i > 0 ==> line[at + 3 * i - 1] == 0x20)
  }

  /** A character for each byte. */
  predicate ShowsText(line: seq<byte>, at: nat, chunk: seq<byte>)
    requires at + |chunk| <= |line|
  {
    forall i :: 0 <= i < |chunk| ==> line[at + i] == if 0x20 <= chunk[i] <= 0x7e then chunk[i] else 0x2e
  }

  /** The line for a chunk at an address, position by position. */
  predicate Shows(line: seq<byte>, chunk: seq<byte>, addr: int, layout: Layout)
    requires 0 < |chunk| <= layout.width
  {
    var addrAt := if layout.prefix == [] then 0 else |layout.prefix| + 2;
    var hexAt := addrAt + if layout.showAddr then 6 else 0;
    var hexEnd, textAt := hexAt + 3 * |chunk| - 1, hexAt + 3 * layout.width;
    && |line| == (if layout.showAscii then textAt + |chunk| else hexEnd)
    && line[..addrAt] == (if layout.prefix == [] then [] else layout.prefix + [0x3a, 0x20])
    && (layout.showAddr ==> ShowsAddr(line[addrAt..hexAt], addr))
    && ShowsBytes(line, hexAt, chunk)
    && (layout.showAscii ==> ShowsText(line, textAt, chunk))
    && (layout.showAscii ==> forall i :: hexEnd <= i < textAt ==> line[i] == 0x20)
  }

  /** Chunk k of the buffer. */
  function ChunkAt(buf: seq<byte>, k: nat, width: nat): seq<byte> {
    if k * width >= |buf| then []
    else if (k + 1) * width >= |buf| then buf[k * width..]
    else buf[k * width..(k + 1) * width]
  }

  /** One line for each chunk, in order, with the address of its first byte. */
  predicate AreShown(lines: seq<seq<byte>>, buf: seq<byte>, addr: int, layout: Layout) {
    forall k :: 0 <= k < |lines| ==>
      var chunk := ChunkAt(buf, k, layout.width);
      0 < |chunk| <= layout.width && Shows(lines[k], chunk, addr + k * layout.width, layout)
  }

  /** The lines are those of the whole buffer, or go up to the first address that has no room
      in four columns. */
  predicate IsDump(lines: seq<seq<byte>>, ok: bool, buf: seq<byte>, addr: int, layout: Layout)
    requires layout.width > 0
  {
    var w := layout.width;
    && AreShown(lines, buf, addr, layout)
    && if ok then (|lines| - 1) * w < |buf| <= |lines| * w
       else layout.showAddr && |lines| * w < |buf| && !(-0xfff <= addr + |lines| * w <= 0xffff)
  }

  // ---------- The lines are a dump ----------

  lemma DigitReadsBack(n: nat)
    requires n < 16
    ensures DigitValue(HexDigit(n)) == n
  {
  }

  lemma {:induction false} NumberReadsBack(n: nat)
    ensures HexValue(HexNumber(n)) == n
  {
    DigitReadsBack(n % 16);
    var s := HexNumber(n);
    if n >= 16 {
      NumberReadsBack(n / 16);
      assert s[..|s| - 1] == HexNumber(n / 16);
    } else {
      assert s[..|s| - 1] == [];
    }
  }

  lemma {:induction false} LeadingZeros(n: int, s: seq<byte>)
    ensures HexValue(Repeat(ZERO_DIGIT, n) + s) == HexValue(s)
    decreases |s|, if n < 0 then 0 else n
  {
    var t := Repeat(ZERO_DIGIT, n) + s;
    if s != [] {
      assert t[..|t| - 1] == Repeat(ZERO_DIGIT, n) + s[..|s| - 1];
      LeadingZeros(n, s[..|s| - 1]);
    } else if n > 0 {
      assert t[..|t| - 1] == Repeat(ZERO_DIGIT, n - 1) + [];
      LeadingZeros(n - 1, []);
    }
  }

  lemma AddrIsShown(addr: int)
    requires AddrFits(addr)
    ensures ShowsAddr(AddrText(addr) + [COLON, SPACE], addr)
  {
    hide HexNumber, Repeat, HexValue;
    var n := if addr < 0 then -addr else addr;
    var s := AddrText(addr) + [COLON, SPACE];
    NumberReadsBack(n);
    if addr < 0 {
      LeadingZeros(3 - |HexNumber(n)|, HexNumber(n));
      assert s[1..4] == Repeat(ZERO_DIGIT, 3 - |HexNumber(n)|) + HexNumber(n);
    } else {
      LeadingZeros(4 - |HexNumber(n)|, HexNumber(n));
      assert s[..4] == AddrText(addr);
    }
  }

  lemma {:induction false} HexlifyAt(s: seq<byte>, i: nat)
    requires i < |s|
    ensures HexValue(Hexlify(s)[3 * i..3 * i + 2]) == s[i]
    ensures i > 0 ==> Hexlify(s)[3 * i - 1] == 0x20
    decreases |s|
  {
    hide HexValue;
    var digits := [HexDigit(s[0] / 16), HexDigit(s[0] % 16)];
    if i == 0 {
      ByteReadsBack(s[0]);
      assert Hexlify(s)[..2] == digits;
    } else {
      HexlifyAt(s[1..], i - 1);
      assert Hexlify(s) == digits + [SPACE] + Hexlify(s[1..]);
      assert Hexlify(s)[3 * i..3 * i + 2] == Hexlify(s[1..])[3 * (i - 1)..3 * (i - 1) + 2];
    }
  }

  lemma ByteReadsBack(b: byte)
    ensures HexValue([HexDigit(b / 16), HexDigit(b % 16)]) == b
  {
    var s := [HexDigit(b / 16), HexDigit(b % 16)];
    DigitReadsBack(b / 16);
    DigitReadsBack(b % 16);
    assert s[..1][..0] == [];
    assert HexValue(s[..1]) == b / 16;
  }

  lemma BytesAreShown(before: seq<byte>, chunk: seq<byte>, after: seq<byte>)
    requires chunk != []
    ensures ShowsBytes(before + Hexlify(chunk) + after, |before|, chunk)
  {
    hide HexValue, Hexlify;
    var line := before + Hexlify(chunk) + after;
    forall i | 0 <= i < |chunk|
      ensures HexValue(line[|before| + 3 * i..|before| + 3 * i + 2]) == chunk[i]
      ensures i > 0 ==> line[|before| + 3 * i - 1] == 0x20
    {
      HexlifyAt(chunk, i);
      assert line[|before| + 3 * i..|before| + 3 * i + 2] == Hexlify(chunk)[3 * i..3 * i + 2];
    }
  }

  lemma TextIsShown(columns: seq<byte>, layout: Layout, chunk: seq<byte>)
    requires |chunk| <= layout.width
    ensures var line := columns + layout.AsciiColumn(chunk);
            var textAt := |columns| + 3 * (layout.width - |chunk|) + 1;
            && |line| == textAt + |chunk| && ShowsText(line, textAt, chunk)
            && forall i :: |columns| <= i < textAt ==> line[i] == 0x20
  {
  }

  lemma LineIsShown(layout: Layout, chunk: seq<byte>, addr: int)
    requires 0 < |chunk| <= layout.width
    requires layout.showAddr ==> AddrFits(addr)
    ensures Shows(layout.Line(chunk, addr), chunk, addr, layout)
  {
    hide Hexlify, AddrText, ShowsAddr, ShowsBytes, ShowsText, AddrFits, Layout.AsciiColumn;
    var before := layout.Label() + layout.AddrColumn(addr);
    var after := if layout.showAscii then layout.AsciiColumn(chunk) else [];
    var line := layout.Line(chunk, addr);
    assert line == before + Hexlify(chunk) + after;
    BytesAreShown(before, chunk, after);
    TextIsShown(before + Hexlify(chunk), layout, chunk);
    if layout.showAddr {
      AddrFitsHere(addr);
      AddrIsShown(addr);
      assert line[|layout.Label()|..|before|] == layout.AddrColumn(addr);
    }
  }

  lemma AddrFitsHere(addr: int)
    requires AddrFits(addr)
    ensures |AddrText(addr)| == 4
  {
  }

  // ---------- There is only one such line ----------

  lemma {:induction false} HexValueIsInjective(s: seq<byte>, s': seq<byte>)
    requires |s| == |s'| && HexValue(s) == HexValue(s') >= 0
    ensures s == s'
    decreases |s|
  {
    if s != [] {
      var n := |s| - 1;
      HexValueIsInjective(s[..n], s'[..n]);
      assert s == s[..n] + [s[n]] && s' == s'[..n] + [s'[n]];
    }
  }

  lemma HexValueIsBelow(s: seq<byte>)
    ensures |s| == 3 ==> HexValue(s) <= 0xfff
    ensures |s| == 4 ==> HexValue(s) <= 0xffff
  {
    if |s| == 3 || |s| == 4 {
      assert HexValue([]) == 0 && s[..1][..0] == [];
      assert s[..2][..1] == s[..1] && s[..3][..2] == s[..2];
      assert HexValue(s[..1]) <= 0xf && HexValue(s[..2]) <= 0xff && HexValue(s[..3]) <= 0xfff;
      assert |s| == 3 ==> s[..3] == s;
    }
  }

  lemma AddrIsShownOnce(s: seq<byte>, s': seq<byte>, addr: int)
    requires ShowsAddr(s, addr) && ShowsAddr(s', addr)
    ensures s == s' && AddrFits(addr)
  {
    hide AddrFits, HexValue;
    AddrFitsFourColumns(addr);
    if addr >= 0 {
      HexValueIsBelow(s[..4]);
      HexValueIsInjective(s[..4], s'[..4]);
      assert s == s[..4] + s[4..] && s' == s'[..4] + s'[4..];
    } else {
      HexValueIsBelow(s[1..4]);
      HexValueIsInjective(s[1..4], s'[1..4]);
      assert s == [s[0]] + s[1..4] + s[4..] && s' == [s'[0]] + s'[1..4] + s'[4..];
    }
  }

  lemma BytesAreShownOnce(line: seq<byte>, line': seq<byte>, at: nat, chunk: seq<byte>, p: nat)
    requires at + 3 * |chunk| - 1 <= |line| && at + 3 * |chunk| - 1 <= |line'|
    requires ShowsBytes(line, at, chunk) && ShowsBytes(line', at, chunk)
    requires at <= p < at + 3 * |chunk| - 1
    ensures line[p] == line'[p]
  {
    hide HexValue;
    var i, r := (p - at) / 3, (p - at) % 3;
    if r == 2 {
      assert chunk[i + 1] == chunk[i + 1];
      assert line[at + 3 * (i + 1) - 1] == 0x20 == line'[at + 3 * (i + 1) - 1];
    } else {
      var s, s' := line[at + 3 * i..at + 3 * i + 2], line'[at + 3 * i..at + 3 * i + 2];
      assert HexValue(s) == chunk[i] == HexValue(s');
      HexValueIsInjective(s, s');
      assert line[p] == s[r] && line'[p] == s'[r];
    }
  }

  /** The description of a line leaves nothing open. */
  lemma ShowsIffLine(line: seq<byte>, chunk: seq<byte>, addr: int, layout: Layout)
    requires 0 < |chunk| <= layout.width
    ensures Shows(line, chunk, addr, layout)
       <==> (layout.showAddr ==> AddrFits(addr)) && line == layout.Line(chunk, addr)
  {
    hide AddrFits, Layout.Line;
    if !layout.showAddr || AddrFits(addr) {
      LineIsShown(layout, chunk, addr);
      if Shows(line, chunk, addr, layout) {
        LineIsShownOnce(line, layout.Line(chunk, addr), chunk, addr, layout);
      }
    } else if Shows(line, chunk, addr, layout) {
      LineIsShownOnce(line, line, chunk, addr, layout);
    }
  }

  lemma LineIsShownOnce(line: seq<byte>, line': seq<byte>, chunk: seq<byte>, addr: int, layout: Layout)
    requires 0 < |chunk| <= layout.width
    requires Shows(line, chunk, addr, layout) && Shows(line', chunk, addr, layout)
    ensures line == line' && (layout.showAddr ==> AddrFits(addr))
  {
    hide AddrFits, ShowsAddr, ShowsBytes;
    var addrAt := if layout.prefix == [] then 0 else |layout.prefix| + 2;
    var hexAt := addrAt + if layout.showAddr then 6 else 0;
    var hexEnd, textAt := hexAt + 3 * |chunk| - 1, hexAt + 3 * layout.width;
    if layout.showAddr {
      AddrIsShownOnce(line[addrAt..hexAt], line'[addrAt..hexAt], addr);
    }
    forall p | 0 <= p < |line|
      ensures line[p] == line'[p]
    {
      if p < addrAt {
        assert line[p] == line[..addrAt][p] == line'[..addrAt][p];
      } else if p < hexAt {
        assert line[p] == line[addrAt..hexAt][p - addrAt];
        assert line'[p] == line'[addrAt..hexAt][p - addrAt];
      } else if p < hexEnd {
        BytesAreShownOnce(line, line', hexAt, chunk, p);
      } else if p >= textAt {
        var i := p - textAt;
        assert line[textAt + i] == (if 0x20 <= chunk[i] <= 0x7e then chunk[i] else 0x2e);
      }
    }
  }

  lemma NoneAreShown(buf: seq<byte>, addr: int, layout: Layout)
    ensures AreShown([], buf, addr, layout)
  {
  }

  lemma OneMoreIsShown(lines: seq<seq<byte>>, buf: seq<byte>, addr: int, layout: Layout)
    requires layout.width > 0 && |lines| * layout.width < |buf|
    requires layout.showAddr ==> AddrFits(addr + |lines| * layout.width)
    requires AreShown(lines, buf, addr, layout)
    ensures var chunk := ChunkAt(buf, |lines|, layout.width);
            && 0 < |chunk| <= layout.width
            && AreShown(lines + [layout.Line(chunk, addr + |lines| * layout.width)], buf, addr, layout)
  {
    hide Shows, AddrFits, Layout.Line;
    OneMore(|lines|, layout.width);
    LineIsShown(layout, ChunkAt(buf, |lines|, layout.width), addr + |lines| * layout.width);
  }

  // ---------- A dump reads back ----------

  /** Reads hex columns from a line until a column is blank or missing. */
  function ReadColumns(line: seq<byte>, at: nat, count: nat): seq<int>
    decreases count
  {
    if count == 0 || at + 1 >= |line| || line[at] == 0x20 then []
    else [HexValue(line[at..at + 2])] + ReadColumns(line, at + 3, count - 1)
  }

  function ReadDump(lines: seq<seq<byte>>, at: nat, width: nat): seq<int> {
    if lines == [] then [] else ReadColumns(lines[0], at, width) + ReadDump(lines[1..], at, width)
  }

  lemma {:induction false} ColumnsReadBack(line: seq<byte>, at: nat, chunk: seq<byte>, count: nat)
    requires |chunk| <= count && at + 3 * |chunk| - 1 <= |line|
    requires ShowsBytes(line, at, chunk)
    requires |chunk| < count ==> at + 3 * |chunk| + 1 >= |line| || line[at + 3 * |chunk|] == 0x20
    ensures ReadColumns(line, at, count) == chunk
    decreases |chunk|
  {
    hide HexValue, ShowsBytes;
    if chunk != [] {
      FirstColumn(line, at, chunk);
      ColumnsReadBack(line, at + 3, chunk[1..], count - 1);
      assert chunk == [chunk[0]] + chunk[1..];
    }
  }

  lemma FirstColumn(line: seq<byte>, at: nat, chunk: seq<byte>)
    requires chunk != [] && at + 3 * |chunk| - 1 <= |line|
    requires ShowsBytes(line, at, chunk)
    ensures HexValue(line[at..at + 2]) == chunk[0] && line[at] != 0x20
    ensures ShowsBytes(line, at + 3, chunk[1..])
  {
    hide HexValue;
    assert HexValue(line[at + 3 * 0..at + 3 * 0 + 2]) == chunk[0];
    BlankIsNoDigit(line[at..at + 2]);
    forall i | 0 <= i < |chunk| - 1
      ensures HexValue(line[at + 3 + 3 * i..at + 3 + 3 * i + 2]) == chunk[1..][i]
      ensures i > 0 ==> line[at + 3 + 3 * i - 1] == 0x20
    {
      assert HexValue(line[at + 3 * (i + 1)..at + 3 * (i + 1) + 2]) == chunk[i + 1];
    }
  }

  lemma BlankIsNoDigit(s: seq<byte>)
    requires |s| == 2
    ensures s[0] == 0x20 ==> HexValue(s) == -1
  {
    assert s[..1][..0] == [] && DigitValue(0x20) == -1;
    assert s[0] == 0x20 ==> HexValue(s[..1]) == -1;
  }

  /** From the lines of a dump anyone who knows the layout can read back the whole buffer. */
  lemma {:induction false} DumpIsLossless(lines: seq<seq<byte>>, buf: seq<byte>, addr: int, layout: Layout)
    requires layout.width > 0 && IsDump(lines, true, buf, addr, layout)
    ensures ReadDump(lines, layout.HexOffset(), layout.width) == buf
    decreases |lines|
  {
    hide Shows, ReadColumns, Layout.HexOffset;
    var w := layout.width;
    if lines != [] {
      OneMore(|lines| - 1, w);
      var chunk := ChunkAt(buf, 0, w);
      FirstChunk(buf, w);
      assert Shows(lines[0], chunk, addr + 0 * w, layout);
      LineReadsBack(lines[0], chunk, addr, layout);
      var rest := buf[|chunk|..];
      assert buf == chunk + rest;
      RestIsDump(lines, buf, addr, layout);
      DumpIsLossless(lines[1..], rest, addr + w, layout);
    }
  }

  lemma RestIsDump(lines: seq<seq<byte>>, buf: seq<byte>, addr: int, layout: Layout)
    requires layout.width > 0 && lines != [] && IsDump(lines, true, buf, addr, layout)
    ensures IsDump(lines[1..], true, buf[|ChunkAt(buf, 0, layout.width)|..], addr + layout.width, layout)
  {
    hide Shows, ChunkAt;
    var w := layout.width;
    FirstChunk(buf, w);
    var rest := buf[|ChunkAt(buf, 0, w)|..];
    OneMore(|lines| - 1, w);
    OneMore(|lines| - 2, w);
    forall k | 0 <= k < |lines| - 1
      ensures var chunk := ChunkAt(rest, k, w);
              0 < |chunk| <= w && Shows(lines[1..][k], chunk, addr + w + k * w, layout)
    {
      OneMore(k, w);
      assert lines[1..][k] == lines[k + 1] && 0 < |ChunkAt(buf, k + 1, w)| <= w;
      ChunkOfRest(buf, k, w);
    }
  }

  lemma FirstChunk(buf: seq<byte>, w: nat)
    ensures ChunkAt(buf, 0, w) == if |buf| <= w then buf else buf[..w]
  {
  }

  lemma ChunkOfRest(buf: seq<byte>, k: nat, w: nat)
    requires w > 0 && ChunkAt(buf, k + 1, w) != []
    ensures ChunkAt(buf[|ChunkAt(buf, 0, w)|..], k, w) == ChunkAt(buf, k + 1, w)
  {
    OneMore(k, w);
    OneMore(k + 1, w);
    Grows(k, w);
  }

  lemma LineReadsBack(line: seq<byte>, chunk: seq<byte>, addr: int, layout: Layout)
    requires 0 < |chunk| <= layout.width && Shows(line, chunk, addr, layout)
    ensures ReadColumns(line, layout.HexOffset(), layout.width) == chunk
  {
    hide ShowsAddr, ShowsBytes, ShowsText;
    ColumnsReadBack(line, layout.HexOffset(), chunk, layout.width);
  }

  lemma ChunkSize(layout: Layout, buf: seq<byte>)
    ensures |layout.Chunk(buf)| == (if |buf| <= layout.width then |buf| else layout.width)
    ensures layout.Chunk(buf) <= buf
  {
  }

  lemma OneMore(k: int, w: int)
    ensures (1 + k) * w == w + k * w && (k - 1) * w == k * w - w
  {
  }

  /** Every address of a dump of k lines fits exactly if the first and the last do. */
  lemma {:induction false} AddrsFitIffEndsDo(layout: Layout, n: nat, addr: int, k: nat)
    requires layout.width > 0 && layout.showAddr
    requires k > 0 && (k - 1) * layout.width < n <= k * layout.width
    ensures layout.AddrsFit(n, addr) <==> -0xfff <= addr && addr + (k - 1) * layout.width <= 0xffff
    decreases k
  {
    hide AddrFits;
    var w := layout.width;
    AddrFitsFourColumns(addr);
    OneMore(k - 1, w);
    OneMore(k - 2, w);
    if k == 1 {
      assert layout.AddrsFit(0, addr + w);
    } else {
      Grows(k - 2, w);
      AddrsFitIffEndsDo(layout, n - w, addr + w, k - 1);
    }
  }

  lemma Grows(k: nat, w: nat)
    ensures k * w >= 0
  {
  }
}
