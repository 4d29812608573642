/** Typed fields in packet data: little-endian integers, and strings with an 8-bit length and
    a terminating NUL. The C++ packer is bounded by its packet, the Python unpacker trusts its
    input; here they meet. */
module Packing {
  import opened Crc
  import opened Slip
  import opened Decoding
  import opened Packets
  import opened Decoders
  import opened Utf8

  datatype Option<+T> = None | Some(value: T)

  /** What a Python unpacker returns or raises. */
  datatype Unpacked<+T> = Value(value: T) | IndexError | UnicodeDecodeError

  function LittleEndian(value: int, size: nat): (s: seq<byte>)
    ensures |s| == size
    decreases size
  {
    if size == 0 then [] else [value % 256] + LittleEndian(value / 256, size - 1)
  }

  function FromLittleEndian(s: seq<byte>): nat {
    if s == [] then 0 else s[0] + 256 * FromLittleEndian(s[1..])
  }

  function Power256(size: nat): nat {
    if size == 0 then 1 else 256 * Power256(size - 1)
  }

  lemma {:induction false} LittleEndianRoundTrip(value: nat, size: nat)
    requires value < Power256(size)
    ensures FromLittleEndian(LittleEndian(value, size)) == value
    decreases size
  {
    if size > 0 {
      assert value / 256 < Power256(size - 1);
      LittleEndianRoundTrip(value / 256, size - 1);
    }
  }

  /** The three widths in use; of wider or negative numbers the low bytes. */
  lemma LittleEndianInNumbers(v: int)
    ensures LittleEndian(v, 1) == [v % 0x100]
    ensures LittleEndian(v, 2) == [v % 0x100, v / 0x100 % 0x100]
    ensures LittleEndian(v, 4)
         == [v % 0x100, v / 0x100 % 0x100, v / 0x1_0000 % 0x100, v / 0x100_0000 % 0x100]
  {
    assert v / 0x100 / 0x100 == v / 0x1_0000 && v / 0x1_0000 / 0x100 == v / 0x100_0000;
    assert LittleEndian(v / 0x100_0000, 1) == [v / 0x100_0000 % 0x100];
    assert LittleEndian(v / 0x1_0000, 2) == [v / 0x1_0000 % 0x100] + LittleEndian(v / 0x100_0000, 1);
    assert LittleEndian(v / 0x100, 3) == [v / 0x100 % 0x100] + LittleEndian(v / 0x1_0000, 2);
  }

  // ---------- Packing into a bounded packet ----------

  /** What a pack call returns and leaves in the packet. */
  datatype Packed = Packed(ok: bool, data: seq<byte>)

  function AppendIfFits(cap: nat, data: seq<byte>, bytes: seq<byte>): Packed {
    if |data| + |bytes| <= cap then Packed(true, data + bytes) else Packed(false, data)
  }

  /** The length byte that is sent for a C string of which at most 256 characters are counted,
      with its NUL: it wraps at eight bits. */
  function LengthByte(str: seq<byte>): byte {
    ((if |str| <= 256 then |str| else 256) + 1) % 256
  }

  /** What is sent for the C string, taken from memory that continues with its NUL. */
  function TextBytes(str: seq<byte>): seq<byte> {
    [LengthByte(str)] + (str + [0])[..LengthByte(str)]
  }

  datatype Call = Scalar(value: nat, size: nat) | Text(str: seq<byte>)

  function CallBytes(c: Call): seq<byte> {
    match c
    case Scalar(value, size) => LittleEndian(value, size)
    case Text(str) => TextBytes(str)
  }

  function PackCall(cap: nat, data: seq<byte>, c: Call): Packed {
    match c
    case Scalar(value, size) => AppendIfFits(cap, data, LittleEndian(value, size))
    case Text(str) =>
      var p := AppendIfFits(cap, data, [LengthByte(str)]);
      if p.ok then AppendIfFits(cap, p.data, TextBytes(str)[1..]) else p
  }

  class CppPacker {
    const packet: CppPacket

    constructor (packet: CppPacket)
      ensures this.packet == packet
    {
      this.packet := packet;
    }

    method PackScalar(value: nat, size: nat) returns (ok: bool)
      requires packet.Valid()
      modifies packet`dataLen, packet.storage
      ensures packet.Valid()
      ensures Packed(ok, packet.Data())
           == PackCall(packet.storage.Length, old(packet.Data()), Scalar(value, size))
    {
      if packet.SpaceRemaining() < size {
        return false;
      }
      packet.AppendData(LittleEndian(value, size));
      return true;
    }

    method PackString(str: seq<byte>) returns (ok: bool)
      requires packet.Valid()
      modifies packet`dataLen, packet.storage
      ensures packet.Valid()
      ensures Packed(ok, packet.Data()) == PackCall(packet.storage.Length, old(packet.Data()), Text(str))
    {
      var strLength: byte := ((if |str| <= 256 then |str| else 256) + 1) % 256;
      ok := PackScalar(strLength, 1);
      assert LittleEndian(strLength, 1) == [strLength];
      if !ok {
        return false;
      }
      if packet.SpaceRemaining() < strLength {
        return false;
      }
      packet.AppendData((str + [0])[..strLength]);
      return true;
    }
  }

  /** A pack call succeeds exactly if all it sends fits. It never overfills the packet nor
      changes what is there; a failed scalar leaves nothing, a failed string its length byte
      if there is room for that. */
  lemma PackCallIsSafe(cap: nat, data: seq<byte>, c: Call)
    requires |data| <= cap
    ensures var p := PackCall(cap, data, c);
            && |p.data| <= cap
            && (p.ok <==> |data| + |CallBytes(c)| <= cap)
            && (p.ok ==> p.data == data + CallBytes(c))
            && (!p.ok && c.Scalar? ==> p.data == data)
            && (!p.ok && c.Text? ==> p.data == if |data| < cap then data + [TextBytes(c.str)[0]] else data)
  {
    if c.Text? {
      assert [LengthByte(c.str)] + TextBytes(c.str)[1..] == TextBytes(c.str);
      assert data + TextBytes(c.str) == data + [LengthByte(c.str)] + TextBytes(c.str)[1..];
    }
  }

  /** What is sent for a string: length, characters and NUL up to 254 characters, and from
      there on nothing but the wrapped length and as many characters as that says. */
  lemma TextBytesInNumbers(str: seq<byte>)
    ensures |str| <= 254 ==> TextBytes(str) == [|str| + 1] + str + [0]
    ensures |str| == 255 ==> TextBytes(str) == [0]
    ensures |str| > 255 ==> TextBytes(str) == [1, str[0]]
  {
    if |str| <= 254 {
      assert (str + [0])[..|str| + 1] == str + [0];
    }
  }

  function PackAll(cap: nat, data: seq<byte>, calls: seq<Call>): Packed
    decreases |calls|
  {
    if calls == [] then Packed(true, data)
    else
      var p := PackCall(cap, data, calls[0]);
      var q := PackAll(cap, p.data, calls[1..]);
      Packed(p.ok && q.ok, q.data)
  }

  function AllBytes(calls: seq<Call>): seq<byte> {
    if calls == [] then [] else CallBytes(calls[0]) + AllBytes(calls[1..])
  }

  /** Any interleaving of pack calls, successful or not, keeps the packet within its capacity
      and what was packed before in place; all of them succeed exactly if everything fits, and
      then the packet holds exactly what was sent. */
  lemma {:induction false} PackAllIsSafe(cap: nat, data: seq<byte>, calls: seq<Call>)
    requires |data| <= cap
    ensures var p := PackAll(cap, data, calls);
            && data <= p.data && |p.data| <= cap
            && (p.ok ==> p.data == data + AllBytes(calls))
            && (p.ok <==> |data| + |AllBytes(calls)| <= cap)
    decreases |calls|
  {
    hide PackCall, CallBytes;
    if calls != [] {
      PackCallIsSafe(cap, data, calls[0]);
      var p, bytes, rest := PackCall(cap, data, calls[0]), CallBytes(calls[0]), AllBytes(calls[1..]);
      PackAllIsSafe(cap, p.data, calls[1..]);
      assert AllBytes(calls) == bytes + rest;
      if p.ok {
        assert data + (bytes + rest) == p.data + rest;
      }
    } else {
      assert data + AllBytes(calls) == data;
    }
  }

  // ---------- Unpacking in C++ ----------

  class CppUnpacker {
    const buffer: array<byte>
    var position: nat
    var remaining: nat

    predicate Valid()
      reads this
    {
      position + remaining <= buffer.Length
    }

    /** The bytes not yet consumed. */
    function View(): seq<byte>
      requires Valid()
      reads this, buffer
    {
      buffer[position..position + remaining]
    }

    constructor (packet: CppPacket)
      requires packet.Valid()
      ensures Valid() && View() == packet.Data() && position == 0
    {
      buffer, position, remaining := packet.storage, 0, packet.dataLen;
    }

    method UnpackScalar(size: nat) returns (ok: bool, value: nat)
      requires Valid()
      modifies `position, `remaining
      ensures Valid() && position + remaining == old(position + remaining)
      ensures ok <==> size <= |old(View())|
      ensures ok ==> View() == old(View())[size..] && value == FromLittleEndian(old(View())[..size])
      ensures !ok ==> View() == old(View()) && position == old(position)
    {
      if remaining < size {
        return false, 0;
      }
      value := FromLittleEndian(buffer[position..position + size]);
      assert View()[..size] == buffer[position..position + size];
      assert View()[size..] == buffer[position + size..position + remaining];
      position := position + size;
      remaining := remaining - size;
      return true, value;
    }

    /** Returns where the bytes start, without copying them. */
    method UnpackData(count: nat) returns (ok: bool, at: nat)
      requires Valid()
      modifies `position, `remaining
      ensures Valid() && position + remaining == old(position + remaining)
      ensures ok <==> count <= |old(View())|
      ensures ok ==> at == old(position) && View() == old(View())[count..]
      ensures !ok ==> View() == old(View()) && position == old(position)
    {
      if remaining < count {
        return false, 0;
      }
      at := position;
      position := position + count;
      remaining := remaining - count;
      return true, at;
    }

    /** Returns where the string starts. A string longer than what is left costs its length
        byte all the same. */
    method UnpackString() returns (ok: bool, at: nat)
      requires Valid()
      modifies `position, `remaining
      ensures Valid() && position + remaining == old(position + remaining)
      ensures var v := old(View());
              && (ok <==> v != [] && v[0] < |v|)
              && (ok ==> at == old(position) + 1 && View() == v[1 + v[0]..])
              && (!ok ==> View() == if v == [] then v else v[1..])
    {
      ghost var v := View();
      var got, strLength := UnpackScalar(1);
      if !got {
        return false, 0;
      }
      assert FromLittleEndian([v[0]]) == v[0] && v[..1] == [v[0]];
      if remaining < strLength {
        return false, 0;
      }
      at := position;
      position := position + strLength;
      remaining := remaining - strLength;
      return true, at;
    }
  }

  // ---------- Packing and unpacking in Python ----------

  /** Appends to the data of its packet. */
  class PyPacker {
    const packet: PyPacket

    constructor (packet: PyPacket)
      ensures this.packet == packet
    {
      this.packet := packet;
    }

    method PackU8(value: int)
      modifies packet`data
      ensures packet.data == old(packet.data) + LittleEndian(value, 1)
    {
      packet.AppendByte(value % 256);
    }

    method PackU16(value: int)
      modifies packet`data
      ensures packet.data == old(packet.data) + LittleEndian(value, 2)
    {
      packet.AppendByte(value % 256);
      packet.AppendByte(value / 256 % 256);
    }

    method PackU32(value: int)
      modifies packet`data
      ensures packet.data == old(packet.data) + LittleEndian(value, 4)
    {
      packet.AppendByte(value % 256);
      packet.AppendByte(value / 256 % 256);
      packet.AppendByte(value / 256 / 256 % 256);
      packet.AppendByte(value / 256 / 256 / 256 % 256);
      assert LittleEndian(value / 256 / 256, 2) == [value / 256 / 256 % 256, value / 256 / 256 / 256 % 256];
      assert LittleEndian(value / 256, 3) == [value / 256 % 256] + LittleEndian(value / 256 / 256, 2);
    }

    method PackData(s: seq<byte>)
      modifies packet`data
      ensures packet.data == old(packet.data) + s
    {
      packet.AppendData(s);
    }

    method PackStr(s: seq<byte>)
      modifies packet`data
      ensures packet.data == old(packet.data) + PyTextBytes(s)
      ensures packet.data == old(packet.data) + [(|s| + 1) % 0x100] + s + [0]
    {
      PackU8(|s| + 1);
      PackData(s);
      PackU8(0);
      assert LittleEndian(0, 1) == [0];
      assert LittleEndian(|s| + 1, 1) == [(|s| + 1) % 256];
    }
  }

  function PyTextBytes(s: seq<byte>): seq<byte> {
    [(|s| + 1) % 256] + s + [0]
  }

  /** The two packers write the same bytes for a string exactly up to 254 characters. */
  lemma PackersAgree(s: seq<byte>)
    ensures PyTextBytes(s) == TextBytes(s) <==> |s| <= 254
  {
    if |s| <= 254 {
      assert (s + [0])[..|s| + 1] == s + [0];
    } else {
      assert |TextBytes(s)| <= 2 < |PyTextBytes(s)|;
    }
  }

  /** A slice of a Python sequence: bounds beyond the end are no error. */
  function Slice(data: seq<byte>, from: nat, count: nat): (s: seq<byte>)
    ensures |s| == if from + count <= |data| then count else if from <= |data| then |data| - from else 0
    ensures forall i :: 0 <= i < |s| ==> s[i] == data[from + i]
  {
    if from >= |data| then []
    else if from + count >= |data| then data[from..]
    else data[from..from + count]
  }

  /** What unpack_str returns or raises, and where it leaves the index: only without a length
      byte does the index stay. */
  function ReadStr(data: seq<byte>, idx: nat): (Unpacked<seq<byte>>, nat) {
    if idx >= |data| then (IndexError, idx)
    else
      var s := Slice(data, idx + 1, data[idx]);
      var text := if |s| > 1 then s[..|s| - 1] else s;
      (if IsUtf8(text) then Value(text) else UnicodeDecodeError, idx + 1 + data[idx])
  }

  class PyUnpacker {
    const data: seq<byte>
    var idx: nat

    constructor (data: seq<byte>)
      ensures this.data == data && idx == 0
    {
      this.data, idx := data, 0;
    }

    predicate MoreData()
      reads this
    {
      idx < |data|
    }

    method UnpackU8() returns (r: Unpacked<byte>)
      modifies `idx
      ensures r == if old(idx) < |data| then Value(data[old(idx)]) else IndexError
      ensures idx == if r.Value? then old(idx) + 1 else old(idx)
    {
      if idx >= |data| {
        return IndexError;
      }
      r := Value(data[idx]);
      idx := idx + 1;
    }

    method UnpackU16() returns (value: nat)
      modifies `idx
      ensures value == FromLittleEndian(Slice(data, old(idx), 2)) && idx == old(idx) + 2
    {
      value := FromLittleEndian(Slice(data, idx, 2));
      idx := idx + 2;
    }

    method UnpackU32() returns (value: nat)
      modifies `idx
      ensures value == FromLittleEndian(Slice(data, old(idx), 4)) && idx == old(idx) + 4
    {
      value := FromLittleEndian(Slice(data, idx, 4));
      idx := idx + 4;
    }

    method UnpackData(count: nat) returns (s: seq<byte>)
      modifies `idx
      ensures s == Slice(data, old(idx), count) && idx == old(idx) + count
    {
      s := Slice(data, idx, count);
      idx := idx + count;
    }

    method UnpackStr() returns (r: Unpacked<seq<byte>>)
      modifies `idx
      ensures (r, idx) == ReadStr(data, old(idx))
    {
      var strLen := UnpackU8();
      if !strLen.Value? {
        return IndexError;
      }
      var s := UnpackData(strLen.value);
      if |s| > 1 {
        s := s[..|s| - 1];
      }
      return if IsUtf8(s) then Value(s) else UnicodeDecodeError;
    }
  }

  lemma SliceInTheMiddle(before: seq<byte>, s: seq<byte>, after: seq<byte>)
    ensures Slice(before + s + after, |before|, |s|) == s
  {
    var all := before + s + after;
    if s != [] {
      assert all[|before|..|before| + |s|] == s;
    }
  }

  /** The byte of the data, or zero beyond its end. */
  function ByteOrZero(data: seq<byte>, i: nat): int {
    if i < |data| then data[i] else 0
  }

  lemma ReadsByByte(data: seq<byte>, idx: nat, count: nat)
    ensures FromLittleEndian(Slice(data, idx, count))
         == if count == 0 then 0
            else ByteOrZero(data, idx) + 0x100 * FromLittleEndian(Slice(data, idx + 1, count - 1))
  {
    if count > 0 && idx < |data| {
      assert Slice(data, idx, count)[1..] == Slice(data, idx + 1, count - 1);
    }
  }

  /** What Python reads of integers, also of those cut short: as if zeros followed. */
  lemma IntegersInNumbers(data: seq<byte>, idx: nat)
    ensures FromLittleEndian(Slice(data, idx, 2)) == ByteOrZero(data, idx) + 0x100 * ByteOrZero(data, idx + 1)
    ensures FromLittleEndian(Slice(data, idx, 4))
         == ByteOrZero(data, idx) + 0x100 * ByteOrZero(data, idx + 1)
            + 0x1_0000 * ByteOrZero(data, idx + 2) + 0x100_0000 * ByteOrZero(data, idx + 3)
  {
    hide FromLittleEndian, Slice, ByteOrZero;
    ReadsByByte(data, idx, 2);
    ReadsByByte(data, idx, 4);
    ReadsByByte(data, idx + 1, 1);
    ReadsByByte(data, idx + 1, 3);
    ReadsByByte(data, idx + 2, 0);
    ReadsByByte(data, idx + 2, 2);
    ReadsByByte(data, idx + 3, 1);
    ReadsByByte(data, idx + 4, 0);
  }

  /** What Python reads of a string that is cut short: what is there without its last byte,
      NUL or not; the index moves as if all were there. */
  lemma ShortString(data: seq<byte>, idx: nat)
    requires idx < |data| <= idx + data[idx]
    ensures var text := if |data| > idx + 2 then data[idx + 1..|data| - 1] else data[idx + 1..];
            ReadStr(data, idx) == (if IsUtf8(text) then Value(text) else UnicodeDecodeError, idx + 1 + data[idx])
  {
    hide IsUtf8;
    var s := Slice(data, idx + 1, data[idx]);
    assert s == data[idx + 1..];
    if |s| > 1 {
      assert s[..|s| - 1] == data[idx + 1..|data| - 1];
    }
  }

  /** What the Python unpacker makes of any string packed in C++. It comes back exactly if it
      has between 1 and 254 bytes and is UTF-8: an empty one comes back as its NUL, from 255 on
      the length byte has wrapped, and the rest raises. The index ends behind it in every
      case. */
  lemma StringSurvives(before: seq<byte>, str: seq<byte>, after: seq<byte>)
    ensures var r := ReadStr(before + TextBytes(str) + after, |before|);
            && r.1 == |before| + |TextBytes(str)|
            && (r.0 == Value(str) <==> 1 <= |str| <= 254 && IsUtf8(str))
            && (1 <= |str| <= 254 && !IsUtf8(str) ==> r.0 == UnicodeDecodeError)
            && (str == [] ==> r.0 == Value([0]))
            && (|str| == 255 ==> r.0 == Value([]))
            && (|str| > 255 ==> r.0 == if str[0] <= 0x7f then Value([str[0]]) else UnicodeDecodeError)
  {
    hide IsUtf8;
    var n := LengthByte(str);
    var text := (str + [0])[..n];
    var all := before + TextBytes(str) + after;
    assert all == (before + [n]) + text + after;
    SliceInTheMiddle(before + [n], text, after);
    assert all[|before|] == n;
    TextBytesInNumbers(str);
    if |str| <= 254 {
      assert text == str + [0];
      assert text[..|text| - 1] == str;
      OneByteText(0);
    } else if |str| == 255 {
      assert text == [];
      EmptyText();
    } else {
      assert text == [str[0]];
      OneByteText(str[0]);
    }
  }

  lemma OneByteText(b: byte)
    ensures IsUtf8([b]) <==> b <= 0x7f
  {
    assert [b][1..] == [];
  }

  lemma EmptyText()
    ensures IsUtf8([])
  {
  }

  /** Any text of Unicode scalar values whose encoding has between 1 and 254 bytes
      comes back as the bytes that decode to it. */
  lemma TextSurvives(before: seq<byte>, text: seq<scalar>, after: seq<byte>)
    requires 1 <= |EncodeText(text)| <= 254
    ensures var str := EncodeText(text);
            && ReadStr(before + ([|str| + 1] + str + [0]) + after, |before|)
               == (Value(str), |before| + |str| + 2)
            && IsUtf8(str) && DecodeText(str) == text
  {
    hide IsUtf8, EncodeText, DecodeText;
    EncodedTextIsUtf8(text);
    TextBytesInNumbers(EncodeText(text));
    StringSurvives(before, EncodeText(text), after);
  }

  // ---------- Typed fields from one end to the other ----------

  datatype Kind = KindU8 | KindU16 | KindU32 | KindStr

  datatype Field = U8(value: nat) | U16(value: nat) | U32(value: nat) | Str(str: seq<byte>)

  function KindOf(f: Field): Kind {
    match f
    case U8(_) => KindU8
    case U16(_) => KindU16
    case U32(_) => KindU32
    case Str(_) => KindStr
  }

  /** The values of the C types, and strings whose length fits their length byte. */
  predicate IsField(f: Field) {
    match f
    case U8(value) => value < 0x100
    case U16(value) => value < 0x1_0000
    case U32(value) => value < 0x1_0000_0000
    case Str(str) => |str| <= 254 && 0 !in str
  }

  /** The strings that Python hands out as such. */
  predicate IsHostField(f: Field) {
    IsField(f) && (f.Str? ==> f.str != [] && IsUtf8(f.str))
  }

  function CallFor(f: Field): Call {
    match f
    case U8(value) => Scalar(value, 1)
    case U16(value) => Scalar(value, 2)
    case U32(value) => Scalar(value, 4)
    case Str(str) => Text(str)
  }

  function CallsFor(fields: seq<Field>): seq<Call> {
    if fields == [] then [] else [CallFor(fields[0])] + CallsFor(fields[1..])
  }

  function KindsOf(fields: seq<Field>): seq<Kind> {
    if fields == [] then [] else [KindOf(fields[0])] + KindsOf(fields[1..])
  }

  /** The Python unpacker's call for one kind of field, and the index after it. */
  function ReadField(data: seq<byte>, idx: nat, kind: Kind): (Unpacked<Field>, nat) {
    match kind
    case KindU8 => if idx < |data| then (Value(U8(data[idx])), idx + 1) else (IndexError, idx)
    case KindU16 => (Value(U16(FromLittleEndian(Slice(data, idx, 2)))), idx + 2)
    case KindU32 => (Value(U32(FromLittleEndian(Slice(data, idx, 4)))), idx + 4)
    case KindStr =>
      var r := ReadStr(data, idx);
      (match r.0
       case Value(s) => Value(Str(s))
       case IndexError => IndexError
       case UnicodeDecodeError => UnicodeDecodeError, r.1)
  }

  /** The calls for several fields, up to the first that raises. */
  function ReadFields(data: seq<byte>, idx: nat, kinds: seq<Kind>): (Unpacked<seq<Field>>, nat)
    decreases |kinds|
  {
    if kinds == [] then (Value([]), idx)
    else
      var first := ReadField(data, idx, kinds[0]);
      match first.0
      case IndexError => (IndexError, first.1)
      case UnicodeDecodeError => (UnicodeDecodeError, first.1)
      case Value(f) =>
        var rest := ReadFields(data, first.1, kinds[1..]);
        (if rest.0.Value? then Value([f] + rest.0.value) else rest.0, rest.1)
  }

  lemma FieldSurvives(before: seq<byte>, f: Field, after: seq<byte>)
    requires IsHostField(f)
    ensures var bytes := CallBytes(CallFor(f));
            ReadField(before + bytes + after, |before|, KindOf(f)) == (Value(f), |before| + |bytes|)
  {
    hide IsUtf8;
    var bytes := CallBytes(CallFor(f));
    if f.Str? {
      StringSurvives(before, f.str, after);
    } else {
      SliceInTheMiddle(before, bytes, after);
      assert Power256(1) == 0x100 && Power256(2) == 0x1_0000;
      assert Power256(4) == 256 * Power256(3) == 256 * (256 * Power256(2)) == 0x1_0000_0000;
      LittleEndianRoundTrip(f.value, |bytes|);
    }
  }

  lemma {:induction false} FieldsSurvive(before: seq<byte>, fields: seq<Field>)
    requires forall f <- fields :: IsHostField(f)
    ensures var all := before + AllBytes(CallsFor(fields));
            ReadFields(all, |before|, KindsOf(fields)) == (Value(fields), |all|)
    decreases |fields|
  {
    hide CallBytes, CallFor, ReadField, KindOf, IsHostField;
    var all := before + AllBytes(CallsFor(fields));
    if fields == [] {
      assert all == before;
    } else {
      var bytes, after := CallBytes(CallFor(fields[0])), AllBytes(CallsFor(fields[1..]));
      FirstField(fields);
      assert all == before + bytes + after;
      FieldSurvives(before, fields[0], after);
      FieldsSurvive(before + bytes, fields[1..]);
      assert [fields[0]] + fields[1..] == fields;
    }
  }

  lemma FirstField(fields: seq<Field>)
    requires fields != []
    ensures AllBytes(CallsFor(fields)) == CallBytes(CallFor(fields[0])) + AllBytes(CallsFor(fields[1..]))
    ensures |KindsOf(fields)| > 0
    ensures KindsOf(fields)[0] == KindOf(fields[0]) && KindsOf(fields)[1..] == KindsOf(fields[1..])
  {
    hide CallBytes, CallFor;
    assert CallsFor(fields)[1..] == CallsFor(fields[1..]);
  }

  /** Any list of fields that fits, packed on the device, framed and written byte by byte,
      decoded on the host and unpacked there: the same list, with the index at the end. */
  lemma TypedPipeline(cap: nat, s: Decoder, cmd: byte, fields: seq<Field>)
    requires forall f <- fields :: IsHostField(f)
    requires |AllBytes(CallsFor(fields))| <= cap
    requires |AllBytes(CallsFor(fields))| < MAX_DATA_LEN
    requires s.mode == Idle && !s.escape
    ensures var packed := PackAll(cap, [], CallsFor(fields));
            var t := Run(Python, MAX_DATA_LEN, s, Frame(cmd, packed.data));
            && packed == Packed(true, AllBytes(CallsFor(fields)))
            && t.reports == DeliveryReports(cmd, packed.data)
            && t.end == Decoder(Idle, false, cmd, packed.data, PacketCrc(cmd, packed.data))
            && ReadFields(t.end.data, 0, KindsOf(fields)) == (Value(fields), |t.end.data|)
  {
    hide Run, DeliveryReports, Frame, PacketCrc;
    var data := AllBytes(CallsFor(fields));
    PackAllIsSafe(cap, [], CallsFor(fields));
    assert [] + data == data;
    FrameIsDelivered(Python, MAX_DATA_LEN, s, cmd, data);
    FieldsSurvive([], fields);
  }

  // ---------- And back: packed on the host, unpacked on the device ----------

  /** The C string that starts where the bytes start. */
  function CString(s: seq<byte>): seq<byte> {
    if s == [] || s[0] == 0 then [] else [s[0]] + CString(s[1..])
  }

  /** The C++ unpacker's call for one kind of field: the field and the bytes left, or None for
      a false return. */
  function ViewField(view: seq<byte>, kind: Kind): Option<(Field, seq<byte>)> {
    match kind
    case KindU8 => if |view| < 1 then None else Some((U8(FromLittleEndian(view[..1])), view[1..]))
    case KindU16 => if |view| < 2 then None else Some((U16(FromLittleEndian(view[..2])), view[2..]))
    case KindU32 => if |view| < 4 then None else Some((U32(FromLittleEndian(view[..4])), view[4..]))
    case KindStr =>
      if view == [] || |view| <= view[0] then None
      else Some((Str(CString(view[1..])), view[1 + view[0]..]))
  }

  function ViewFields(view: seq<byte>, kinds: seq<Kind>): Option<(seq<Field>, seq<byte>)>
    decreases |kinds|
  {
    if kinds == [] then Some(([], view))
    else
      var first := ViewField(view, kinds[0]);
      if first.None? then None
      else
        var rest := ViewFields(first.value.1, kinds[1..]);
        if rest.None? then None else Some(([first.value.0] + rest.value.0, rest.value.1))
  }

  /** What the Python packer appends for a field. */
  function PyBytes(f: Field): seq<byte> {
    match f
    case U8(value) => LittleEndian(value, 1)
    case U16(value) => LittleEndian(value, 2)
    case U32(value) => LittleEndian(value, 4)
    case Str(str) => PyTextBytes(str)
  }

  function AllPyBytes(fields: seq<Field>): seq<byte> {
    if fields == [] then [] else PyBytes(fields[0]) + AllPyBytes(fields[1..])
  }

  lemma {:induction false} CStringStopsAtNul(s: seq<byte>, after: seq<byte>)
    requires 0 !in s
    ensures CString(s + [0] + after) == s
    decreases |s|
  {
    if s != [] {
      assert (s + [0] + after)[1..] == s[1..] + [0] + after;
      CStringStopsAtNul(s[1..], after);
    } else {
      assert s + [0] + after == [0] + after;
    }
  }

  lemma FieldReachesDevice(f: Field, after: seq<byte>)
    requires IsField(f)
    ensures ViewField(PyBytes(f) + after, KindOf(f)) == Some((f, after))
  {
    var bytes := PyBytes(f);
    var view := bytes + after;
    assert view[|bytes|..] == after && view[..|bytes|] == bytes;
    if f.Str? {
      assert view[1..] == f.str + [0] + after;
      CStringStopsAtNul(f.str, after);
    } else {
      assert Power256(1) == 0x100 && Power256(2) == 0x1_0000;
      assert Power256(4) == 256 * Power256(3) == 256 * (256 * Power256(2)) == 0x1_0000_0000;
      LittleEndianRoundTrip(f.value, |bytes|);
    }
  }

  lemma {:induction false} FieldsReachDevice(fields: seq<Field>)
    requires forall f <- fields :: IsField(f)
    ensures ViewFields(AllPyBytes(fields), KindsOf(fields)) == Some((fields, []))
    decreases |fields|
  {
    hide PyBytes, ViewField, KindOf, IsField, CallFor;
    if fields != [] {
      FirstField(fields);
      FieldReachesDevice(fields[0], AllPyBytes(fields[1..]));
      FieldsReachDevice(fields[1..]);
      assert [fields[0]] + fields[1..] == fields;
    }
  }

  /** Any list of fields that fits, packed on the host, framed, decoded on the device and
      unpacked there: the same list, with nothing left. In this direction a string may be empty
      and need not be UTF-8. */
  lemma TypedPipelineToDevice(cap: nat, s: Decoder, cmd: byte, fields: seq<Field>)
    requires forall f <- fields :: IsField(f)
    requires |AllPyBytes(fields)| < cap
    requires s.mode == Idle && !s.escape
    ensures var data := AllPyBytes(fields);
            var t := Run(Cpp, cap, s, Frame(cmd, data));
            && t.reports == DeliveryReports(cmd, data)
            && t.end.cmd == cmd && t.end.data == data
            && ViewFields(t.end.data, KindsOf(fields)) == Some((fields, []))
  {
    hide Run, DeliveryReports, Frame, PacketCrc;
    FrameIsDelivered(Cpp, cap, s, cmd, AllPyBytes(fields));
    FieldsReachDevice(fields);
  }
}
