/** CRC-8 with polynomial x^8 + x^2 + x + 1, initial value 0, not reflected and without a
    final XOR, together with the algebra that its error detection rests on. */
module Crc {

  type byte = n: int | 0 <= n < 256

  // ---------- Bytes as polynomials over the two-element field ----------

  /** Eight coefficients, that of x^7 in the most significant bit. */
  type poly = bv8

  const TOP: poly := 0x80

  function Bits(b: byte): poly {
    b as bv8
  }

  function Value(p: poly): byte {
    p as int
  }

  lemma ValueOfBits(b: byte)
    ensures Value(Bits(b)) == b
  {
    hide Bits, Value;
    BitsOfValue(Counted(b));
    CountedValue(b);
  }

  // The solver decides little about conversions to bit vectors; a byte's bits are found by
  // counting up to it.
  ghost function Counted(n: byte): poly {
    if n == 0 then 0 else Counted(n - 1) + 1
  }

  lemma Successor(p: poly)
    requires Value(p) < 255
    ensures Value(p + 1) == Value(p) + 1
  {
  }

  lemma {:induction false} CountedValue(n: byte)
    ensures Value(Counted(n)) == n
  {
    hide Value;
    if n != 0 {
      CountedValue(n - 1);
      Successor(Counted(n - 1));
    } else {
      ZeroBits();
    }
  }

  lemma ZeroBits()
    ensures Bits(0) == 0 && Value(0) == 0
  {
  }

  lemma BitsOfValue(p: poly)
    ensures Bits(Value(p)) == p
  {
  }

  /** Addition of polynomials, which is exclusive or. */
  function Sum(p: poly, q: poly): poly {
    p ^ q
  }

  /** Multiplication by x modulo the polynomial. The carry is folded in with shifts, so
      that the solver sees one network of gates; TimesXReduces gives the usual form. */
  function TimesX(p: poly): poly {
    (p << 1) ^ (p >> 7) ^ ((p >> 7) << 1) ^ ((p >> 7) << 2)
  }

  lemma TimesXReduces(p: poly)
    ensures TimesX(p) == if p & 0x80 != 0 then (p << 1) ^ 0x07 else p << 1
  {
  }

  lemma TimesXIsLinear(p: poly, q: poly)
    ensures TimesX(Sum(p, q)) == Sum(TimesX(p), TimesX(q))
  {
  }

  lemma TimesXIsInjective(p: poly, q: poly)
    requires TimesX(p) == TimesX(q)
    ensures p == q
  {
  }

  lemma SumCancels(p: poly, q: poly, r: poly)
    ensures Sum(p, q) == Sum(p, r) <==> q == r
    ensures Sum(p, q) == Sum(r, q) <==> p == r
    ensures Sum(p, q) == 0 <==> p == q
    ensures Sum(p, 0) == p && Sum(0, p) == p
  {
  }

  lemma SumIsAssociative(p: poly, q: poly, r: poly)
    ensures Sum(Sum(p, q), r) == Sum(p, Sum(q, r))
  {
  }

  lemma SumIsCommutative(p: poly, q: poly)
    ensures Sum(p, q) == Sum(q, p)
  {
  }

  /** Multiplication by x^n: the effect of n zero bits on the register. */
  function Advance(p: poly, n: nat): poly
    decreases n
  {
    if n == 0 then p else Advance(TimesX(p), n - 1)
  }

  // ---------- The checksum ----------

  /** One byte of input: what one table entry of a byte-wise CRC holds. */
  function CrcStep(register: poly, b: byte): poly {
    Advance(Sum(register, Bits(b)), 8)
  }

  function Register(register: poly, s: seq<byte>): poly
    decreases |s|
  {
    if s == [] then register else Register(CrcStep(register, s[0]), s[1..])
  }

  /** The checksum of s, continued from the checksum crc of what came before it. */
  function Crc8(crc: byte, s: seq<byte>): byte {
    Value(Register(Bits(crc), s))
  }

  // ---------- The register as a linear, invertible map ----------

  lemma {:induction false} AdvanceIsLinear(p: poly, q: poly, n: nat)
    ensures Advance(Sum(p, q), n) == Sum(Advance(p, n), Advance(q, n))
    decreases n
  {
    hide Sum, TimesX;
    if n != 0 {
      TimesXIsLinear(p, q);
      AdvanceIsLinear(TimesX(p), TimesX(q), n - 1);
    }
  }

  lemma {:induction false} AdvanceIsInjective(p: poly, q: poly, n: nat)
    requires Advance(p, n) == Advance(q, n)
    ensures p == q
    decreases n
  {
    hide TimesX;
    if n != 0 {
      AdvanceIsInjective(TimesX(p), TimesX(q), n - 1);
      TimesXIsInjective(p, q);
    }
  }

  lemma {:induction false} AdvanceZero(n: nat)
    ensures Advance(0, n) == 0
  {
    if n != 0 {
      AdvanceZero(n - 1);
    }
  }

  lemma AdvanceVanishesOnlyAtZero(p: poly, n: nat)
    ensures Advance(p, n) == 0 <==> p == 0
  {
    AdvanceZero(n);
    if Advance(p, n) == 0 {
      AdvanceIsInjective(p, 0, n);
    }
  }

  lemma {:induction false} AdvanceAdds(p: poly, m: nat, n: nat)
    ensures Advance(p, m + n) == Advance(Advance(p, m), n)
    decreases m
  {
    if m != 0 {
      AdvanceAdds(TimesX(p), m - 1, n);
    }
  }

  lemma CrcOfOneByte(crc: byte, b: byte)
    ensures Crc8(crc, [b]) == Value(CrcStep(Bits(crc), b))
  {
    assert [b][1..] == [];
    assert Register(CrcStep(Bits(crc), b), []) == CrcStep(Bits(crc), b);
  }

  function TimesX4(p: poly): poly {
    TimesX(TimesX(TimesX(TimesX(p))))
  }

  lemma AdvanceByFour(p: poly)
    ensures Advance(p, 4) == TimesX4(p)
  {
    hide TimesX;
    assert Advance(p, 4) == Advance(TimesX(TimesX(p)), 2);
  }

  lemma CrcOfOneByteUnrolled(crc: byte, b: byte)
    ensures Crc8(crc, [b]) == Value(TimesX4(TimesX4(Sum(Bits(crc), Bits(b)))))
  {
    hide Sum, Bits, Value, TimesX4, Crc8, Advance;
    CrcOfOneByte(crc, b);
    AdvanceAdds(Sum(Bits(crc), Bits(b)), 4, 4);
    AdvanceByFour(Sum(Bits(crc), Bits(b)));
    AdvanceByFour(TimesX4(Sum(Bits(crc), Bits(b))));
  }

  /** The byte step is injective in the input byte for every register value, and in the
      register for every input byte. */
  lemma StepIsInjective(crc: byte, crc': byte, b: byte, b': byte)
    ensures Crc8(crc, [b]) == Crc8(crc, [b']) <==> b == b'
    ensures Crc8(crc, [b]) == Crc8(crc', [b]) <==> crc == crc'
  {
    CrcOfOneByte(crc, b);
    CrcOfOneByte(crc, b');
    CrcOfOneByte(crc', b);
    hide CrcStep, Crc8;
    if Crc8(crc, [b]) == Crc8(crc, [b']) {
      StepCancels(crc, crc, b, b');
    }
    if Crc8(crc, [b]) == Crc8(crc', [b]) {
      StepCancels(crc, crc', b, b);
    }
  }

  function DivideByX(p: poly): poly {
    if p & 1 != 0 then ((p ^ 0x07) >> 1) | 0x80 else p >> 1
  }

  lemma DivideByXIsInverse(p: poly)
    ensures TimesX(DivideByX(p)) == p
  {
  }

  lemma {:induction false} AdvanceIsSurjective(target: poly, n: nat) returns (p: poly)
    ensures Advance(p, n) == target
    decreases n
  {
    hide TimesX, DivideByX;
    if n == 0 {
      p := target;
    } else {
      var q := AdvanceIsSurjective(target, n - 1);
      DivideByXIsInverse(q);
      p := DivideByX(q);
    }
  }

  /** And it is surjective: any checksum is reached from any register by one input byte, and
      with any input byte from one register; with StepIsInjective, by exactly one. */
  lemma StepIsSurjective(target: byte, crc: byte, b: byte) returns (next: byte, before: byte)
    ensures Crc8(crc, [next]) == target && Crc8(before, [b]) == target
  {
    hide Bits, Value, Sum, Advance;
    var p := AdvanceIsSurjective(Bits(target), 8);
    next, before := Value(Sum(Bits(crc), p)), Value(Sum(p, Bits(b)));
    BitsOfValue(Sum(Bits(crc), p));
    BitsOfValue(Sum(p, Bits(b)));
    SumUndoes(Bits(crc), p);
    SumUndoes(Bits(b), p);
    CrcOfOneByte(crc, next);
    CrcOfOneByte(before, b);
    ValueOfBits(target);
  }

  lemma SumUndoes(p: poly, q: poly)
    ensures Sum(p, Sum(p, q)) == q && Sum(Sum(q, p), p) == q
  {
  }

  lemma StepCancels(crc: byte, crc': byte, b: byte, b': byte)
    requires Value(CrcStep(Bits(crc), b)) == Value(CrcStep(Bits(crc'), b'))
    ensures crc == crc' <==> b == b'
  {
    hide Bits, Value, Sum, Advance;
    BitsOfValue(CrcStep(Bits(crc), b));
    BitsOfValue(CrcStep(Bits(crc'), b'));
    AdvanceIsInjective(Sum(Bits(crc), Bits(b)), Sum(Bits(crc'), Bits(b')), 8);
    ValueOfBits(crc);
    ValueOfBits(crc');
    ValueOfBits(b);
    ValueOfBits(b');
    if crc == crc' {
      SumCancels(Bits(crc), Bits(b), Bits(b'));
    }
    if b == b' {
      SumCancels(Bits(crc), Bits(b), Bits(crc'));
    }
  }

  lemma {:induction false} RegisterChains(p: poly, s: seq<byte>, t: seq<byte>)
    ensures Register(p, s + t) == Register(Register(p, s), t)
    decreases |s|
  {
    hide CrcStep;
    if s == [] {
      assert s + t == t;
    } else {
      assert (s + t)[1..] == s[1..] + t;
      RegisterChains(CrcStep(p, s[0]), s[1..], t);
    }
  }

  /** A checksum continued over a second block is the checksum of the two blocks together. */
  lemma CrcChains(crc: byte, s: seq<byte>, t: seq<byte>)
    ensures Crc8(crc, s + t) == Crc8(Crc8(crc, s), t)
  {
    hide Bits, Value, Register;
    RegisterChains(Bits(crc), s, t);
    BitsOfValue(Register(Bits(crc), s));
  }

  /** Appending a byte to a message brings the register to zero exactly when the byte is
      the message's own checksum. */
  lemma ResidueIsZeroIffCrcMatches(s: seq<byte>, crc: byte)
    ensures Crc8(0, s + [crc]) == 0 <==> crc == Crc8(0, s)
  {
    hide Bits, Value, Sum, Advance, Crc8;
    var sum := Crc8(0, s);
    CrcChains(0, s, [crc]);
    CrcOfOneByte(sum, crc);
    AdvanceVanishesOnlyAtZero(Sum(Bits(sum), Bits(crc)), 8);
    BitsOfValue(CrcStep(Bits(sum), crc));
    ValueOfBits(sum);
    ValueOfBits(crc);
    ValueOfBits(0);
    SumCancels(Bits(sum), Bits(crc), 0);
    ZeroBits();
  }

  lemma CrcOfNothing()
    ensures Crc8(0, []) == 0
  {
    ZeroBits();
  }

  lemma {:induction false} RegisterIsInjective(p: poly, q: poly, s: seq<byte>)
    requires Register(p, s) == Register(q, s)
    ensures p == q
    decreases |s|
  {
    hide Bits, Sum, Advance;
    if s != [] {
      RegisterIsInjective(CrcStep(p, s[0]), CrcStep(q, s[0]), s[1..]);
      AdvanceIsInjective(Sum(p, Bits(s[0])), Sum(q, Bits(s[0])), 8);
      SumCancelsRight(p, q, Bits(s[0]));
    }
  }

  lemma SumCancelsRight(p: poly, q: poly, r: poly)
    ensures Sum(p, r) == Sum(q, r) <==> p == q
  {
  }

  /** In front of a codeword, a message with checksum zero, only the residue of what comes
      before counts. */
  lemma ResidueBeforeCodeword(s: seq<byte>, codeword: seq<byte>)
    requires Crc8(0, codeword) == 0
    ensures Crc8(0, s + codeword) == 0 <==> Crc8(0, s) == 0
  {
    hide Bits, Value, Register;
    CrcChains(0, s, codeword);
    if Crc8(0, s + codeword) == 0 {
      var p, q := Bits(Crc8(0, s)), Bits(0);
      BitsOfValue(Register(p, codeword));
      BitsOfValue(Register(q, codeword));
      RegisterIsInjective(p, q, codeword);
      ValueOfBits(Crc8(0, s));
      ValueOfBits(0);
    }
  }

  function Xor(s: seq<byte>, e: seq<byte>): (r: seq<byte>)
    requires |s| == |e|
    ensures |r| == |s|
    ensures forall i :: 0 <= i < |s| ==> r[i] == Value(Sum(Bits(s[i]), Bits(e[i])))
  {
    seq(|s|, i requires 0 <= i < |s| => Value(Sum(Bits(s[i]), Bits(e[i]))))
  }

  lemma SumsRegroup(a: poly, b: poly, p: poly, q: poly)
    ensures Sum(Sum(a, b), Sum(p, q)) == Sum(Sum(a, p), Sum(b, q))
  {
    hide Sum;
    SumIsAssociative(a, b, Sum(p, q));
    SumIsAssociative(b, p, q);
    SumIsCommutative(b, p);
    SumIsAssociative(p, b, q);
    SumIsAssociative(a, p, Sum(b, q));
  }

  lemma {:induction false} RegisterIsLinear(a: poly, b: poly, s: seq<byte>, e: seq<byte>)
    requires |s| == |e|
    ensures Register(Sum(a, b), Xor(s, e)) == Sum(Register(a, s), Register(b, e))
    decreases |s|
  {
    hide Bits, Value, Sum, Advance;
    if s != [] {
      BitsOfValue(Sum(Bits(s[0]), Bits(e[0])));
      SumsRegroup(a, b, Bits(s[0]), Bits(e[0]));
      AdvanceIsLinear(Sum(a, Bits(s[0])), Sum(b, Bits(e[0])), 8);
      assert Xor(s, e)[1..] == Xor(s[1..], e[1..]);
      RegisterIsLinear(CrcStep(a, s[0]), CrcStep(b, e[0]), s[1..], e[1..]);
    }
  }

  // ---------- The same checksum bit by bit ----------

  function TopBit(p: poly): bool {
    p & TOP != 0
  }

  function BitStep(p: poly, bit: bool): poly {
    TimesX(if bit then Sum(p, TOP) else p)
  }

  function BitRegister(p: poly, bits: seq<bool>): poly
    decreases |bits|
  {
    if bits == [] then p else BitRegister(BitStep(p, bits[0]), bits[1..])
  }

  function ShiftLeft(p: poly): poly {
    p << 1
  }

  /** The first n bits of p, most significant first. */
  function TopBits(p: poly, n: nat): (bits: seq<bool>)
    ensures |bits| == n
    decreases n
  {
    if n == 0 then [] else [TopBit(p)] + TopBits(ShiftLeft(p), n - 1)
  }

  /** What is left of p after its first n bits were shifted out. */
  function ShiftOut(p: poly, n: nat): poly
    decreases n
  {
    if n == 0 then p else ShiftOut(ShiftLeft(p), n - 1)
  }

  /** The bits of a byte string in transmission order, most significant first. */
  function BitString(s: seq<byte>): (bits: seq<bool>)
    ensures |bits| == 8 * |s|
  {
    if s == [] then [] else TopBits(Bits(s[0]), 8) + BitString(s[1..])
  }

  lemma BitStepFolds(p: poly, q: poly)
    ensures TimesX(Sum(p, q)) == Sum(BitStep(p, TopBit(q)), ShiftLeft(q))
  {
  }

  lemma {:induction false} AdvanceByBits(p: poly, q: poly, n: nat)
    ensures Advance(Sum(p, q), n) == Sum(BitRegister(p, TopBits(q, n)), ShiftOut(q, n))
    decreases n
  {
    hide Sum, TimesX, BitStep, TopBit, ShiftLeft;
    if n != 0 {
      BitStepFolds(p, q);
      AdvanceByBits(BitStep(p, TopBit(q)), ShiftLeft(q), n - 1);
    }
  }

  lemma EightShiftsClear(p: poly)
    ensures ShiftOut(p, 8) == 0
  {
    var q := ShiftLeft(ShiftLeft(ShiftLeft(ShiftLeft(p))));
    assert ShiftOut(p, 8) == ShiftOut(ShiftLeft(ShiftLeft(p)), 6) == ShiftOut(q, 4);
    assert ShiftOut(q, 4) == ShiftOut(ShiftLeft(ShiftLeft(q)), 2) == 0;
  }

  lemma {:induction false} BitRegisterChains(p: poly, s: seq<bool>, t: seq<bool>)
    ensures BitRegister(p, s + t) == BitRegister(BitRegister(p, s), t)
    decreases |s|
  {
    if s == [] {
      assert s + t == t;
    } else {
      assert (s + t)[1..] == s[1..] + t;
      BitRegisterChains(BitStep(p, s[0]), s[1..], t);
    }
  }

  /** Feeding bytes is feeding their bits. */
  lemma {:induction false} RegisterByBits(p: poly, s: seq<byte>)
    ensures Register(p, s) == BitRegister(p, BitString(s))
    decreases |s|
  {
    hide Bits, Sum, Advance, BitStep, TopBits, ShiftOut;
    if s != [] {
      AdvanceByBits(p, Bits(s[0]), 8);
      EightShiftsClear(Bits(s[0]));
      SumCancels(BitRegister(p, TopBits(Bits(s[0]), 8)), 0, 0);
      BitRegisterChains(p, TopBits(Bits(s[0]), 8), BitString(s[1..]));
      RegisterByBits(CrcStep(p, s[0]), s[1..]);
    }
  }

  lemma {:induction false} FalseBitsAdvance(p: poly, bits: seq<bool>)
    requires true !in bits
    ensures BitRegister(p, bits) == Advance(p, |bits|)
    decreases |bits|
  {
    hide TimesX, Sum;
    if bits != [] {
      FalseBitsAdvance(BitStep(p, bits[0]), bits[1..]);
    }
  }
}
