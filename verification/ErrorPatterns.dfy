/** Which error patterns leave the checksum register at zero: the polynomial's factor x + 1,
    its degree, and the order of x modulo it. Patterns are bit strings in transmission order. */
module ErrorPatterns {
  import opened Crc

  // ---------- An odd number of flipped bits ----------

  function Weight(bits: seq<bool>): nat {
    if bits == [] then 0 else (if bits[0] then 1 else 0) + Weight(bits[1..])
  }

  function OddOnes(p: poly): bool {
    (((p & 0x80 != 0) != (p & 0x40 != 0)) != ((p & 0x20 != 0) != (p & 0x10 != 0)))
    != (((p & 0x08 != 0) != (p & 0x04 != 0)) != ((p & 0x02 != 0) != (p & 0x01 != 0)))
  }

  lemma BitStepParity(p: poly, bit: bool)
    ensures OddOnes(BitStep(p, bit)) == (OddOnes(p) != bit)
  {
  }

  /** x + 1 divides the polynomial, so the parity of the register is that of the input. */
  lemma {:induction false} RegisterParity(p: poly, bits: seq<bool>)
    ensures OddOnes(BitRegister(p, bits)) == (OddOnes(p) != (Weight(bits) % 2 == 1))
    decreases |bits|
  {
    hide OddOnes, BitStep;
    if bits != [] {
      BitStepParity(p, bits[0]);
      RegisterParity(BitStep(p, bits[0]), bits[1..]);
    }
  }

  lemma OddWeightIsDetected(bits: seq<bool>)
    requires Weight(bits) % 2 == 1
    ensures BitRegister(0, bits) != 0
  {
    RegisterParity(0, bits);
  }

  // ---------- A burst ----------

  /** All flipped bits lie within eight consecutive positions, and there is at least one. */
  ghost predicate IsBurst(bits: seq<bool>) {
    true in bits && exists start: nat :: BurstAt(bits, start)
  }

  ghost predicate BurstAt(bits: seq<bool>, start: nat) {
    start + 8 <= |bits| && true !in bits[..start] && true !in bits[start + 8..]
  }

  function Prepend(bit: bool, p: poly): poly {
    (if bit then 0x80 else 0) | (p >> 1)
  }

  lemma PrependThenShift(bit: bool, p: poly)
    ensures TopBit(Prepend(bit, p)) == bit
    ensures p & 1 == 0 ==> ShiftLeft(Prepend(bit, p)) == p
  {
  }

  lemma SevenShifts(p: poly)
    requires ShiftOut(p, 7) == 0
    ensures p & 1 == 0
  {
    var q := ShiftLeft(ShiftLeft(ShiftLeft(p)));
    assert ShiftOut(p, 7) == ShiftOut(ShiftLeft(ShiftLeft(p)), 5) == ShiftOut(q, 4);
    assert ShiftOut(q, 4) == ShiftOut(ShiftLeft(ShiftLeft(q)), 2);
  }

  lemma {:induction false} ShiftOutStaysZero(p: poly, m: nat, n: nat)
    requires ShiftOut(p, m) == 0 && m <= n
    ensures ShiftOut(p, n) == 0
    decreases n
  {
    if m != 0 {
      ShiftOutStaysZero(ShiftLeft(p), m - 1, n - 1);
    } else if n != 0 {
      ShiftOutStaysZero(ShiftLeft(p), 0, n - 1);
    }
  }

  /** Every string of at most eight bits is the beginning of a register value. */
  lemma {:induction false} Packed(w: seq<bool>) returns (p: poly)
    requires |w| <= 8
    ensures TopBits(p, |w|) == w && ShiftOut(p, |w|) == 0
  {
    hide Prepend, TopBit, ShiftLeft;
    if w == [] {
      p := 0;
    } else {
      var q := Packed(w[1..]);
      ShiftOutStaysZero(q, |w| - 1, 7);
      SevenShifts(q);
      PrependThenShift(w[0], q);
      p := Prepend(w[0], q);
    }
  }

  lemma {:induction false} NoBitsInZero(n: nat)
    ensures true !in TopBits(0, n)
  {
    if n != 0 {
      NoBitsInZero(n - 1);
    }
  }

  lemma WindowIsDetected(window: seq<bool>)
    requires |window| == 8 && true in window
    ensures BitRegister(0, window) != 0
  {
    hide Advance, TopBits, ShiftOut, BitRegister, Sum;
    var p := Packed(window);
    AdvanceByBits(0, p, 8);
    SumCancels(p, 0, 0);
    SumCancels(BitRegister(0, window), 0, 0);
    NoBitsInZero(8);
    AdvanceVanishesOnlyAtZero(p, 8);
  }

  lemma BurstIsDetected(bits: seq<bool>)
    requires IsBurst(bits)
    ensures BitRegister(0, bits) != 0
  {
    hide BitRegister, Advance;
    var start: nat :| BurstAt(bits, start);
    var before, window, after := bits[..start], bits[start..start + 8], bits[start + 8..];
    assert bits == before + (window + after);
    BitRegisterChains(0, before, window + after);
    FalseBitsAdvance(0, before);
    AdvanceZero(start);
    BitRegisterChains(0, window, after);
    FalseBitsAdvance(BitRegister(0, window), after);
    WindowIsDetected(window);
    AdvanceVanishesOnlyAtZero(BitRegister(0, window), |after|);
  }

  // ---------- Two flipped bits ----------

  ghost predicate IsPair(bits: seq<bool>, i: nat, j: nat) {
    i < j < |bits| && forall k :: 0 <= k < |bits| ==> (bits[k] <==> k == i || k == j)
  }

  /** x^(8q) modulo the polynomial, for q from 0 to 15. */
  function PowerOfX8(q: nat): poly
    requires q <= 15
  {
    [0x01, 0x07, 0x15, 0x6b, 0x16, 0x62, 0x29, 0xdf, 0x13, 0x79, 0x68, 0x1f, 0x5d, 0x94, 0xe5, 0xb5][q]
  }

  lemma PowersStep(q: nat)
    requires q < 15
    ensures TimesX4(TimesX4(PowerOfX8(q))) == PowerOfX8(q + 1)
  {
  }

  lemma FirstPower()
    ensures PowerOfX8(0) == 1
  {
  }

  lemma {:induction false} PowersOfX(q: nat)
    requires q <= 15
    ensures Advance(1, 8 * q) == PowerOfX8(q)
  {
    hide TimesX, TimesX4, PowerOfX8;
    if q == 0 {
      FirstPower();
    } else {
      PowersOfX(q - 1);
      AdvanceAdds(1, 8 * (q - 1), 8);
      AdvanceAdds(PowerOfX8(q - 1), 4, 4);
      AdvanceByFour(PowerOfX8(q - 1));
      AdvanceByFour(TimesX4(PowerOfX8(q - 1)));
      PowersStep(q - 1);
    }
  }

  lemma AdvanceUpToSeven(p: poly, r: nat)
    requires r < 8
    ensures Advance(p, r) == [
      p, TimesX(p), TimesX(TimesX(p)), TimesX(TimesX(TimesX(p))), TimesX4(p), TimesX(TimesX4(p)),
      TimesX(TimesX(TimesX4(p))), TimesX(TimesX(TimesX(TimesX4(p))))][r]
  {
    hide TimesX;
    if r >= 4 {
      AdvanceAdds(p, 4, r - 4);
      AdvanceByFour(p);
      AdvanceUpToThree(TimesX4(p), r - 4);
    } else {
      AdvanceUpToThree(p, r);
    }
  }

  lemma AdvanceUpToThree(p: poly, r: nat)
    requires r < 4
    ensures Advance(p, r) == [p, TimesX(p), TimesX(TimesX(p)), TimesX(TimesX(TimesX(p)))][r]
  {
    hide TimesX;
    if r == 3 {
      assert Advance(p, r) == Advance(TimesX(p), 2) == Advance(TimesX(TimesX(p)), 1);
      assert Advance(TimesX(TimesX(p)), 1) == TimesX(TimesX(TimesX(p)));
    } else if r == 2 {
      assert Advance(p, r) == Advance(TimesX(p), 1) == TimesX(TimesX(p));
    } else if r == 1 {
      assert Advance(p, r) == Advance(TimesX(p), 0) == TimesX(p);
    } else {
      assert Advance(p, r) == p;
    }
  }

  /** Between 1 and 126 no power of x is one; the 127th is. */
  lemma SmallPowers(q: nat, r: nat)
    requires q <= 15 && r < 8
    ensures Advance(PowerOfX8(q), r) == 1 <==> q == r == 0 || (q == 15 && r == 7)
  {
    hide Advance;
    var p := PowerOfX8(q);
    AdvanceUpToSeven(p, r);
    if r == 0 {
      assert Advance(p, r) == p;
      assert p == 1 <==> q == 0;
    } else if r == 1 {
      assert Advance(p, r) == TimesX(p);
      assert TimesX(p) != 1;
    } else if r == 2 {
      assert Advance(p, r) == TimesX(TimesX(p));
      assert TimesX(TimesX(p)) != 1;
    } else if r == 3 {
      assert Advance(p, r) == TimesX(TimesX(TimesX(p)));
      assert TimesX(TimesX(TimesX(p))) != 1;
    } else if r == 4 {
      assert Advance(p, r) == TimesX4(p);
      assert TimesX4(p) != 1;
    } else if r == 5 {
      assert Advance(p, r) == TimesX(TimesX4(p));
      assert TimesX(TimesX4(p)) != 1;
    } else if r == 6 {
      assert Advance(p, r) == TimesX(TimesX(TimesX4(p)));
      assert TimesX(TimesX(TimesX4(p))) != 1;
    } else {
      assert Advance(p, r) == TimesX(TimesX(TimesX(TimesX4(p))));
      assert TimesX(TimesX(TimesX(TimesX4(p)))) == 1 <==> q == 15;
    }
  }

  lemma {:induction false} OrderOfX(n: nat)
    ensures Advance(1, n) == 1 <==> n % 127 == 0
    decreases n
  {
    hide TimesX, PowerOfX8, Advance;
    if n < 127 {
      AdvanceAdds(1, 8 * (n / 8), n % 8);
      PowersOfX(n / 8);
      SmallPowers(n / 8, n % 8);
    } else {
      AdvanceAdds(1, 8 * 15, 7);
      PowersOfX(15);
      SmallPowers(15, 7);
      AdvanceAdds(1, 127, n - 127);
      OrderOfX(n - 127);
    }
  }

  /** Two flipped bits go unnoticed exactly when their distance is a multiple of 127. */
  lemma PairIsDetectedUnless127Divides(bits: seq<bool>, i: nat, j: nat)
    requires IsPair(bits, i, j)
    ensures BitRegister(0, bits) == 0 <==> (j - i) % 127 == 0
  {
    hide Advance, BitRegister;
    var before, between, after := bits[..i], bits[i + 1..j], bits[j + 1..];
    assert bits == before + ([true] + (between + ([true] + after)));
    BitRegisterChains(0, before, [true] + (between + ([true] + after)));
    FalseBitsAdvance(0, before);
    AdvanceZero(i);
    BitRegisterChains(0, [true], between + ([true] + after));
    var p := BitRegister(0, [true]);
    BitRegisterChains(p, between, [true] + after);
    FalseBitsAdvance(p, between);
    var q := Advance(p, |between|);
    BitRegisterChains(q, [true], after);
    FalseBitsAdvance(BitRegister(q, [true]), after);
    AdvanceVanishesOnlyAtZero(BitRegister(q, [true]), |after|);
    PairMeets(p, q, j - i);
  }

  lemma TrueBit(p: poly)
    ensures BitRegister(p, [true]) == Advance(Sum(p, TOP), 1)
  {
    assert BitRegister(BitStep(p, true), []) == BitStep(p, true);
  }

  lemma PairMeets(p: poly, q: poly, distance: nat)
    requires distance > 0
    requires p == BitRegister(0, [true]) && q == Advance(p, distance - 1)
    ensures BitRegister(q, [true]) == 0 <==> distance % 127 == 0
  {
    hide Advance, BitRegister, Sum;
    TrueBit(0);
    TrueBit(q);
    SumCancels(TOP, 0, 0);
    SumCancels(q, TOP, TOP);
    AdvanceVanishesOnlyAtZero(Sum(q, TOP), 1);
    AdvanceAdds(TOP, 1, distance - 1);
    // TOP is x^7, so q == TOP says x^(7 + distance) == x^7.
    AdvanceUpToSeven(1, 7);
    AdvanceAdds(1, 7, distance);
    AdvanceAdds(1, distance, 7);
    OrderOfX(distance);
    if Advance(TOP, distance) == TOP {
      AdvanceIsInjective(Advance(1, distance), 1, 7);
    }
  }
}
