// What the parity check and the single-bit correction of Mode S frames guarantee.
module Correction {
  import opened BitStrings
  import opened Polynomial
  import opened Powers
  import opened Crc
  import opened Message

  /** f' is f received with the error pattern e, which leaves the DF field alone. */
  predicate ReceivedWith(f: Frame, f': Frame, e: Bits) {
    && f' == f.(data := f'.data)
    && |e| == 8 * |f.data|
    && MessageBits(f'.data) == Xor(MessageBits(f.data), e)
    && (|e| >= 5 ==> e[..5] == Zeros(5))
  }

  predicate ModeS(f: Frame) {
    f.kind.ModeSShort? || f.kind.ModeSLong?
  }

  lemma ErrorEffect(f: Frame, f': Frame, e: Bits)
    requires ModeS(f) && ReceivedWith(f, f', e)
    ensures Df(f') == Df(f)
    ensures Residual(f'.data) == Xor(Residual(f.data), Remainder(e))
  {
    hide MessageBits, Residual, Remainder;
    ResidualUnderError(f.data, f'.data, e);
    SamePrefix(MessageBits(f.data), e, 5);
    SameDf(f.data, f'.data);
  }

  lemma SamePrefix(p: Bits, e: Bits, k: nat)
    requires |p| == |e| && k <= |e| && e[..k] == Zeros(k)
    ensures Xor(p, e)[..k] == p[..k]
  {
    forall i | 0 <= i < k ensures Xor(p, e)[i] == p[i] {
      assert e[i] == e[..k][i];
    }
  }

  function Flipped(f: Frame, i: nat): Frame
    requires i < 8 * |f.data|
  {
    f.(data := FlipBit(f.data, i))
  }

  lemma FlipEffect(f: Frame, i: nat)
    requires ModeS(f) && 5 <= i < 8 * |f.data|
    ensures Df(Flipped(f, i)) == Df(f)
    ensures Residual(FlipBit(f.data, i)) == Xor(Residual(f.data), Syndrome(8 * |f.data|, i))
  {
    hide MessageBits, Residual, Remainder, FlipBit;
    FlipBitBits(f.data, i);
    assert Unit(8 * |f.data|, i)[..5] == Zeros(5);
    ErrorEffect(f, Flipped(f, i), Unit(8 * |f.data|, i));
  }

  /** What corrected_data returns: the data, if the check is good; nothing, if the error cannot be located. */
  lemma CorrectedExactly(f: Frame)
    requires CorrectionInRange(f)
    ensures !CrcBad(f) ==> Corrected(f) == f.data
    ensures CrcBad(f) && !CrcCorrectable(f) ==> Corrected(f) == []
    ensures CrcBad(f) && CrcCorrectable(f) ==> Corrected(f) == FlipBit(f.data, CorrectableBit(f))
  {
    hide FlipBit;
  }

  /** One wrong bit anywhere after the DF field of a valid DF17 or DF18 frame is detected, located and repaired. */
  lemma SingleBitRepairedLong(f: Frame, i: nat)
    requires f.kind.ModeSLong? && Df(f) in {17, 18} && Residual(f.data) == Zeros(24)
    requires 5 <= i < 112
    ensures CrcBad(Flipped(f, i)) && CorrectableBit(Flipped(f, i)) == i
    ensures Corrected(Flipped(f, i)) == f.data
  {
    hide FlipBit, Syndrome, Residual;
    FlipEffect(f, i);
    XorZeros(Syndrome(112, i));
    PositionOfSyndrome(112, i);
    SyndromeNonzero(112, i);
    FlipTwice(f.data, i);
  }

  /** One wrong bit in a short frame with the DF of a long one is located past its end. */
  lemma SingleBitPastEnd(f: Frame, i: nat)
    requires f.kind.ModeSShort? && Df(f) in {17, 18} && Residual(f.data) == Zeros(24)
    requires 5 <= i < 56
    ensures CrcBad(Flipped(f, i)) && CorrectableBit(Flipped(f, i)) == 56 + i
    ensures RunsPastEnd(Flipped(f, i)) && !CorrectionInRange(Flipped(f, i))
  {
    hide FlipBit, Syndrome, Residual;
    FlipEffect(f, i);
    XorZeros(Syndrome(56, i));
    SyndromeShift(i);
    SyndromeNonzero(56, i);
    PositionOfSyndrome(112, 56 + i);
    CorrectionInRangeExactly(Flipped(f, i));
  }

  /** The first 17 bits of a short frame's syndrome vanish exactly for errors in the last seven bits. */
  lemma ShortSyndromeMasked(i: nat)
    requires 5 <= i < 56
    ensures Syndrome(56, i)[..17] == Zeros(17) <==> i > 48
  {
    RemainderUnit(56, i);
    hide TimesXPow, Remainder;
    if i <= 48 {
      PowerAboveLastSeven(55 - i);
    } else {
      SmallPower(55 - i);
    }
  }

  /**
   * One wrong bit in a DF11 frame whose residual is an interrogator code (zero in its first 17 bits):
   * it is detected unless it falls in the last seven bits, and the repair restores the frame exactly
   * when the interrogator code is zero, as the source assumes.
   */
  lemma SingleBitRepairedShort(f: Frame, i: nat)
    requires f.kind.ModeSShort? && Df(f) == 11 && Residual(f.data)[..17] == Zeros(17)
    requires 5 <= i < 56
    ensures CrcBad(Flipped(f, i)) <==> i <= 48
    ensures CorrectionInRange(Flipped(f, i))
    ensures i <= 48 ==> (Corrected(Flipped(f, i)) == f.data <==> Residual(f.data) == Zeros(24))
    ensures Residual(f.data) == Zeros(24) ==> CorrectableBit(Flipped(f, i)) == i
  {
    hide FlipBit, Syndrome, Residual;
    var c, s := Residual(f.data), Syndrome(56, i);
    FlipEffect(f, i);
    ShortSyndromeMasked(i);
    assert Xor(c, s)[..17] == s[..17] by { XorPrefix(c, s, 17); }
    var j := ErrorPosition(56, Xor(c, s));
    FlipTwice(f.data, i);
    if c == Zeros(24) {
      XorZeros(s);
      PositionOfSyndrome(56, i);
    } else if i <= 48 && j >= 0 {
      if j == i {
        XorCancelsLeft(c, s);
      }
      FlipsDiffer(f.data, i, j);
    }
  }

  lemma XorPrefix(p: Bits, q: Bits, k: nat)
    requires |p| == |q| && k <= |p| && p[..k] == Zeros(k)
    ensures Xor(p, q)[..k] == q[..k]
  {
    forall i | 0 <= i < k ensures Xor(p, q)[i] == q[i] {
      assert p[i] == p[..k][i];
    }
  }

  lemma XorCancelsLeft(p: Bits, q: Bits)
    requires |p| == |q| && Xor(p, q) == q
    ensures p == Zeros(|p|)
  {
    forall i | 0 <= i < |p| ensures !p[i] {
      assert Xor(p, q)[i] == q[i];
    }
  }

  lemma FlipsDiffer(m: Bytes, i: nat, j: nat)
    requires i < 8 * |m| && j < 8 * |m| && i != j
    ensures FlipBit(FlipBit(m, i), j) != m
  {
    hide MessageBits, FlipBit;
    FlipBitBits(m, i);
    FlipBitBits(FlipBit(m, i), j);
    var p, n := MessageBits(m), 8 * |m|;
    assert Xor(Xor(p, Unit(n, i)), Unit(n, j))[i] != p[i];
  }

  /** A frame with an even number of wrong bits after its DF field is never taken for a single-bit error. */
  lemma EvenErrorsNotCorrectable(f: Frame, f': Frame, e: Bits)
    requires ModeS(f) && Residual(f.data) == Zeros(24)
    requires ReceivedWith(f, f', e) && !Odd(e)
    ensures !CrcCorrectable(f')
  {
    hide Residual, Remainder, MessageBits, Odd;
    ErrorEffect(f, f', e);
    XorZeros(Remainder(e));
    RemainderKeepsParity(e);
    var bit := CorrectableBit(f');
    if bit >= 0 {
      SyndromeOdd(if Df(f') == 11 then 56 else 112, bit);
    }
  }

  lemma {:induction false} TwoOnesEven(n: nat, i: nat, j: nat)
    requires i < j < n
    ensures !Odd(Xor(Unit(n, i), Unit(n, j)))
  {
    UnitOdd(n, i);
    UnitOdd(n, j);
    OddXor(Unit(n, i), Unit(n, j));
  }

  /** Two wrong bits are never miscorrected; in DF17 and DF18 frames they are also always detected. */
  lemma TwoBitErrors(f: Frame, i: nat, j: nat)
    requires ModeS(f) && Residual(f.data) == Zeros(24)
    requires 5 <= i < j < 8 * |f.data|
    ensures !CrcCorrectable(Flipped(Flipped(f, i), j))
    ensures Df(f) in {17, 18} ==> CrcBad(Flipped(Flipped(f, i), j))
  {
    hide Residual, Remainder, MessageBits, Odd, FlipBit;
    var n := 8 * |f.data|;
    var e, f' := Xor(Unit(n, i), Unit(n, j)), Flipped(Flipped(f, i), j);
    TwoFlips(f, i, j);
    TwoOnesEven(n, i, j);
    EvenErrorsNotCorrectable(f, f', e);
    SyndromesDiffer(n, i, j);
    XorZeros(Remainder(e));
    XorCancels(Syndrome(n, i), Syndrome(n, j));
  }

  /** Two wrong bits in a DF11 frame with any interrogator code are detected unless both are in its last seven bits. */
  lemma TwoBitErrorsShort(f: Frame, i: nat, j: nat)
    requires f.kind.ModeSShort? && Df(f) == 11 && Residual(f.data)[..17] == Zeros(17)
    requires 5 <= i < j < 56
    ensures CrcBad(Flipped(Flipped(f, i), j)) <==> i <= 48
  {
    hide Residual, Remainder, FlipBit, MessageBits, Syndrome, ReceivedWith, Unit;
    TwoFlips(f, i, j);
    ShortPairMasked(i, j);
    XorPrefix(Residual(f.data), Xor(Syndrome(56, i), Syndrome(56, j)), 17);
  }

  lemma ShortPairMasked(i: nat, j: nat)
    requires 5 <= i < j < 56
    ensures Xor(Syndrome(56, i), Syndrome(56, j))[..17] == Zeros(17) <==> i > 48
  {
    RemainderUnit(56, i);
    RemainderUnit(56, j);
    hide Remainder, TimesXPow;
    TwoPowersAboveLastSeven(55 - i, 55 - j);
  }

  lemma TwoFlips(f: Frame, i: nat, j: nat)
    requires ModeS(f) && 5 <= i < j < 8 * |f.data|
    ensures var n, f' := 8 * |f.data|, Flipped(Flipped(f, i), j);
      var e := Xor(Unit(n, i), Unit(n, j));
      && ReceivedWith(f, f', e)
      && Df(f') == Df(f)
      && Remainder(e) == Xor(Syndrome(n, i), Syndrome(n, j))
      && Residual(f'.data) == Xor(Residual(f.data), Remainder(e))
  {
    hide Residual, Remainder, MessageBits, FlipBit;
    var n := 8 * |f.data|;
    var e, f' := Xor(Unit(n, i), Unit(n, j)), Flipped(Flipped(f, i), j);
    FlipBitBits(f.data, i);
    FlipBitBits(FlipBit(f.data, i), j);
    XorAssociates(MessageBits(f.data), Unit(n, i), Unit(n, j));
    assert e[..5] == Zeros(5);
    ErrorEffect(f, f', e);
    RemainderXor(Unit(n, i), Unit(n, j));
  }

  /**
   * Whatever frame was received: if it fails the check and is correctable within its length, the repaired
   * frame differs in one bit outside the DF field, and it passes the check exactly when its length suits
   * its DF. The syndrome table is chosen by the DF alone, which is why the length matters.
   */
  lemma RepairIsValid(f: Frame)
    requires ModeS(f) && CrcBad(f) && CrcCorrectable(f) && CorrectionInRange(f)
    ensures |Corrected(f)| == |f.data|
    ensures Corrected(f) == FlipBit(f.data, CorrectableBit(f)) && CorrectableBit(f) >= 5
    ensures Df(f.(data := Corrected(f))) == Df(f)
    ensures Residual(Corrected(f)) == Zeros(24) <==> LengthSuitsDf(f)
    ensures CrcBad(f.(data := Corrected(f))) <==> !LengthSuitsDf(f)
  {
    hide Residual, Syndrome, FlipBit;
    var bit, n := CorrectableBit(f), 8 * |f.data|;
    var table := if Df(f) == 11 then 56 else 112;
    FlipEffect(f, bit);
    XorCancels(Syndrome(table, bit), Syndrome(n, bit));
    assert Zeros(24)[..17] == Zeros(17);
    if n != table {
      SyndromesOfLengthsDiffer(bit);
    }
  }

  lemma SyndromesOfLengthsDiffer(i: nat)
    requires 5 <= i < 56
    ensures Syndrome(56, i) != Syndrome(112, i)
    ensures Xor(Syndrome(56, i), Syndrome(112, i))[..17] != Zeros(17)
  {
    RemainderUnit(56, i);
    RemainderUnit(112, i);
    hide TimesXPow, Remainder;
    PowersDiffer(55 - i, 111 - i);
    ShortAndLongDiffer(55 - i);
  }

  /** No burst of up to 24 wrong bits after the DF field of a DF17 or DF18 frame goes unnoticed. */
  lemma BurstErrorsDetected(f: Frame, f': Frame, e: Bits, before: nat, window: Bits, after: nat)
    requires ModeS(f) && Df(f) in {17, 18} && Residual(f.data) == Zeros(24)
    requires ReceivedWith(f, f', e)
    requires Burst(e, before, window, after) && window != Zeros(|window|)
    ensures CrcBad(f')
  {
    hide Residual, Remainder, MessageBits;
    ErrorEffect(f, f', e);
    BurstDetected(e, before, window, after);
    XorZeros(Remainder(e));
  }
}
