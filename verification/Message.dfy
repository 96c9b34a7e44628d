// modes_message.h: one received message, its downlink format, and the cached
// CRC checks with single-bit correction.
module Message {
  import opened BitStrings
  import opened Polynomial
  import opened Crc

  datatype MessageType = Invalid | ModeAC | ModeSShort | ModeSLong | Status | Position

  datatype TimestampType = Unknown | TwelveMeg | Gps

  /** The number of data bytes of a message. */
  function MessageSize(kind: MessageType): nat {
    match kind
    case ModeAC => 2
    case ModeSShort => 7
    case ModeSLong => 14
    case Status => 14
    case Position => 14
    case Invalid => 0
  }

  /** What a message carries; the constructor's assertion on the size is the subset type Frame. */
  datatype RawFrame = RawFrame(kind: MessageType, timestampType: TimestampType, timestamp: nat,
                               signal: Byte, data: Bytes)

  type Frame = f: RawFrame | |f.data| == MessageSize(f.kind)
    witness RawFrame(Invalid, Unknown, 0, 0, [])

  /** The downlink format: the first five bits of a Mode S message. */
  function Df(f: Frame): int {
    if f.kind.ModeSShort? || f.kind.ModeSLong? then f.data[0] / 8 else -1
  }

  /** The last seven bits of a DF11 residual may hold an interrogator code: mask 0xFFFF80. */
  predicate CrcBad(f: Frame) {
    if Df(f) == 11 then Residual(f.data)[..17] != Zeros(17)
    else if Df(f) == 17 || Df(f) == 18 then Residual(f.data) != Zeros(24)
    else false
  }

  ghost function CorrectableBit(f: Frame): (r: int)
    ensures r == -1 || r >= 5
  {
    if Df(f) == 11 then ErrorPosition(56, Residual(f.data))
    else if Df(f) == 17 || Df(f) == 18 then ErrorPosition(112, Residual(f.data))
    else -1
  }

  ghost predicate CrcCorrectable(f: Frame) {
    CorrectableBit(f) >= 0
  }

  /** The index that corrected_data uses exists. */
  ghost predicate CorrectionInRange(f: Frame) {
    CrcBad(f) ==> CorrectableBit(f) < 8 * |f.data|
  }

  ghost function Corrected(f: Frame): Bytes
    requires CorrectionInRange(f)
  {
    if !CrcBad(f) then f.data
    else if CorrectableBit(f) < 0 then []
    else FlipBit(f.data, CorrectableBit(f))
  }

  /**
   * A short frame with the DF of a long one, whose residual is the syndrome of a single-bit error in 56 bits. The
   * table is chosen by the DF and not by the length, so it is taken for an error in the last 56 of 112 bits.
   */
  ghost predicate RunsPastEnd(f: Frame) {
    && f.kind.ModeSShort?
    && Df(f) in {17, 18}
    && exists i: nat | i < 56 :: Residual(f.data) == Syndrome(56, i)
  }

  /** Those are all the frames for which correction would go past the end of the data. */
  lemma CorrectionInRangeExactly(f: Frame)
    ensures CorrectionInRange(f) <==> !RunsPastEnd(f)
  {
    hide Residual, Syndrome;
    if RunsPastEnd(f) {
      var i: nat :| i < 56 && Residual(f.data) == Syndrome(56, i);
      SyndromeShift(i);
      SyndromeNonzero(56, i);
      PositionOfSyndrome(112, i + 56);
    } else if !CorrectionInRange(f) {
      var bit := CorrectableBit(f);
      SyndromeShift(bit - 56);
      assert false;
    }
  }

  /** DF11 replies are short, DF17 and DF18 squitters are long. */
  predicate LengthSuitsDf(f: Frame) {
    && (Df(f) == 11 ==> f.kind.ModeSShort?)
    && (Df(f) == 17 || Df(f) == 18 ==> f.kind.ModeSLong?)
  }

  const NO_RESIDUAL: Word := Ones(32)

  class Message {
    const frame: Frame
    var residual: Word
    var correctableBit: int
    var correctedData: Bytes

    /** Each cache is empty or holds what it stands for. */
    ghost predicate Valid()
      reads this
    {
      && (residual == NO_RESIDUAL || residual == WordOf(Residual(frame.data)))
      && (correctableBit == -2 || correctableBit == CorrectableBit(frame))
      && (correctedData == [] || (CrcBad(frame) && CorrectionInRange(frame) && correctedData == Corrected(frame)))
    }

    constructor (frame: Frame)
      ensures Valid() && this.frame == frame
    {
      this.frame := frame;
      residual, correctableBit, correctedData := NO_RESIDUAL, -2, [];
    }

    method CrcResidual() returns (r: Word)
      requires Valid()
      modifies this
      ensures Valid() && r == WordOf(Residual(frame.data))
    {
      if residual == NO_RESIDUAL {
        residual := MessageResidual(frame.data);
      }
      r := residual;
    }

    method IsCrcBad() returns (bad: bool)
      requires Valid()
      modifies this
      ensures Valid() && bad == CrcBad(frame)
    {
      var df := Df(frame);
      if df == 11 {
        var r := CrcResidual();
        bad := r[8..25] != Zeros(17);
      } else if df == 17 || df == 18 {
        var r := CrcResidual();
        WordOfZero(Residual(frame.data));
        bad := r != Zeros(32);
      } else {
        bad := false;
      }
    }

    method FindCorrectableBit(tables: SyndromeTables) returns (bit: int)
      requires Valid() && tables.Valid()
      modifies this, tables
      ensures Valid() && tables.Valid() && bit == CorrectableBit(frame)
    {
      if correctableBit == -2 {
        var df := Df(frame);
        if df == 11 {
          var r := CrcResidual();
          correctableBit := tables.CorrectableBitShort(r);
        } else if df == 17 || df == 18 {
          var r := CrcResidual();
          correctableBit := tables.CorrectableBitLong(r);
        } else {
          correctableBit := -1;
        }
      }
      bit := correctableBit;
    }

    method IsCrcCorrectable(tables: SyndromeTables) returns (correctable: bool)
      requires Valid() && tables.Valid()
      modifies this, tables
      ensures Valid() && tables.Valid() && correctable == CrcCorrectable(frame)
    {
      var bit := FindCorrectableBit(tables);
      correctable := bit >= 0;
    }

    /** The source indexes the data with the corrected bit, so that bit must not lie past the end of the data. */
    method CorrectedData(tables: SyndromeTables) returns (data: Bytes)
      requires Valid() && tables.Valid()
      requires !RunsPastEnd(frame)
      modifies this, tables
      ensures Valid() && tables.Valid()
      ensures CorrectionInRange(frame) && data == Corrected(frame)
    {
      CorrectionInRangeExactly(frame);
      hide RunsPastEnd;
      var bad := IsCrcBad();
      if !bad {
        return frame.data;
      }
      if |correctedData| != 0 {
        return correctedData;
      }
      var bit := FindCorrectableBit(tables);
      if bit < 0 {
        return correctedData;
      }
      correctedData := FlipBit(frame.data, bit);
      return correctedData;
    }
  }

  lemma WordOfZero(c: Residue)
    ensures WordOf(c) == Zeros(32) <==> c == Zeros(24)
    ensures WordOf(c)[8..25] == c[..17] && WordOf(c)[8..] == c && WordOf(c)[..8] == Zeros(8)
  {}

  // ----- errors keep the DF field when they leave the first five bits alone

  lemma FirstFiveBits(m: Bytes)
    requires m != []
    ensures MessageBits(m)[..5] == ToBits(m[0] / 8, 5)
  {
    MessageBitsConcat(m[..1], m[1..]);
    assert m == m[..1] + m[1..];
    assert m[..1][..0] == [];
    assert MessageBits(m[..1]) == ByteBits(m[0]);
    TopFive(m[0]);
  }

  lemma TopFive(b: Byte)
    ensures ByteBits(b)[..5] == ToBits(b / 8, 5)
  {
    hide ToBits;
    DropLow(b, 7);
    DropLow(b / 2, 6);
    DropLow(b / 2 / 2, 5);
  }

  lemma DropLow(n: nat, k: nat)
    ensures ToBits(n, k + 1) == ToBits(n / 2, k) + [n % 2 == 1]
  {}

  lemma SameDf(m: Bytes, m': Bytes)
    requires m != [] && |m| == |m'| && MessageBits(m)[..5] == MessageBits(m')[..5]
    ensures m[0] / 8 == m'[0] / 8
  {
    FirstFiveBits(m);
    FirstFiveBits(m');
    assert Pow2(5) == 32;
    FromTo(m[0] / 8, 5);
    FromTo(m'[0] / 8, 5);
  }
}
