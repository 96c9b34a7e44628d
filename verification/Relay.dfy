// A client behind another splitter: the message that reaches it has gone
// through the filter and the error correction of that splitter already.
module Relay {
  import opened BitStrings
  import opened Polynomial
  import opened Crc
  import opened Common
  import opened Message
  import opened Correction
  import opened Filters
  import opened Settings
  import opened Output

  /** The splitter with settings u for this connection sends other data than it received. */
  ghost predicate Repaired(u: Settings, m: Frame) {
    NeedsFec(u, m) && CrcBad(m)
  }

  lemma FlipChanges(m: Bytes, i: nat)
    requires i < 8 * |m|
    ensures FlipBit(m, i) != m
  {
    hide MessageBits, FlipBit;
    FlipBitBits(m, i);
    assert Xor(MessageBits(m), Unit(8 * |m|, i))[i] != MessageBits(m)[i];
  }

  /** After a repair, the residual is zero or, for a frame of the wrong length, that of an even number of errors. */
  lemma RepairedResidual(m: Frame)
    requires ModeS(m) && CrcBad(m) && CrcCorrectable(m) && CorrectionInRange(m)
    ensures !Odd(Residual(Corrected(m))) && Corrected(m) != m.data
  {
    hide Residual, Syndrome, FlipBit, Odd;
    var bit, n := CorrectableBit(m), 8 * |m.data|;
    var table := if Df(m) == 11 then 56 else 112;
    FlipEffect(m, bit);
    FlipChanges(m.data, bit);
    SyndromeOdd(table, bit);
    SyndromeOdd(n, bit);
    OddXor(Syndrome(table, bit), Syndrome(n, bit));
  }

  /** No residual of an even number of errors is a syndrome. */
  lemma EvenNotCorrectable(m: Frame)
    requires ModeS(m) && !Odd(Residual(m.data))
    ensures !CrcCorrectable(m) && !RunsPastEnd(m)
  {
    hide Residual, Syndrome, Odd;
    if CrcCorrectable(m) {
      SyndromeOdd(if Df(m) == 11 then 56 else 112, CorrectableBit(m));
    }
    if RunsPastEnd(m) {
      var i: nat :| i < 56 && Residual(m.data) == Syndrome(56, i);
      SyndromeOdd(56, i);
    }
  }

  /** What a repair leaves: good exactly if the length suits the DF, and in no case correctable again. */
  lemma AfterRepair(u: Settings, m: Frame)
    requires ModeS(m) && Writable(u, m) && Repaired(u, m)
    ensures CorrectionInRange(m)
    ensures var g := Sent(u, m);
      && g.data == Corrected(m) != m.data
      && ModeS(g) && Df(g) == Df(m)
      && (CrcBad(g) <==> !LengthSuitsDf(m))
      && !CrcCorrectable(g) && !RunsPastEnd(g)
  {
    CorrectionInRangeExactly(m);
    RepairIsValid(m);
    RepairedResidual(m);
    EvenNotCorrectable(m.(data := Corrected(m)));
    hide Residual, Corrected, CrcBad, CrcCorrectable, RunsPastEnd, Odd, Df;
    SameChecks(Sent(u, m), m.(data := Corrected(m)));
  }

  /** The checks look at the data only. */
  lemma SameChecks(g: Frame, m: Frame)
    requires g.kind == m.kind && g.data == m.data
    ensures Df(g) == Df(m) && CrcBad(g) == CrcBad(m) && CrcCorrectable(g) == CrcCorrectable(m)
    ensures RunsPastEnd(g) == RunsPastEnd(m) && CorrectableBit(g) == CorrectableBit(m)
    ensures forall f: Filter :: Accepts(f, g) == Accepts(f, m)
  {
    hide Residual, Syndrome;
  }

  lemma Unrepaired(u: Settings, m: Frame)
    requires ModeS(m) && Writable(u, m) && !Repaired(u, m)
    ensures Sent(u, m).data == m.data
  {
    if NeedsFec(u, m) {
      CorrectionInRangeExactly(m);
    }
    hide Residual, RunsPastEnd;
  }

  /**
   * A filter that accepts a message accepts what another splitter makes of it, if and only if it does not mind bad
   * data, or the data was not changed, or its length suits its DF. A frame of the wrong length is repaired to one
   * that is bad and cannot be repaired.
   */
  lemma StillAccepted(f: Filter, u: Settings, m: Frame)
    requires Accepts(f, m) && Writable(u, m)
    ensures Accepts(f, Sent(u, m)) <==>
      !ModeS(m) || f.receiveBadCrc || f.receiveVerbatim || !Repaired(u, m) || LengthSuitsDf(m)
  {
    if ModeS(m) {
      if Repaired(u, m) {
        AfterRepair(u, m);
      } else {
        Unrepaired(u, m);
        SameChecks(Sent(u, m), m);
      }
    }
    hide Residual, Corrected, RunsPastEnd, StatusData, CrcBad, CrcCorrectable;
  }

  // ----- the data that a client gets

  /** What a client with settings c is sent for a message; None if its filter rejects it. */
  ghost function Got(c: Settings, m: Frame): Option<Bytes>
    requires Writable(c, m)
  {
    if Accepts(ToFilter(c), m) then Some(SentData(c, m)) else None
  }

  /** The same for a client of a splitter that is itself served with settings u. */
  ghost function GotBehind(u: Settings, c: Settings, m: Frame): Option<Bytes>
    requires Writable(u, m) && Writable(c, Sent(u, m))
  {
    if Accepts(ToFilter(u), m) then Got(c, Sent(u, m)) else None
  }

  lemma WritableBehind(u: Settings, c: Settings, m: Frame)
    requires ModeS(m) && Writable(u, m) && Writable(c, m)
    ensures Writable(c, Sent(u, m))
  {
    if Repaired(u, m) {
      AfterRepair(u, m);
    } else {
      Unrepaired(u, m);
      SameChecks(Sent(u, m), m);
    }
    hide Sent, RunsPastEnd;
  }

  /**
   * When a client behind a splitter gets the same data of a Mode S message as one that is connected directly. A
   * message that the splitter does not pass must be one that the client rejects. One that it passes unchanged, or
   * whose DF the client does not want, makes no difference. One that it repairs makes none exactly if the client
   * would have had it repaired itself, or, for a frame of the wrong length and a client that wants good data only,
   * if the client would not: then it gets nothing in either case.
   */
  lemma SameDataExactly(u: Settings, c: Settings, m: Frame)
    requires ModeS(m) && Writable(u, m) && Writable(c, m)
    ensures Writable(c, Sent(u, m))
    ensures GotBehind(u, c, m) == Got(c, m) <==>
      if !Accepts(ToFilter(u), m) then !Accepts(ToFilter(c), m)
      else
        || !ToFilter(c).receiveDf[Df(m)]
        || !Repaired(u, m)
        || (if LengthSuitsDf(m) || c.CrcDisable() || c.Verbatim() then NeedsFec(c, m) else c.FecDisable())
  {
    WritableBehind(u, c, m);
    if Accepts(ToFilter(u), m) {
      if Repaired(u, m) {
        AfterRepair(u, m);
        hide Sent;
        RepairedGot(u, c, m);
      } else {
        Unrepaired(u, m);
        SameGot(c, Sent(u, m), m);
      }
    }
    hide Sent, RunsPastEnd, Got;
  }

  lemma SameGot(c: Settings, g: Frame, m: Frame)
    requires g.kind == m.kind && g.data == m.data && ModeS(m) && Writable(c, m) && Writable(c, g)
    ensures Got(c, g) == Got(c, m)
  {
    SameChecks(g, m);
    hide Residual, RunsPastEnd, Accepts, CrcBad, CorrectableBit, FlipBit;
  }

  lemma RepairedGot(u: Settings, c: Settings, m: Frame)
    requires ModeS(m) && Writable(u, m) && Writable(c, m) && Repaired(u, m) && Writable(c, Sent(u, m))
    ensures Got(c, Sent(u, m)) == Got(c, m) <==>
      || !ToFilter(c).receiveDf[Df(m)]
      || (if LengthSuitsDf(m) || c.CrcDisable() || c.Verbatim() then NeedsFec(c, m) else c.FecDisable())
  {
    AfterRepair(u, m);
    hide Sent, RunsPastEnd, Residual, CrcBad, Corrected, CorrectableBit, CrcCorrectable, Df;
  }
}
