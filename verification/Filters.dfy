// modes_filter.h and modes_filter.cc, struct Filter: which messages a client
// wants, ordered by what they accept.
module Filters {
  import opened BitStrings
  import opened Crc
  import opened Message

  datatype RawFilter = RawFilter(
    receiveDf: seq<bool>,
    receiveModeac: bool,
    receiveBadCrc: bool,
    receiveFec: bool,
    receiveStatus: bool,
    receiveGpsTimestamps: bool,
    receivePosition: bool,
    receiveVerbatim: bool)

  type Filter = f: RawFilter | |f.receiveDf| == 32
    witness RawFilter(Zeros(32), false, false, false, false, false, false, false)

  /** A filter as the default constructor makes it. */
  function Nothing(): Filter {
    RawFilter(Zeros(32), false, false, false, false, false, false, false)
  }

  /** Filter::operator() */
  ghost predicate Accepts(f: Filter, m: Frame) {
    match m.kind
    case ModeAC => f.receiveModeac
    case Status => f.receiveStatus
    case ModeSShort | ModeSLong =>
      && f.receiveDf[Df(m)]
      && (f.receiveBadCrc || f.receiveVerbatim || !CrcBad(m) || (f.receiveFec && CrcCorrectable(m)))
    case Position => f.receivePosition
    case Invalid => false
  }

  /** f asks for no more than g, field by field. */
  predicate Leq(f: Filter, g: Filter) {
    && Implies(f.receiveDf, g.receiveDf)
    && (f.receiveModeac ==> g.receiveModeac)
    && (f.receiveBadCrc ==> g.receiveBadCrc)
    && (f.receiveFec ==> g.receiveFec)
    && (f.receiveStatus ==> g.receiveStatus)
    && (f.receiveGpsTimestamps ==> g.receiveGpsTimestamps)
    && (f.receivePosition ==> g.receivePosition)
    && (f.receiveVerbatim ==> g.receiveVerbatim)
  }

  function Or(p: Bits, q: Bits): (r: Bits)
    requires |p| == |q|
    ensures |r| == |p|
    ensures forall i :: 0 <= i < |p| ==> r[i] == (p[i] || q[i])
  {
    seq(|p|, i requires 0 <= i < |p| => p[i] || q[i])
  }

  predicate Implies(p: Bits, q: Bits)
    requires |p| == |q|
  {
    forall i :: 0 <= i < |p| && p[i] ==> q[i]
  }

  /** The least filter above both. */
  function Join(f: Filter, g: Filter): Filter {
    RawFilter(
      Or(f.receiveDf, g.receiveDf),
      f.receiveModeac || g.receiveModeac,
      f.receiveBadCrc || g.receiveBadCrc,
      f.receiveFec || g.receiveFec,
      f.receiveStatus || g.receiveStatus,
      f.receiveGpsTimestamps || g.receiveGpsTimestamps,
      f.receivePosition || g.receivePosition,
      f.receiveVerbatim || g.receiveVerbatim)
  }

  /** The loop of Filter::inplace_combine over the downlink formats. */
  method CombineDf(one: Bits, two: Bits) returns (df: Bits)
    requires |one| == |two|
    ensures df == Or(one, two)
  {
    df := one;
    for i := 0 to |one|
      invariant |df| == |one|
      invariant df[..i] == Or(one, two)[..i] && df[i..] == one[i..]
    {
      df := df[i := df[i] || two[i]];
    }
    assert df == df[..|one|];
  }

  /** Filter::inplace_combine: f is the filter that the source updates in place. */
  method InplaceCombine(f: Filter, two: Filter) returns (r: Filter)
    ensures r == Join(f, two)
  {
    var df := CombineDf(f.receiveDf, two.receiveDf);
    r := f.(receiveDf := df,
            receiveModeac := f.receiveModeac || two.receiveModeac,
            receiveBadCrc := f.receiveBadCrc || two.receiveBadCrc,
            receiveFec := f.receiveFec || two.receiveFec,
            receiveStatus := f.receiveStatus || two.receiveStatus,
            receiveGpsTimestamps := f.receiveGpsTimestamps || two.receiveGpsTimestamps,
            receivePosition := f.receivePosition || two.receivePosition,
            receiveVerbatim := f.receiveVerbatim || two.receiveVerbatim);
  }

  /** Filter::operator() on a message with its caches. */
  method Passes(f: Filter, message: Message, tables: SyndromeTables) returns (pass: bool)
    requires message.Valid() && tables.Valid()
    modifies message, tables
    ensures message.Valid() && tables.Valid()
    ensures pass == Accepts(f, message.frame)
  {
    match message.frame.kind
    case ModeAC => pass := f.receiveModeac;
    case Status => pass := f.receiveStatus;
    case ModeSShort | ModeSLong =>
      if !f.receiveDf[Df(message.frame)] {
        return false;
      }
      if !f.receiveBadCrc && !f.receiveVerbatim {
        var bad := message.IsCrcBad();
        if bad {
          if !f.receiveFec {
            return false;
          }
          var correctable := message.IsCrcCorrectable(tables);
          if !correctable {
            return false;
          }
        }
      }
      pass := true;
    case Position => pass := f.receivePosition;
    case Invalid => pass := false;
  }

  lemma JoinIsUpperBound(f: Filter, g: Filter)
    ensures Leq(f, Join(f, g)) && Leq(g, Join(f, g))
  {
    OrIsLeast(f.receiveDf, g.receiveDf, Or(f.receiveDf, g.receiveDf));
    hide Implies, Or;
  }

  lemma JoinIsLeast(f: Filter, g: Filter, h: Filter)
    requires Leq(f, h) && Leq(g, h)
    ensures Leq(Join(f, g), h)
  {
    OrIsLeast(f.receiveDf, g.receiveDf, h.receiveDf);
    hide Implies, Or;
  }

  lemma LeqTransitive(f: Filter, g: Filter, h: Filter)
    requires Leq(f, g) && Leq(g, h)
    ensures Leq(f, h)
  {}

  lemma OrIsLeast(p: Bits, q: Bits, r: Bits)
    requires |p| == |q| == |r|
    ensures Implies(p, Or(p, q)) && Implies(q, Or(p, q))
    ensures Implies(Or(p, q), r) <==> Implies(p, r) && Implies(q, r)
  {
    if Implies(Or(p, q), r) {
      forall i | 0 <= i < |p| && (p[i] || q[i]) ensures r[i] {
        assert Or(p, q)[i];
      }
    }
  }

  /** A filter that asks for more accepts every message that one asking for less accepts. */
  lemma AcceptsMonotone(f: Filter, g: Filter, m: Frame)
    requires Leq(f, g) && Accepts(f, m)
    ensures Accepts(g, m)
  {}
}
