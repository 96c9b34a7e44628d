// beast_settings.h and beast_settings.cc: three-valued settings, their
// translation to and from filters, status bytes and settings strings, and the
// commands that transmit them.
module Settings {
  import opened BitStrings
  import opened Filters

  datatype Tristate = DontCare | Off | On {
    /** operator bool, with the default D of the setting. */
    function Value(default: bool): bool {
      if DontCare? then default else On?
    }

    /** operator|: the left side, unless it does not care. */
    function Or(other: Tristate): Tristate {
      if DontCare? then other else this
    }
  }

  function Explicit(b: bool): Tristate {
    if b then On else Off
  }

  datatype Settings = Settings(
    radarcape: Tristate,
    binaryFormat: Tristate,
    filter111718: Tristate,
    avrmlat: Tristate,
    crcDisable: Tristate,
    gpsTimestamps: Tristate,
    rtsHandshake: Tristate,
    fecDisable: Tristate,
    modeacEnable: Tristate,
    filter045: Tristate,
    positionEnable: Tristate,
    verbatim: Tristate)
  {
    // each setting read as a bool, with its own default
    function Radarcape(): bool { radarcape.Value(false) }
    function BinaryFormat(): bool { binaryFormat.Value(true) }
    function Filter111718(): bool { filter111718.Value(false) }
    function Avrmlat(): bool { avrmlat.Value(true) }
    function CrcDisable(): bool { crcDisable.Value(false) }
    function GpsTimestamps(): bool { gpsTimestamps.Value(true) }
    function RtsHandshake(): bool { rtsHandshake.Value(true) }
    function FecDisable(): bool { fecDisable.Value(false) }
    function ModeacEnable(): bool { modeacEnable.Value(false) }
    function Filter045(): bool { filter045.Value(false) }
    function PositionEnable(): bool { positionEnable.Value(false) }
    function Verbatim(): bool { verbatim.Value(false) }
  }

  const UNSET: Settings :=
    Settings(DontCare, DontCare, DontCare, DontCare, DontCare, DontCare,
             DontCare, DontCare, DontCare, DontCare, DontCare, DontCare)

  /** operator|; it does not merge positionEnable. */
  function Merge(s: Settings, t: Settings): Settings {
    s.(binaryFormat := s.binaryFormat.Or(t.binaryFormat),
       filter111718 := s.filter111718.Or(t.filter111718),
       avrmlat := s.avrmlat.Or(t.avrmlat),
       crcDisable := s.crcDisable.Or(t.crcDisable),
       gpsTimestamps := s.gpsTimestamps.Or(t.gpsTimestamps),
       rtsHandshake := s.rtsHandshake.Or(t.rtsHandshake),
       fecDisable := s.fecDisable.Or(t.fecDisable),
       modeacEnable := s.modeacEnable.Or(t.modeacEnable),
       filter045 := s.filter045.Or(t.filter045),
       radarcape := s.radarcape.Or(t.radarcape),
       verbatim := s.verbatim.Or(t.verbatim))
  }

  // ----- status bytes

  function FromStatusByte(b: Byte): Settings {
    var bits := ByteBits(b);
    UNSET.(radarcape := On,
           binaryFormat := Explicit(bits[7]),
           filter111718 := Explicit(bits[6]),
           avrmlat := Explicit(bits[5]),
           crcDisable := Explicit(bits[4]),
           gpsTimestamps := Explicit(bits[3]),
           rtsHandshake := Explicit(bits[2]),
           fecDisable := Explicit(bits[1]),
           modeacEnable := Explicit(bits[0]))
  }

  function ToStatusByte(s: Settings): Byte {
    if !s.Radarcape() then 0
    else
      ByteOf([s.ModeacEnable(), s.FecDisable(), s.RtsHandshake(), s.GpsTimestamps(),
              s.CrcDisable(), s.Avrmlat(), s.Filter111718(), s.BinaryFormat()])
  }

  /** Reading a reported status byte and reporting it again changes nothing. */
  lemma StatusByteRoundTrip(b: Byte)
    ensures ToStatusByte(FromStatusByte(b)) == b
  {
    hide ToBits;
    var s := FromStatusByte(b);
    assert [s.ModeacEnable(), s.FecDisable(), s.RtsHandshake(), s.GpsTimestamps(),
            s.CrcDisable(), s.Avrmlat(), s.Filter111718(), s.BinaryFormat()] == ByteBits(b);
    ByteBitsInjective(ToStatusByte(s), b);
  }

  /** The bits of a status byte, the settings they stand for, and what settings that do not care count as. */
  lemma StatusByteBits(s: Settings)
    ensures !s.radarcape.On? ==> ToStatusByte(s) == 0
    ensures s.radarcape.On? ==>
      ByteBits(ToStatusByte(s)) == [s.modeacEnable.On?, s.fecDisable.On?, !s.rtsHandshake.Off?, !s.gpsTimestamps.Off?,
                                    s.crcDisable.On?, !s.avrmlat.Off?, s.filter111718.On?, !s.binaryFormat.Off?]
  {
    hide ToBits;
  }

  /** operator| prefers the settings on its left, and takes the others from its right, but for positionEnable. */
  lemma MergePrefersLeft(s: Settings, t: Settings)
    ensures Merge(s, s) == s && Merge(s, UNSET) == s
    ensures Merge(UNSET, t) == t.(positionEnable := DontCare)
    ensures Merge(Merge(s, t), s) == Merge(s, t)
    ensures forall u: Settings :: Merge(Merge(s, t), u) == Merge(s, Merge(t, u))
  {}

  // ----- filters

  predicate OnlyExtendedSquitter(df: Bits)
    requires |df| == 32
  {
    forall i :: 0 <= i < 32 && df[i] ==> i == 11 || i == 17 || i == 18
  }

  /** The settings that satisfy a filter; note the third condition of filter045. */
  function FromFilter(f: Filter): Settings {
    UNSET.(filter111718 := Explicit(OnlyExtendedSquitter(f.receiveDf)),
           crcDisable := Explicit(f.receiveBadCrc),
           gpsTimestamps := Explicit(f.receiveGpsTimestamps),
           fecDisable := Explicit(!f.receiveFec),
           modeacEnable := Explicit(f.receiveModeac),
           filter045 := Explicit(!f.receiveDf[0] && !f.receiveDf[4] && f.receiveDf[5]),
           verbatim := if f.receiveVerbatim then On else DontCare)
  }

  /** The constructor from a filter, with its loop over the downlink formats. */
  method ComputeFromFilter(f: Filter) returns (s: Settings)
    ensures s == FromFilter(f)
  {
    s := UNSET.(filter111718 := On,
                crcDisable := Explicit(f.receiveBadCrc),
                gpsTimestamps := Explicit(f.receiveGpsTimestamps),
                fecDisable := Explicit(!f.receiveFec),
                modeacEnable := Explicit(f.receiveModeac),
                filter045 := Explicit(!f.receiveDf[0] && !f.receiveDf[4] && f.receiveDf[5]));
    var other := OtherDfWanted(f.receiveDf);
    if other {
      s := s.(filter111718 := Off);
    }
    if f.receiveVerbatim {
      s := s.(verbatim := On);
    }
  }

  method OtherDfWanted(df: Bits) returns (other: bool)
    requires |df| == 32
    ensures other == !OnlyExtendedSquitter(df)
  {
    for i := 0 to 32
      invariant forall k :: 0 <= k < i && df[k] ==> k == 11 || k == 17 || k == 18
    {
      if df[i] && i != 11 && i != 17 && i != 18 {
        return true;
      }
    }
    return false;
  }

  function ToFilter(s: Settings): Filter {
    RawFilter(
      seq(32, i => if s.Filter111718() then i == 11 || i == 17 || i == 18
                   else !(s.Filter045() && (i == 0 || i == 4 || i == 5))),
      s.ModeacEnable(),
      s.CrcDisable(),
      !s.FecDisable(),
      !s.radarcape.Off?,
      !s.radarcape.Off? && !s.gpsTimestamps.Off?,
      s.PositionEnable(),
      s.Verbatim())
  }

  /** The filter of the status writer's client. */
  function StatusOnly(): Filter {
    Nothing().(receiveStatus := true)
  }

  /** A filter leaves open what does not select messages; and v, which is never sent for a filter. */
  lemma FilterLeavesOpen(f: Filter)
    ensures var s := FromFilter(f);
      && s.radarcape.DontCare? && s.binaryFormat.DontCare? && s.avrmlat.DontCare? && s.rtsHandshake.DontCare?
      && s.positionEnable.DontCare? && !s.verbatim.Off?
  {}

  /** The settings made for a filter pass all it asks for, unless it wants DF5 without DF0 and DF4, or positions. */
  lemma SettingsSuffice(f: Filter)
    ensures Leq(f, ToFilter(FromFilter(f))) <==>
      !(f.receiveDf[5] && !f.receiveDf[0] && !f.receiveDf[4]) && !f.receivePosition
  {
    var g := ToFilter(FromFilter(f));
    if f.receiveDf[5] && !f.receiveDf[0] && !f.receiveDf[4] {
      assert !g.receiveDf[5];
    }
  }

  /**
   * For such joins, no settings that pass all that is asked for pass less, status messages aside - except that DF0,
   * DF4 and DF5 are asked for although nobody wants them, when some other format but DF11, DF17 and DF18 is wanted.
   */
  lemma LeastExactly(f: Filter)
    requires Aggregate(f)
    ensures (forall s :: Leq(f.(receiveStatus := false), ToFilter(s)) ==>
                           Leq(ToFilter(FromFilter(f)).(receiveStatus := false), ToFilter(s)))
      <==> OnlyExtendedSquitter(f.receiveDf) || f.receiveDf[0]
  {
    hide Leq, ToFilter, FromFilter, OnlyExtendedSquitter, Aggregate;
    var w := f.(receiveStatus := false);
    var g := ToFilter(FromFilter(f)).(receiveStatus := false);
    if OnlyExtendedSquitter(f.receiveDf) || f.receiveDf[0] {
      forall s | Leq(w, ToFilter(s)) ensures Leq(g, ToFilter(s)) {
        LeastNeeded(f, s);
      }
    } else {
      Unwanted045(f);
    }
  }

  lemma Unwanted045(f: Filter)
    requires Aggregate(f) && !OnlyExtendedSquitter(f.receiveDf) && !f.receiveDf[0]
    ensures var s := FromFilter(f).(filter045 := On);
      && Leq(f.(receiveStatus := false), ToFilter(s))
      && !Leq(ToFilter(FromFilter(f)).(receiveStatus := false), ToFilter(s))
  {
    var s := FromFilter(f).(filter045 := On);
    assert ToFilter(FromFilter(f)).receiveDf[0] && !ToFilter(s).receiveDf[0];
  }

  lemma LeastNeeded(f: Filter, s: Settings)
    requires Aggregate(f) && (OnlyExtendedSquitter(f.receiveDf) || f.receiveDf[0])
    requires Leq(f.(receiveStatus := false), ToFilter(s))
    ensures Leq(ToFilter(FromFilter(f)).(receiveStatus := false), ToFilter(s))
  {
    LeastFormats(f, s);
    hide OnlyExtendedSquitter, Implies;
  }

  lemma LeastFormats(f: Filter, s: Settings)
    requires Aggregate(f) && (OnlyExtendedSquitter(f.receiveDf) || f.receiveDf[0])
    requires Implies(f.receiveDf, ToFilter(s).receiveDf)
    ensures Implies(ToFilter(FromFilter(f)).receiveDf, ToFilter(s).receiveDf)
  {
    if !OnlyExtendedSquitter(f.receiveDf) {
      assert ToFilter(s).receiveDf[0];
      var i :| 0 <= i < 32 && f.receiveDf[i] && !(i == 11 || i == 17 || i == 18);
      assert ToFilter(s).receiveDf[i];
    }
  }

  /** What joins of client filters look like: DF0, DF4 and DF5 go together and positions are never wanted. */
  predicate Aggregate(f: Filter) {
    f.receiveDf[0] == f.receiveDf[4] == f.receiveDf[5] && !f.receivePosition
  }

  lemma AggregatesArise(s: Settings, f: Filter, g: Filter)
    requires !s.PositionEnable()
    ensures Aggregate(ToFilter(s)) && Aggregate(StatusOnly()) && Aggregate(Nothing())
    ensures Aggregate(f) && Aggregate(g) ==> Aggregate(Join(f, g))
  {
    hide Leq, Implies;
  }

  // ----- settings strings

  /** One character of a settings string. */
  function Letter(s: Settings, ch: char): Settings {
    match ch
    case 'B' => s.(radarcape := Off)
    case 'R' => s.(radarcape := On)
    case 'c' => s.(binaryFormat := Off)
    case 'C' => s.(binaryFormat := On)
    case 'd' => s.(filter111718 := Off)
    case 'D' => s.(filter111718 := On)
    case 'e' => s.(avrmlat := Off)
    case 'E' => s.(avrmlat := On)
    case 'f' => s.(crcDisable := Off)
    case 'F' => s.(crcDisable := On)
    case 'g' => s.(gpsTimestamps := Off)
    case 'G' => s.(gpsTimestamps := On)
    case 'h' => s.(rtsHandshake := Off)
    case 'H' => s.(rtsHandshake := On)
    case 'i' => s.(fecDisable := Off)
    case 'I' => s.(fecDisable := On)
    case 'j' => s.(modeacEnable := Off)
    case 'J' => s.(modeacEnable := On)
    case 'k' => s.(filter045 := Off)
    case 'K' => s.(filter045 := On)
    case 'v' => s.(verbatim := Off)
    case 'V' => s.(verbatim := On)
    case _ => s
  }

  /** A Radarcape has no DF0/4/5 filter, a Beast no GPS timestamps, and position messages are not a setting. */
  predicate SelfConsistent(s: Settings) {
    && (s.radarcape.On? ==> !s.filter045.On?)
    && (s.radarcape.Off? ==> !s.gpsTimestamps.On?)
    && s.positionEnable.DontCare?
  }

  /** What a settings string says about the setting with the letters off and on: its last mention decides. */
  function LastMention(str: string, off: char, on: char): Tristate {
    if str == [] then DontCare
    else if str[|str| - 1] == on then On
    else if str[|str| - 1] == off then Off
    else LastMention(str[..|str| - 1], off, on)
  }

  function Mentioned(str: string): Settings {
    Settings(LastMention(str, 'B', 'R'), LastMention(str, 'c', 'C'), LastMention(str, 'd', 'D'),
             LastMention(str, 'e', 'E'), LastMention(str, 'f', 'F'), LastMention(str, 'g', 'G'),
             LastMention(str, 'h', 'H'), LastMention(str, 'i', 'I'), LastMention(str, 'j', 'J'),
             LastMention(str, 'k', 'K'), DontCare, LastMention(str, 'v', 'V'))
  }

  /** The constructor from a string. */
  method Parse(str: string) returns (s: Settings)
    ensures SelfConsistent(s)
    ensures var m := Mentioned(str);
      s == if m.radarcape.Off? && !m.gpsTimestamps.DontCare? then m.(gpsTimestamps := Off)
           else if m.radarcape.On? && !m.filter045.DontCare? then m.(filter045 := Off)
           else m
  {
    s := UNSET;
    for i := 0 to |str|
      invariant s == Mentioned(str[..i])
    {
      LetterMentions(str[..i], str[i]);
      assert str[..i + 1] == str[..i] + [str[i]];
      s := Letter(s, str[i]);
    }
    assert str[..|str|] == str;
    if s.radarcape.Off? && !s.gpsTimestamps.DontCare? {
      s := s.(gpsTimestamps := Off);
    } else if s.radarcape.On? && !s.filter045.DontCare? {
      s := s.(filter045 := Off);
    }
  }

  lemma LetterMentions(str: string, ch: char)
    ensures Letter(Mentioned(str), ch) == Mentioned(str + [ch])
  {
    assert (str + [ch])[..|str|] == str;
  }
}
