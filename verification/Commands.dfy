// The 0x1A '1' commands that carry settings from one splitter to the next:
// Settings::to_message prints them, SocketOutput::process_commands reads them.
module Commands {
  import opened BitStrings
  import opened Common
  import opened Settings

  /** add_setting for a tristate, with the codes of the two letters. */
  function SettingBytes(t: Tristate, off: Byte, on: Byte): Bytes {
    match t
    case DontCare => []
    case Off => [0x1A, 0x31, off]
    case On => [0x1A, 0x31, on]
  }

  /** Settings::to_message; None stands for the exception when the receiver type is left open. */
  function ToMessage(s: Settings): Option<Bytes> {
    if s.radarcape.DontCare? then None
    else
      Some(SettingBytes(s.binaryFormat, 0x63, 0x43)
         + SettingBytes(s.filter111718, 0x64, 0x44)
         + SettingBytes(s.avrmlat, 0x65, 0x45)
         + SettingBytes(s.crcDisable, 0x66, 0x46)
         + (if !s.Radarcape() && !s.filter045.DontCare? then SettingBytes(s.filter045, 0x67, 0x47)
            else if s.Radarcape() && !s.gpsTimestamps.DontCare? then SettingBytes(s.gpsTimestamps, 0x67, 0x47)
            else [])
         + SettingBytes(s.rtsHandshake, 0x68, 0x48)
         + SettingBytes(s.fecDisable, 0x69, 0x49)
         + SettingBytes(s.modeacEnable, 0x6A, 0x4A)
         + SettingBytes(s.verbatim, 0x76, 0x56))
  }

  /** SocketOutput::process_option_command; the letters are c C d D e E f F g G h H i I j J v V. */
  function OptionCommand(s: Settings, option: Byte): Settings {
    if option == 0x63 || option == 0x43 then s.(binaryFormat := Explicit(option == 0x43))
    else if option == 0x64 || option == 0x44 then s.(filter111718 := Explicit(option == 0x44))
    else if option == 0x65 || option == 0x45 then s.(avrmlat := Explicit(option == 0x45))
    else if option == 0x66 || option == 0x46 then s.(crcDisable := Explicit(option == 0x46))
    else if option == 0x67 || option == 0x47 then
      if s.Radarcape() then s.(gpsTimestamps := Explicit(option == 0x47))
      else s.(filter045 := Explicit(option == 0x47))
    else if option == 0x68 || option == 0x48 then s.(rtsHandshake := Explicit(option == 0x48))
    else if option == 0x69 || option == 0x49 then s.(fecDisable := Explicit(option == 0x49))
    else if option == 0x6A || option == 0x4A then s.(modeacEnable := Explicit(option == 0x4A))
    else if option == 0x76 || option == 0x56 then s.(verbatim := Explicit(option == 0x56))
    else s
  }

  /**
   * Commands use the letters of settings strings, except that a Beast's g and G stand for k and K and that
   * commands cannot change the receiver type.
   */
  lemma CommandLetters(s: Settings, ch: char)
    requires ch as int < 256
    ensures OptionCommand(s, ch as int) ==
      if ch == 'g' && !s.Radarcape() then Letter(s, 'k')
      else if ch == 'G' && !s.Radarcape() then Letter(s, 'K')
      else if ch == 'k' || ch == 'K' || ch == 'B' || ch == 'R' then s
      else Letter(s, ch)
  {}

  datatype CommandState = Find1A | Read1 | ReadOption

  datatype Reader = Reader(state: CommandState, settings: Settings)

  function ReadByte(r: Reader, b: Byte): Reader {
    match r.state
    case Find1A => if b == 0x1A then r.(state := Read1) else r
    case Read1 => r.(state := if b == 0x31 then ReadOption else Find1A)
    case ReadOption => Reader(Find1A, OptionCommand(r.settings, b))
  }

  function ReadBytes(r: Reader, data: Bytes): Reader {
    if data == [] then r else ReadByte(ReadBytes(r, data[..|data| - 1]), data[|data| - 1])
  }

  function ReadChunks(r: Reader, chunks: seq<Bytes>): Reader {
    if chunks == [] then r else ReadBytes(ReadChunks(r, chunks[..|chunks| - 1]), chunks[|chunks| - 1])
  }

  lemma {:induction false} ReadBytesConcat(r: Reader, a: Bytes, b: Bytes)
    ensures ReadBytes(r, a + b) == ReadBytes(ReadBytes(r, a), b)
  {
    if b == [] {
      assert a + b == a;
    } else {
      assert (a + b)[..|a + b| - 1] == a + b[..|b| - 1];
      ReadBytesConcat(r, a, b[..|b| - 1]);
    }
  }

  /**
   * What a reader makes of any bytes: those that do not start a command are skipped, 0x1A with a byte other than
   * '1' together with that byte, and 0x1A '1' makes a command of the next byte, whatever that is.
   */
  lemma ReadGrammar(s: Settings, x: Byte, y: Byte, option: Byte, rest: Bytes)
    ensures var r := Reader(Find1A, s);
      && (x != 0x1A ==> ReadBytes(r, [x] + rest) == ReadBytes(r, rest))
      && (y != 0x31 ==> ReadBytes(r, [0x1A, y] + rest) == ReadBytes(r, rest))
      && ReadBytes(r, [0x1A, 0x31, option] + rest) == ReadBytes(Reader(Find1A, OptionCommand(s, option)), rest)
      && ReadBytes(r, [0x1A]) == Reader(Read1, s) && ReadBytes(r, [0x1A, 0x31]) == Reader(ReadOption, s)
  {
    var r := Reader(Find1A, s);
    ReadSnoc(r, [], x);
    ReadSnoc(r, [], 0x1A);
    ReadSnoc(r, [0x1A], y);
    ReadSnoc(r, [0x1A], 0x31);
    ReadSnoc(r, [0x1A, 0x31], option);
    hide ReadBytes, OptionCommand;
    ReadBytesConcat(r, [x], rest);
    ReadBytesConcat(r, [0x1A, y], rest);
    ReadBytesConcat(r, [0x1A, 0x31, option], rest);
  }

  lemma ReadSnoc(r: Reader, data: Bytes, b: Byte)
    ensures ReadBytes(r, []) == r
    ensures ReadBytes(r, data + [b]) == ReadByte(ReadBytes(r, data), b)
    ensures data == [] ==> ReadBytes(r, [b]) == ReadByte(r, b)
    ensures |data| == 1 ==> ReadBytes(r, [data[0], b]) == ReadByte(ReadBytes(r, data), b)
    ensures |data| == 2 ==> ReadBytes(r, [data[0], data[1], b]) == ReadByte(ReadBytes(r, data), b)
  {
    assert (data + [b])[..|data|] == data;
    assert data == [] ==> data + [b] == [b];
    assert |data| == 1 ==> data + [b] == [data[0], b];
    assert |data| == 2 ==> data + [b] == [data[0], data[1], b];
  }

  lemma {:induction false} ReadChunksIsReadBytes(r: Reader, chunks: seq<Bytes>)
    ensures ReadChunks(r, chunks) == ReadBytes(r, Flatten(chunks))
  {
    if chunks != [] {
      ReadChunksIsReadBytes(r, chunks[..|chunks| - 1]);
      ReadBytesConcat(r, Flatten(chunks[..|chunks| - 1]), chunks[|chunks| - 1]);
    }
  }

  /** The effect of one printed setting. */
  function Applied(s: Settings, t: Tristate, off: Byte, on: Byte): Settings {
    if t.DontCare? then s else OptionCommand(s, if t.On? then on else off)
  }

  lemma AppliedOverrides(s: Settings, t: Tristate)
    ensures Applied(s, t, 0x63, 0x43) == s.(binaryFormat := t.Or(s.binaryFormat))
    ensures Applied(s, t, 0x64, 0x44) == s.(filter111718 := t.Or(s.filter111718))
    ensures Applied(s, t, 0x65, 0x45) == s.(avrmlat := t.Or(s.avrmlat))
    ensures Applied(s, t, 0x66, 0x46) == s.(crcDisable := t.Or(s.crcDisable))
  {}

  lemma AppliedOverridesMore(s: Settings, t: Tristate)
    ensures Applied(s, t, 0x68, 0x48) == s.(rtsHandshake := t.Or(s.rtsHandshake))
    ensures Applied(s, t, 0x69, 0x49) == s.(fecDisable := t.Or(s.fecDisable))
    ensures Applied(s, t, 0x6A, 0x4A) == s.(modeacEnable := t.Or(s.modeacEnable))
    ensures Applied(s, t, 0x76, 0x56) == s.(verbatim := t.Or(s.verbatim))
  {}

  /** One more printed setting extends what has been read by one option command. */
  lemma ReadNext(r: Reader, m: Bytes, s: Settings, t: Tristate, off: Byte, on: Byte)
    requires ReadBytes(r, m) == Reader(Find1A, s)
    ensures ReadBytes(r, m + SettingBytes(t, off, on)) ==
      Reader(Find1A, Applied(s, t, off, on))
  {
    var next := SettingBytes(t, off, on);
    ReadBytesConcat(r, m, next);
    if !t.DontCare? {
      var r0 := Reader(Find1A, s);
      assert next[..2] == [0x1A, 0x31] && next[..2][..1] == [0x1A] && next[..2][..1][..0] == [];
      assert ReadBytes(r0, next[..2][..1]) == Reader(Read1, s);
      assert ReadBytes(r0, next[..2]) == Reader(ReadOption, s);
    }
  }

  /** The setting that the g and G commands are printed for. */
  function SharedSetting(s: Settings): Tristate {
    if s.Radarcape() then s.gpsTimestamps else s.filter045
  }

  /**
   * The result of sending s to a client whose settings are t: s | t on what is transmitted, but for g and G, which
   * the client takes for the setting that they stand for on its own side.
   */
  function Transmitted(s: Settings, t: Settings): Settings {
    var u := Merge(s, t);
    t.(binaryFormat := u.binaryFormat,
       filter111718 := u.filter111718,
       avrmlat := u.avrmlat,
       crcDisable := u.crcDisable,
       gpsTimestamps := if t.Radarcape() then SharedSetting(s).Or(t.gpsTimestamps) else t.gpsTimestamps,
       rtsHandshake := u.rtsHandshake,
       fecDisable := u.fecDisable,
       modeacEnable := u.modeacEnable,
       filter045 := if t.Radarcape() then t.filter045 else SharedSetting(s).Or(t.filter045),
       verbatim := u.verbatim)
  }

  /** For receiver types that agree, g and G carry the setting that they were printed for. */
  lemma TransmittedIsMerge(s: Settings, t: Settings)
    requires s.Radarcape() == t.Radarcape()
    ensures var u := Merge(s, t).(radarcape := t.radarcape, positionEnable := t.positionEnable);
      Transmitted(s, t) ==
        if t.Radarcape() then u.(filter045 := t.filter045) else u.(gpsTimestamps := t.gpsTimestamps)
  {}

  /** Printing settings and reading them back, cut into chunks in any way. */
  lemma CommandsRoundTrip(s: Settings, t: Settings, chunks: seq<Bytes>)
    requires ToMessage(s) == Some(Flatten(chunks))
    ensures ReadChunks(Reader(Find1A, t), chunks) == Reader(Find1A, Transmitted(s, t))
  {
    ReadChunksIsReadBytes(Reader(Find1A, t), chunks);
    MessageRoundTrip(s, t);
  }

  lemma MessageRoundTrip(s: Settings, t: Settings)
    requires ToMessage(s).Some?
    ensures ReadBytes(Reader(Find1A, t), ToMessage(s).value) == Reader(Find1A, Transmitted(s, t))
  {
    var r := Reader(Find1A, t);
    var (m4, t4) := FirstFour(s, t);
    var m5 := m4 + SettingBytes(SharedSetting(s), 0x67, 0x47);
    var t5 := Shared(s, t4);
    var (m9, t9) := LastFour(s, m5, t5);
    assert ToMessage(s).value == m9;
    assert Transmitted(s, t) == t9;
    hide ToMessage, SettingBytes, Transmitted, ReadBytes, FirstFour, LastFour;
    ReadFirstFour(s, t);
    ReadShared(r, m4, s, t4);
    ReadLastFour(r, m5, s, t5);
  }

  /** The first four settings of a message, and the settings they lead to. */
  function FirstFour(s: Settings, t: Settings): (Bytes, Settings) {
    (SettingBytes(s.binaryFormat, 0x63, 0x43)
     + SettingBytes(s.filter111718, 0x64, 0x44)
     + SettingBytes(s.avrmlat, 0x65, 0x45)
     + SettingBytes(s.crcDisable, 0x66, 0x46),
     t.(binaryFormat := s.binaryFormat.Or(t.binaryFormat),
        filter111718 := s.filter111718.Or(t.filter111718),
        avrmlat := s.avrmlat.Or(t.avrmlat),
        crcDisable := s.crcDisable.Or(t.crcDisable)))
  }

  function Shared(s: Settings, t: Settings): Settings {
    if t.Radarcape() then t.(gpsTimestamps := SharedSetting(s).Or(t.gpsTimestamps))
    else t.(filter045 := SharedSetting(s).Or(t.filter045))
  }

  /** The last four, after a message m that led to t. */
  function LastFour(s: Settings, m: Bytes, t: Settings): (Bytes, Settings) {
    (m + SettingBytes(s.rtsHandshake, 0x68, 0x48)
     + SettingBytes(s.fecDisable, 0x69, 0x49)
     + SettingBytes(s.modeacEnable, 0x6A, 0x4A)
     + SettingBytes(s.verbatim, 0x76, 0x56),
     t.(rtsHandshake := s.rtsHandshake.Or(t.rtsHandshake),
        fecDisable := s.fecDisable.Or(t.fecDisable),
        modeacEnable := s.modeacEnable.Or(t.modeacEnable),
        verbatim := s.verbatim.Or(t.verbatim)))
  }

  lemma ReadFirstFour(s: Settings, t: Settings)
    ensures ReadBytes(Reader(Find1A, t), FirstFour(s, t).0) == Reader(Find1A, FirstFour(s, t).1)
  {
    var r := Reader(Find1A, t);
    var t1 := t.(binaryFormat := s.binaryFormat.Or(t.binaryFormat));
    var t2 := t1.(filter111718 := s.filter111718.Or(t.filter111718));
    var t3 := t2.(avrmlat := s.avrmlat.Or(t.avrmlat));
    var m1 := SettingBytes(s.binaryFormat, 0x63, 0x43);
    var m2 := m1 + SettingBytes(s.filter111718, 0x64, 0x44);
    var m3 := m2 + SettingBytes(s.avrmlat, 0x65, 0x45);
    assert ReadBytes(r, []) == r;
    assert [] + m1 == m1;
    hide SettingBytes, ReadBytes, Applied;
    AppliedOverrides(t, s.binaryFormat);
    AppliedOverrides(t1, s.filter111718);
    AppliedOverrides(t2, s.avrmlat);
    AppliedOverrides(t3, s.crcDisable);
    ReadNext(r, [], t, s.binaryFormat, 0x63, 0x43);
    ReadNext(r, m1, t1, s.filter111718, 0x64, 0x44);
    ReadNext(r, m2, t2, s.avrmlat, 0x65, 0x45);
    ReadNext(r, m3, t3, s.crcDisable, 0x66, 0x46);
  }

  lemma ReadShared(r: Reader, m: Bytes, s: Settings, t: Settings)
    requires ReadBytes(r, m) == Reader(Find1A, t)
    ensures ReadBytes(r, m + SettingBytes(SharedSetting(s), 0x67, 0x47)) == Reader(Find1A, Shared(s, t))
  {
    ReadNext(r, m, t, SharedSetting(s), 0x67, 0x47);
    hide SettingBytes, ReadBytes;
  }

  lemma ReadLastFour(r: Reader, m: Bytes, s: Settings, t: Settings)
    requires ReadBytes(r, m) == Reader(Find1A, t)
    ensures ReadBytes(r, LastFour(s, m, t).0) == Reader(Find1A, LastFour(s, m, t).1)
  {
    var t1 := t.(rtsHandshake := s.rtsHandshake.Or(t.rtsHandshake));
    var t2 := t1.(fecDisable := s.fecDisable.Or(t.fecDisable));
    var t3 := t2.(modeacEnable := s.modeacEnable.Or(t.modeacEnable));
    var m1 := m + SettingBytes(s.rtsHandshake, 0x68, 0x48);
    var m2 := m1 + SettingBytes(s.fecDisable, 0x69, 0x49);
    var m3 := m2 + SettingBytes(s.modeacEnable, 0x6A, 0x4A);
    hide SettingBytes, ReadBytes, Applied;
    AppliedOverridesMore(t, s.rtsHandshake);
    AppliedOverridesMore(t1, s.fecDisable);
    AppliedOverridesMore(t2, s.modeacEnable);
    AppliedOverridesMore(t3, s.verbatim);
    ReadNext(r, m, t, s.rtsHandshake, 0x68, 0x48);
    ReadNext(r, m1, t1, s.fecDisable, 0x69, 0x49);
    ReadNext(r, m2, t2, s.modeacEnable, 0x6A, 0x4A);
    ReadNext(r, m3, t3, s.verbatim, 0x76, 0x56);
  }
}
