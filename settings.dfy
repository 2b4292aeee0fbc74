/**
 * The global settings of the app: the preference keys, their defaults
 * and the savers that turn a typed setting into the text, flag or
 * encoded structure the preference store keeps, and back.
 *
 * The store is a map from key name to stored value. Reading a key that
 * was never written yields the key's default; a stored value that its
 * saver cannot restore (an unknown enum name, a structure that does not
 * decode, a value of another type) yields `None`, where the source throws.
 */
module Settings {
  import opened Wrappers
  import opened ColorScheme

  const TAG := "SettingsViewModel"

  /** The night-mode strategy. */
  datatype NightMode = Yes | No | FollowSystem | AutoBatter | AutoTime {

    /** `name`: the declared name of the enum constant. */
    function Name(): string {
      match this
      case Yes => "YES"
      case No => "NO"
      case FollowSystem => "FOLLOW_SYSTEM"
      case AutoBatter => "AUTO_BATTER"
      case AutoTime => "AUTO_TIME"
    }
  }

  /** `NightMode.valueOf`: the constant with that name; none (the source throws) otherwise. */
  function NightModeValueOf(s: string): (r: Option<NightMode>)
    ensures forall m: NightMode :: r == Some(m) <==> m.Name() == s
  {
    if s == "YES" then Some(Yes)
    else if s == "NO" then Some(No)
    else if s == "FOLLOW_SYSTEM" then Some(FollowSystem)
    else if s == "AUTO_BATTER" then Some(AutoBatter)
    else if s == "AUTO_TIME" then Some(AutoTime)
    else None
  }

  /** The typeface the app uses. */
  datatype FontFamily = SystemDefault | Provided | SanSerif | Sarif | Cursive {

    /** `name`: the declared name of the enum constant. */
    function Name(): string {
      match this
      case SystemDefault => "SYSTEM_DEFAULT"
      case Provided => "PROVIDED"
      case SanSerif => "SAN_SERIF"
      case Sarif => "SARIF"
      case Cursive => "CURSIVE"
    }
  }

  /** `FontFamily.valueOf`: the constant with that name; none (the source throws) otherwise. */
  function FontFamilyValueOf(s: string): (r: Option<FontFamily>)
    ensures forall f: FontFamily :: r == Some(f) <==> f.Name() == s
  {
    if s == "SYSTEM_DEFAULT" then Some(SystemDefault)
    else if s == "PROVIDED" then Some(Provided)
    else if s == "SAN_SERIF" then Some(SanSerif)
    else if s == "SARIF" then Some(Sarif)
    else if s == "CURSIVE" then Some(Cursive)
    else None
  }

  /** The NIGHT_MODE saver round-trips every mode, and names no two modes alike. */
  lemma NightModeSaverRoundTrip(m: NightMode, m': NightMode)
    ensures NightModeValueOf(m.Name()) == Some(m)
    ensures m.Name() == m'.Name() ==> m == m'
  {
    assert NightModeValueOf(m.Name()) == Some(m);
  }

  /** The FONT_FAMILY saver round-trips every font, and names no two fonts alike. */
  lemma FontFamilySaverRoundTrip(f: FontFamily, f': FontFamily)
    ensures FontFamilyValueOf(f.Name()) == Some(f)
    ensures f.Name() == f'.Name() ==> f == f'
  {
    assert FontFamilyValueOf(f.Name()) == Some(f);
  }

  /** The preference keys of the settings companion object. */
  datatype Key =
    | NightModeKey
    | FontFamilyKey
    | ForceColorize
    | ColorStatusBar
    | HideStatusBar
    | LightColors
    | DarkColors
  {
    /** The part of the key name after the tag (the colour keys have no underscore). */
    function Suffix(): string {
      match this
      case NightModeKey => "_night_mode"
      case FontFamilyKey => "_font_family"
      case ForceColorize => "_force_colorize"
      case ColorStatusBar => "_color_status_bar"
      case HideStatusBar => "_hide_status_bar"
      case LightColors => "light_colors"
      case DarkColors => "dark_colors"
    }

    /** The name the store files the key under. */
    function Name(): string {
      TAG + Suffix()
    }
  }

  /** No two keys share a name, so each setting has a slot of its own. */
  lemma KeyNamesDistinct(k: Key, k': Key)
    ensures k.Name() == k'.Name() ==> k == k'
  {
    if k.Name() == k'.Name() {
      assert k.Name()[|TAG|..] == k.Suffix();
      assert k'.Name()[|TAG|..] == k'.Suffix();
      assert k.Suffix()[0] == k'.Suffix()[0];
    }
  }

  /** A typed setting value. */
  datatype Value =
    | NightModeValue(mode: NightMode)
    | FontFamilyValue(font: FontFamily)
    | FlagValue(flag: bool)
    | ColorsValue(colors: Colors)

  /** What the store keeps: a string, a boolean, or an encoded colour scheme. */
  datatype Stored = Text(text: string) | Flag(on: bool) | Structure(elements: seq<Element>)

  type Preferences = map<string, Stored>

  /** The value type each key is declared with. */
  predicate Fits(k: Key, v: Value) {
    match k
    case NightModeKey => v.NightModeValue?
    case FontFamilyKey => v.FontFamilyValue?
    case ForceColorize | ColorStatusBar | HideStatusBar => v.FlagValue?
    case LightColors | DarkColors => v.ColorsValue?
  }

  /** The light and dark colour schemes the colour keys fall back to. */
  datatype Palettes = Palettes(light: Colors, dark: Colors)

  /** Each key's default: `NO`, `SYSTEM_DEFAULT`, false for the three flags, the schemes for the colours. */
  function Default(k: Key, palettes: Palettes): (v: Value)
    ensures Fits(k, v)
  {
    match k
    case NightModeKey => NightModeValue(No)
    case FontFamilyKey => FontFamilyValue(SystemDefault)
    case ForceColorize | ColorStatusBar | HideStatusBar => FlagValue(false)
    case LightColors => ColorsValue(palettes.light)
    case DarkColors => ColorsValue(palettes.dark)
  }

  /**
   * The saver of key `k`: an enum is kept by name, a flag as itself, and
   * a scheme as its encoding, which fails when `descriptor` cannot key
   * every element. A value of the wrong type is not saved.
   */
  function Save(k: Key, v: Value, descriptor: seq<ElementDescriptor>): (r: Option<Stored>)
    ensures r.Some? <==> Fits(k, v) && (v.ColorsValue? ==> Keyed(descriptor, Serialize(v.colors)).Some?)
  {
    if !Fits(k, v) then None
    else
      match v
      case NightModeValue(m) => Some(Text(m.Name()))
      case FontFamilyValue(f) => Some(Text(f.Name()))
      case FlagValue(b) => Some(Flag(b))
      case ColorsValue(c) =>
        if Keyed(descriptor, Serialize(c)).Some? then Some(Structure(Serialize(c))) else None
  }

  /** The restorer of key `k`: `valueOf` for the enums, the flag, or the decoded scheme. */
  function Restore(k: Key, s: Stored): (r: Option<Value>)
    ensures r.Some? ==> Fits(k, r.value)
  {
    match k
    case NightModeKey =>
      if s.Text? && NightModeValueOf(s.text).Some? then Some(NightModeValue(NightModeValueOf(s.text).value)) else None
    case FontFamilyKey =>
      if s.Text? && FontFamilyValueOf(s.text).Some? then Some(FontFamilyValue(FontFamilyValueOf(s.text).value)) else None
    case ForceColorize | ColorStatusBar | HideStatusBar =>
      if s.Flag? then Some(FlagValue(s.on)) else None
    case LightColors | DarkColors =>
      if s.Structure? && Deserialize(s.elements).Some? then Some(ColorsValue(Deserialize(s.elements).value)) else None
  }

  /** Whatever a saver stores, its restorer gives back. */
  lemma SaveRestore(k: Key, v: Value, descriptor: seq<ElementDescriptor>)
    requires Save(k, v, descriptor).Some?
    ensures Restore(k, Save(k, v, descriptor).value) == Some(v)
  {
    match v
    case NightModeValue(m) => NightModeSaverRoundTrip(m, m);
    case FontFamilyValue(f) => FontFamilySaverRoundTrip(f, f);
    case FlagValue(_) =>
    case ColorsValue(c) =>
  }

  /**
   * Only what a saver could have stored restores: a restored value saves
   * back to the same stored form (under the corrected descriptor, which
   * keys every element of a scheme).
   */
  lemma RestoreOnlySaved(k: Key, s: Stored)
    requires Restore(k, s).Some?
    ensures Save(k, Restore(k, s).value, CorrectedDescriptor()) == Some(s)
  {
    var v := Restore(k, s).value;
    match k
    case NightModeKey =>
      assert s == Text(v.mode.Name());
    case FontFamilyKey =>
      assert s == Text(v.font.Name());
    case ForceColorize | ColorStatusBar | HideStatusBar =>
    case LightColors | DarkColors =>
      DeserializeOnlySerialized(s.elements);
      DecodedIsKeyed(s.elements);
      assert s == Structure(Serialize(v.colors));
  }

  /** Reading a setting: the restored stored value, or the default when the key is unset. */
  function Read(p: Preferences, k: Key, palettes: Palettes): (r: Option<Value>)
    ensures r.Some? ==> Fits(k, r.value)
    ensures k.Name() !in p ==> r == Some(Default(k, palettes))
  {
    if k.Name() in p then Restore(k, p[k.Name()]) else Some(Default(k, palettes))
  }

  /** Writing a setting: the store with the saved value under the key; none when saving fails. */
  function Write(p: Preferences, k: Key, v: Value, descriptor: seq<ElementDescriptor>): (r: Option<Preferences>)
    ensures r.Some? <==> Save(k, v, descriptor).Some?
    ensures r.Some? ==> r.value.Keys == p.Keys + {k.Name()}
  {
    match Save(k, v, descriptor)
    case None => None
    case Some(s) => Some(p[k.Name() := s])
  }

  /** A fresh store reads every key's default. */
  lemma FreshStoreReadsDefaults(palettes: Palettes)
    ensures Read(map[], NightModeKey, palettes) == Some(NightModeValue(No))
    ensures Read(map[], FontFamilyKey, palettes) == Some(FontFamilyValue(SystemDefault))
    ensures forall k | k in {ForceColorize, ColorStatusBar, HideStatusBar} :: Read(map[], k, palettes) == Some(FlagValue(false))
  {
  }

  /** A write that succeeds is read back. */
  lemma ReadAfterWrite(p: Preferences, k: Key, v: Value, descriptor: seq<ElementDescriptor>, palettes: Palettes)
    requires Write(p, k, v, descriptor).Some?
    ensures Read(Write(p, k, v, descriptor).value, k, palettes) == Some(v)
  {
    SaveRestore(k, v, descriptor);
  }

  /** A write to one key leaves every other setting as it read before. */
  lemma WriteKeepsOtherKeys(p: Preferences, k: Key, v: Value, descriptor: seq<ElementDescriptor>, other: Key, palettes: Palettes)
    requires Write(p, k, v, descriptor).Some?
    requires other != k
    ensures Read(Write(p, k, v, descriptor).value, other, palettes) == Read(p, other, palettes)
  {
    KeyNamesDistinct(k, other);
  }

  /**
   * As declared, the colour descriptor makes every colour-scheme write
   * fail: `serialize` writes element 12, which it does not declare.
   */
  lemma ColorsWriteFails(p: Preferences, k: Key, c: Colors)
    ensures Write(p, k, ColorsValue(c), Descriptor()) == None
  {
    DescriptorMismatch(c);
  }

  /** With the corrected descriptor a colour scheme saves under either colour key and reads back. */
  lemma ColorsWriteCorrected(p: Preferences, k: Key, c: Colors, palettes: Palettes)
    requires k == LightColors || k == DarkColors
    ensures Write(p, k, ColorsValue(c), CorrectedDescriptor()).Some?
    ensures Read(Write(p, k, ColorsValue(c), CorrectedDescriptor()).value, k, palettes) == Some(ColorsValue(c))
  {
    DecodedIsKeyed(Serialize(c));
    assert Save(k, ColorsValue(c), CorrectedDescriptor()).Some?;
    ReadAfterWrite(p, k, ColorsValue(c), CorrectedDescriptor(), palettes);
  }
}
