/**
 * The pure part of the user configuration: the `theme.mode` preference and
 * its spelling in the configuration file, the `TERM_BACKGROUND` hint, the
 * choice of palette for a mode, and the colour arithmetic of terminal
 * background detection (the ANSI 256-colour table and the scaling of a
 * 16-bit colour channel to 8 bits). Reading the file, the environment and
 * the terminal are left to the caller: their results come in as arguments.
 */
module Config {
  import opened Wrappers
  import opened Text
  import Shared

  /** An unsigned 8-bit value. */
  type Byte = x: int | 0 <= x < 0x100

  /** An unsigned 16-bit value. */
  type Word = x: int | 0 <= x < 0x1_0000

  /** `ThemePreference`: the `theme.mode` setting. */
  datatype ThemePreference = Auto | PreferDark | PreferLight

  /** `ThemeMode`: the mode the interface is drawn in. */
  datatype ThemeMode = Dark | Light

  /** The two palettes of the theme module: `ThemePalette::default()` and `ThemePalette::light_default()`. */
  datatype ThemePalette = DarkDefault | LightDefault

  datatype RuntimeThemeConfig = RuntimeThemeConfig(palette: ThemePalette, mode: ThemeMode)

  // ---------------------------------------------------------------------
  // The `theme.mode` setting
  // ---------------------------------------------------------------------

  /** `theme_preference_to_string`: the spelling written to the configuration file. */
  function ThemePreferenceToString(value: ThemePreference): string
  {
    match value
    case Auto => "auto"
    case PreferDark => "dark"
    case PreferLight => "light"
  }

  /** The spelling `parse_theme_preference` compares: trimmed, ASCII-lowercased, '-' and ' ' turned into '_'. */
  function NormalizePreference(raw: string): string
  {
    Shared.ReplaceChar(Shared.ReplaceChar(ToAsciiLower(Trim(raw)), '-', '_'), ' ', '_')
  }

  /** `parse_theme_preference`: one of the three names, else an error. */
  function ParseThemePreference(raw: string): (r: Result<ThemePreference, string>)
    ensures r.Err? ==> r.error == "expected one of: auto, dark, light"
  {
    var normalized := NormalizePreference(raw);
    if normalized == "auto" then Ok(Auto)
    else if normalized == "dark" then Ok(PreferDark)
    else if normalized == "light" then Ok(PreferLight)
    else Err("expected one of: auto, dark, light")
  }

  /**
   * A value is accepted exactly when its normalized spelling is the name
   * of a preference, and it is then that preference.
   */
  lemma ParseThemePreferenceSpec(raw: string)
    ensures ParseThemePreference(raw).Ok? <==>
      exists p :: NormalizePreference(raw) == ThemePreferenceToString(p)
    ensures forall p :: ParseThemePreference(raw) == Ok(p) <==> NormalizePreference(raw) == ThemePreferenceToString(p)
  {
    var normalized := NormalizePreference(raw);
    if ParseThemePreference(raw).Ok? {
      var p := ParseThemePreference(raw).value;
      assert normalized == ThemePreferenceToString(p);
    }
    forall p | normalized == ThemePreferenceToString(p)
      ensures ParseThemePreference(raw) == Ok(p)
    {
      NamesDistinct(p);
    }
  }

  /** The three names are distinct. */
  lemma NamesDistinct(p: ThemePreference)
    ensures forall q :: ThemePreferenceToString(p) == ThemePreferenceToString(q) ==> p == q
  {
    assert "auto"[0] != "dark"[0] && "auto"[0] != "light"[0] && "dark"[0] != "light"[0];
  }

  /** The names are already in normal form. */
  lemma NormalizeName(p: ThemePreference)
    ensures NormalizePreference(ThemePreferenceToString(p)) == ThemePreferenceToString(p)
  {
    match p
    case Auto => PlainName("auto");
    case PreferDark => PlainName("dark");
    case PreferLight => PlainName("light");
  }

  /** A non-empty name of lower-case ASCII letters is already in normal form. */
  lemma PlainName(name: string)
    requires name != [] && forall i :: 0 <= i < |name| ==> 'a' <= name[i] <= 'z'
    ensures NormalizePreference(name) == name
  {
    TrimNoWhitespace(name);
    var lowered := ToAsciiLower(Trim(name));
    assert lowered == name;
    var dashes := Shared.ReplaceChar(lowered, '-', '_');
    assert dashes == name;
    assert Shared.ReplaceChar(dashes, ' ', '_') == name;
  }

  /** A string with whitespace at neither end is its own trim. */
  lemma TrimNoWhitespace(s: string)
    requires s != [] && !IsWhitespace(s[0]) && !IsWhitespace(s[|s| - 1])
    ensures Trim(s) == s
  {
    assert TrimStart(s) == s;
    assert TrimEnd(s) == s;
  }

  /** Reading back what the configuration file was given yields the same preference. */
  lemma PreferenceRoundTrip(p: ThemePreference)
    ensures ParseThemePreference(ThemePreferenceToString(p)) == Ok(p)
  {
    NormalizeName(p);
  }

  /**
   * `parse_app_config` after the TOML layer: a missing `theme.mode` is
   * `Auto`, a present one is trimmed and parsed, and a bad one is an error
   * whose context names the value as written, followed by the cause (the
   * chain as anyhow prints it, joined by ": ").
   */
  function ParseAppConfig(mode: Option<string>): (r: Result<ThemePreference, string>)
    ensures mode.None? ==> r == Ok(Auto)
    ensures mode.Some? ==> (r.Ok? <==> ParseThemePreference(Trim(mode.value)).Ok?)
    ensures mode.Some? && r.Ok? ==> r == ParseThemePreference(Trim(mode.value))
    ensures mode.Some? && r.Err? ==>
      r.error == "invalid value for `theme.mode`: " + mode.value + ": " + ParseThemePreference(Trim(mode.value)).error
  {
    match mode
    case None => Ok(Auto)
    case Some(m) =>
      match ParseThemePreference(Trim(m))
      case Ok(p) => Ok(p)
      case Err(cause) => Err("invalid value for `theme.mode`: " + m + ": " + cause)
  }

  /**
   * The default file (`build_default_config_toml`) holds the default
   * preference's name, and any saved preference loads back unchanged.
   */
  lemma PersistedConfigRoundTrip(p: ThemePreference)
    ensures ParseAppConfig(Some(ThemePreferenceToString(p))) == Ok(p)
    ensures ParseAppConfig(Some(ThemePreferenceToString(Auto))) == ParseAppConfig(None)
  {
    PreferenceLoads(p);
    PreferenceLoads(Auto);
  }

  /** A file holding a preference's name loads as that preference. */
  lemma PreferenceLoads(p: ThemePreference)
    ensures ParseAppConfig(Some(ThemePreferenceToString(p))) == Ok(p)
  {
    var name := ThemePreferenceToString(p);
    assert !IsWhitespace(name[0]) && !IsWhitespace(name[|name| - 1]);
    TrimNoWhitespace(name);
    PreferenceRoundTrip(p);
  }

  // ---------------------------------------------------------------------
  // Modes
  // ---------------------------------------------------------------------

  /** `parse_theme_mode_hint`: "light" or "dark", ignoring case and surrounding whitespace. */
  function ParseThemeModeHint(value: string): (r: Option<ThemeMode>)
    ensures r == Some(Light) <==> ToAsciiLower(Trim(value)) == "light"
    ensures r == Some(Dark) <==> ToAsciiLower(Trim(value)) == "dark"
    ensures r.None? <==> ToAsciiLower(Trim(value)) !in {"light", "dark"}
  {
    var normalized := ToAsciiLower(Trim(value));
    if normalized == "light" then Some(Light)
    else if normalized == "dark" then Some(Dark)
    else None
  }

  /** `resolve_runtime_theme_for_mode`: the dark palette for dark mode, the light one for light mode. */
  function ResolveRuntimeThemeForMode(mode: ThemeMode): (r: RuntimeThemeConfig)
    ensures r.mode == mode
    ensures r.palette == LightDefault <==> mode == Light
  {
    match mode
    case Dark => RuntimeThemeConfig(DarkDefault, mode)
    case Light => RuntimeThemeConfig(LightDefault, mode)
  }

  /**
   * `resolve_runtime_theme`: a fixed preference decides the mode; `Auto`
   * takes the detected mode, or dark when detection found nothing.
   */
  function ResolveRuntimeTheme(preference: ThemePreference, detected: Option<ThemeMode>): (r: RuntimeThemeConfig)
    ensures preference == PreferDark ==> r.mode == Dark
    ensures preference == PreferLight ==> r.mode == Light
    ensures preference == Auto ==> r.mode == detected.UnwrapOr(Dark)
    ensures r == ResolveRuntimeThemeForMode(r.mode)
  {
    var mode := match preference
      case Auto => detected.UnwrapOr(Dark)
      case PreferDark => Dark
      case PreferLight => Light;
    ResolveRuntimeThemeForMode(mode)
  }

  // ---------------------------------------------------------------------
  // Colours
  // ---------------------------------------------------------------------

  datatype Rgb = Rgb(r: Byte, g: Byte, b: Byte)

  /** The sixteen base colours of the ANSI palette, in index order. */
  const Ansi16: seq<Rgb> := [
    Rgb(0, 0, 0), Rgb(205, 0, 0), Rgb(0, 205, 0), Rgb(205, 205, 0),
    Rgb(0, 0, 238), Rgb(205, 0, 205), Rgb(0, 205, 205), Rgb(229, 229, 229),
    Rgb(127, 127, 127), Rgb(255, 0, 0), Rgb(0, 255, 0), Rgb(255, 255, 0),
    Rgb(92, 92, 255), Rgb(255, 0, 255), Rgb(0, 255, 255), Rgb(255, 255, 255)
  ]

  /** The level of one step of the 6x6x6 colour cube: 0, then 55 + 40 per step. */
  function CubeComponent(v: nat): (c: Byte)
    requires v < 6
  {
    if v == 0 then 0 else 55 + v * 40
  }

  /** Entry `value` of the 6x6x6 colour cube: its base-6 digits are the red, green and blue steps. */
  function CubeRgb(value: nat): Rgb
    requires value < 216
  {
    Rgb(CubeComponent(value / 36), CubeComponent((value % 36) / 6), CubeComponent(value % 6))
  }

  /** `ansi_256_to_rgb`: the base colours, then the colour cube, then the gray ramp. */
  function Ansi256ToRgb(index: Byte): (rgb: Rgb)
    ensures index < 16 ==> rgb == Ansi16[index]
  {
    if index < 16 then Ansi16[index]
    else if index <= 231 then CubeRgb(index - 16)
    else
      var gray := 8 + (index - 232) * 10;
      Rgb(gray, gray, gray)
  }

  /** The six levels of the colour cube, listed. */
  const CubeLevels: seq<Byte> := [0, 95, 135, 175, 215, 255]

  lemma CubeLevel(v: nat)
    requires v < 6
    ensures CubeComponent(v) == CubeLevels[v]
  {
  }

  /**
   * Index `16 + 36r + 6g + b` of the cube is the colour whose channels are
   * the r-th, g-th and b-th cube levels.
   */
  lemma CubeColour(r: nat, g: nat, b: nat)
    requires r < 6 && g < 6 && b < 6
    ensures 16 + 36 * r + 6 * g + b <= 231
    ensures Ansi256ToRgb(16 + 36 * r + 6 * g + b) == Rgb(CubeLevels[r], CubeLevels[g], CubeLevels[b])
  {
    var value := 36 * r + 6 * g + b;
    CubeRgbDigits(value, r, g, b);
    var c := Ansi256ToRgb(16 + 36 * r + 6 * g + b);
    assert c == CubeRgb(value);
    CubeLevel(r);
    CubeLevel(g);
    CubeLevel(b);
  }

  /** The base-6 digits of a cube offset. */
  lemma CubeDigits(value: nat, r: nat, g: nat, b: nat)
    requires r < 6 && g < 6 && b < 6 && value == 36 * r + 6 * g + b
    ensures value / 36 == r && (value % 36) / 6 == g && value % 6 == b
  {
    assert value % 36 == 6 * g + b;
  }

  /** A cube entry, read through its digits. */
  lemma CubeRgbDigits(value: nat, r: nat, g: nat, b: nat)
    requires r < 6 && g < 6 && b < 6 && value == 36 * r + 6 * g + b
    ensures CubeRgb(value) == Rgb(CubeComponent(r), CubeComponent(g), CubeComponent(b))
  {
    CubeDigits(value, r, g, b);
  }

  /** Every cube index has such a decomposition, so every cube channel is one of the six levels. */
  lemma CubeIndexDecomposes(index: Byte)
    requires 16 <= index <= 231
    ensures var v := index - 16;
      v == 36 * (v / 36) + 6 * ((v % 36) / 6) + v % 6 &&
      v / 36 < 6 && (v % 36) / 6 < 6 && v % 6 < 6
    ensures Ansi256ToRgb(index).r in CubeLevels
    ensures Ansi256ToRgb(index).g in CubeLevels
    ensures Ansi256ToRgb(index).b in CubeLevels
  {
    var v := index - 16;
    var r, g, b := v / 36, (v % 36) / 6, v % 6;
    OffsetDigits(v);
    CubeColour(r, g, b);
    assert index == 16 + 36 * r + 6 * g + b;
    var c := Ansi256ToRgb(index);
    assert c == Rgb(CubeLevels[r], CubeLevels[g], CubeLevels[b]);
  }

  /** An offset into the cube is the number its base-6 digits spell. */
  lemma OffsetDigits(v: nat)
    requires v < 216
    ensures v == 36 * (v / 36) + 6 * ((v % 36) / 6) + v % 6
    ensures v / 36 < 6 && (v % 36) / 6 < 6 && v % 6 < 6
  {
  }

  /** Index `232 + k` of the gray ramp is the gray of level `8 + 10k`. */
  lemma GrayRamp(k: nat)
    requires k < 24
    ensures Ansi256ToRgb(232 + k) == Rgb(8 + 10 * k, 8 + 10 * k, 8 + 10 * k)
  {
  }

  /** `scale_channel_u16_to_u8`: the 16-bit channel scaled to 8 bits, rounding down. */
  function ScaleChannel(value: Word): (r: Byte)
  {
    assert value * 255 <= 65535 * 255;
    (value * 255) / 65535
  }

  /** Scaling is division by 257 (65535 is 255 * 257): 0 goes to 0, 65535 to 255. */
  lemma ScaleChannelIsDivision(value: Word)
    ensures ScaleChannel(value) == value / 257
    ensures value == 0 ==> ScaleChannel(value) == 0
    ensures value == 65535 ==> ScaleChannel(value) == 255
  {
    var q, m := value / 257, value % 257;
    assert value == q * 257 + m;
    assert value * 255 == q * 65535 + m * 255;
  }

  /** Scaling keeps the order of channel values. */
  lemma ScaleChannelMonotone(a: Word, b: Word)
    requires a <= b
    ensures ScaleChannel(a) <= ScaleChannel(b)
  {
    ScaleChannelIsDivision(a);
    ScaleChannelIsDivision(b);
  }
}
