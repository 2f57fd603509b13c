/** `generate_theme_css` in `src/theme.rs`: choosing the light and dark
    palettes, checking the required variables, and writing the CSS custom
    properties for both colour schemes. The CSS minifier is a parameter, and
    the order in which a `HashMap` yields its entries is an input. */
module Theme {
  import opened Strings
  import opened Config
  import opened Output

  datatype ThemeError =
    | PresetNotSpecified         // "Preset name not specified in Config.toml"
    | UnknownPreset(name: string)
    | CustomNotSpecified         // "Custom theme not specified in Config.toml"
    | MissingLight(variable: string)
    | MissingDark(variable: string)
    | MinifyFailed(message: string)

  /** The 29 variables every theme must define, in checking order. */
  const RequiredVars: seq<string> := [
    "background_color", "text_color", "link_color", "heading_color",
    "code_background", "code_text", "border_color", "accent_color",
    "blockquote_color", "secondary_background", "secondary_accent",
    "highlight_add", "highlight_del", "highlight", "type", "constant",
    "string", "comment", "keyword", "function", "variable", "punctuation",
    "markup_heading", "diff_plus", "diff_minus", "attribute", "constructor",
    "tag", "escape"]

  // ---------------------------------------------------------------------------
  // Selection

  /** The palettes the configuration chooses: a named preset or the custom table. */
  function SelectPalettes(theme: ThemeConfig): Result<(Palette, Palette), ThemeError> {
    match theme.themeType
    case Preset =>
      (match theme.preset
       case None => Err(PresetNotSpecified)
       case Some(name) =>
         if name in PresetThemes() then Ok(PresetThemes()[name]) else Err(UnknownPreset(name)))
    case Custom =>
      (match theme.custom
       case None => Err(CustomNotSpecified)
       case Some(c) => Ok((c.light, c.dark)))
  }

  /** The three ways selection fails, and what it yields otherwise. */
  lemma SelectionOutcome(theme: ThemeConfig)
    ensures SelectPalettes(theme) == Err(PresetNotSpecified) <==> theme.themeType == Preset && theme.preset.None?
    ensures (exists name :: SelectPalettes(theme) == Err(UnknownPreset(name))) <==>
              theme.themeType == Preset && theme.preset.Some? && theme.preset.value !in {"catppuccin", "gruvbox"}
    ensures SelectPalettes(theme) == Err(CustomNotSpecified) <==> theme.themeType == Custom && theme.custom.None?
    ensures theme.themeType == Custom && theme.custom.Some? ==>
              SelectPalettes(theme) == Ok((theme.custom.value.light, theme.custom.value.dark))
    ensures theme.themeType == Preset && theme.preset.Some? && theme.preset.value in {"catppuccin", "gruvbox"} ==>
              SelectPalettes(theme) == Ok(PresetThemes()[theme.preset.value])
  {
    PresetNames();
    if theme.themeType == Preset && theme.preset.Some? && theme.preset.value !in {"catppuccin", "gruvbox"} {
      assert SelectPalettes(theme) == Err(UnknownPreset(theme.preset.value));
    }
  }

  // ---------------------------------------------------------------------------
  // Validation

  /** The first required variable missing from the light or the dark
      palette; for one variable, light is checked first. */
  function FirstMissing(required: seq<string>, light: Palette, dark: Palette): Option<ThemeError> {
    if required == [] then None
    else if required[0] !in light then Some(MissingLight(required[0]))
    else if required[0] !in dark then Some(MissingDark(required[0]))
    else FirstMissing(required[1..], light, dark)
  }

  /** Validation passes exactly when both palettes define every variable. */
  lemma {:induction false} FirstMissingNone(required: seq<string>, light: Palette, dark: Palette)
    ensures FirstMissing(required, light, dark).None? <==>
            forall v <- required :: v in light && v in dark
  {
    if required != [] {
      FirstMissingNone(required[1..], light, dark);
      assert required == [required[0]] + required[1..];
    }
  }

  /** Otherwise it names the first variable, in list order, that one of them
      lacks, and the light palette when both lack it. */
  lemma {:induction false} FirstMissingAt(required: seq<string>, light: Palette, dark: Palette, i: nat)
    requires i < |required|
    requires forall j :: 0 <= j < i ==> required[j] in light && required[j] in dark
    requires required[i] !in light || required[i] !in dark
    ensures FirstMissing(required, light, dark) ==
            Some(if required[i] !in light then MissingLight(required[i]) else MissingDark(required[i]))
  {
    if i > 0 {
      assert required[0] in light && required[0] in dark;
      FirstMissingAt(required[1..], light, dark, i - 1);
    }
  }

  /** The loop over `required_vars` with its early returns. */
  method CheckRequired(required: seq<string>, light: Palette, dark: Palette) returns (err: Option<ThemeError>)
    ensures err == FirstMissing(required, light, dark)
  {
    for i := 0 to |required|
      invariant FirstMissing(required, light, dark) == FirstMissing(required[i..], light, dark)
    {
      assert required[i..][1..] == required[i + 1..];
      if required[i] !in light {
        return Some(MissingLight(required[i]));
      }
      if required[i] !in dark {
        return Some(MissingDark(required[i]));
      }
    }
    return None;
  }

  /** Every preset palette defines every required variable. */
  lemma PresetsComplete(name: string)
    requires name in PresetThemes()
    ensures FirstMissing(RequiredVars, PresetThemes()[name].0, PresetThemes()[name].1).None?
  {
    PresetNames();
    CatppuccinComplete();
    GruvboxComplete();
    FirstMissingNone(RequiredVars, PresetThemes()[name].0, PresetThemes()[name].1);
  }

  lemma CatppuccinComplete()
    ensures forall v <- RequiredVars :: v in CatppuccinLight && v in CatppuccinDark
  {
  }

  lemma GruvboxComplete()
    ensures forall v <- RequiredVars :: v in GruvboxLight && v in GruvboxDark
  {
  }

  // ---------------------------------------------------------------------------
  // CSS

  /** `format!("--{}", key.replace("_", "-"))`. */
  function CssKey(key: string): string {
    "--" + ReplaceAll(key, "_", "-")
  }

  /** The line one palette entry contributes. */
  function CssLine(key: string, value: string): string {
    "    " + CssKey(key) + ": " + value + ";\n"
  }

  /** The entries of a palette in the order the map yields them. */
  predicate IsIteration(entries: seq<(string, string)>, p: Palette) {
    (forall i :: 0 <= i < |entries| ==> entries[i].0 in p && p[entries[i].0] == entries[i].1) &&
    (forall i, j :: 0 <= i < j < |entries| ==> entries[i].0 != entries[j].0) &&
    p.Keys == KeysOf(entries)
  }

  function KeysOf(entries: seq<(string, string)>): set<string> {
    set i | 0 <= i < |entries| :: entries[i].0
  }

  /** The lines `f` gives the entries, one after the other. */
  function Lines(f: (string, string) -> string, entries: seq<(string, string)>): string {
    if entries == [] then ""
    else Lines(f, entries[..|entries| - 1]) + f(entries[|entries| - 1].0, entries[|entries| - 1].1)
  }

  /** `light_css` / `dark_css`: one line per entry, in iteration order. */
  function CssLines(entries: seq<(string, string)>): string {
    Lines(CssLine, entries)
  }

  /** The loop that builds one block with `push_str`. */
  method BuildCssLines(entries: seq<(string, string)>) returns (css: string)
    ensures css == CssLines(entries)
  {
    css := "";
    for i := 0 to |entries|
      invariant css == CssLines(entries[..i])
    {
      assert entries[..i + 1][..i] == entries[..i];
      assert CssLines(entries[..i + 1]) == CssLines(entries[..i]) + CssLine(entries[i].0, entries[i].1);
      var (key, value) := entries[i];
      var cssKey := "--" + ReplaceAll(key, "_", "-");
      css := css + ("    " + cssKey + ": " + value + ";\n");
    }
    assert entries[..|entries|] == entries;
  }

  /** The CSS name is `--` and the variable name with no `_` left. */
  lemma CssKeyShape(key: string)
    ensures StartsWith(CssKey(key), "--") && '_' !in CssKey(key)[2..]
    ensures '_' !in key ==> CssKey(key) == "--" + key
  {
    ReplaceCharPointwise(key, '_', '-');
    var k := ReplaceAll(key, "_", "-");
    assert CssKey(key)[..2] == "--" && CssKey(key)[2..] == k;
    assert forall i :: 0 <= i < |k| ==> k[i] != '_';
    if '_' !in key {
      assert k == key;
    }
  }

  /** A line ends with its one newline when the name and value have none. */
  lemma CssLineNewlines(key: string, value: string)
    requires '\n' !in key && '\n' !in value
    ensures multiset(CssLine(key, value))['\n'] == 1
  {
    ReplaceAllKeepsOut(key, "_", "-", '\n');
    var k := ReplaceAll(key, "_", "-");
    assert multiset(k)['\n'] == 0;
    assert multiset(value)['\n'] == 0;
    assert CssLine(key, value) == "    --" + k + ": " + value + ";\n";
    assert multiset("    --")['\n'] == 0;
    assert multiset(": ")['\n'] == 0;
    assert multiset(";\n")['\n'] == 1;
  }

  /** Each entry contributes exactly one line. */
  lemma {:induction false} CssLinesCount(entries: seq<(string, string)>)
    requires forall i :: 0 <= i < |entries| ==> '\n' !in entries[i].0 && '\n' !in entries[i].1
    ensures multiset(CssLines(entries))['\n'] == |entries|
    decreases |entries|
  {
    if entries != [] {
      var n := |entries| - 1;
      CssLinesCount(entries[..n]);
      CssLineNewlines(entries[n].0, entries[n].1);
      assert CssLines(entries) == CssLines(entries[..n]) + CssLine(entries[n].0, entries[n].1);
    }
  }

  /** The entries of a palette: as many as it has variables. */
  lemma {:induction false} IterationSize(entries: seq<(string, string)>, p: Palette)
    requires IsIteration(entries, p)
    ensures |entries| == |p|
  {
    DistinctKeysCount(entries);
    assert |p| == |p.Keys|;
  }

  lemma {:induction false} DistinctKeysCount(entries: seq<(string, string)>)
    requires forall i, j :: 0 <= i < j < |entries| ==> entries[i].0 != entries[j].0
    ensures |KeysOf(entries)| == |entries|
    decreases |entries|
  {
    if entries != [] {
      var n := |entries| - 1;
      var pre := entries[..n];
      DistinctKeysCount(pre);
      assert KeysOf(entries) == KeysOf(pre) + {entries[n].0} by {
        forall k | k in KeysOf(entries) ensures k in KeysOf(pre) + {entries[n].0} {
          var i :| 0 <= i < |entries| && entries[i].0 == k;
          if i < n {
            assert pre[i].0 == k;
          }
        }
        forall k | k in KeysOf(pre) ensures k in KeysOf(entries) {
          var i :| 0 <= i < |pre| && pre[i].0 == k;
          assert entries[i].0 == k;
        }
      }
      forall i | 0 <= i < |pre| ensures pre[i].0 != entries[n].0 {
        assert entries[i].0 == pre[i].0;
      }
    } else {
      assert KeysOf(entries) == {};
    }
  }

  /** A block has as many lines as its palette has variables. */
  lemma {:induction false} PaletteLineCount(entries: seq<(string, string)>, p: Palette)
    requires IsIteration(entries, p)
    requires forall k <- p :: '\n' !in k && '\n' !in p[k]
    ensures multiset(CssLines(entries))['\n'] == |p|
  {
    IterationSize(entries, p);
    forall i | 0 <= i < |entries| ensures '\n' !in entries[i].0 && '\n' !in entries[i].1 {
      assert entries[i].0 in p;
    }
    CssLinesCount(entries);
  }

  /** Every variable of a palette gives one line of its block. */
  lemma {:induction false} PaletteLineOf(entries: seq<(string, string)>, p: Palette, k: string)
    requires IsIteration(entries, p) && k in p
    ensures exists i :: 0 <= i < |entries| &&
              CssLines(entries) == CssLines(entries[..i]) + CssLine(k, p[k]) + CssLines(entries[i + 1..])
  {
    assert k in KeysOf(entries);
    var i :| 0 <= i < |entries| && entries[i].0 == k;
    LinesSplit(CssLine, entries, i);
  }

  lemma {:induction false} LinesConcat(f: (string, string) -> string, a: seq<(string, string)>, b: seq<(string, string)>)
    ensures Lines(f, a + b) == Lines(f, a) + Lines(f, b)
    decreases |b|
  {
    if b == [] {
      assert a + b == a;
    } else {
      var b' := b[..|b| - 1];
      assert (a + b)[..|a + b| - 1] == a + b';
      LinesConcat(f, a, b');
    }
  }

  lemma {:induction false} LinesSnoc(f: (string, string) -> string, s: seq<(string, string)>, x: (string, string))
    ensures Lines(f, s + [x]) == Lines(f, s) + f(x.0, x.1)
  {
    assert (s + [x])[..|s|] == s;
  }

  lemma {:induction false} LinesSplit(f: (string, string) -> string, entries: seq<(string, string)>, i: nat)
    requires i < |entries|
    ensures Lines(f, entries) ==
            Lines(f, entries[..i]) + f(entries[i].0, entries[i].1) + Lines(f, entries[i + 1..])
  {
    var pre, post := entries[..i + 1], entries[i + 1..];
    assert entries == pre + post;
    LinesConcat(f, pre, post);
    LinesSnoc(f, entries[..i], entries[i]);
    assert pre == entries[..i] + [entries[i]];
  }

  const RootOpen := "\n:root {\n"
  const MediaOpen := "\n}\n\n@media (prefers-color-scheme: dark) {\n    :root:not([data-theme=\"light\"]) {\n"
  const LightOpen := "\n    }\n}\n\n[data-theme=\"light\"] {\n"
  const DarkOpen := "\n}\n\n[data-theme=\"dark\"] {\n"
  const SheetClose := "\n}\n"

  /** The `format!` of the stylesheet around the two blocks. */
  function ThemeCss(light: string, dark: string): string {
    RootOpen + light + MediaOpen + dark + LightOpen + light + DarkOpen + dark + SheetClose
  }

  /** The light block appears for `:root` and for `[data-theme="light"]`, the
      dark block inside the dark media query and for `[data-theme="dark"]`,
      in that order and right after these openings. */
  lemma ThemeCssBlocks(light: string, dark: string)
    ensures var css := ThemeCss(light, dark);
            var p1 := |RootOpen|;
            var p2 := p1 + |light| + |MediaOpen|;
            var p3 := p2 + |dark| + |LightOpen|;
            var p4 := p3 + |light| + |DarkOpen|;
            p1 < p2 < p3 < p4 && |css| == p4 + |dark| + |SheetClose| &&
            css[p1..p1 + |light|] == light && css[p2..p2 + |dark|] == dark &&
            css[p3..p3 + |light|] == light && css[p4..p4 + |dark|] == dark &&
            css[p2 - |MediaOpen|..p2] == MediaOpen &&
            css[p3 - |LightOpen|..p3] == LightOpen && css[p4 - |DarkOpen|..p4] == DarkOpen
  {
    FiveParts(RootOpen, light, MediaOpen, dark, LightOpen, light, DarkOpen, dark, SheetClose);
  }

  /** Where each part of a nine-part concatenation lies. */
  lemma FiveParts(a: string, l1: string, b: string, d1: string, c: string, l2: string, e: string, d2: string, f: string)
    ensures var s := a + l1 + b + d1 + c + l2 + e + d2 + f;
            var p1 := |a|;
            var p2 := p1 + |l1| + |b|;
            var p3 := p2 + |d1| + |c|;
            var p4 := p3 + |l2| + |e|;
            |s| == p4 + |d2| + |f| &&
            s[p1..p1 + |l1|] == l1 && s[p2..p2 + |d1|] == d1 &&
            s[p3..p3 + |l2|] == l2 && s[p4..p4 + |d2|] == d2 &&
            s[p2 - |b|..p2] == b && s[p3 - |c|..p3] == c && s[p4 - |e|..p4] == e
  {
  }

  // ---------------------------------------------------------------------------
  // generate_theme_css

  /** The stylesheet before minification, or the first error: selection,
      then validation. `iterate` gives a palette's entries in map order. */
  function Stylesheet(theme: ThemeConfig, iterate: Palette -> seq<(string, string)>): Result<string, ThemeError> {
    match SelectPalettes(theme)
    case Err(e) => Err(e)
    case Ok((light, dark)) =>
      match FirstMissing(RequiredVars, light, dark)
      case Some(e) => Err(e)
      case None => Ok(ThemeCss(CssLines(iterate(light)), CssLines(iterate(dark))))
  }

  /** What `generate_theme_css` writes: the minified stylesheet, or the error. */
  function ThemeFile(theme: ThemeConfig, iterate: Palette -> seq<(string, string)>, minify: string -> Result<string, string>)
    : Result<string, ThemeError>
  {
    match Stylesheet(theme, iterate)
    case Err(e) => Err(e)
    case Ok(css) =>
      match minify(css)
      case Err(m) => Err(MinifyFailed(m))
      case Ok(minified) => Ok(minified)
  }

  /** A configured preset always yields a stylesheet: its palettes pass the check. */
  lemma PresetStylesheet(theme: ThemeConfig, iterate: Palette -> seq<(string, string)>)
    requires theme.themeType == Preset && theme.preset.Some? && theme.preset.value in {"catppuccin", "gruvbox"}
    ensures Stylesheet(theme, iterate).Ok?
  {
    SelectionOutcome(theme);
    PresetNames();
    PresetsComplete(theme.preset.value);
  }

  /** With palettes selected, the stylesheet exists exactly when they define
      every required variable. */
  lemma StylesheetValidation(theme: ThemeConfig, iterate: Palette -> seq<(string, string)>)
    requires SelectPalettes(theme).Ok?
    ensures var (light, dark) := SelectPalettes(theme).value;
            Stylesheet(theme, iterate).Ok? <==> forall v <- RequiredVars :: v in light && v in dark
  {
    var (light, dark) := SelectPalettes(theme).value;
    FirstMissingNone(RequiredVars, light, dark);
  }

  /** `generate_theme_css`: on any error nothing is written. */
  method GenerateThemeCss(config: Config, themeCssPath: string, dist: Dist,
                          iterate: Palette -> seq<(string, string)>, minify: string -> Result<string, string>)
    returns (r: Result<(), ThemeError>)
    modifies dist
    ensures ThemeFile(config.theme, iterate, minify).Err? ==>
              r == Err(ThemeFile(config.theme, iterate, minify).error) && dist.files == old(dist.files)
    ensures ThemeFile(config.theme, iterate, minify).Ok? ==>
              r == Ok(()) && dist.files == old(dist.files)[themeCssPath := ThemeFile(config.theme, iterate, minify).value]
  {
    var selected := SelectPalettes(config.theme);
    if selected.Err? {
      return Err(selected.error);
    }
    var (lightVars, darkVars) := selected.value;
    var missing := CheckRequired(RequiredVars, lightVars, darkVars);
    if missing.Some? {
      return Err(missing.value);
    }
    var lightCss := BuildCssLines(iterate(lightVars));
    var darkCss := BuildCssLines(iterate(darkVars));
    var themeCss := RootOpen + lightCss + MediaOpen + darkCss + LightOpen + lightCss + DarkOpen + darkCss + SheetClose;
    assert Stylesheet(config.theme, iterate) == Ok(themeCss);
    var minified := minify(themeCss);
    if minified.Err? {
      return Err(MinifyFailed(minified.error));
    }
    dist.Write(themeCssPath, minified.value);
    return Ok(());
  }
}
