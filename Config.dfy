/** `src/config.rs`: the theme part of `Config.toml` and the preset palettes.
    Reading and deserialising the file is not modelled; a configuration is a
    value. */
module Config {
  import opened Strings

  /** `ThemeType`, deserialised from `"custom"` and `"preset"`. */
  datatype ThemeType = Custom | Preset

  /** `ThemeType::as_str`. */
  function AsStr(t: ThemeType): string {
    match t
    case Custom => "custom"
    case Preset => "preset"
  }

  /** The names are the serialised ones, and two types never share one. */
  lemma AsStrNames(a: ThemeType, b: ThemeType)
    ensures AsStr(Custom) == "custom" && AsStr(Preset) == "preset"
    ensures AsStr(a) == AsStr(b) <==> a == b
  {
    if a != b {
      assert AsStr(a)[0] != AsStr(b)[0];
    }
  }

  /** A theme's variables: name to CSS value. */
  type Palette = map<string, string>

  datatype CustomTheme = CustomTheme(light: Palette, dark: Palette)

  datatype ThemeConfig = ThemeConfig(themeType: ThemeType, preset: Option<string>, custom: Option<CustomTheme>)

  datatype Config = Config(theme: ThemeConfig)

  /** `catppuccin_light`: one `insert` per entry, in source order. */
  const CatppuccinLight: Palette := map[
      "background_color" := "#ffffff",
      "text_color" := "#4c4f69",
      "link_color" := "#1e66f5",
      "heading_color" := "#8839ef",
      "code_background" := "#e6e9ef",
      "code_text" := "#4c4f69",
      "border_color" := "#ccd0da",
      "accent_color" := "#1e66f5",
      "blockquote_color" := "#6c7086",
      "secondary_background" := "#eff1f5",
      "secondary_accent" := "#dd7878",
      "highlight_add" := "rgba(87, 160, 112, 0.3)",
      "highlight_del" := "rgba(210, 77, 87, 0.3)",
      "highlight" := "rgba(30, 102, 245, 0.3)",
      "type" := "#1e66f5",
      "constant" := "#fe640b",
      "string" := "#40a02b",
      "comment" := "#8b949e",
      "keyword" := "#8839ef",
      "function" := "#d20f39",
      "variable" := "#7287fd",
      "punctuation" := "#6c7086",
      "markup_heading" := "#d20f39",
      "diff_plus" := "#d4f1d7",
      "diff_minus" := "#f8d3d5",
      "attribute" := "#179299",
      "constructor" := "#df8e1d",
      "tag" := "#ea76cb",
      "escape" := "#d20f39"]

  /** `catppuccin_dark`: one `insert` per entry, in source order. */
  const CatppuccinDark: Palette := map[
      "background_color" := "#1e1e2e",
      "text_color" := "#cdd6f4",
      "link_color" := "#89b4fa",
      "heading_color" := "#b4befe",
      "code_background" := "#313244",
      "code_text" := "#cdd6f4",
      "border_color" := "#585b70",
      "accent_color" := "#89b4fa",
      "blockquote_color" := "#9399b2",
      "secondary_background" := "#24273a",
      "secondary_accent" := "#f38ba8",
      "highlight_add" := "rgba(166, 227, 161, 0.3)",
      "highlight_del" := "rgba(243, 139, 168, 0.3)",
      "highlight" := "rgba(137, 180, 250, 0.3)",
      "type" := "#89b4fa",
      "constant" := "#fab387",
      "string" := "#a6e3a1",
      "comment" := "#585b70",
      "keyword" := "#cba6f7",
      "function" := "#f38ba8",
      "variable" := "#b4befe",
      "punctuation" := "#9399b2",
      "markup_heading" := "#f38ba8",
      "diff_plus" := "rgba(166, 227, 161, 0.3)",
      "diff_minus" := "rgba(243, 139, 168, 0.3)",
      "attribute" := "#94e2d5",
      "constructor" := "#f9e2af",
      "tag" := "#f5c2e7",
      "escape" := "#f38ba8"]

  /** `gruvbox_light`: one `insert` per entry, in source order. */
  const GruvboxLight: Palette := map[
      "background_color" := "#fbf1c7",
      "text_color" := "#3c3836",
      "link_color" := "#458588",
      "heading_color" := "#b57614",
      "code_background" := "#ebdbb2",
      "code_text" := "#3c3836",
      "border_color" := "#a89984",
      "accent_color" := "#458588",
      "blockquote_color" := "#7c6f64",
      "secondary_background" := "#f2e5bc",
      "secondary_accent" := "#d65d0e",
      "highlight_add" := "rgba(104, 135, 56, 0.3)",
      "highlight_del" := "rgba(204, 36, 29, 0.3)",
      "highlight" := "rgba(69, 133, 136, 0.3)",
      "type" := "#458588",
      "constant" := "#d65d0e",
      "string" := "#79740e",
      "comment" := "#928374",
      "keyword" := "#b57614",
      "function" := "#9d0006",
      "variable" := "#427b58",
      "punctuation" := "#7c6f64",
      "markup_heading" := "#9d0006",
      "diff_plus" := "#e7f0d2",
      "diff_minus" := "#f7d9d7",
      "attribute" := "#689d6a",
      "constructor" := "#b57614",
      "tag" := "#af3a03",
      "escape" := "#9d0006"]

  /** `gruvbox_dark`: one `insert` per entry, in source order. */
  const GruvboxDark: Palette := map[
      "background_color" := "#282828",
      "text_color" := "#ebdbb2",
      "link_color" := "#83a598",
      "heading_color" := "#fabd2f",
      "code_background" := "#3c3836",
      "code_text" := "#ebdbb2",
      "border_color" := "#665c54",
      "accent_color" := "#83a598",
      "blockquote_color" := "#928374",
      "secondary_background" := "#32302f",
      "secondary_accent" := "#fe8019",
      "highlight_add" := "rgba(166, 192, 102, 0.3)",
      "highlight_del" := "rgba(251, 73, 52, 0.3)",
      "highlight" := "rgba(131, 165, 152, 0.3)",
      "type" := "#83a598",
      "constant" := "#fe8019",
      "string" := "#b8bb26",
      "comment" := "#928374",
      "keyword" := "#fabd2f",
      "function" := "#fb4934",
      "variable" := "#8ec07c",
      "punctuation" := "#a89984",
      "markup_heading" := "#fb4934",
      "diff_plus" := "rgba(166, 192, 102, 0.3)",
      "diff_minus" := "rgba(251, 73, 52, 0.3)",
      "attribute" := "#b8bb26",
      "constructor" := "#fabd2f",
      "tag" := "#d3869b",
      "escape" := "#fb4934"]

  /** `get_preset_themes`: preset name to its light and dark palettes. */
  function PresetThemes(): map<string, (Palette, Palette)> {
    map["catppuccin" := (CatppuccinLight, CatppuccinDark), "gruvbox" := (GruvboxLight, GruvboxDark)]
  }

  /** There are exactly two presets. */
  lemma PresetNames()
    ensures PresetThemes().Keys == {"catppuccin", "gruvbox"}
    ensures PresetThemes()["catppuccin"] == (CatppuccinLight, CatppuccinDark)
    ensures PresetThemes()["gruvbox"] == (GruvboxLight, GruvboxDark)
  {
    assert "catppuccin" != "gruvbox";
  }

  /** The comment on every `accent_color` entry: it is the link colour. */
  predicate AccentIsLink(p: Palette) {
    "accent_color" in p && "link_color" in p && p["accent_color"] == p["link_color"]
  }

  lemma CatppuccinAccent()
    ensures AccentIsLink(CatppuccinLight) && AccentIsLink(CatppuccinDark)
  {
  }

  lemma GruvboxAccent()
    ensures AccentIsLink(GruvboxLight) && AccentIsLink(GruvboxDark)
  {
  }

  /** In every preset, light and dark, `accent_color` equals `link_color`. */
  lemma PresetAccentIsLink(name: string)
    requires name in PresetThemes()
    ensures AccentIsLink(PresetThemes()[name].0) && AccentIsLink(PresetThemes()[name].1)
  {
    PresetNames();
    CatppuccinAccent();
    GruvboxAccent();
  }
}
