# sekiei, modelled in Dafny

sekiei is a static-site generator. It reads a `content` directory of Markdown
notes with YAML frontmatter and writes a site into `dist`. This project models
the text and path processing at its core and proves what each part promises.

- **File index and references** (`Utils`, `Paths`, `Rewrite`). The index maps
  a bare file name, and the stem of each `.md` file, to every walked path
  with that name. The resolvers turn a reference written in a note into
  `/static/<sanitized>` or `/<page>`. Four `replace_all` passes rewrite
  standard images, embedded images, `[[..]]` links and `(wiki:..)` links, in
  that order. Each pass is modelled as an explicit left-to-right scanner:
  leftmost match first, matches never overlap.
- **Markdown post-processing** (`Fences`, `CodeBlock`, `Frontmatter`,
  `Events`):
  - the frontmatter split;
  - the fence info string: its language, `title=`, and `del=`, `add=` and
    `{}` line ranges;
  - per-line classes and zero-padded numbers;
  - heading slugs and the table of contents;
  - the event loop of `markdown_to_html`, modelled as a state machine over
    the parser's event stream.
- **Navigation tree** (`FileTree`, `Sorting`). The tree is built from a
  directory listing. It finds display names in frontmatter, applies the
  output-path rules with the WebP renaming, orders directories first and
  then names case-insensitively with a stable sort, and renders the tree as
  HTML.
- **Theme** (`Config`, `Theme`). It models the preset palettes, palette
  selection and the check of the 29 required variables. It also emits the
  CSS custom properties for the light and dark schemes.
- **Build planning** (`Build`, `Output`):
  - which content entries become pages, copies and listings, and where each
    one is written;
  - the check that a Markdown file and a directory do not share a name, which
    runs before anything is written.

  `src/build.rs` repeats the theme code of `src/theme.rs` line for line, at
  src/build.rs:61-129. Both are modelled by the same functions: `Build.Build`
  calls `Theme.GenerateThemeCss` with the path `dist/static/theme.css`.
- **RSS and lazy loading** (`Rss`, `LazyLoad`). The RSS part covers feed URLs,
  the newest-first order, the loop that falls back through the date formats,
  and the items of the feed. The lazy-loading part covers the rewrite of
  every `<img>` tag into a lazy container and the placeholder-path rule.

Every loop of the source is a `method` proved against a specification
function. The lexicographic comparisons and `Ord` on strings are modelled in
`Strings`. The `std::path` operations are modelled in `RustPath`: a walk path
is kept as its list of components.

The model keeps these behaviours of the source as they are:
- a bare image name with no index entry is sanitized as written
  (src/paths.rs:248, 269-273);
- only a leading `.` or `..` segment is interpreted, and every later `.` or
  `..` is pushed as a literal component (src/paths.rs:253-267);
- the highlight set comes from the last `{..}` group, even a `del=`/`add=` one;
- the delete, add and highlight line sets may overlap; a line is marked
  deleted first, then added, then highlighted (src/markdown.rs:256-262);
- a code block without a language makes the event loop panic, because the
  language is unwrapped (src/markdown.rs:278, 284);
- the RSS URL drops every `.md` of the path, not only the final one;
- the WebP renaming in the file tree tests the extension case-sensitively;
- the RSS walk keeps Markdown files whose name starts with `.`, while the
  build skips them.

## Model

| member | source | states |
|---|---|---|
| Utils.SanitizeFilename | src/utils.rs:1-12 | the loop's result equals the reference `Sanitized(path)` (separators flattened, then each character escaped), and every character of it is alphanumeric, `.`, `-` or `_` |
| Utils.EscapeLoop | src/utils.rs:3-10 | the per-character loop builds exactly `EscapeAll(p)` |
| Utils.NothingToReplace | src/utils.rs:11 | the closing `replace('/', "-")` changes nothing on text made of allowed characters |
| Utils.EscapeAllAlphabet | src/utils.rs:4-10 | every character the escaping loop emits is alphanumeric, `.`, `-` or `_` |
| Utils.SanitizedAlphabet | src/utils.rs:1-12 | the result holds only allowed characters, in particular no `/` and no `\` |
| Utils.FlattenedPointwise | src/utils.rs:2 | the two replacements map each character on its own and keep the length |
| Utils.EscapeAllConcat | src/utils.rs:4-10 | escaping distributes over concatenation |
| Utils.SanitizedConcat | src/utils.rs:1-12 | sanitizing a concatenation is the concatenation of the sanitized parts |
| Utils.SanitizedChar | src/utils.rs:2-9 | one character: a separator becomes `-`, an allowed one is copied, any other becomes `-u` plus hex digits whose value is its code point |
| Utils.DigitsValue | src/utils.rs:8 | the hexadecimal digits denote the number they were made from |
| Utils.ZerosValue | src/utils.rs:8 | zero padding in front does not change the value of a hex string |
| Utils.HexRoundTrip | src/utils.rs:8 | the `{:04x}` escape spells out exactly the code point |
| Utils.SanitizedLength | src/utils.rs:1-12 | the result is never shorter than the input |
| Utils.EscapeAllIdentity | src/utils.rs:4-10 | the loop copies text of allowed characters unchanged |
| Utils.SanitizedIdentity | src/utils.rs:1-12 | text made only of allowed characters is its own sanitized form |
| Utils.SanitizedSeparatorsOnly | src/utils.rs:1-12 | when separators are the only disallowed characters, each becomes `-` and nothing else changes |
| Utils.SanitizedIdempotent | src/utils.rs:1-12 | sanitizing twice is sanitizing once |
| Utils.IsNotHiddenDir | src/utils.rs:14-22 | an entry is dropped exactly when it is a directory whose name starts with `.` |
| Paths.BuildIndex | src/paths.rs:20-50 | the index of a walk: every file under its name, and a Markdown file also under its stem; `IndexLookup` and `IndexKeys` state it |
| Paths.Append | src/paths.rs:31-34 | `entry(key).or_insert_with(Vec::new).push(p)`: the list under `key` gains `p` at its end, every other list is unchanged, and `key` becomes a key |
| Paths.EntriesForSnoc | src/paths.rs:25-46 | the reference listing of a walk extended by one entry is the old listing plus what that entry files under the key |
| Paths.AddEntryLookup | src/paths.rs:26-45 | one walked entry adds to the list under `key` exactly the paths it files there: the file under its name, a `.md` file also under its stem |
| Paths.IndexLookup | src/paths.rs:20-50 | every key of the built index holds exactly the paths the reference definition files under it, in walk order |
| Paths.IndexKeysFiled | src/paths.rs:20-50 | a key that is present has a non-empty list |
| Paths.IndexKeys | src/paths.rs:20-50 | a key is present exactly when some walked file is filed under it, and then it maps to exactly those files |
| Paths.IndexListsNonEmpty | src/paths.rs:20-50 | no list in the index is empty |
| Paths.BaseDir | src/paths.rs:242-246 | the document's directory below `content`; empty when the document is not under `content` |
| Paths.StaticUrl | src/paths.rs:273 | the URL is `/static/` followed by the sanitized text |
| Paths.ResolvedPath | src/paths.rs:241-274 | every resolved path is a `/static/` URL of one flat sanitized name |
| Paths.ResolvePath | src/paths.rs:241-274 | the method computes the reference `ResolvedPath`, a `/static/` URL |
| Paths.ResolveIgnoresDocument | src/paths.rs:248-273 | a reference not starting with `./` or `../` is sanitized as written, whatever the document |
| Paths.ResolveDotSlash | src/paths.rs:248-268 | `./rest` is resolved against the document's directory below `content` |
| Paths.ResolveDotDot | src/paths.rs:255-268 | `../rest` is resolved against the parent of the document's directory (or the directory itself at the top) |
| Paths.ResolveOnlyFirstSegment | src/paths.rs:253-267 | only the first segment is interpreted: a second `..` is pushed as a literal component |
| Paths.GetInternalLinkPath | src/paths.rs:228-239 | the link always starts with `/` |
| Paths.InternalLinkStripsOneMd | src/paths.rs:229-237 | exactly one trailing `.md` is removed |
| Paths.InternalLinkVerbatim | src/paths.rs:229-237 | a name without `.md` is linked as written |
| Paths.InternalLinkIndex | src/paths.rs:234-235 | `index` and `index.md` link to `/`, a nested `a/index` does not |
| Paths.FindUniqueImage | src/paths.rs:153-194 | the result is always a `/static/` URL of one sanitized name |
| Paths.ImageFromWalk | src/paths.rs:153-194 | against the index of a walk: a bare name with files becomes `/static/` plus the sanitized path of the first of them (without `content`), anything else is resolved relative to the document |
| Paths.FirstMarkdown | src/paths.rs:203-206 | the position of the first path ending in `.md`, or none exactly when no path does |
| Paths.PageUrl | src/paths.rs:208-217 | the page URL starts with `/` |
| Paths.FindUniqueInternalLink | src/paths.rs:196-226 | the link always starts with `/` |
| Paths.InternalLinkFromWalk | src/paths.rs:196-226 | against the index of a walk: no files gives the plain internal link, otherwise the page URL of the first `.md` match, or of the first match when none is `.md` |
| Paths.LazyEnd | src/paths.rs:14-17 | the shortest admissible end of the lazy `(.*?)` caption, or none when no end is admissible |
| Paths.PastTheEnd | src/paths.rs:14-17 | no caption ends beyond the text |
| Paths.NewlineStops | src/paths.rs:14-17 | `.` does not cross a line break: no caption ends past a newline |
| Paths.CapsAt | src/paths.rs:14-17 | the captures spell out `open caption mid target )` with the caption of the given length |
| Paths.CapsShape | src/paths.rs:14-17 | the match text is the concatenation of its parts; the caption has no newline and the target is non-empty without `)` |
| Paths.LazyBracketAt | src/paths.rs:14-17 | the match at `i` is the one with the shortest admissible caption, and there is none exactly when no caption end is admissible |
| Paths.RunEnd | src/paths.rs:15-16 | the first `|` or `]` at or after `from`, or the end of the text |
| Paths.EmbedWithCaption | src/paths.rs:15-16 | `open target|caption]]` is a match when the target is non-empty without `|` or `]` and the caption has no `]` |
| Paths.EmbedPlain | src/paths.rs:15-16 | `open target]]` is a match under the same conditions |
| Paths.EmbedSound | src/paths.rs:15-16 | whatever the scanner finds is one match of the pattern, spelled out by its captures |
| Paths.EmbedParts | src/paths.rs:15-16 | a match consists of the opening, a valid body and `]]` |
| Paths.CompletePlain | src/paths.rs:15-16 | a body without `|` is captured whole as the target, with no caption |
| Paths.CompleteCaption | src/paths.rs:15-16 | a body with `|` is split at its first `|` into target and caption |
| Paths.EmbedComplete | src/paths.rs:15-16 | the scanner misses no match: wherever a match starts, it finds it with the same length and the captures split at the first `|` |
| Paths.StandardImageTarget | src/paths.rs:67-78 | absolute references are kept, any other becomes a `/static/` URL |
| Paths.ProcessStandardImages | src/paths.rs:64-81 | every `![alt](path)`, leftmost first, with a relative target resolved under `/static/`; `StandardImagesKeepAbsolute` states the identity case |
| Paths.StandardImagesKeepAbsolute | src/paths.rs:64-81 | text whose every standard image is absolute comes back unchanged |
| Paths.ProcessEmbeddedImages | src/paths.rs:83-100 | every `![[name|alt]]` made a standard image whose target is found in the index |
| Paths.EmbeddedImageTarget | src/paths.rs:86-97 | absolute references are kept; any other is looked up with `find_unique_image` and is a `/static/` URL |
| Paths.DefaultDisplay | src/paths.rs:106-113 | the display text without `|` is the last `/`-separated part of the target without `wiki:`, and holds no `/` |
| Paths.LinkTarget | src/paths.rs:117-135 | `wiki:` links go to Wikipedia, absolute ones stay as written, others go to an internal link (via the index for a name without `/`) |
| Paths.ProcessLinks | src/paths.rs:102-138 | every `[[path|display]]` made a Markdown link to Wikipedia, to the reference itself or to a site page; `WikiLinkWithDisplay` states the Wikipedia case |
| Paths.WikiLinkWithDisplay | src/paths.rs:102-138 | the whole text `[[wiki:A|d]]` becomes `[wiki:d](https://en.wikipedia.org/wiki/A)` |
| Paths.WikiLinkText | src/paths.rs:117-122 | the replacement text of a `wiki:` link |
| Paths.WikiLinkMatch | src/paths.rs:16 | `[[wiki:A|d]]` is one match with target `wiki:A` and caption `d` |
| Paths.CaptionMatch | src/paths.rs:15-16 | a whole text `open target|caption]]` is exactly one match |
| Paths.CaptionedBody | src/paths.rs:15-16 | the first `|` of `target|caption` is the one right after the target |
| Paths.ProcessWikiLinks | src/paths.rs:140-151 | every `[d](wiki:A)` made a link to the Wikipedia article; `WikiRewrite` and `WikiLinksAbsent` state it |
| Paths.WikiRewrite | src/paths.rs:140-151 | each match `[d](wiki:A)` is replaced by `[d](https://en.wikipedia.org/wiki/A)` |
| Paths.WikiLinksAbsent | src/paths.rs:140-151 | text in which `](wiki:` never occurs is returned unchanged |
| Paths.WikiNeedsMarker | src/paths.rs:17 | a parenthetical wiki link needs `](wiki:` in the text |
| Paths.ProcessedPaths | src/paths.rs:52-62 | the four passes in order: standard images, embedded images, links, parenthetical wiki links; `ProcessedPathsPlain` states the identity case |
| Paths.ProcessedPathsPlain | src/paths.rs:52-62 | text without `[` comes back unchanged from all four passes |
| Paths.FileCache.Init | src/paths.rs:20-50 | an absent index is built from the walk; a present one is kept |
| Paths.FileCache.ProcessPaths | src/paths.rs:52-62 | the index is made present, then the four passes run in order on the text |
| Fences.InkjetLanguage | src/markdown.rs:55-57 | a language is found exactly when the lower-cased name is one of the map's keys |
| Fences.InkjetLanguageIgnoresCase | src/markdown.rs:55-57 | a name and its lower-case form find the same language |
| Fences.TitleIndex | src/markdown.rs:66-68 | the position of the first token starting with `title=`, or none exactly when no token does |
| Fences.TitleValue | src/markdown.rs:69-83 | no value exactly for an empty `title=`; otherwise the token is `title=` plus the value, bare or in one pair of matching quotes |
| Fences.TitleUnquoted | src/markdown.rs:73-76 | a double-quoted title loses exactly its quotes |
| Fences.TitleVerbatim | src/markdown.rs:77-78 | an unquoted title is taken as it is |
| Fences.ExtractLanguageAndFilename | src/markdown.rs:59-85 | no language exactly for a blank info string, otherwise its first word; the file name is exactly `TitleValue` of the first `title=` token, and absent when there is none |
| Fences.IntervalMembers | src/markdown.rs:109-111 | `start..=end` holds exactly the numbers from `start` to `end` |
| Fences.ParseRanges | src/markdown.rs:98-119 | the loop over the comma-separated parts builds exactly the reference set `Ranges` |
| Fences.InsertPart | src/markdown.rs:101-116 | one part adds exactly its lines to the set |
| Fences.InsertInterval | src/markdown.rs:109-111 | the inner loop adds exactly the numbers from `start` to `end` |
| Fences.TrimWord | src/markdown.rs:101 | a part without whitespace is its own trimmed form |
| Fences.PartLinesOfBounds | src/markdown.rs:102-112 | a two-piece dash part whose pieces parse names exactly the interval between them |
| Fences.RangePart | src/markdown.rs:102-112 | `a-b` names exactly the lines from `a` to `b`, and none when `a > b` |
| Fences.NumberPart | src/markdown.rs:114-116 | a plain number names itself |
| Fences.TwoDashesPart | src/markdown.rs:103-104 | a part with two dashes names nothing |
| Fences.PartsLinesConcat | src/markdown.rs:100-117 | the lines of a list of parts are the union over the parts |
| Fences.RangesConcat | src/markdown.rs:100-117 | the parts of a comma list name their lines independently of each other |
| Fences.GroupEnd | src/markdown.rs:93-95 | a closing brace found lies after the opening and at least one character in |
| Fences.GroupEndSpec | src/markdown.rs:93-95 | the match at a position is found exactly when there is one |
| Fences.FirstGroup | src/markdown.rs:121-130 | a leftmost match found starts at or after the search start |
| Fences.FirstGroupSpec | src/markdown.rs:121-130 | the leftmost match: it is a match, none starts earlier, and none is reported only when there is none |
| Fences.LastGroupSpec | src/markdown.rs:131-138 | the group the `captures_iter` loop ends with is a brace group of the text |
| Fences.LastGroupStep | src/markdown.rs:131-138 | each match found becomes the new last one and the scan resumes after it |
| Fences.ParseHighlightingInfo | src/markdown.rs:87-140 | the method computes the reference `HighlightingInfo` |
| Fences.FirstGroupLines | src/markdown.rs:121-130 | the lines of the first `del={..}` or `add={..}` group, none without one |
| Fences.LastGroupLines | src/markdown.rs:131-138 | the loop over all brace groups leaves the lines of the last one |
| Fences.NextMatch | src/markdown.rs:131-137 | one pass of the loop: a match at or after the position, resumption after it, and the lines of that match |
| Fences.OverwriteLines | src/markdown.rs:132-136 | every brace group overwrites the highlight lines with its own |
| Fences.FirstGroupIs | src/markdown.rs:121-130 | a match with none earlier is the one the leftmost search returns |
| Fences.DelInfoDelGroup | src/markdown.rs:121-125 | in `p del={r}` the first `del=` group is `r` |
| Fences.DelInfoNoAddGroup | src/markdown.rs:126-130 | `p del={r}` holds no `add=` group |
| Fences.DelInfoLastGroup | src/markdown.rs:131-138 | the last brace group of `p del={r}` is `r` |
| Fences.DelGroupAlsoHighlights | src/markdown.rs:131-138 | the highlight set also takes a `del={..}` group: `p del={r}` gives delete lines and highlight lines both equal to the lines of `r` |
| CodeBlock.LinesNoNewline | src/markdown.rs:241 | no line `str::lines` yields holds a line feed |
| CodeBlock.LinesTerminated | src/markdown.rs:241 | `lines` undoes writing lines out each followed by `\n` |
| CodeBlock.LinesJoin | src/markdown.rs:241 | `lines` undoes gluing with `\n` when the last line is not empty |
| CodeBlock.DecimalZeros | src/markdown.rs:264-267 | leading zeros keep a digit string a digit string of the same value |
| CodeBlock.PaddedNumber | src/markdown.rs:242-267 | every line number of a block is written with exactly `width_needed` digits that denote the number |
| CodeBlock.LineClass | src/markdown.rs:255-262 | the class of a line number: deleted, else added, else highlighted, else none; `LineClassPrecedence` states each case as an if-and-only-if |
| CodeBlock.LineClassPrecedence | src/markdown.rs:255-262 | deleted beats added beats highlighted: each class is chosen exactly under its condition |
| CodeBlock.PaddedDigits | src/markdown.rs:264-267 | the padded number consists of digits only |
| CodeBlock.NumberedLineNoNewline | src/markdown.rs:263-269 | a numbered line holds no line feed when its code line and class hold none |
| CodeBlock.LineClassNoNewline | src/markdown.rs:255-262 | no class attribute holds a line feed |
| CodeBlock.NumberedLinesSplit | src/markdown.rs:250-272 | the joined markup splits back at `\n` into one numbered line per code line, in order, with number `i + 1` padded to the common width and the class of `i + 1` |
| CodeBlock.RenderedNoNewline | src/markdown.rs:250-271 | no rendered line holds a line feed |
| CodeBlock.RenderedAt | src/markdown.rs:253-270 | the rendered line at `i` holds no line feed when the code line holds none |
| CodeBlock.OneLineNoNewline | src/markdown.rs:253-270 | the same for one line with its class |
| CodeBlock.HighlightedChoice | src/markdown.rs:221-239 | the highlighter's output is used exactly when the language is known and highlighting succeeds; otherwise the escaped code |
| CodeBlock.CodeBlockShape | src/markdown.rs:274-287 | the markup exists exactly when there is a language (otherwise `unwrap` panics); it opens the code block and ends with the numbered lines and the closing tags |
| CodeBlock.RenderCodeBlock | src/markdown.rs:219-293 | the highlighted or escaped code, cut into numbered lines and wrapped with its header; `CodeBlockShape` and `RenderPanicsWithoutLanguage` state its shape and when it panics |
| CodeBlock.RenderPanicsWithoutLanguage | src/markdown.rs:219-293 | a code block renders exactly when its info string names a language |
| Frontmatter.ExtractFrontmatter | src/markdown.rs:149-170 | the parsed frontmatter and the body after the closing delimiter, or the first error; `DelimiterErrors`, `SuccessIsValid` and `PageRoundTrip` state it |
| Frontmatter.CheckedOutcome | src/markdown.rs:158-166 | the parser's error comes first, then a missing `title` or `date`, then a non-string one; success exactly for a mapping with string `title` and `date`, returned with the body |
| Frontmatter.OccursInSlice | src/markdown.rs:155 | an occurrence in `trimmed[3..]` is an occurrence at the shifted position of the trimmed text |
| Frontmatter.FindEnd | src/markdown.rs:155 | the search after the opening `---` finds the first `\n---` there, or none when there is none |
| Frontmatter.DelimiterErrors | src/markdown.rs:150-169 | "missing" exactly when the trimmed text does not start with `---`; "end delimiter not found" exactly when it does but no `\n---` follows |
| Frontmatter.TrimmedDelimiterErrors | src/markdown.rs:151-169 | the same for text already trimmed |
| Frontmatter.ParsedOutcome | src/markdown.rs:155-166 | with both delimiters present, the text between them, trimmed, goes to the parser and the body starts after the closing `\n---` |
| Frontmatter.ExtractAt | src/markdown.rs:155-166 | the split at the closing delimiter the search reports |
| Frontmatter.FindEndIs | src/markdown.rs:155 | the search reports the first closing delimiter |
| Frontmatter.SuccessIsValid | src/markdown.rs:149-170 | success means an opening `---` and string `title` and `date` |
| Frontmatter.TrimStartWhitespace | src/markdown.rs:150 | `trim_start` removes exactly the leading whitespace |
| Frontmatter.PageEnd | src/markdown.rs:155 | in a written page the closing delimiter found is the one written after the frontmatter text |
| Frontmatter.PageRoundTrip | src/markdown.rs:149-170 | writing a page as whitespace, `---`, frontmatter text, `\n---` and a body and splitting it gives back the parsed frontmatter and exactly that body |
| Frontmatter.PageStart | src/markdown.rs:150-151 | leading whitespace is dropped up to the opening `---` |
| Frontmatter.PageParts | src/markdown.rs:157-165 | the text between the delimiters is the frontmatter text and the body is what follows |
| Events.TextOfConcat | src/markdown.rs:296-301 | the heading text of two stretches of events is the concatenation of their texts |
| Events.TextOfCons | src/markdown.rs:296-301 | read from the front: the first event's text, then the rest |
| Events.Slug | src/markdown.rs:302-306 | the heading id: the trimmed, lower-cased text with spaces made dashes and every other non-slug character dropped; `SlugAlphabet`, `SlugIdempotent` and `SlugOfWords` state it |
| Events.SpacesToDashes | src/markdown.rs:305 | replacing spaces keeps the length |
| Events.KeepSlugCharsSpec | src/markdown.rs:306 | the filter keeps only alphanumerics and `-`, each taken from the input, and keeps text of such characters unchanged |
| Events.SlugAlphabet | src/markdown.rs:302-306 | a slug holds only lower-case alphanumerics and `-` |
| Events.SlugOfSlugChars | src/markdown.rs:302-306 | text made of slug characters alone is its own slug |
| Events.LowerOfSlugChars | src/markdown.rs:304-305 | lower-casing and replacing spaces leave slug characters alone |
| Events.SlugIdempotent | src/markdown.rs:302-306 | slugging a slug changes nothing |
| Events.SlugOfWords | src/markdown.rs:302-306 | lower-case words separated by single spaces become the words joined by `-` |
| Events.DashesSlugChars | src/markdown.rs:305 | lower-case words with spaces become slug characters once spaces are dashes |
| Events.Step | src/markdown.rs:199-333 | one turn of the event loop, its arms in the source's order, or a panic; the `Step..` lemmas state each arm |
| Events.StepsConcat | src/markdown.rs:199-333 | running two stretches of events is running the second from where the first ends, and a panic in the first is final |
| Events.StepPanics | src/markdown.rs:204-293 | one turn panics exactly at a code block opened with a lone-quote `title=` and at the end of a code block without a language |
| Events.StepToc | src/markdown.rs:294-320 | the table of contents only grows, by exactly one entry, with the slug and the text, when an open heading ends |
| Events.StepSlugIds | src/markdown.rs:302-312 | every turn keeps every id a slug |
| Events.StepPlain | src/markdown.rs:321-331 | outside a code block a plain event takes the catch-all arm |
| Events.StepInline | src/markdown.rs:216-218 | inside a code block an inline event adds its text, if any, to the code |
| Events.StepsSlugIds | src/markdown.rs:199-333 | the ids of every run's table of contents are slugs |
| Events.RunSlugIds | src/markdown.rs:172-338 | the same for a run from the initial state |
| Events.PassThrough | src/markdown.rs:321-331 | outside code blocks and headings, plain events are passed on in order |
| Events.CodeAccumulates | src/markdown.rs:216-218 | inside a code block only text is kept, appended to the code |
| Events.HeadingCollects | src/markdown.rs:326-327 | inside a heading every plain event is collected in order |
| Events.HeadingEmitted | src/markdown.rs:201-320 | a heading of plain events ends in one more table-of-contents entry with its slug and text, and one heading markup event |
| Events.StepStartCode | src/markdown.rs:204-215 | opening a code block reads the language, the file name and the line sets from the info string and clears the code |
| Events.StepsOne | src/markdown.rs:199 | a run over one event is one turn |
| Events.CodeBlockRun | src/markdown.rs:204-293 | a code block holding inline events collects their text before its end is handled |
| Events.CodeBlockEmitted | src/markdown.rs:204-293 | a code block with a language is replaced by its rendered markup; its text stays behind until the next block opens |
| Events.StepEndCode | src/markdown.rs:219-293 | a code block with a language ends in its markup and the fence and line sets are reset |
| Events.BlankCodeBlockPanics | src/markdown.rs:219-287 | a code block whose info string is blank makes the loop panic, whatever it holds |
| Events.IndentedCodeBlockPanics | src/markdown.rs:206-209 | in particular every indented code block makes the loop panic |
| Events.HeadingText | src/markdown.rs:296-301 | the loop over the inner events collects exactly their text |
| Events.ProcessEvents | src/markdown.rs:189-333 | the loop over the parser's events computes the machine's run, `None` where the source panics |
| Events.MarkdownToHtml | src/markdown.rs:172-338 | the index is made present, the path passes and a second wiki pass run, and the output is that of the machine's run over the parsed events |
| FileTree.FenceFrom | src/file_tree.rs:190-199 | the first `---` line at or after `k`, or none exactly when there is none |
| FileTree.StopFrom | src/file_tree.rs:192-209 | the first line inside the frontmatter that is `---` or a `title:` line, or none exactly when there is none |
| FileTree.ScanInside | src/file_tree.rs:192-209 | inside the frontmatter the title comes from the first line that is `---` (no title) or a `title:` line |
| FileTree.ScanOutside | src/file_tree.rs:192-198 | before the frontmatter, lines are skipped up to the first `---` |
| FileTree.TitleSearch | src/file_tree.rs:187-210 | the title is the trimmed value of the first `title:` line between the first `---` and the next one, if any |
| FileTree.DisplayName | src/file_tree.rs:175-216 | the title of a Markdown file, or its stem when it has none, the title is empty or the file cannot be read; `DisplayNameFallback` and `ReadDisplayName` state it |
| FileTree.DisplayNameFallback | src/file_tree.rs:211-216 | the file stem stands in exactly when no non-empty title was read (or the file could not be read) |
| FileTree.ReadDisplayName | src/file_tree.rs:175-216 | the line loop with its `in_frontmatter` and `found_title` flags computes the reference `DisplayName` |
| FileTree.MarkdownPath | src/file_tree.rs:218-227 | the page path of a Markdown file: without `.md`, and empty for the root `index.md`; `MarkdownPathRestores` and `IndexPaths` state it |
| FileTree.MarkdownPathRestores | src/file_tree.rs:218-227 | the node path is empty exactly for the root index (or a bare `.md`); otherwise putting `.md` back gives the file's path |
| FileTree.IndexPaths | src/file_tree.rs:218-224 | only the index at the root becomes `""`; deeper ones keep their path |
| FileTree.StaticPath | src/file_tree.rs:229-239 | the path of any other file under `static/`, sanitized, with image suffixes made `.webp` on conversion; `StaticPathPlain`, `StaticPathFlat` and `WebpKeepsPrefix` state it |
| FileTree.StaticPathPlain | src/file_tree.rs:229-239 | without conversion the path is `static/` and the sanitized path |
| FileTree.UpperCaseNotConverted | src/file_tree.rs:232-234 | the extension test is case-sensitive: a `JPG` file is never converted |
| FileTree.StaticPathFlat | src/file_tree.rs:229-239 | the path starts with `static/` and only that prefix holds a `/` |
| FileTree.WebpKeepsPrefix | src/file_tree.rs:235-237 | the three `.webp` replacements leave `static/` in front and add no `/` |
| FileTree.ReplaceKeepsPrefix | src/file_tree.rs:235-237 | a pattern starting with `.` does not touch the `static/` prefix |
| FileTree.NodeLeTotalPreorder | src/file_tree.rs:251-255 | the comparator (directories first, then lower-cased names) is a total preorder |
| FileTree.Tree | src/file_tree.rs:140-258 | the nodes of the visible entries, sorted directories first and then by lower-cased name; `TreeOrder` and `TreeContents` state it |
| FileTree.TreeOrder | src/file_tree.rs:251-257 | every directory node comes before every file node, and within each group names ascend case-insensitively |
| FileTree.TreeContents | src/file_tree.rs:140-257 | the sorted tree is a permutation of the nodes of the kept entries that keeps equal-key nodes in walk order |
| FileTree.HiddenEntryDropped | src/file_tree.rs:144-160 | an entry whose name starts with `.` adds nothing |
| FileTree.NodesOfVisible | src/file_tree.rs:144-249 | every node comes from a kept entry and every kept entry gives its node |
| FileTree.FileNodeKinds | src/file_tree.rs:174-248 | a file's node is not a directory, has no children, and carries its display name and its page or static path |
| FileTree.BuildFileTree | src/file_tree.rs:140-258 | the loop over the walk and the sort compute the reference `Tree` |
| FileTree.RenderNode | src/file_tree.rs:111-138 | the list item of a node: a directory with its rendered children, or a file linking to its path; `ItemShapes` and `RenderFileNode` state it |
| FileTree.RenderNodesConcat | src/file_tree.rs:123-125 | rendering distributes over concatenation of node lists |
| FileTree.ItemShapes | src/file_tree.rs:111-138 | a file's markup starts with its link; a directory's ends with its children's markup in the contents list |
| FileTree.RenderFirst | src/file_tree.rs:104-106 | a list's markup is its first node's markup, then the rest's |
| FileTree.RenderFileNode | src/file_tree.rs:111-138 | the recursive method with its loop over the children computes the reference `RenderNode` |
| FileTree.TreeHtmlParts | src/file_tree.rs:99-109 | the block holds each top-level node's markup in order between its opening and closing markup |
| FileTree.RenderTree | src/file_tree.rs:102-108 | the loop over the top-level nodes computes the reference `TreeHtml` |
| FileTree.GenerateFileTreeHtml | src/file_tree.rs:99-109 | the tree of `content`, rendered |
| Sorting.InsertPermutes | src/file_tree.rs:251-255 | inserting adds exactly the one element |
| Sorting.InsertShape | src/file_tree.rs:251-255 | inserting puts `x` in at one position and keeps the rest in order |
| Sorting.InsertSorted | src/file_tree.rs:251-255 | inserting into a sorted sequence keeps it sorted |
| Sorting.InsertSameKey | src/file_tree.rs:251-255 | an inserted element goes after the elements that compare equal to it |
| Sorting.SortBySorted | src/rss.rs:57 | `sort_by` with a total preorder yields a sorted sequence |
| Sorting.SortByPermutes | src/rss.rs:57 | `sort_by` keeps exactly the same elements |
| Sorting.SortByStable | src/file_tree.rs:251-255 | `sort_by` is stable: elements that compare equal keep their order |
| Config.AsStr | src/config.rs:11-17 | the serialised name of a theme type; `AsStrNames` states the names and that they differ |
| Config.AsStrNames | src/config.rs:11-17 | the names are `custom` and `preset`, and two types never share one |
| Config.PresetThemes | src/config.rs:46-183 | the two presets with their light and dark palettes; `PresetNames` and the accent lemmas state them |
| Config.PresetNames | src/config.rs:46-183 | there are exactly two presets, `catppuccin` and `gruvbox`, each with its light and dark palette |
| Config.CatppuccinAccent | src/config.rs:50-113 | in both Catppuccin palettes `accent_color` equals `link_color` |
| Config.GruvboxAccent | src/config.rs:115-181 | in both Gruvbox palettes `accent_color` equals `link_color` |
| Config.PresetAccentIsLink | src/config.rs:58 | in every preset, light and dark, `accent_color` equals `link_color` |
| Theme.SelectPalettes | src/theme.rs:18-30 | the preset or custom palettes the configuration chooses, or one of three errors; `SelectionOutcome` states each case |
| Theme.SelectionOutcome | src/theme.rs:18-30 | selection fails with "Preset name not specified" exactly for a preset theme without a name, with "Unknown preset theme" exactly for a name other than `catppuccin`/`gruvbox`, with "Custom theme not specified" exactly for a custom theme without its table; otherwise it yields the custom or the preset light and dark palettes |
| Theme.FirstMissingNone | src/theme.rs:32-39 | validation reports nothing exactly when both palettes define every required variable |
| Theme.FirstMissingAt | src/theme.rs:32-39 | otherwise it reports the first required variable missing from either palette, as missing light when the light palette lacks it and as missing dark only when the light one has it |
| Theme.CheckRequired | src/theme.rs:32-39 | the loop with its early returns reports exactly the first missing variable |
| Theme.CatppuccinComplete | src/config.rs:50-113 | both Catppuccin palettes define all 29 required variables |
| Theme.GruvboxComplete | src/config.rs:115-181 | both Gruvbox palettes define all 29 required variables |
| Theme.PresetsComplete | src/theme.rs:8-16 | every preset passes the required-variable check |
| Theme.BuildCssLines | src/theme.rs:41-45 | the `push_str` loop builds one `    --name: value;` line per palette entry, in iteration order |
| Theme.CssKey | src/theme.rs:43 | the custom-property name of a palette key: `--` and the key with `_` made `-`; `CssKeyShape` states it |
| Theme.CssKeyShape | src/theme.rs:43 | a CSS name starts with `--` and has no `_` left after it; a key without `_` is kept as is |
| Theme.CssLineNewlines | src/theme.rs:44 | a line holds exactly one newline when the key and value have none |
| Theme.CssLinesCount | src/theme.rs:41-50 | a block has exactly as many lines as entries |
| Theme.IterationSize | src/theme.rs:42 | iterating a palette yields as many entries as it has keys |
| Theme.DistinctKeysCount | src/theme.rs:42 | entries with pairwise distinct keys have as many keys as entries |
| Theme.PaletteLineCount | src/theme.rs:41-50 | a block has exactly one line per variable of its palette |
| Theme.PaletteLineOf | src/theme.rs:42-44 | every variable of the palette contributes its own line to the block |
| Theme.LinesConcat | src/theme.rs:41-45 | the lines of two runs of entries are the lines of the first then those of the second |
| Theme.LinesSnoc | src/theme.rs:44 | one more entry appends its line to the block |
| Theme.LinesSplit | src/theme.rs:41-45 | a block is the lines before an entry, its line, and the lines after it |
| Theme.FiveParts | src/theme.rs:51-73 | where the four blocks of the nine-part stylesheet lie and what precedes each |
| Theme.ThemeCssBlocks | src/theme.rs:51-73 | the stylesheet holds the light block for `:root` and for `[data-theme="light"]` and the dark block in the dark media query and for `[data-theme="dark"]`, in that order, each right after its opening |
| Theme.Stylesheet | src/theme.rs:18-73 | the stylesheet of the chosen palettes with its light and dark blocks, or the first selection or validation error; `PresetStylesheet`, `StylesheetValidation` and `ThemeCssBlocks` state it |
| Theme.PresetStylesheet | src/theme.rs:18-39 | a named preset always yields a stylesheet |
| Theme.StylesheetValidation | src/theme.rs:32-39 | once palettes are selected, a stylesheet exists exactly when both define every required variable |
| Theme.GenerateThemeCss | src/theme.rs:7-86 | on an error nothing is written and that error is returned; otherwise exactly `theme.css` is written with the minified stylesheet |
| Build.CollectEntries | src/build.rs:213-231 | the first walk lists exactly `MarkdownFiles(walk)` and `Directories(walk)`, in walk order |
| Build.MarkdownMembers | src/build.rs:216-227 | a path is a listed Markdown file exactly when some walked, non-hidden `.md` file of the walk has it |
| Build.DirectoryMembers | src/build.rs:216-230 | a path is a listed directory exactly when some walked, non-hidden directory other than `content` has it |
| Build.ListedPathsVisible | src/build.rs:216-224 | no listed path has a component starting with `.` |
| Build.HiddenSubtreeSkipped | src/build.rs:218 | an entry below a hidden directory adds nothing to either list: the walk does not descend there |
| Build.ClashWith | src/build.rs:237-247 | the directory found clashes with the Markdown file (same parent, stem equal to its name); none is found exactly when no directory clashes |
| Build.FirstConflict | src/build.rs:233-248 | the first Markdown file with a clash, paired with the first directory it clashes with; `FirstConflictIff` proves when there is one and that it clashes |
| Build.FirstConflictIff | src/build.rs:233-248 | the check fails exactly when some Markdown file and some directory clash, and the pair it reports is such a pair |
| Build.CheckConflicts | src/build.rs:233-248 | the nested loop returns the first clashing pair, Markdown file first, or none |
| Build.JoinSlash | src/build.rs:263 | a path of at least two components prints with `/` right after its first one |
| Build.PrintsAsName | src/build.rs:263 | a path prints as a single name without `/` exactly when it is that one component |
| Build.PageOutput | src/build.rs:262-269 | the page of a Markdown file: `dist/index.html` for the root `index.md`, otherwise `dist`, the path without its extension, and `index.html`; `RootIndexPage`, `NestedPage` and `TopLevelPage` state it |
| Build.RootIndexPage | src/build.rs:262-264 | a page goes to `dist/index.html` exactly for the root `index.md` |
| Build.NestedPage | src/build.rs:265-268 | a Markdown file below a directory goes to `dist/<dirs>/<stem>/index.html`, an `index.md` there included |
| Build.TopLevelPage | src/build.rs:265-268 | a top-level Markdown file other than `index.md` goes to `dist/<stem>/index.html` |
| Build.AssetOutput | src/build.rs:303-306 | the copy of any other file: `dist/static/` and the sanitized relative path, one component; `AssetOutputFlat` states it |
| Build.ListingOutput | src/build.rs:322-341 | the listing of a directory: `dist`, the relative path and `index.html` |
| Build.AssetOutputFlat | src/build.rs:303-306 | a non-Markdown file is copied directly into `dist/static` under one name free of `/` and `\` |
| Build.OutputsCollideIffClash | src/build.rs:233-248 | a page and a listing would be the same file exactly when the Markdown file and the directory clash, the root `index.md` aside |
| Build.WalksAgree | src/build.rs:250-320 | the second walk makes a page of exactly the listed Markdown files, a listing of exactly the listed directories, and a copy of every other walked, non-hidden file |
| Build.WriteTargetsFiles | src/build.rs:250-351 | every file written is some target's output, and when nothing fails every target's output is written |
| Build.WriteKeepsKeys | src/build.rs:250-351 | writing never removes a file |
| Build.WriteTargetsError | src/build.rs:285-294 | the only error the second walk reports is a failing output |
| Build.ConflictWritesNoPage | src/build.rs:233-250 | the build stops with a naming conflict exactly when some pair clashes, and then nothing but the stylesheet has been written |
| Build.WriteEntry | src/build.rs:255-350 | one entry's output is written when it renders, and its failure is returned otherwise |
| Build.WriteTargetsAppend | src/build.rs:250-351 | writing one entry's targets and then the rest is writing them all, stopping at the first failure |
| Build.BuildOutcome | src/build.rs:61-351 | the files and result of a build: the stylesheet or its error, then the naming check, then the writes in walk order to the first error; `Build` and `ConflictWritesNoPage` state it |
| Build.Build | src/build.rs:61-351 | the files written and the result are exactly those of `BuildOutcome`: stylesheet, conflict check, then the targets in walk order |
| Rss.FeedUrl | src/rss.rs:34-38 | the URL of a post: `/` for `index.md`, otherwise `/` and the relative path with every `.md` removed; `EveryMdRemoved` proves what that replacement takes out |
| Rss.EveryMdRemoved | src/rss.rs:34-38 | every `.md` of the relative path is removed, not only the extension: `a.md/b.md` gets the URL `/a/b`; only `index.md` itself gives `/` |
| Rss.ReplacePrefixFree | src/rss.rs:37 | `replace` leaves a prefix in which no occurrence starts untouched |
| Rss.FirstParseSpec | src/rss.rs:100-104 | the format search fails exactly when every format rejects the text, and otherwise yields the date of the first format that accepts it |
| Rss.CustomDate | src/rss.rs:96-110 | the date of the trimmed text under the first of the five formats that accepts it, or the error that quotes the trimmed text; `CustomDateSpec` states it |
| Rss.CustomDateSpec | src/rss.rs:96-110 | `parse_custom_date` fails exactly when none of `%d %b %Y`, `%d %B %Y`, `%Y-%m-%d`, `%Y/%m/%d`, `%d/%m/%Y` accepts the trimmed text; otherwise the first that does gives the date |
| Rss.ParseCustomDate | src/rss.rs:96-110 | the loop with its early return yields exactly that date or error |
| Rss.DateAlwaysPresent | src/rss.rs:40-42 | the "Missing date in frontmatter" error cannot occur: a frontmatter that was accepted has a string `date` |
| Rss.FailureSticks | src/rss.rs:20-55 | once a page of the walk fails, the whole collection fails with that error |
| Rss.PostsFail | src/rss.rs:20-55 | collecting fails exactly when some Markdown page of the walk fails to be read, split or dated |
| Rss.PostsOfPages | src/rss.rs:20-55 | on success every post comes from a Markdown page of the walk and every such page gives a post |
| Rss.CollectPosts | src/rss.rs:19-55 | the collecting loop yields exactly the posts of the walk in walk order, or the first error |
| Rss.NotOlderPreorder | src/rss.rs:57 | the comparison of `sort_by` is a total preorder |
| Rss.Feed | src/rss.rs:57 | the posts sorted by `sort_by` with the later date first; `FeedOrder` proves the order, the permutation and the stability |
| Rss.FeedOrder | src/rss.rs:57 | the sorted posts are the same posts, newest first, and posts with the same date keep their walk order |
| Rss.ItemsFail | src/rss.rs:59-76 | building the items fails exactly when `markdown_to_html` panics on some post |
| Rss.ItemsFirstPanic | src/rss.rs:59-76 | a failure reports the first post on which `markdown_to_html` panics, and every post before it renders |
| Rss.ItemsOfPosts | src/rss.rs:59-76 | on success there is one item per post, in order: the link is the base URL followed by the post's URL, the date is the post's date in RFC 2822 form, and the description is the rendered body with lazy loading applied |
| Rss.ItemsSticks | src/rss.rs:59-76 | once the items of a prefix fail, the items of every extension fail with the same error |
| Rss.BuildItems | src/rss.rs:59-76 | the items loop yields exactly those items, or stops at the first panic of `markdown_to_html` |
| Rss.FeedChannel | src/rss.rs:16-86 | the channel of the feed, or the first error: reading and dating the pages, then rendering the posts newest first; `FeedChannelFails` and `FeedChannelSpec` state it |
| Rss.FeedChannelFails | src/rss.rs:16-86 | the feed fails exactly when some Markdown page of the walk fails to be read, split or dated, or when `markdown_to_html` panics on one of the posts |
| Rss.FeedChannelSpec | src/rss.rs:16-86 | on success the channel links to the base URL, and its items are, in order, those of a newest-first arrangement of exactly the collected posts |
| Rss.GenerateRss | src/rss.rs:16-94 | on an error or a panic nothing is written and the error is returned; otherwise exactly `rss.xml` is written with the serialized channel |
| LazyLoad.WhitespaceEnd | src/lazy_load.rs:97 | the run of `\s+` after `<img`: every character up to the result is whitespace and the next one is not |
| LazyLoad.TailAt | src/lazy_load.rs:97 | a match of `src="([^"]+)"([^>]*)>` at `k`: a non-empty source without `"`, the closing quote, then attributes without `>` up to the `>` |
| LazyLoad.LastTail | src/lazy_load.rs:97 | the greedy `([^>]*)` before `src=`: the last start in the range where the rest of the pattern matches, or none when it matches nowhere there |
| LazyLoad.CutAt | src/lazy_load.rs:97 | a match found at `i` is cut at valid positions of the pattern |
| LazyLoad.ImgAt | src/lazy_load.rs:97 | a match at `i` ends after `i` and within the text |
| LazyLoad.TagOf | src/lazy_load.rs:100-102 | the three capture groups of a match end after its start and within the text |
| LazyLoad.ImgAtShape | src/lazy_load.rs:97-102 | a match spells out `<img`, non-empty whitespace, attributes without `>`, `src="`, a non-empty source without `"`, `"`, attributes without `>`, `>` |
| LazyLoad.CutShape | src/lazy_load.rs:97-102 | the groups of a valid cut spell out the matched text |
| LazyLoad.TagShape | src/lazy_load.rs:97-102 | the slices between the cut positions spell out the matched text |
| LazyLoad.Placeholder | src/lazy_load.rs:104-112 | the placeholder of an image source: `/static/lazy/`, the file stem, and `.webp` or the original extension; `PlaceholderFromName` states it |
| LazyLoad.PlaceholderFromName | src/lazy_load.rs:104-112 | without WebP the placeholder is `/static/lazy/` plus the source's file name, with a `.` added when it has no extension; with WebP it is the stem plus `.webp`; a source without file name gives `/static/lazy/.` or `/static/lazy/.webp` |
| LazyLoad.AddLazyLoading | src/lazy_load.rs:95-123 | every `<img src=..>` tag, leftmost first and without overlap, replaced by the lazy container with the placeholder; `NoImageUnchanged` and `FirstImageRewritten` state it |
| LazyLoad.NoImageUnchanged | src/lazy_load.rs:95-123 | a page without `<img` is returned unchanged |
| LazyLoad.NoImageUnchangedWith | src/lazy_load.rs:95-123 | the same for any replacement text |
| LazyLoad.FirstImageRewritten | src/lazy_load.rs:99-120 | the text before the first tag is kept and the tag becomes the lazy container: the tag with the placeholder as `src`, the real source as `data-src`, `loading="lazy"`, the attributes before and after kept, then the placeholder image |
| LazyLoad.FirstImageRewrittenWith | src/lazy_load.rs:99-120 | the same for any fixed text around the captured pieces |
| LazyLoad.FirstHitPrefix | src/lazy_load.rs:99 | the first match's replacement follows the untouched text before it |
| Strings.TrimStartSpec | src/markdown.rs:150 | `trim_start` drops exactly the leading run of whitespace |
| Strings.TrimEndSpec | src/markdown.rs:150 | `trim_end` drops exactly the trailing run of whitespace |
| Strings.SplitJoin | src/markdown.rs:100-103 | joining the pieces of `split(c)` with `c` gives back the text |
| Strings.ParseUsizeRoundTrip | src/markdown.rs:106-114 | `parse::<usize>` reads back every printed 64-bit number |
| Strings.ReplaceAllAbsent | src/rss.rs:37 | `replace` changes nothing where the pattern never occurs |
| Strings.LexLeTotal | src/file_tree.rs:254 | string comparison is total |
| Strings.LexLeTransitive | src/file_tree.rs:254 | string comparison is transitive |
| Strings.LexLeAntisymmetric | src/file_tree.rs:254 | strings that compare both ways are equal |
| RustPath.Parent | src/build.rs:235 | `parent()` exists exactly for a non-empty path, which is its parent plus its last component |
| RustPath.StripContent | src/build.rs:262 | `strip_prefix("content")` succeeds exactly on paths starting with `content` and yields the rest |
| RustPath.StemExtension | src/lazy_load.rs:105-106 | a name with an extension is its stem, a `.` and the extension |
| RustPath.MarkdownExtension | src/build.rs:225 | a name ending in `.md` with a non-empty stem has the extension `md` and loses exactly those three characters as its stem |
| Rewrite.ReplaceNoMatch | src/paths.rs:142 | `replace_all` returns text in which the pattern matches nowhere unchanged |
| Rewrite.FirstMatch | src/paths.rs:66 | the text before the leftmost match is copied, the match is replaced by the closure's text, and the scan resumes right after it |
| Rewrite.ReplaceSkip | src/paths.rs:104 | text before the next match is copied unchanged |
| Rewrite.ReplaceWhole | src/paths.rs:85 | a text that is one match in its entirety becomes that match's replacement |
| Output.Dist.Write | src/file_ops.rs:18-21 | `safely_write_file` leaves the file at the path holding the content and changes no other file |

## Left out

- File-system effects are left out: clearing and creating directories, copying, and a write that fails (`src/file_ops.rs`). The output tree is a map from path to contents, and `Output.Dist.Write` stores one file.
- Reading a file is a parameter that returns the text or an error.
- Every directory walk is an input: the sequence of entries `WalkDir` yields, in its order.
- Reading and parsing `Config.toml` is not modelled (src/build.rs:17-27). A configuration is a value.
- The static-folder copy with CSS and JS minification is not modelled (src/build.rs:136-198), because it is file copying through foreign minifiers.
- Loading the Tera templates and printing progress are not modelled.
- What a page, a copy or a listing contains is a parameter of `Build`. That covers reading, frontmatter, `markdown_to_html`, Tera, the HTML minifier and `create_listing`. Which targets are written, where, in what order and when the build stops is modelled.
- These foreign libraries are parameters:
  - the YAML parser;
  - the pulldown-cmark tokenizer, whose event stream is an input;
  - the inkjet highlighter;
  - `htmlescape` and `html::push_html`;
  - chrono date parsing and RFC 2822 formatting;
  - the CSS minifier;
  - the XML serialization of the RSS channel.
- A `HashMap` yields its entries in an order that is an input, namely an iteration of its keys. This applies to the theme palettes.
- `src/main.rs` is not part of this model: it is command-line dispatch.
- `src/serve.rs` is not part of this model: it is an asynchronous HTTP server.
- `src/images.rs` is not part of this model: it calls image codecs and computes in floating point.
- `src/listing.rs` is not part of this model: it reads directories and file modification times.
- `src/static_files.rs`, `setup_lazy_loading` and `process_file_tree_assets` are not part of this model: they only write fixed JS and CSS texts.
- `is_alphanumeric` and `to_lowercase` are restricted to ASCII, because Unicode character tables are out of reach of the model. `char::is_whitespace` is exact.
- The `lazy_static` globals behind `RwLock`/`Mutex` are modelled as sequential state. The file index is the `Paths.FileCache` class, with no concurrency.
- `slice::sort_by` is modelled by its result, `Sorting.SortBy`, not as an in-place merge sort of the vector.
- `Events.ProcessEvents` and `Events.MarkdownToHtml` model a panic as the result `None`. A panic unwinds. In the feed, the renderer parameter of `Rss.FeedChannel` yields `None` where `markdown_to_html` panics, and the feed ends with the error `RenderPanicked`.
- `Fences.ExtractLanguageAndFilename` requires that no `title="` token holds a lone quote. On that input the source slices out of range and panics. The event loop reports that panic as `None`.
- `LazyLoad.FirstImageRewritten` states the rewrite of the first `<img>` tag and what precedes it. The text after that tag is rewritten by the same scanner, `Rewrite`, whose steps are proved separately.
- `Sorting.SortBy` states the sorted order, the permutation and the stability of the result, not the comparisons the standard library performs.
