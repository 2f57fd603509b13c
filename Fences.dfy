/** `src/markdown.rs`, the fence info string of a code block: its language,
    its `title=` file name and its `del={..}`, `add={..}` and `{..}` line
    ranges. */
module Fences {
  import opened Strings

  /** The languages the highlighter is asked for. */
  datatype Language =
    | Rust | Javascript | Typescript | Python | Css | Scss | Html | Lua | Jsx | Tsx
    | Zig | Ocaml | Java | C | Cpp | CSharp | Nix | Go

  /** `LANGUAGE_MAP`: the names a fence may give a language by. */
  const LanguageMap: map<string, Language> := map[
    "rust" := Rust, "rs" := Rust,
    "javascript" := Javascript, "js" := Javascript,
    "typescript" := Typescript, "ts" := Typescript,
    "python" := Python, "py" := Python,
    "css" := Css, "scss" := Scss, "html" := Html, "lua" := Lua,
    "jsx" := Jsx, "tsx" := Tsx, "zig" := Zig,
    "ml" := Ocaml, "ocaml" := Ocaml,
    "java" := Java, "c" := C,
    "cpp" := Cpp, "c++" := Cpp,
    "c#" := CSharp, "csharp" := CSharp,
    "nix" := Nix, "go" := Go, "golang" := Go
  ]

  /** `get_inkjet_language`: the language named, compared without regard to case. */
  function InkjetLanguage(lang: string): (r: Option<Language>)
    ensures r.Some? <==> ToLower(lang) in LanguageMap
  {
    var key := ToLower(lang);
    if key in LanguageMap then Some(LanguageMap[key]) else None
  }

  lemma ToLowerIdempotent(s: string)
    ensures ToLower(ToLower(s)) == ToLower(s)
  {
  }

  /** The lookup ignores case: a name and its lower-case form find the same language. */
  lemma InkjetLanguageIgnoresCase(lang: string)
    ensures InkjetLanguage(lang) == InkjetLanguage(ToLower(lang))
  {
    ToLowerIdempotent(lang);
  }

  // ---------------------------------------------------------------------------
  // Language and file name

  /** The language and file name a fence info string gives. */
  datatype FenceInfo = FenceInfo(language: Option<string>, filename: Option<string>)

  /** The index of the first token starting with `title=`. */
  function TitleIndex(parts: seq<string>): (r: Option<nat>)
    ensures r.Some? ==> r.value < |parts| && StartsWith(parts[r.value], "title=")
    ensures r.Some? ==> forall j :: 0 <= j < r.value ==> !StartsWith(parts[j], "title=")
    ensures r.None? ==> forall j :: 0 <= j < |parts| ==> !StartsWith(parts[j], "title=")
    decreases |parts|
  {
    if |parts| == 0 then None
    else if StartsWith(parts[0], "title=") then Some(0)
    else match TitleIndex(parts[1..])
      case Some(k) => Some(k + 1)
      case None => None
  }

  /** A `title=` token whose value is a single quote character: the source
      slices such a value out of range and panics. */
  predicate LoneQuote(part: string) {
    |part| == 7 && (part[6] == '"' || part[6] == '\'')
  }

  predicate Quoted(v: string, q: char) {
    |v| > 0 && v[0] == q && v[|v| - 1] == q
  }

  /** The value of a `title=` token: nothing when empty, and with one pair of
      matching surrounding quotes removed. */
  function TitleValue(part: string): (r: Option<string>)
    requires StartsWith(part, "title=") && !LoneQuote(part)
    ensures r.None? <==> |part| == 6
    ensures r.Some? ==>
              (part == "title=" + r.value && !Quoted(r.value, '"') && !Quoted(r.value, '\''))
              || part == "title=\"" + r.value + "\""
              || part == "title='" + r.value + "'"
  {
    // the first `=` of a token starting with `title=` is at index 5
    if 5 < |part| - 1 then
      var value := part[6..];
      if Quoted(value, '"') || Quoted(value, '\'') then
        assert part == part[..7] + value[1..|value| - 1] + [part[|part| - 1]];
        Some(value[1..|value| - 1])
      else
        assert part == part[..6] + value;
        Some(value)
    else None
  }

  /** A double-quoted title loses exactly its quotes. */
  lemma TitleUnquoted(name: string)
    ensures TitleValue("title=\"" + name + "\"") == Some(name)
  {
    var part := "title=\"" + name + "\"";
    assert part[..6] == "title=";
    assert part[6..] == "\"" + name + "\"";
  }

  /** An unquoted title is taken as it is. */
  lemma TitleVerbatim(name: string)
    requires |name| > 0 && name[0] != '"' && name[0] != '\''
    ensures TitleValue("title=" + name) == Some(name)
  {
    var part := "title=" + name;
    assert part[..6] == "title=";
    assert part[6..] == name;
  }

  /** The first `title=` token of the info string is a lone quote. */
  predicate LoneQuoteTitle(info: string) {
    var parts := SplitWhitespace(info);
    match TitleIndex(parts)
    case Some(k) => LoneQuote(parts[k])
    case None => false
  }

  /** `extract_language_and_filename`. */
  function ExtractLanguageAndFilename(info: string): (r: FenceInfo)
    requires !LoneQuoteTitle(info)
    ensures r.language.None? <==> IsBlank(info)
    ensures r.language.Some? ==>
              IsWord(r.language.value) && |SplitWhitespace(info)| > 0 && r.language.value == SplitWhitespace(info)[0]
    ensures r.filename.Some? ==>
              var k := TitleIndex(SplitWhitespace(info));
              k.Some? && TitleValue(SplitWhitespace(info)[k.value]) == r.filename
    ensures TitleIndex(SplitWhitespace(info)).None? ==> r.filename.None?
    ensures TitleIndex(SplitWhitespace(info)).Some? ==>
              r.filename == TitleValue(SplitWhitespace(info)[TitleIndex(SplitWhitespace(info)).value])
  {
    var parts := SplitWhitespace(info);
    SplitWhitespaceEmpty(info);
    var language := if |parts| > 0 then Some(parts[0]) else None;
    var filename := match TitleIndex(parts)
      case Some(k) => TitleValue(parts[k])
      case None => None;
    FenceInfo(language, filename)
  }

  // ---------------------------------------------------------------------------
  // Line ranges

  /** The numbers from `lo` up to but excluding `hi`. */
  function Interval(lo: nat, hi: nat): set<nat>
    decreases hi
  {
    if hi <= lo then {} else Interval(lo, hi - 1) + {hi - 1}
  }

  lemma {:induction false} IntervalMembers(lo: nat, hi: nat)
    ensures forall x :: x in Interval(lo, hi) <==> lo <= x < hi
    decreases hi
  {
    if hi > lo {
      IntervalMembers(lo, hi - 1);
    }
  }

  /** The lines one trimmed, comma-separated part names: `a-b` names `a` to `b`
      inclusive, a number names itself, and anything else nothing. */
  function PartLines(part: string): set<nat> {
    if '-' in part then
      var bounds := Split(part, '-');
      if |bounds| == 2 then
        match (ParseUsize(Trim(bounds[0])), ParseUsize(Trim(bounds[1])))
        case (Some(a), Some(b)) => Interval(a, b + 1)
        case _ => {}
      else {}
    else
      match ParseUsize(part)
      case Some(n) => {n}
      case None => {}
  }

  /** The lines named by a list of parts, each trimmed first. */
  function PartsLines(parts: seq<string>): set<nat>
    decreases |parts|
  {
    if |parts| == 0 then {} else PartsLines(parts[..|parts| - 1]) + PartLines(Trim(Last(parts)))
  }

  /** The lines a range list such as `1,3-5` names. */
  function Ranges(rangeStr: string): set<nat> {
    PartsLines(Split(rangeStr, ','))
  }

  /** `parse_ranges`: one insertion per named line. */
  method ParseRanges(rangeStr: string) returns (result: set<nat>)
    ensures result == Ranges(rangeStr)
  {
    result := {};
    var parts := Split(rangeStr, ',');
    for k := 0 to |parts|
      invariant result == PartsLines(parts[..k])
    {
      assert parts[..k + 1][..k] == parts[..k];
      result := InsertPart(result, Trim(parts[k]));
    }
    assert parts[..|parts|] == parts;
  }

  /** The body of the loop of `parse_ranges`: the lines of one trimmed part are added. */
  method InsertPart(before: set<nat>, part: string) returns (result: set<nat>)
    ensures result == before + PartLines(part)
  {
    result := before;
    if '-' in part {
      var range := Split(part, '-');
      if |range| == 2 {
        var start := ParseUsize(Trim(range[0]));
        var end := ParseUsize(Trim(range[1]));
        if start.Some? && end.Some? {
          result := InsertInterval(result, start.value, end.value);
        }
      }
    } else {
      var num := ParseUsize(part);
      if num.Some? {
        result := result + {num.value};
      }
    }
  }

  /** `for i in start..=end { result.insert(i) }`. */
  method InsertInterval(before: set<nat>, start: nat, end: nat) returns (result: set<nat>)
    ensures result == before + Interval(start, end + 1)
  {
    result := before;
    var i := start;
    while i <= end
      invariant start <= i
      invariant i <= end + 1 || i == start
      invariant result == before + Interval(start, i)
      decreases end + 1 - i
    {
      result := result + {i};
      i := i + 1;
    }
    assert Interval(start, i) == Interval(start, end + 1);
  }

  lemma TrimWord(s: string)
    requires forall i :: 0 <= i < |s| ==> !IsWhitespace(s[i])
    ensures Trim(s) == s
  {
    assert TrimStart(s) == s;
  }

  lemma DecimalWord(n: nat)
    ensures forall i :: 0 <= i < |NatToString(n)| ==>
              IsAsciiDigit(NatToString(n)[i]) && !IsWhitespace(NatToString(n)[i])
    ensures '-' !in NatToString(n) && ',' !in NatToString(n)
  {
    DecimalDigitsAll(n);
  }

  lemma PartLinesOfBounds(part: string, x: string, y: string, a: nat, b: nat)
    requires '-' in part && Split(part, '-') == [x, y]
    requires ParseUsize(Trim(x)) == Some(a) && ParseUsize(Trim(y)) == Some(b)
    ensures PartLines(part) == Interval(a, b + 1)
  {
  }

  /** `a-b` names exactly the lines from `a` to `b`, and none when `a > b`. */
  lemma RangePart(a: nat, b: nat)
    requires a < UsizeLimit && b < UsizeLimit
    ensures forall i :: i in PartLines(NatToString(a) + "-" + NatToString(b)) <==> a <= i <= b
    ensures a > b ==> PartLines(NatToString(a) + "-" + NatToString(b)) == {}
  {
    var x, y := NatToString(a), NatToString(b);
    DecimalWord(a);
    DecimalWord(b);
    var part := x + "-" + y;
    assert '-' in part by {
      assert part[|x|] == '-';
    }
    SplitPrefix(x, '-', y);
    SplitNone(y, '-');
    assert Split(part, '-') == [x, y];
    TrimWord(x);
    TrimWord(y);
    ParseUsizeRoundTrip(a);
    ParseUsizeRoundTrip(b);
    PartLinesOfBounds(part, x, y, a, b);
    IntervalMembers(a, b + 1);
  }

  /** A plain number names itself. */
  lemma NumberPart(n: nat)
    requires n < UsizeLimit
    ensures PartLines(NatToString(n)) == {n}
  {
    DecimalWord(n);
    ParseUsizeRoundTrip(n);
  }

  /** A part with two dashes names nothing. */
  lemma TwoDashesPart(x: string, y: string, z: string)
    ensures PartLines(x + "-" + y + "-" + z) == {}
  {
    var part := x + "-" + y + "-" + z;
    assert part[|x|] == '-';
    SplitConcat(x + "-" + y, '-', z);
    SplitConcat(x, '-', y);
  }

  lemma {:induction false} PartsLinesConcat(p: seq<string>, q: seq<string>)
    ensures PartsLines(p + q) == PartsLines(p) + PartsLines(q)
    decreases |q|
  {
    if |q| == 0 {
      assert p + q == p;
    } else {
      var q' := q[..|q| - 1];
      assert (p + q)[..|p + q| - 1] == p + q';
      PartsLinesConcat(p, q');
    }
  }

  /** The parts of a list name their lines independently of each other. */
  lemma RangesConcat(a: string, b: string)
    ensures Ranges(a + "," + b) == Ranges(a) + Ranges(b)
  {
    SplitConcat(a, ',', b);
    PartsLinesConcat(Split(a, ','), Split(b, ','));
  }

  // ---------------------------------------------------------------------------
  // Brace groups: `del=\{([^}]+)\}`, `add=\{([^}]+)\}` and `\{([^}]+)\}`

  /** A match of `<open>([^}]+)\}` starting at `i` whose closing brace is at `p`
      (`open` ends in `{`). */
  predicate GroupAt(s: string, i: nat, open: string, p: nat) {
    OccursAt(s, open, i) && i + |open| < p < |s| && s[p] == '}'
    && forall k :: i + |open| <= k < p ==> s[k] != '}'
  }

  /** The closing brace of the match starting at `i`, if there is one. */
  function GroupEnd(s: string, i: nat, open: string): (r: Option<nat>)
    ensures r.Some? ==> i + |open| < r.value
  {
    if OccursAt(s, open, i) then
      match FindChar(s, '}', i + |open|)
      case Some(p) => if p > i + |open| then Some(p) else None
      case None => None
    else None
  }

  /** `GroupEnd` finds the match at `i` exactly when there is one. */
  lemma GroupEndSpec(s: string, i: nat, open: string)
    ensures GroupEnd(s, i, open).Some? ==> GroupAt(s, i, open, GroupEnd(s, i, open).value)
    ensures GroupEnd(s, i, open).None? ==> forall p: nat :: !GroupAt(s, i, open, p)
  {
  }

  datatype Span = Span(start: nat, close: nat)

  /** The leftmost match starting at or after `from`. */
  function FirstGroup(s: string, from: nat, open: string): (r: Option<Span>)
    ensures r.Some? ==> from <= r.value.start && r.value.start + |open| < r.value.close
    decreases |s| - from
  {
    if from >= |s| then None
    else match GroupEnd(s, from, open)
      case Some(p) => Some(Span(from, p))
      case None => FirstGroup(s, from + 1, open)
  }

  /** `FirstGroup` is the leftmost match: it is one, none starts earlier, and
      it finds nothing only when no match starts at or after `from`. */
  lemma {:induction false} FirstGroupSpec(s: string, from: nat, open: string)
    ensures var r := FirstGroup(s, from, open);
            r.Some? ==> GroupAt(s, r.value.start, open, r.value.close)
    ensures var r := FirstGroup(s, from, open);
            r.Some? ==> forall k: nat, p: nat :: from <= k < r.value.start ==> !GroupAt(s, k, open, p)
    ensures FirstGroup(s, from, open).None? ==> forall k: nat, p: nat :: from <= k ==> !GroupAt(s, k, open, p)
    decreases |s| - from
  {
    if from < |s| {
      GroupEndSpec(s, from, open);
      if GroupEnd(s, from, open).None? {
        FirstGroupSpec(s, from + 1, open);
      }
    }
  }

  /** The text between the braces of the first match, if any. */
  function FirstCapture(s: string, open: string): Option<string> {
    FirstGroupSpec(s, 0, open);
    match FirstGroup(s, 0, open)
    case Some(g) => Some(s[g.start + |open|..g.close])
    case None => None
  }

  /** `captures_iter` of `\{([^}]+)\}`, keeping only the last match: the
      matches are non-overlapping and found left to right from `from`; `last`
      is returned when there is none. */
  function LastGroup(s: string, from: nat, last: Option<Span>): Option<Span>
    decreases |s| - from
  {
    var g := FirstGroup(s, from, "{");
    if g.Some? then LastGroup(s, g.value.close + 1, g) else last
  }

  /** The last match is a brace group of `s` when `last` is one. */
  lemma {:induction false} LastGroupSpec(s: string, from: nat, last: Option<Span>)
    requires last.Some? ==> GroupAt(s, last.value.start, "{", last.value.close)
    ensures var r := LastGroup(s, from, last);
            r.Some? ==> GroupAt(s, r.value.start, "{", r.value.close)
    decreases |s| - from
  {
    var g := FirstGroup(s, from, "{");
    if g.Some? {
      FirstGroupSpec(s, from, "{");
      LastGroupSpec(s, g.value.close + 1, g);
    }
  }

  /** One step of `LastGroup`: a match found at or after `from` becomes the
      last one and the search resumes after its closing brace. */
  lemma LastGroupStep(s: string, from: nat, last: Option<Span>, m: Span)
    requires FirstGroup(s, from, "{") == Some(m)
    ensures LastGroup(s, from, last) == LastGroup(s, m.close + 1, Some(m))
  {
  }

  /** The text between the braces of the last brace group, if any. */
  function LastCapture(s: string): Option<string> {
    LastGroupSpec(s, 0, None);
    match LastGroup(s, 0, None)
    case Some(g) => Some(s[g.start + 1..g.close])
    case None => None
  }

  /** The text between the braces of a brace group. */
  function Inside(s: string, g: Option<Span>): Option<string>
    requires g.Some? ==> g.value.start < g.value.close <= |s|
  {
    match g
    case Some(m) => Some(s[m.start + 1..m.close])
    case None => None
  }

  /** The delete, add and highlight line sets of a code block. */
  datatype LineSets = LineSets(del: set<nat>, add: set<nat>, highlight: set<nat>)

  function CaptureLines(c: Option<string>): set<nat> {
    match c
    case Some(r) => Ranges(r)
    case None => {}
  }

  /** `parse_highlighting_info`: `del` and `add` from the first group of their
      kind, and the highlight set from the last brace group of any kind. */
  function HighlightingInfo(info: string): LineSets {
    LineSets(CaptureLines(FirstCapture(info, "del={")), CaptureLines(FirstCapture(info, "add={")),
             CaptureLines(LastCapture(info)))
  }

  /** `parse_highlighting_info`. */
  method ParseHighlightingInfo(info: string) returns (sets: LineSets)
    ensures sets == HighlightingInfo(info)
  {
    var delLines := FirstGroupLines(info, "del={");
    var addLines := FirstGroupLines(info, "add={");
    var hLines := LastGroupLines(info);
    sets := LineSets(delLines, addLines, hLines);
  }

  /** The lines of the first `del={..}` (or `add={..}`) group, none without one. */
  method FirstGroupLines(info: string, open: string) returns (lines: set<nat>)
    ensures lines == CaptureLines(FirstCapture(info, open))
  {
    lines := {};
    var g := FirstGroup(info, 0, open);
    FirstGroupSpec(info, 0, open);
    if g.Some? {
      var capture := info[g.value.start + |open|..g.value.close];
      assert FirstCapture(info, open) == Some(capture);
      lines := ParseRanges(capture);
      assert CaptureLines(Some(capture)) == Ranges(capture);
    } else {
      assert FirstCapture(info, open) == None;
    }
  }

  /** The loop over `captures_iter`: every brace group overwrites the
      highlight set, so the last one is kept. */
  method LastGroupLines(info: string) returns (hLines: set<nat>)
    ensures hLines == CaptureLines(LastCapture(info))
  {
    hLines := {};
    var pos := 0;
    ghost var last: Option<Span> := None;
    var g := FirstGroup(info, 0, "{");
    while g.Some?
      invariant last.Some? ==> GroupAt(info, last.value.start, "{", last.value.close)
      invariant g == FirstGroup(info, pos, "{")
      invariant LastGroup(info, pos, last) == LastGroup(info, 0, None)
      invariant hLines == CaptureLines(Inside(info, last))
      decreases |info| + 1 - pos
    {
      var m := g.value;
      ghost var before := LastGroup(info, pos, last);
      pos, hLines, g := NextMatch(info, pos, last, m);
      last := Some(m);
      assert LastGroup(info, pos, last) == before;
    }
    assert LastGroup(info, 0, None) == last;
    assert Inside(info, last) == LastCapture(info);
  }

  /** One pass of the `captures_iter` loop over the match `m` found at or
      after `pos`: it overwrites the highlight set and resumes after `m`. */
  method NextMatch(info: string, pos: nat, ghost last: Option<Span>, m: Span)
      returns (next: nat, h: set<nat>, g: Option<Span>)
    requires FirstGroup(info, pos, "{") == Some(m)
    ensures GroupAt(info, m.start, "{", m.close) && pos <= m.start
    ensures next == m.close + 1
    ensures g == FirstGroup(info, next, "{")
    ensures LastGroup(info, next, Some(m)) == LastGroup(info, pos, last)
    ensures h == CaptureLines(Inside(info, Some(m)))
  {
    FirstGroupSpec(info, pos, "{");
    LastGroupStep(info, pos, last, m);
    h := OverwriteLines(info, m, {});
    next := m.close + 1;
    g := FirstGroup(info, next, "{");
  }

  /** The body of the `captures_iter` loop: a match that does not start with
      `del=` or `add=` replaces the highlight set. Every match starts with `{`,
      so every match does. */
  method OverwriteLines(info: string, m: Span, hLines: set<nat>) returns (h: set<nat>)
    requires m.start + 1 <= m.close < |info| && OccursAt(info, "{", m.start)
    ensures h == CaptureLines(Inside(info, Some(m)))
  {
    h := hLines;
    var capture := info[m.start + 1..m.close];
    var fullMatch := info[m.start..m.close + 1];
    OccursAtChar(info, "{", m.start, 0);
    assert fullMatch[0] == '{';
    assert !StartsWith(fullMatch, "del=") && !StartsWith(fullMatch, "add=");
    if !StartsWith(fullMatch, "del=") && !StartsWith(fullMatch, "add=") {
      h := ParseRanges(capture);
    }
  }

  /** A match at `k` with none earlier (from `from` on) is the one `FirstGroup`
      finds. */
  lemma FirstGroupIs(s: string, from: nat, open: string, k: nat, q: nat)
    requires from <= k && GroupAt(s, k, open, q)
    requires forall j: nat, p: nat :: from <= j < k ==> !GroupAt(s, j, open, p)
    ensures FirstGroup(s, from, open) == Some(Span(k, q))
  {
    FirstGroupSpec(s, from, open);
    var g := FirstGroup(s, from, open).value;
    assert g.start == k;
    assert g.close == q;
  }

  /** The shape of `p + "del={" + r + "}"`, position by position. */
  lemma DelInfoChars(p: string, r: string, s: string)
    requires s == p + "del={" + r + "}"
    ensures |s| == |p| + 6 + |r|
    ensures forall i :: 0 <= i < |p| ==> s[i] == p[i]
    ensures s[|p|] == 'd' && s[|p| + 1] == 'e' && s[|p| + 2] == 'l'
    ensures s[|p| + 3] == '=' && s[|p| + 4] == '{' && s[|s| - 1] == '}'
    ensures forall i :: 0 <= i < |r| ==> s[|p| + 5 + i] == r[i]
    ensures s[|p| + 5..|s| - 1] == r
  {
  }

  /** The only `{` of `p + "del={" + r + "}"` is the one after `del=`. */
  lemma DelInfoBrace(p: string, r: string, s: string, i: nat)
    requires s == p + "del={" + r + "}" && '{' !in p && '{' !in r
    requires i < |s| && s[i] == '{'
    ensures i == |p| + 4
  {
    DelInfoChars(p, r, s);
    assert forall k :: 0 <= k < |p| ==> p[k] in p;
    assert forall k :: 0 <= k < |r| ==> r[k] in r;
  }

  /** A `}` closes the group right at the end of `p + "del={" + r + "}"`. */
  lemma DelInfoClose(p: string, r: string, s: string)
    requires s == p + "del={" + r + "}" && '}' !in r
    ensures forall k :: |p| + 5 <= k < |s| - 1 ==> s[k] != '}'
  {
    DelInfoChars(p, r, s);
    assert forall k :: 0 <= k < |r| ==> r[k] in r;
  }

  lemma DelInfoDelGroup(p: string, r: string, s: string)
    requires s == p + "del={" + r + "}" && '{' !in p && '{' !in r && '}' !in r && |r| > 0
    ensures FirstCapture(s, "del={") == Some(r)
  {
    DelInfoChars(p, r, s);
    DelInfoClose(p, r, s);
    assert s[|p|..|p| + 5] == "del={";
    assert GroupAt(s, |p|, "del={", |s| - 1);
    forall j: nat, e: nat | j < |p| ensures !GroupAt(s, j, "del={", e) {
      if OccursAt(s, "del={", j) {
        OccursAtChar(s, "del={", j, 4);
        DelInfoBrace(p, r, s, j + 4);
      }
    }
    FirstGroupIs(s, 0, "del={", |p|, |s| - 1);
  }

  lemma DelInfoNoAddGroup(p: string, r: string, s: string)
    requires s == p + "del={" + r + "}" && '{' !in p && '{' !in r
    ensures FirstCapture(s, "add={") == None
  {
    FirstGroupSpec(s, 0, "add={");
    if FirstGroup(s, 0, "add={").Some? {
      var g := FirstGroup(s, 0, "add={").value;
      DelInfoChars(p, r, s);
      OccursAtChar(s, "add={", g.start, 4);
      DelInfoBrace(p, r, s, g.start + 4);
      OccursAtChar(s, "add={", g.start, 0);
      assert false;
    }
  }

  lemma DelInfoLastGroup(p: string, r: string, s: string)
    requires s == p + "del={" + r + "}" && '{' !in p && '{' !in r && '}' !in r && |r| > 0
    ensures LastCapture(s) == Some(r)
  {
    DelInfoChars(p, r, s);
    DelInfoClose(p, r, s);
    var q := |s| - 1;
    assert s[|p| + 4..|p| + 5] == "{";
    assert GroupAt(s, |p| + 4, "{", q);
    forall j: nat, e: nat | j < |p| + 4 ensures !GroupAt(s, j, "{", e) {
      if OccursAt(s, "{", j) {
        OccursAtChar(s, "{", j, 0);
        DelInfoBrace(p, r, s, j);
      }
    }
    FirstGroupIs(s, 0, "{", |p| + 4, q);
    assert LastGroup(s, q + 1, Some(Span(|p| + 4, q))) == Some(Span(|p| + 4, q));
    LastGroupStep(s, 0, None, Span(|p| + 4, q));
  }

  /** The highlight set also takes the lines of a `del={..}` group: for an
      info string whose only brace group is `del={r}`, the deleted lines are
      also the highlighted ones. */
  lemma DelGroupAlsoHighlights(p: string, r: string)
    requires '{' !in p && '{' !in r && '}' !in r && |r| > 0
    ensures HighlightingInfo(p + "del={" + r + "}") == LineSets(Ranges(r), {}, Ranges(r))
  {
    var s := p + "del={" + r + "}";
    DelInfoDelGroup(p, r, s);
    DelInfoNoAddGroup(p, r, s);
    DelInfoLastGroup(p, r, s);
  }
}
