/** The event loop of `markdown_to_html` in `src/markdown.rs`: a state machine
    over the Markdown parser's event stream that collects code blocks and
    headings and passes every other event through. The parser, the
    highlighter, HTML escaping and `html::push_html` are parameters. */
module Events {
  import opened Strings
  import opened Fences
  import opened CodeBlock
  import Paths
  import RustPath

  // ---------------------------------------------------------------------------
  // Events

  /** How a code block was started: a fence with its info string, or by indentation. */
  datatype CodeKind = Fenced(info: string) | Indented

  /** The parser events the loop tells apart; every other event is `Other`. */
  datatype Event =
    | StartHeading(level: nat)
    | EndHeading
    | StartCode(kind: CodeKind)
    | EndCode
    | Text(text: string)
    | Html(html: string)
    | Other(name: string)

  /** The info string of a code block; an indented block has none. */
  function InfoString(kind: CodeKind): string {
    match kind
    case Fenced(info) => info
    case Indented => ""
  }

  /** The libraries the loop calls: the highlighter, `htmlescape::encode_minimal`
      and `html::push_html`. */
  datatype Renderers = Renderers(
    highlight: (Language, string) -> Result<string, string>,
    escape: string -> string,
    pushHtml: seq<Event> -> string)

  // ---------------------------------------------------------------------------
  // Heading text, slugs and the table of contents

  /** The concatenated `Text` events of a heading; other events add nothing. */
  function TextOf(events: seq<Event>): string
    decreases |events|
  {
    if events == [] then ""
    else
      var e := events[|events| - 1];
      TextOf(events[..|events| - 1]) + (if e.Text? then e.text else "")
  }

  lemma {:induction false} TextOfConcat(a: seq<Event>, b: seq<Event>)
    ensures TextOf(a + b) == TextOf(a) + TextOf(b)
    decreases |b|
  {
    if b == [] {
      assert a + b == a;
    } else {
      var b' := b[..|b| - 1];
      assert (a + b)[..|a + b| - 1] == a + b';
      TextOfConcat(a, b');
    }
  }

  /** `TextOf` read from the front: the first event's text, then the rest. */
  lemma TextOfCons(e: Event, rest: seq<Event>)
    ensures TextOf([e] + rest) == (if e.Text? then e.text else "") + TextOf(rest)
  {
    TextOfConcat([e], rest);
    assert [e][..0] == [];
  }

  /** A character that survives the last step of the slug. */
  predicate SlugChar(c: char) {
    IsAlphanumeric(c) || c == '-'
  }

  /** `.replace(' ', "-")`. */
  function SpacesToDashes(s: string): (r: string)
    ensures |r| == |s|
  {
    seq(|s|, i requires 0 <= i < |s| => if s[i] == ' ' then '-' else s[i])
  }

  /** `.replace(|c| !c.is_alphanumeric() && c != '-', "")`. */
  function KeepSlugChars(s: string): string
    decreases |s|
  {
    if s == [] then ""
    else (if SlugChar(s[0]) then [s[0]] else []) + KeepSlugChars(s[1..])
  }

  /** The heading id: trimmed, lowercased, spaces made dashes, the rest dropped. */
  function Slug(text: string): string {
    KeepSlugChars(SpacesToDashes(ToLower(Trim(text))))
  }

  /** A slug character that is not an upper-case letter. */
  predicate LowerSlugChar(c: char) {
    SlugChar(c) && !('A' <= c <= 'Z')
  }

  /** The filter keeps exactly the slug characters, in order. */
  lemma {:induction false} KeepSlugCharsSpec(s: string)
    ensures forall c <- KeepSlugChars(s) :: SlugChar(c) && c in s
    ensures (forall c <- s :: SlugChar(c)) ==> KeepSlugChars(s) == s
    decreases |s|
  {
    if s != [] {
      KeepSlugCharsSpec(s[1..]);
      assert forall c <- s[1..] :: c in s;
      if forall c <- s :: SlugChar(c) {
        assert forall c <- s[1..] :: SlugChar(c);
        assert s == [s[0]] + s[1..];
      }
    }
  }

  /** A slug holds only lower-case alphanumerics and `-`. */
  lemma SlugAlphabet(text: string)
    ensures forall c <- Slug(text) :: LowerSlugChar(c)
  {
    var l := ToLower(Trim(text));
    var d := SpacesToDashes(l);
    assert forall c <- l :: !('A' <= c <= 'Z') by {
      forall c <- l ensures !('A' <= c <= 'Z') {
        var i :| 0 <= i < |l| && l[i] == c;
        assert c == ToLowerChar(Trim(text)[i]);
      }
    }
    assert forall c <- d :: !('A' <= c <= 'Z') by {
      forall c <- d ensures !('A' <= c <= 'Z') {
        var i :| 0 <= i < |d| && d[i] == c;
        assert l[i] in l;
      }
    }
    KeepSlugCharsSpec(d);
  }

  /** Text made of slug characters alone is its own slug. */
  lemma SlugOfSlugChars(s: string)
    requires forall c <- s :: LowerSlugChar(c)
    ensures Slug(s) == s
  {
    if |s| > 0 {
      assert s[0] in s && s[|s| - 1] in s;
    }
    TrimUnpadded(s);
    LowerOfSlugChars(s);
    KeepSlugCharsSpec(s);
  }

  lemma LowerOfSlugChars(s: string)
    requires forall c <- s :: LowerSlugChar(c)
    ensures SpacesToDashes(ToLower(s)) == s
  {
    assert forall i :: 0 <= i < |s| ==> s[i] in s;
    ToLowerNoUpper(s);
  }

  /** Slugging a slug changes nothing. */
  lemma SlugIdempotent(text: string)
    ensures Slug(Slug(text)) == Slug(text)
  {
    SlugAlphabet(text);
    SlugOfSlugChars(Slug(text));
  }

  /** Lower-case words separated by spaces become the words joined by `-`. */
  lemma SlugOfWords(s: string)
    requires forall c <- s :: LowerSlugChar(c) || c == ' '
    requires |s| > 0 ==> s[0] != ' ' && s[|s| - 1] != ' '
    ensures Slug(s) == SpacesToDashes(s)
  {
    if |s| > 0 {
      assert s[0] in s && s[|s| - 1] in s;
    }
    TrimUnpadded(s);
    assert forall i :: 0 <= i < |s| ==> s[i] in s;
    ToLowerNoUpper(s);
    DashesSlugChars(s);
    KeepSlugCharsSpec(SpacesToDashes(s));
  }

  lemma DashesSlugChars(s: string)
    requires forall c <- s :: LowerSlugChar(c) || c == ' '
    ensures forall c <- SpacesToDashes(s) :: SlugChar(c)
  {
    var d := SpacesToDashes(s);
    forall c <- d ensures SlugChar(c) {
      var i :| 0 <= i < |d| && d[i] == c;
      assert s[i] in s;
    }
  }

  /** A table-of-contents entry. */
  datatype TocEntry = TocEntry(level: nat, id: string, title: string)

  /** `format!("<h{}" id=\"{}\">{}</h{}>", ..)`. */
  function HeadingHtml(level: nat, slug: string, inner: string): string {
    "<h" + NatToString(level) + " id=\"" + slug + "\">" + inner + "</h" + NatToString(level) + ">"
  }

  /** Every id in the table of contents is a slug. */
  predicate SlugIds(toc: seq<TocEntry>) {
    forall t <- toc :: forall c <- t.id :: LowerSlugChar(c)
  }

  // ---------------------------------------------------------------------------
  // The machine

  /** The loop's variables: `in_code_block`, `code_content`, `current_language`
      and `current_filename`, `current_highlighting`, `events`, `toc` and
      `current_heading`. */
  datatype State = State(
    inCode: bool,
    code: string,
    fence: FenceInfo,
    sets: LineSets,
    events: seq<Event>,
    toc: seq<TocEntry>,
    heading: Option<(nat, seq<Event>)>)

  const NoFence := FenceInfo(None, None)
  const NoLines := LineSets({}, {}, {})
  const Initial := State(false, "", NoFence, NoLines, [], [], None)

  /** The catch-all arm: inside a code block only text is kept; inside a
      heading the event is collected; elsewhere it is passed on. */
  function Default(st: State, e: Event): State {
    if st.inCode then
      (if e.Text? then st.(code := st.code + e.text) else st)
    else if st.heading.Some? then
      st.(heading := Some((st.heading.value.0, st.heading.value.1 + [e])))
    else st.(events := st.events + [e])
  }

  /** A heading ends: one table-of-contents entry and the heading markup. */
  function CloseHeading(st: State, level: nat, inner: seq<Event>, r: Renderers): State {
    var title := TextOf(inner);
    var slug := Slug(title);
    st.(heading := None,
        toc := st.toc + [TocEntry(level, slug, title)],
        events := st.events + [Event.Html(HeadingHtml(level, slug, r.pushHtml(inner)))])
  }

  /** One turn of the loop, its arms in the source's order; `None` where the
      source panics: a lone-quote `title=` in the info string, or the end of a
      code block without a language. */
  function Step(st: State, e: Event, r: Renderers): Option<State> {
    match e
    case StartHeading(level) => Some(st.(heading := Some((level, []))))
    case StartCode(kind) =>
      var info := InfoString(kind);
      if LoneQuoteTitle(info) then None
      else Some(st.(inCode := true, fence := ExtractLanguageAndFilename(info),
                    sets := HighlightingInfo(info), code := ""))
    case Text(t) =>
      if st.inCode then Some(st.(code := st.code + t)) else Some(Default(st, e))
    case EndCode =>
      if st.inCode then
        match RenderCodeBlock(st.fence, st.sets, st.code, r.highlight, r.escape)
        case None => None
        case Some(html) =>
          Some(st.(inCode := false, events := st.events + [Event.Html(html)],
                   fence := NoFence, sets := NoLines))
      else Some(Default(st, e))
    case EndHeading =>
      (match st.heading
       case Some((level, inner)) => Some(CloseHeading(st, level, inner, r))
       case None => Some(st))
    case _ => Some(Default(st, e))
  }

  /** The loop from state `st` over `events`; `None` once a step panics. */
  function Steps(st: State, events: seq<Event>, r: Renderers): Option<State>
    decreases |events|
  {
    if events == [] then Some(st)
    else
      match Step(st, events[0], r)
      case None => None
      case Some(next) => Steps(next, events[1..], r)
  }

  function Run(events: seq<Event>, r: Renderers): Option<State> {
    Steps(Initial, events, r)
  }

  /** Running two stretches of events one after the other. */
  lemma {:induction false} StepsConcat(st: State, a: seq<Event>, b: seq<Event>, r: Renderers)
    ensures Steps(st, a + b, r) ==
            (match Steps(st, a, r) case None => None case Some(mid) => Steps(mid, b, r))
    decreases |a|
  {
    if a == [] {
      assert a + b == b;
    } else {
      assert (a + b)[0] == a[0] && (a + b)[1..] == a[1..] + b;
      match Step(st, a[0], r)
      case None =>
      case Some(next) => StepsConcat(next, a[1..], b, r);
    }
  }

  // ---------------------------------------------------------------------------
  // Properties of one step

  /** The loop panics exactly at a lone-quote `title=` and at the end of a
      code block whose info string named no language. */
  lemma StepPanics(st: State, e: Event, r: Renderers)
    ensures Step(st, e, r).None? <==>
              (e.StartCode? && LoneQuoteTitle(InfoString(e.kind))) ||
              (e.EndCode? && st.inCode && st.fence.language.None?)
  {
    if e.EndCode? && st.inCode {
      RenderPanicsWithoutLanguage(st.fence, st.sets, st.code, r.highlight, r.escape);
    }
  }

  /** The table of contents only grows, by exactly one entry when an open
      heading ends: its level, its untrimmed text as title and its slug as id. */
  lemma StepToc(st: State, e: Event, r: Renderers)
    requires Step(st, e, r).Some?
    ensures var next := Step(st, e, r).value;
            if e.EndHeading? && st.heading.Some? then
              next.toc == st.toc + [TocEntry(st.heading.value.0, Slug(TextOf(st.heading.value.1)),
                                             TextOf(st.heading.value.1))]
            else next.toc == st.toc
  {
  }

  /** Every step keeps all ids slugs. */
  lemma StepSlugIds(st: State, e: Event, r: Renderers)
    requires SlugIds(st.toc) && Step(st, e, r).Some?
    ensures SlugIds(Step(st, e, r).value.toc)
  {
    StepToc(st, e, r);
    if e.EndHeading? && st.heading.Some? {
      SlugAlphabet(TextOf(st.heading.value.1));
    }
  }

  /** Outside code blocks and headings a plain event is passed on unchanged. */
  predicate Plain(e: Event) {
    e.Text? || e.Html? || e.Other? || e.EndCode?
  }

  /** An event that neither opens nor closes a heading or a code block. */
  predicate Inline(e: Event) {
    e.Text? || e.Html? || e.Other?
  }

  /** Outside a code block a plain event takes the catch-all arm. */
  lemma StepPlain(st: State, e: Event, r: Renderers)
    requires !st.inCode && Plain(e)
    ensures Step(st, e, r) == Some(Default(st, e))
  {
  }

  /** Inside a code block an inline event adds its text, if any, to the code. */
  lemma StepInline(st: State, e: Event, r: Renderers)
    requires st.inCode && Inline(e)
    ensures Step(st, e, r) == Some(st.(code := st.code + (if e.Text? then e.text else "")))
  {
    assert st.code + "" == st.code;
  }

  // ---------------------------------------------------------------------------
  // Properties of whole runs

  /** The ids of every run's table of contents are slugs. */
  lemma {:induction false} StepsSlugIds(st: State, events: seq<Event>, r: Renderers)
    requires SlugIds(st.toc) && Steps(st, events, r).Some?
    ensures SlugIds(Steps(st, events, r).value.toc)
    decreases |events|
  {
    if events != [] {
      StepSlugIds(st, events[0], r);
      StepsSlugIds(Step(st, events[0], r).value, events[1..], r);
    }
  }

  lemma RunSlugIds(events: seq<Event>, r: Renderers)
    requires Run(events, r).Some?
    ensures SlugIds(Run(events, r).value.toc)
  {
    StepsSlugIds(Initial, events, r);
  }

  /** Outside code blocks and headings, plain events pass through in order. */
  lemma {:induction false} PassThrough(st: State, xs: seq<Event>, r: Renderers)
    requires !st.inCode && st.heading.None?
    requires forall e <- xs :: Plain(e)
    ensures Steps(st, xs, r) == Some(st.(events := st.events + xs))
    decreases |xs|
  {
    if xs == [] {
      assert st.events + xs == st.events;
    } else {
      var next := st.(events := st.events + [xs[0]]);
      StepPlain(st, xs[0], r);
      assert forall e <- xs[1..] :: e in xs;
      PassThrough(next, xs[1..], r);
      assert st.events + [xs[0]] + xs[1..] == st.events + xs;
    }
  }

  /** Inside a code block only `Text` is kept, appended to the code. */
  lemma {:induction false} CodeAccumulates(st: State, xs: seq<Event>, r: Renderers)
    requires st.inCode
    requires forall e <- xs :: Inline(e)
    ensures Steps(st, xs, r) == Some(st.(code := st.code + TextOf(xs)))
    decreases |xs|
  {
    if xs == [] {
      assert st.code + TextOf(xs) == st.code;
    } else {
      var t := if xs[0].Text? then xs[0].text else "";
      var next := st.(code := st.code + t);
      StepInline(st, xs[0], r);
      assert forall e <- xs[1..] :: e in xs;
      CodeAccumulates(next, xs[1..], r);
      assert xs == [xs[0]] + xs[1..];
      TextOfCons(xs[0], xs[1..]);
      assert st.code + t + TextOf(xs[1..]) == st.code + TextOf(xs);
    }
  }

  /** Inside a heading every event but the heading and code-block ones is
      collected, in order. */
  lemma {:induction false} HeadingCollects(st: State, xs: seq<Event>, r: Renderers)
    requires !st.inCode && st.heading.Some?
    requires forall e <- xs :: Plain(e)
    ensures Steps(st, xs, r) ==
              Some(st.(heading := Some((st.heading.value.0, st.heading.value.1 + xs))))
    decreases |xs|
  {
    var (level, inner) := st.heading.value;
    if xs == [] {
      assert inner + xs == inner;
    } else {
      var next := st.(heading := Some((level, inner + [xs[0]])));
      StepPlain(st, xs[0], r);
      assert forall e <- xs[1..] :: e in xs;
      HeadingCollects(next, xs[1..], r);
      assert inner + [xs[0]] + xs[1..] == inner + xs;
    }
  }

  /** A heading of plain events ends in one more table-of-contents entry and
      the heading's markup, and nothing else changes. */
  lemma HeadingEmitted(st: State, level: nat, xs: seq<Event>, r: Renderers)
    requires !st.inCode
    requires forall e <- xs :: Plain(e)
    ensures Steps(st, [StartHeading(level)] + xs + [EndHeading], r) ==
              Some(st.(heading := None,
                       toc := st.toc + [TocEntry(level, Slug(TextOf(xs)), TextOf(xs))],
                       events := st.events + [Event.Html(HeadingHtml(level, Slug(TextOf(xs)), r.pushHtml(xs)))]))
  {
    var started := st.(heading := Some((level, [])));
    assert Step(st, StartHeading(level), r) == Some(started);
    StepsConcat(st, [StartHeading(level)], xs, r);
    HeadingCollects(started, xs, r);
    var collected := started.(heading := Some((level, [] + xs)));
    assert [] + xs == xs;
    StepsConcat(st, [StartHeading(level)] + xs, [EndHeading], r);
    assert Steps(collected, [EndHeading], r) == Step(collected, EndHeading, r);
  }

  /** The state once a code block opens. */
  function Opened(st: State, info: string): State
    requires !LoneQuoteTitle(info)
  {
    st.(inCode := true, fence := ExtractLanguageAndFilename(info),
        sets := HighlightingInfo(info), code := "")
  }

  /** A code block opens. */
  lemma StepStartCode(st: State, kind: CodeKind, r: Renderers)
    requires !LoneQuoteTitle(InfoString(kind))
    ensures Step(st, StartCode(kind), r) == Some(Opened(st, InfoString(kind)))
  {
  }

  lemma StepsOne(st: State, e: Event, r: Renderers)
    ensures Steps(st, [e], r) == Step(st, e, r)
  {
    assert [e][1..] == [];
  }

  /** A code block holding text and other inline events. */
  lemma CodeBlockRun(st: State, kind: CodeKind, xs: seq<Event>, r: Renderers)
    requires !LoneQuoteTitle(InfoString(kind))
    requires forall e <- xs :: Inline(e)
    ensures Steps(st, [StartCode(kind)] + xs + [EndCode], r) ==
              Step(Opened(st, InfoString(kind)).(code := TextOf(xs)), EndCode, r)
  {
    var o := Opened(st, InfoString(kind));
    StepStartCode(st, kind, r);
    StepsOne(st, StartCode(kind), r);
    StepsConcat(st, [StartCode(kind)], xs, r);
    CodeAccumulates(o, xs, r);
    assert o.code + TextOf(xs) == TextOf(xs);
    StepsConcat(st, [StartCode(kind)] + xs, [EndCode], r);
    StepsOne(o.(code := TextOf(xs)), EndCode, r);
  }

  /** A code block with a language is replaced by its rendered markup; the
      text it held stays behind in `code` until the next block opens. */
  lemma CodeBlockEmitted(st: State, kind: CodeKind, xs: seq<Event>, r: Renderers)
    requires !LoneQuoteTitle(InfoString(kind)) && !IsBlank(InfoString(kind))
    requires forall e <- xs :: Inline(e)
    ensures var info := InfoString(kind);
            var fence := ExtractLanguageAndFilename(info);
            var html := RenderCodeBlock(fence, HighlightingInfo(info), TextOf(xs), r.highlight, r.escape);
            html.Some? &&
            Steps(st, [StartCode(kind)] + xs + [EndCode], r) ==
              Some(st.(inCode := false, code := TextOf(xs), fence := NoFence, sets := NoLines,
                       events := st.events + [Event.Html(html.value)]))
  {
    CodeBlockRun(st, kind, xs, r);
    var o := Opened(st, InfoString(kind)).(code := TextOf(xs));
    StepEndCode(o, r);
  }

  /** A code block with a language ends in its markup. */
  lemma StepEndCode(st: State, r: Renderers)
    requires st.inCode && st.fence.language.Some?
    ensures var html := RenderCodeBlock(st.fence, st.sets, st.code, r.highlight, r.escape);
            html.Some? &&
            Step(st, EndCode, r) == Some(st.(inCode := false, events := st.events + [Event.Html(html.value)],
                                             fence := NoFence, sets := NoLines))
  {
    RenderPanicsWithoutLanguage(st.fence, st.sets, st.code, r.highlight, r.escape);
  }

  /** A code block whose info string is blank makes the loop panic, whatever it holds. */
  lemma BlankCodeBlockPanics(st: State, kind: CodeKind, xs: seq<Event>, r: Renderers)
    requires IsBlank(InfoString(kind))
    requires forall e <- xs :: Inline(e)
    ensures Steps(st, [StartCode(kind)] + xs + [EndCode], r).None?
  {
    assert !LoneQuoteTitle(InfoString(kind)) by {
      SplitWhitespaceEmpty(InfoString(kind));
    }
    CodeBlockRun(st, kind, xs, r);
    var info := InfoString(kind);
    RenderPanicsWithoutLanguage(ExtractLanguageAndFilename(info), HighlightingInfo(info), TextOf(xs),
                                r.highlight, r.escape);
  }

  /** In particular every indented code block ends in a panic. */
  lemma IndentedCodeBlockPanics(st: State, xs: seq<Event>, r: Renderers)
    requires forall e <- xs :: Inline(e)
    ensures Steps(st, [StartCode(Indented)] + xs + [EndCode], r).None?
  {
    BlankCodeBlockPanics(st, Indented, xs, r);
  }

  // ---------------------------------------------------------------------------
  // The loop as the source writes it

  /** The output: `html::push_html` over the collected events, and the table
      of contents; `None` where the loop panicked. */
  function Output(run: Option<State>, r: Renderers): Option<(string, seq<TocEntry>)> {
    match run
    case None => None
    case Some(st) => Some((r.pushHtml(st.events), st.toc))
  }

  /** `for e in &inner_events { if let Event::Text(t) = e { .. } }`. */
  method HeadingText(inner: seq<Event>) returns (text: string)
    ensures text == TextOf(inner)
  {
    text := "";
    for j := 0 to |inner|
      invariant text == TextOf(inner[..j])
    {
      assert inner[..j + 1][..j] == inner[..j];
      if inner[j].Text? {
        text := text + inner[j].text;
      }
    }
    assert inner[..|inner|] == inner;
  }

  /** The loop over the parser's events; `None` where the source panics. */
  method ProcessEvents(input: seq<Event>, r: Renderers) returns (out: Option<State>)
    ensures out == Run(input, r)
  {
    var inCode := false;
    var code := "";
    var language: Option<string> := None;
    var filename: Option<string> := None;
    var highlighting := NoLines;
    var events: seq<Event> := [];
    var toc: seq<TocEntry> := [];
    var heading: Option<(nat, seq<Event>)> := None;
    var k := 0;
    while k < |input|
      invariant k <= |input|
      invariant Steps(State(inCode, code, FenceInfo(language, filename), highlighting, events, toc, heading),
                      input[k..], r) == Run(input, r)
    {
      var st := State(inCode, code, FenceInfo(language, filename), highlighting, events, toc, heading);
      var event := input[k];
      assert input[k..][0] == event && input[k..][1..] == input[k + 1..];
      if event.StartHeading? {
        heading := Some((event.level, []));
      } else if event.StartCode? {
        var info := InfoString(event.kind);
        if LoneQuoteTitle(info) {
          return None;
        }
        inCode := true;
        var fence := ExtractLanguageAndFilename(info);
        language := fence.language;
        filename := fence.filename;
        highlighting := ParseHighlightingInfo(info);
        code := "";
      } else if event.Text? && inCode {
        code := code + event.text;
      } else if event.EndCode? && inCode {
        inCode := false;
        var html := RenderCodeBlock(FenceInfo(language, filename), highlighting, code, r.highlight, r.escape);
        if html.None? {
          return None;
        }
        events := events + [Event.Html(html.value)];
        language := None;
        filename := None;
        highlighting := NoLines;
      } else if event.EndHeading? {
        if heading.Some? {
          var (level, inner) := heading.value;
          heading := None;
          var text := HeadingText(inner);
          var slug := Slug(text);
          toc := toc + [TocEntry(level, slug, text)];
          events := events + [Event.Html(HeadingHtml(level, slug, r.pushHtml(inner)))];
        }
      } else if !inCode {
        // Inside a code block the event is dropped: its `Text` case was taken above.
        if heading.Some? {
          heading := Some((heading.value.0, heading.value.1 + [event]));
        } else {
          events := events + [event];
        }
      }
      assert Step(st, event, r) ==
             Some(State(inCode, code, FenceInfo(language, filename), highlighting, events, toc, heading));
      k := k + 1;
    }
    out := Some(State(inCode, code, FenceInfo(language, filename), highlighting, events, toc, heading));
  }

  /** `markdown_to_html`: the path passes over the Markdown text, the
      parenthetical wiki-link pass, the parser, the event loop and the final
      `html::push_html`. */
  method MarkdownToHtml(cache: Paths.FileCache, markdown: string, current: RustPath.Path,
                        walk: seq<RustPath.Entry>, parse: string -> seq<Event>, r: Renderers)
    returns (out: Option<(string, seq<TocEntry>)>)
    modifies cache
    ensures old(cache.cache).Some? ==> cache.cache == old(cache.cache)
    ensures old(cache.cache).None? ==> cache.cache == Some(Paths.BuildIndex(walk))
    ensures out == Output(Run(parse(Paths.ProcessWikiLinks(Paths.ProcessedPaths(markdown, current, cache.cache))), r), r)
  {
    var processed := cache.ProcessPaths(markdown, current, walk);
    processed := Paths.ProcessWikiLinks(processed);
    var st := ProcessEvents(parse(processed), r);
    out := Output(st, r);
  }
}
