/** `src/markdown.rs`, the rendering of a finished code block: highlighting or
    escaping its text, cutting it into lines, numbering and classing every
    line, and wrapping the result in the code-block markup. */
module CodeBlock {
  import opened Strings
  import opened Fences

  // ---------------------------------------------------------------------------
  // `str::lines`

  /** A `\r` right before a line feed belongs to the line ending. */
  function StripCr(l: string): string {
    if |l| > 0 && l[|l| - 1] == '\r' then l[..|l| - 1] else l
  }

  /** `str::lines`: pieces ended by `\n` or `\r\n`; the last line ending is
      optional, and a bare `\r` at the very end stays in the last line. */
  function Lines(s: string): seq<string>
    decreases |s|
  {
    if |s| == 0 then []
    else match FindChar(s, '\n', 0)
      case None => [s]
      case Some(i) => [StripCr(s[..i])] + Lines(s[i + 1..])
  }

  /** No line holds a line feed. */
  lemma {:induction false} LinesNoNewline(s: string)
    ensures forall l <- Lines(s) :: '\n' !in l
    decreases |s|
  {
    if |s| > 0 {
      match FindChar(s, '\n', 0)
      case None =>
      case Some(i) =>
        LinesNoNewline(s[i + 1..]);
        assert forall k :: 0 <= k < i ==> s[..i][k] == s[k];
    }
  }

  /** Lines written out one after another, each followed by `\n`. */
  function Terminated(ls: seq<string>): string {
    if |ls| == 0 then "" else ls[0] + "\n" + Terminated(ls[1..])
  }

  /** A line with neither a line feed nor a trailing carriage return. */
  predicate PlainLine(l: string) {
    '\n' !in l && !EndsWith(l, "\r")
  }

  /** `lines` undoes writing the lines out with line feeds. */
  lemma {:induction false} LinesTerminated(ls: seq<string>)
    requires forall l <- ls :: PlainLine(l)
    ensures Lines(Terminated(ls)) == ls
    decreases |ls|
  {
    if |ls| > 0 {
      var a := ls[0];
      assert PlainLine(a);
      var rest := Terminated(ls[1..]);
      var s := a + "\n" + rest;
      assert Terminated(ls) == s;
      assert FindChar(s, '\n', 0) == Some(|a|) by {
        assert s[|a|] == '\n';
        assert forall k :: 0 <= k < |a| ==> s[k] == a[k] && a[k] in a;
      }
      assert s[..|a|] == a && s[|a| + 1..] == rest;
      assert StripCr(a) == a by {
        if |a| > 0 {
          assert a[|a| - 1..] == [a[|a| - 1]];
        }
      }
      LinesTerminated(ls[1..]);
    }
  }

  /** `lines` also undoes gluing with `\n` when the last line is not empty. */
  lemma {:induction false} LinesJoin(ls: seq<string>)
    requires forall l <- ls :: PlainLine(l)
    requires |ls| > 0 ==> Last(ls) != ""
    ensures Lines(Join(ls, "\n")) == ls
    decreases |ls|
  {
    if |ls| == 1 {
      var a := ls[0];
      assert PlainLine(a);
      assert Join(ls, "\n") == a;
      assert FindChar(a, '\n', 0) == None by {
        assert forall k :: 0 <= k < |a| ==> a[k] in a;
      }
    } else if |ls| > 1 {
      var a := ls[0];
      assert PlainLine(a);
      var rest := Join(ls[1..], "\n");
      var s := a + "\n" + rest;
      assert Join(ls, "\n") == s;
      assert FindChar(s, '\n', 0) == Some(|a|) by {
        assert s[|a|] == '\n';
        assert forall k :: 0 <= k < |a| ==> s[k] == a[k] && a[k] in a;
      }
      assert s[..|a|] == a && s[|a| + 1..] == rest;
      assert StripCr(a) == a by {
        if |a| > 0 {
          assert a[|a| - 1..] == [a[|a| - 1]];
        }
      }
      assert Last(ls[1..]) == Last(ls);
      LinesJoin(ls[1..]);
    }
  }

  // ---------------------------------------------------------------------------
  // Line numbers and classes

  /** `width_needed`: the number of digits of the line count, and 1 for no line. */
  function Width(total: nat): nat {
    if total > 0 then |NatToString(total)| else 1
  }

  /** `format!("{:0width$}", n)`. */
  function Padded(n: nat, width: nat): string {
    PadLeft(NatToString(n), width, '0')
  }

  lemma {:induction false} DecimalZeros(k: nat, h: string)
    requires AllDigits(h)
    ensures AllDigits(seq(k, _ => '0') + h)
    ensures DecimalValue(seq(k, _ => '0') + h) == DecimalValue(h)
    decreases |h|
  {
    var z := seq(k, _ => '0');
    if |h| == 0 {
      assert z + h == z;
      ZerosOnlyDecimal(k);
    } else {
      assert (z + h)[..|z + h| - 1] == z + h[..|h| - 1];
      DecimalZeros(k, h[..|h| - 1]);
    }
  }

  lemma {:induction false} ZerosOnlyDecimal(k: nat)
    ensures AllDigits(seq(k, _ => '0'))
    ensures DecimalValue(seq(k, _ => '0')) == 0
  {
    if k > 0 {
      assert seq(k, _ => '0')[..k - 1] == seq(k - 1, _ => '0');
      ZerosOnlyDecimal(k - 1);
    }
  }

  /** Every line number of a block is written with exactly `Width(total)`
      decimal digits that read back as the number. */
  lemma PaddedNumber(n: nat, total: nat)
    requires 1 <= n <= total
    ensures |Padded(n, Width(total))| == Width(total)
    ensures AllDigits(Padded(n, Width(total))) && DecimalValue(Padded(n, Width(total))) == n
  {
    var d := NatToString(n);
    DigitsMonotone(n, total, 10);
    DecimalRoundTrip(n);
    if |d| < Width(total) {
      assert Padded(n, Width(total)) == seq(Width(total) - |d|, _ => '0') + d;
      DecimalZeros(Width(total) - |d|, d);
    }
  }

  const DelClass := " class=\"highlight-del\""
  const AddClass := " class=\"highlight-add\""
  const HighlightClass := " class=\"highlight\""

  /** The class attribute of line `n` (1-based). */
  function LineClass(n: nat, sets: LineSets): string {
    if n in sets.del then DelClass
    else if n in sets.add then AddClass
    else if n in sets.highlight then HighlightClass
    else ""
  }

  /** Deleted beats added beats highlighted. */
  lemma LineClassPrecedence(n: nat, sets: LineSets)
    ensures LineClass(n, sets) == DelClass <==> n in sets.del
    ensures LineClass(n, sets) == AddClass <==> n !in sets.del && n in sets.add
    ensures LineClass(n, sets) == HighlightClass <==>
              n !in sets.del && n !in sets.add && n in sets.highlight
    ensures LineClass(n, sets) == "" <==>
              n !in sets.del && n !in sets.add && n !in sets.highlight
  {
    assert DelClass[18] == 'd' && AddClass[18] == 'a';
    assert |HighlightClass| != |DelClass| && |AddClass| == |DelClass|;
  }

  const SpanOpen := "<span"
  const NumberOpen := "><span class=\"line-number\">"
  const CodeLineOpen := "</span><span class=\"code-line\">"
  const SpanClose := "</span></span>"

  /** One numbered line. */
  function NumberedLine(n: nat, line: string, cls: string, width: nat): string {
    SpanOpen + cls + NumberOpen + Padded(n, width) + CodeLineOpen + line + SpanClose
  }

  /** The numbered lines of a block, before they are glued together. */
  function RenderedLines(lines: seq<string>, sets: LineSets): seq<string> {
    seq(|lines|, i requires 0 <= i < |lines| =>
      NumberedLine(i + 1, lines[i], LineClass(i + 1, sets), Width(|lines|)))
  }

  /** `line_numbered_html`: the numbered lines joined with `\n`. */
  function LineNumberedHtml(lines: seq<string>, sets: LineSets): string {
    Join(RenderedLines(lines, sets), "\n")
  }

  lemma PaddedDigits(n: nat, width: nat)
    ensures AllDigits(Padded(n, width))
  {
    DecimalDigitsAll(n);
    var d := NatToString(n);
    var p := Padded(n, width);
    forall i | 0 <= i < |p| ensures IsAsciiDigit(p[i]) {
      if i >= |p| - |d| {
        assert p[i] == p[|p| - |d|..][i - (|p| - |d|)];
      }
    }
  }

  lemma SpanOpenNoNewline() ensures '\n' !in SpanOpen {}
  lemma NumberOpenNoNewline() ensures '\n' !in NumberOpen {}
  lemma CodeLineOpenNoNewline() ensures '\n' !in CodeLineOpen {}
  lemma SpanCloseNoNewline() ensures '\n' !in SpanClose {}
  lemma DelClassNoNewline() ensures '\n' !in DelClass {}
  lemma AddClassNoNewline() ensures '\n' !in AddClass {}
  lemma HighlightClassNoNewline() ensures '\n' !in HighlightClass {}

  lemma NoCharConcat(c: char, a: string, b: string)
    requires c !in a && c !in b
    ensures c !in a + b
  {
  }

  lemma NumberedLineNoNewline(n: nat, line: string, cls: string, width: nat)
    requires '\n' !in line && '\n' !in cls
    ensures '\n' !in NumberedLine(n, line, cls, width)
  {
    PaddedDigits(n, width);
    var p := Padded(n, width);
    assert forall i :: 0 <= i < |p| ==> p[i] != '\n';
    SpanOpenNoNewline();
    NumberOpenNoNewline();
    CodeLineOpenNoNewline();
    SpanCloseNoNewline();
    NoCharConcat('\n', SpanOpen, cls);
    NoCharConcat('\n', SpanOpen + cls, NumberOpen);
    NoCharConcat('\n', SpanOpen + cls + NumberOpen, p);
    NoCharConcat('\n', SpanOpen + cls + NumberOpen + p, CodeLineOpen);
    NoCharConcat('\n', SpanOpen + cls + NumberOpen + p + CodeLineOpen, line);
    NoCharConcat('\n', SpanOpen + cls + NumberOpen + p + CodeLineOpen + line, SpanClose);
  }

  lemma LineClassNoNewline(n: nat, sets: LineSets)
    ensures '\n' !in LineClass(n, sets)
  {
    DelClassNoNewline();
    AddClassNoNewline();
    HighlightClassNoNewline();
  }

  /** Back at the line level, the markup holds one line per code line, in
      order: line `i` carries number `i + 1`, padded to the common width, the
      class of `i + 1` and the code line itself. */
  lemma NumberedLinesSplit(lines: seq<string>, sets: LineSets)
    requires |lines| > 0 && forall l <- lines :: '\n' !in l
    ensures var out := Split(LineNumberedHtml(lines, sets), '\n');
            |out| == |lines| &&
            forall i :: 0 <= i < |lines| ==>
              out[i] == NumberedLine(i + 1, lines[i], LineClass(i + 1, sets), Width(|lines|))
  {
    var r := RenderedLines(lines, sets);
    RenderedNoNewline(lines, sets);
    assert "\n" == ['\n'];
    JoinSplit(r, '\n');
    assert Split(LineNumberedHtml(lines, sets), '\n') == r;
    forall i | 0 <= i < |lines|
      ensures r[i] == NumberedLine(i + 1, lines[i], LineClass(i + 1, sets), Width(|lines|))
    {
    }
  }

  lemma RenderedNoNewline(lines: seq<string>, sets: LineSets)
    requires forall l <- lines :: '\n' !in l
    ensures forall l <- RenderedLines(lines, sets) :: '\n' !in l
  {
    forall i | 0 <= i < |lines| ensures '\n' !in RenderedLines(lines, sets)[i] {
      RenderedAt(lines, sets, i);
    }
  }

  lemma RenderedAt(lines: seq<string>, sets: LineSets, i: nat)
    requires i < |lines| && '\n' !in lines[i]
    ensures '\n' !in RenderedLines(lines, sets)[i]
  {
    OneLineNoNewline(i + 1, lines[i], sets, Width(|lines|));
  }

  lemma OneLineNoNewline(n: nat, line: string, sets: LineSets, width: nat)
    requires '\n' !in line
    ensures '\n' !in NumberedLine(n, line, LineClass(n, sets), width)
  {
    LineClassNoNewline(n, sets);
    NumberedLineNoNewline(n, line, LineClass(n, sets), width);
  }

  // ---------------------------------------------------------------------------
  // The code block

  /** The highlighted markup of the code text: the highlighter for a language
      it knows, the escaped text when there is no language, an unknown one, or
      the highlighter fails. */
  function Highlighted(language: Option<string>, code: string,
                       highlight: (Language, string) -> Result<string, string>,
                       escape: string -> string): (html: string)
  {
    match language
    case Some(l) =>
      (match InkjetLanguage(l)
       case Some(lang) =>
         (match highlight(lang, code)
          case Ok(h) => h
          case Err(_) => escape(code))
       case None => escape(code))
    case None => escape(code)
  }

  /** The highlighter's output is used exactly when the language is known and
      highlighting succeeds; otherwise the text is escaped. */
  lemma HighlightedChoice(language: Option<string>, code: string,
                          highlight: (Language, string) -> Result<string, string>,
                          escape: string -> string)
    ensures var used := language.Some? && InkjetLanguage(language.value).Some? &&
                        highlight(InkjetLanguage(language.value).value, code).Ok?;
            (used ==> Highlighted(language, code, highlight, escape) ==
                        highlight(InkjetLanguage(language.value).value, code).value) &&
            (!used ==> Highlighted(language, code, highlight, escape) == escape(code))
  {
  }

  const CodeOpen := "<pre><code>"
  const CodeClose := "</code></pre></div>"

  const BlockOpen := "<div class=\"code-block\"><div class=\"code-header\">"
  const CopyButton := "<button class=\"copy-button\" onclick=\"copyCode(this)\">copy</button>"

  /** The header after `BlockOpen`: the file name when there is one, the
      language and the copy button. */
  function HeaderRest(lang: string, filename: Option<string>): string {
    match filename
    case Some(f) =>
      "<span class=\"code-filename\">" + f + "</span>  <div><span class=\"code-language\">" + lang
      + "</span> " + CopyButton + "</div></div>"
    case None =>
      " <div><span class=\"code-language\">" + lang + "</span>" + CopyButton + " </div></div>"
  }

  /** `code_html`; `None` where `current_language.unwrap()` panics. */
  function CodeBlockHtml(language: Option<string>, filename: Option<string>, body: string): Option<string> {
    match language
    case None => None
    case Some(lang) => Some(BlockOpen + HeaderRest(lang, filename) + CodeOpen + body + CodeClose)
  }

  lemma WrapEnds(a: string, b: string, c: string, d: string, e: string)
    ensures StartsWith(a + b + c + d + e, a) && EndsWith(a + b + c + d + e, c + d + e)
  {
    assert a + b + c + d + e == a + (b + c + d + e);
    ConcatEnds(a, b + c + d + e);
    assert a + b + c + d + e == (a + b) + (c + d + e);
    ConcatEnds(a + b, c + d + e);
  }

  /** The markup exists exactly when there is a language, opens a
      `code-block` div and ends with the body in `<pre><code>`. */
  lemma CodeBlockShape(language: Option<string>, filename: Option<string>, body: string)
    ensures CodeBlockHtml(language, filename, body).Some? <==> language.Some?
    ensures CodeBlockHtml(language, filename, body).Some? ==>
              StartsWith(CodeBlockHtml(language, filename, body).value, BlockOpen) &&
              EndsWith(CodeBlockHtml(language, filename, body).value, CodeOpen + body + CodeClose)
  {
    if language.Some? {
      WrapEnds(BlockOpen, HeaderRest(language.value, filename), CodeOpen, body, CodeClose);
    }
  }

  /** The whole code block: highlighted or escaped text, cut into lines,
      numbered and wrapped; `None` where the source panics. */
  function RenderCodeBlock(fence: FenceInfo, sets: LineSets, code: string,
                           highlight: (Language, string) -> Result<string, string>,
                           escape: string -> string): Option<string>
  {
    var lines := Lines(Highlighted(fence.language, code, highlight, escape));
    CodeBlockHtml(fence.language, fence.filename, LineNumberedHtml(lines, sets))
  }

  /** A code block renders exactly when its info string names a language. */
  lemma RenderPanicsWithoutLanguage(fence: FenceInfo, sets: LineSets, code: string,
                                    highlight: (Language, string) -> Result<string, string>,
                                    escape: string -> string)
    ensures RenderCodeBlock(fence, sets, code, highlight, escape).None? <==> fence.language.None?
  {
  }
}
