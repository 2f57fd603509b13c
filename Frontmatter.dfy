/** `extract_frontmatter` in `src/markdown.rs`: splitting a page into its YAML
    frontmatter and its Markdown body. The YAML parser is a parameter. */
module Frontmatter {
  import opened Strings

  /** The part of a parsed YAML value the split looks at. */
  datatype Yaml = YString(s: string) | YMapping(entries: map<string, Yaml>) | YOther

  /** `Value::get`: a key of a mapping; nothing for any other value. */
  function Get(y: Yaml, key: string): Option<Yaml> {
    match y
    case YMapping(m) => if key in m then Some(m[key]) else None
    case _ => None
  }

  datatype FrontmatterError =
    | Missing            // "Frontmatter is missing"
    | NoEndDelimiter     // "Frontmatter end delimiter not found"
    | YamlError(msg: string)
    | MissingTitleOrDate // "Missing title or date in frontmatter"
    | NotStrings         // "Title and date must be strings"

  const Fence := "---"
  const EndPattern := "\n---"

  /** A frontmatter value with string `title` and `date`. */
  predicate ValidFrontmatter(y: Yaml) {
    Get(y, "title").Some? && Get(y, "date").Some? &&
    Get(y, "title").value.YString? && Get(y, "date").value.YString?
  }

  /** `extract_frontmatter`: the parsed frontmatter and the body after the
      first `\n---` found after the opening `---`. */
  function ExtractFrontmatter(content: string, parse: string -> Result<Yaml, string>)
    : Result<(Yaml, string), FrontmatterError>
  {
    SplitTrimmed(TrimStart(content), parse)
  }

  /** The split of the text once leading whitespace is gone. */
  function SplitTrimmed(trimmed: string, parse: string -> Result<Yaml, string>)
    : Result<(Yaml, string), FrontmatterError>
  {
    if !StartsWith(trimmed, Fence) then Err(Missing)
    else
      match FindFrom(trimmed[3..], EndPattern, 0)
      case None => Err(NoEndDelimiter)
      case Some(end) => AfterDelimiters(trimmed, 3 + end, parse)
  }

  /** The frontmatter text ends at `frontmatterEnd`, where `\n---` starts. */
  function AfterDelimiters(trimmed: string, frontmatterEnd: nat, parse: string -> Result<Yaml, string>)
    : Result<(Yaml, string), FrontmatterError>
    requires 3 <= frontmatterEnd && frontmatterEnd + |EndPattern| <= |trimmed|
  {
    Checked(parse(Trim(trimmed[3..frontmatterEnd])), trimmed[frontmatterEnd + |EndPattern|..])
  }

  /** The checks on the parsed frontmatter, in the order the source makes them. */
  function Checked(parsed: Result<Yaml, string>, body: string): Result<(Yaml, string), FrontmatterError> {
    match parsed
    case Err(e) => Err(YamlError(e))
    case Ok(y) =>
      if Get(y, "title").None? || Get(y, "date").None? then Err(MissingTitleOrDate)
      else if !Get(y, "title").value.YString? || !Get(y, "date").value.YString? then Err(NotStrings)
      else Ok((y, body))
  }

  /** The parser's error comes first, then a missing key (before a wrong
      type), then a non-string value; otherwise the parsed value and the body
      are returned. */
  lemma CheckedOutcome(parsed: Result<Yaml, string>, body: string)
    ensures parsed.Err? ==> Checked(parsed, body) == Err(YamlError(parsed.error))
    ensures parsed.Ok? && (Get(parsed.value, "title").None? || Get(parsed.value, "date").None?) ==>
              Checked(parsed, body) == Err(MissingTitleOrDate)
    ensures (parsed.Ok? && Get(parsed.value, "title").Some? && Get(parsed.value, "date").Some? &&
             !ValidFrontmatter(parsed.value)) ==> Checked(parsed, body) == Err(NotStrings)
    ensures Checked(parsed, body).Ok? <==> parsed.Ok? && ValidFrontmatter(parsed.value)
    ensures Checked(parsed, body).Ok? ==> Checked(parsed, body).value == (parsed.value, body)
  {
  }

  /** An occurrence in a suffix is an occurrence at the shifted position. */
  lemma OccursInSlice(s: string, from: nat, k: nat, pat: string)
    requires from <= |s|
    ensures OccursAt(s[from..], pat, k) <==> OccursAt(s, pat, from + k)
  {
    if OccursAt(s[from..], pat, k) {
      assert s[from..][k..k + |pat|] == s[from + k..from + k + |pat|];
    }
    if OccursAt(s, pat, from + k) {
      assert s[from..][k..k + |pat|] == s[from + k..from + k + |pat|];
    }
  }

  /** The first `\n---` at or after index 3 of the trimmed text. */
  predicate FirstEnd(trimmed: string, k: nat) {
    3 <= k && OccursAt(trimmed, EndPattern, k) &&
    forall j: nat :: 3 <= j < k ==> !OccursAt(trimmed, EndPattern, j)
  }

  lemma FindEnd(trimmed: string)
    requires |trimmed| >= 3
    ensures var r := FindFrom(trimmed[3..], EndPattern, 0);
            (r.Some? ==> FirstEnd(trimmed, 3 + r.value)) &&
            (r.None? ==> forall k: nat :: 3 <= k ==> !OccursAt(trimmed, EndPattern, k))
  {
    var r := FindFrom(trimmed[3..], EndPattern, 0);
    forall j: nat | 3 <= j ensures OccursAt(trimmed[3..], EndPattern, j - 3) <==> OccursAt(trimmed, EndPattern, j) {
      OccursInSlice(trimmed, 3, j - 3, EndPattern);
    }
  }

  /** The two ways the delimiters can be missing, and the error each gives:
      no `---` after leading whitespace, or no `\n---` at or after index 3. */
  lemma DelimiterErrors(content: string, parse: string -> Result<Yaml, string>)
    ensures var trimmed := TrimStart(content);
            (ExtractFrontmatter(content, parse) == Err(Missing) <==> !StartsWith(trimmed, Fence)) &&
            (ExtractFrontmatter(content, parse) == Err(NoEndDelimiter) <==>
               StartsWith(trimmed, Fence) && forall k: nat :: 3 <= k ==> !OccursAt(trimmed, EndPattern, k))
  {
    TrimmedDelimiterErrors(TrimStart(content), parse);
  }

  lemma TrimmedDelimiterErrors(trimmed: string, parse: string -> Result<Yaml, string>)
    ensures (SplitTrimmed(trimmed, parse) == Err(Missing) <==> !StartsWith(trimmed, Fence)) &&
            (SplitTrimmed(trimmed, parse) == Err(NoEndDelimiter) <==>
               StartsWith(trimmed, Fence) && forall k: nat :: 3 <= k ==> !OccursAt(trimmed, EndPattern, k))
  {
    if StartsWith(trimmed, Fence) {
      FindEnd(trimmed);
      var r := FindFrom(trimmed[3..], EndPattern, 0);
      if r.Some? {
        var end := 3 + r.value;
        assert OccursAt(trimmed, EndPattern, end);
        CheckedOutcome(parse(Trim(trimmed[3..end])), trimmed[end + |EndPattern|..]);
        assert SplitTrimmed(trimmed, parse) == AfterDelimiters(trimmed, end, parse);
      }
    }
  }

  /** Once both delimiters are there, the text between them (trimmed) goes to
      the parser and the body starts right after the first closing `\n---`,
      so the rest of the closing line stays in the body. */
  lemma ParsedOutcome(content: string, parse: string -> Result<Yaml, string>, k: nat)
    requires FirstEnd(TrimStart(content), k) && StartsWith(TrimStart(content), Fence)
    ensures ExtractFrontmatter(content, parse) == AfterDelimiters(TrimStart(content), k, parse)
  {
    FindEndIs(TrimStart(content), k);
    ExtractAt(TrimStart(content), parse, k - 3);
  }

  /** With the opening `---` and the closing `\n---` at `3 + e`, the split
      continues with the checks. */
  lemma ExtractAt(trimmed: string, parse: string -> Result<Yaml, string>, e: nat)
    requires StartsWith(trimmed, Fence)
    requires FindFrom(trimmed[3..], EndPattern, 0) == Some(e)
    ensures SplitTrimmed(trimmed, parse) == AfterDelimiters(trimmed, 3 + e, parse)
  {
  }

  /** The search finds the first closing delimiter. */
  lemma FindEndIs(trimmed: string, k: nat)
    requires |trimmed| >= 3 && FirstEnd(trimmed, k)
    ensures FindFrom(trimmed[3..], EndPattern, 0) == Some(k - 3)
  {
    FindEnd(trimmed);
    var r := FindFrom(trimmed[3..], EndPattern, 0);
    assert OccursAt(trimmed, EndPattern, k);
    var e: nat := 3 + r.value;
    assert FirstEnd(trimmed, e);
  }

  /** Success means an opening `---` and string `title` and `date`. */
  lemma SuccessIsValid(content: string, parse: string -> Result<Yaml, string>)
    ensures var r := ExtractFrontmatter(content, parse);
            r.Ok? ==> StartsWith(TrimStart(content), Fence) && ValidFrontmatter(r.value.0)
  {
    var trimmed := TrimStart(content);
    if StartsWith(trimmed, Fence) && FindFrom(trimmed[3..], EndPattern, 0).Some? {
      var k := 3 + FindFrom(trimmed[3..], EndPattern, 0).value;
      CheckedOutcome(parse(Trim(trimmed[3..k])), trimmed[k + 4..]);
    }
  }

  lemma TrimStartWhitespace(w: string, t: string)
    requires forall c <- w :: IsWhitespace(c)
    requires |t| > 0 && !IsWhitespace(t[0])
    ensures TrimStart(w + t) == t
    decreases |w|
  {
    if |w| > 0 {
      assert (w + t)[1..] == w[1..] + t;
      TrimStartWhitespace(w[1..], t);
    } else {
      assert w + t == t;
    }
  }

  /** The four parts of `a + x + p + b`, by position. */
  lemma Layout(a: string, x: string, p: string, b: string)
    ensures var t := a + x + p + b;
            t[..|a|] == a && t[|a|..] == x + p + b && t[|a|..|a| + |x|] == x &&
            t[|a| + |x| + |p|..] == b
  {
  }

  lemma Regroup(w: string, a: string, x: string, p: string, b: string)
    ensures w + a + x + p + b == w + (a + x + p + b)
  {
  }

  /** An occurrence that fits in `y` is one of `y + b`, and back. */
  lemma OccursInPrefix(y: string, b: string, pat: string, j: nat)
    requires j + |pat| <= |y|
    ensures OccursAt(y + b, pat, j) <==> OccursAt(y, pat, j)
  {
    assert (y + b)[j..j + |pat|] == y[j..j + |pat|];
  }

  /** The closing delimiter of such a page is the one written after `x`. */
  lemma PageEnd(x: string, body: string)
    requires forall j: nat :: j < |x| ==> !OccursAt(x + EndPattern, EndPattern, j)
    ensures FirstEnd(Fence + x + EndPattern + body, 3 + |x|)
  {
    var t := Fence + x + EndPattern + body;
    var y := x + EndPattern;
    Layout(Fence, x, EndPattern, body);
    assert t[3..] == y + body;
    forall j: nat | 3 <= j < 3 + |x|
      ensures !OccursAt(t, EndPattern, j)
    {
      OccursInSlice(t, 3, j - 3, EndPattern);
      OccursInPrefix(y, body, EndPattern, j - 3);
    }
    OccursInSlice(t, 3, |x|, EndPattern);
    OccursInPrefix(y, body, EndPattern, |x|);
    assert y[|x|..|x| + |EndPattern|] == EndPattern;
  }

  /** Writing a page as whitespace, `---`, the frontmatter text `x`, `\n---`
      and a body gives the body back, whatever it holds, as long as `\n---`
      occurs in `x + "\n---"` only at its end. */
  lemma PageRoundTrip(w: string, x: string, body: string, parse: string -> Result<Yaml, string>)
    requires forall c <- w :: IsWhitespace(c)
    requires forall j: nat :: j < |x| ==> !OccursAt(x + EndPattern, EndPattern, j)
    requires parse(Trim(x)).Ok? && ValidFrontmatter(parse(Trim(x)).value)
    ensures ExtractFrontmatter(w + Fence + x + EndPattern + body, parse) == Ok((parse(Trim(x)).value, body))
  {
    PageStart(w, x, body);
    PageEnd(x, body);
    ParsedOutcome(w + Fence + x + EndPattern + body, parse, 3 + |x|);
    PageParts(x, body, parse);
    CheckedOutcome(parse(Trim(x)), body);
  }

  /** Leading whitespace is dropped up to the opening `---`. */
  lemma PageStart(w: string, x: string, body: string)
    requires forall c <- w :: IsWhitespace(c)
    ensures var t := Fence + x + EndPattern + body;
            TrimStart(w + Fence + x + EndPattern + body) == t && StartsWith(t, Fence)
  {
    var t := Fence + x + EndPattern + body;
    Regroup(w, Fence, x, EndPattern, body);
    ConcatEnds(Fence, x + EndPattern + body);
    assert Fence + x + EndPattern + body == Fence + (x + EndPattern + body);
    assert t[0] == Fence[0] == '-';
    TrimStartWhitespace(w, t);
  }

  /** The text between the delimiters is `x` and the body is what follows. */
  lemma PageParts(x: string, body: string, parse: string -> Result<Yaml, string>)
    ensures var t := Fence + x + EndPattern + body;
            3 + |x| + |EndPattern| <= |t| &&
            AfterDelimiters(t, 3 + |x|, parse) == Checked(parse(Trim(x)), body)
  {
    Layout(Fence, x, EndPattern, body);
  }
}
