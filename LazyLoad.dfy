/** `add_lazy_loading` in `src/lazy_load.rs`: every `<img ...src="...">` tag
    of a page becomes a container holding the tag, now pointing at a small
    placeholder with the real source in `data-src`, and the placeholder image
    itself. */
module LazyLoad {
  import opened Strings
  import opened RustPath
  import opened Rewrite

  const ImgOpen := "<img"
  const SrcOpen := "src=\""
  const LazyDir := "/static/lazy/"

  /** The end of the run of whitespace (`\s`) that starts at `i`. */
  function WhitespaceEnd(s: string, i: nat): (r: nat)
    requires i <= |s|
    ensures i <= r <= |s|
    ensures forall k :: i <= k < r ==> IsWhitespace(s[k])
    ensures r < |s| ==> !IsWhitespace(s[r])
    decreases |s| - i
  {
    if i < |s| && IsWhitespace(s[i]) then WhitespaceEnd(s, i + 1) else i
  }

  /** Where the rest of the pattern, `src="([^"]+)"([^>]*)>`, ends when it
      starts at `k`: the closing quote and the closing `>`. */
  datatype SrcTail = SrcTail(close: nat, gt: nat)

  function TailAt(s: string, k: nat): (r: Option<SrcTail>)
    ensures r.Some? ==> OccursAt(s, SrcOpen, k)
    ensures r.Some? ==> k + |SrcOpen| < r.value.close < r.value.gt < |s|
    ensures r.Some? ==> s[r.value.close] == '"' && s[r.value.gt] == '>'
    ensures r.Some? ==> forall j :: k + |SrcOpen| <= j < r.value.close ==> s[j] != '"'
    ensures r.Some? ==> forall j :: r.value.close < j < r.value.gt ==> s[j] != '>'
  {
    if !OccursAt(s, SrcOpen, k) then None
    else
      match FindChar(s, '"', k + |SrcOpen|)
      case None => None
      case Some(c) =>
        if c == k + |SrcOpen| then None
        else
          match FindChar(s, '>', c + 1)
          case None => None
          case Some(g) => Some(SrcTail(c, g))
  }

  /** The greedy `([^>]*)` before `src="`: the last position in `[q, p)`
      from which the rest of the pattern matches. */
  function LastTail(s: string, q: nat, p: nat): (r: Option<nat>)
    ensures r.Some? ==> q <= r.value < p && TailAt(s, r.value).Some?
    ensures r.Some? ==> forall k :: r.value < k < p ==> TailAt(s, k).None?
    ensures r.None? ==> forall k :: q <= k < p ==> TailAt(s, k).None?
    decreases p
  {
    if p <= q then None
    else if TailAt(s, p - 1).Some? then Some(p - 1)
    else LastTail(s, q, p - 1)
  }

  /** Where a match of `<img\s+([^>]*)src="([^"]+)"([^>]*)>` starting at
      `i` is cut: the end of the whitespace, the `src="`, the closing quote
      and the closing `>`. */
  datatype Cut = Cut(q: nat, k: nat, close: nat, gt: nat)

  predicate ValidCut(s: string, i: nat, c: Cut) {
    i + |ImgOpen| < c.q <= c.k && c.k + |SrcOpen| < c.close < c.gt < |s| &&
    OccursAt(s, ImgOpen, i) && OccursAt(s, SrcOpen, c.k) && s[c.close] == '"' && s[c.gt] == '>' &&
    (forall j :: i + |ImgOpen| <= j < c.q ==> IsWhitespace(s[j])) &&
    (forall j :: c.q <= j < c.k ==> s[j] != '>') &&
    (forall j :: c.k + |SrcOpen| <= j < c.close ==> s[j] != '"') &&
    (forall j :: c.close < j < c.gt ==> s[j] != '>')
  }

  /** The match starting at `i`, if any, as the regex engine prefers it:
      `\s+` takes every whitespace character, the first group runs to the
      last `src="` before the first `>` from which the rest matches, the
      source to the next quote, and the last group to the next `>`. */
  function CutAt(s: string, i: nat): (r: Option<Cut>)
    ensures r.Some? ==> ValidCut(s, i, r.value)
  {
    if !OccursAt(s, ImgOpen, i) then None
    else
      var q := WhitespaceEnd(s, i + |ImgOpen|);
      if q == i + |ImgOpen| then None
      else
        var limit := match FindChar(s, '>', q) case Some(g) => g case None => |s|;
        match LastTail(s, q, limit)
        case None => None
        case Some(k) =>
          var t := TailAt(s, k).value;
          Some(Cut(q, k, t.close, t.gt))
  }

  /** One match: the whitespace, the three groups, and the index right after
      the closing `>`. */
  datatype ImgTag = ImgTag(spaces: string, before: string, src: string, after: string, end: nat)

  function ImgAt(s: string, i: nat): (r: Option<ImgTag>)
    ensures r.Some? ==> i < r.value.end <= |s|
  {
    match CutAt(s, i)
    case None => None
    case Some(c) => Some(TagOf(s, i, c))
  }

  /** The groups of a match cut at `c`. */
  function TagOf(s: string, i: nat, c: Cut): (r: ImgTag)
    requires ValidCut(s, i, c)
    ensures i < r.end <= |s|
  {
    ImgTag(s[i + |ImgOpen|..c.q], s[c.q..c.k], s[c.k + |SrcOpen|..c.close], s[c.close + 1..c.gt], c.gt + 1)
  }

  /** A match spells out the pattern: `<img`, whitespace, attributes without
      `>`, a non-empty source without a quote, attributes without `>`, `>`. */
  lemma {:induction false} ImgAtShape(s: string, i: nat)
    requires ImgAt(s, i).Some?
    ensures var tag := ImgAt(s, i).value;
            s[i..tag.end] == ImgOpen + tag.spaces + tag.before + SrcOpen + tag.src + "\"" + tag.after + ">" &&
            |tag.spaces| > 0 && (forall c <- tag.spaces :: IsWhitespace(c)) &&
            '>' !in tag.before && |tag.src| > 0 && '"' !in tag.src && '>' !in tag.after
  {
    var c := CutAt(s, i).value;
    assert ImgAt(s, i).value == TagOf(s, i, c);
    CutShape(s, i, c);
  }

  lemma {:induction false} CutShape(s: string, i: nat, c: Cut)
    requires ValidCut(s, i, c)
    ensures Shaped(s, i, TagOf(s, i, c))
  {
    var tag := ImgTag(s[i + |ImgOpen|..c.q], s[c.q..c.k], s[c.k + |SrcOpen|..c.close], s[c.close + 1..c.gt], c.gt + 1);
    TagShape(s, i, c);
    SameShape(s, i, tag, TagOf(s, i, c));
  }

  lemma {:induction false} SameShape(s: string, i: nat, t: ImgTag, u: ImgTag)
    requires t == u && Shaped(s, i, t)
    ensures Shaped(s, i, u)
  {
  }

  /** The match text at `i` is spelled out by the groups of `tag`. */
  predicate Shaped(s: string, i: nat, tag: ImgTag) {
    i <= tag.end <= |s| &&
    s[i..tag.end] == TagText(tag) &&
    |tag.spaces| > 0 && (forall c <- tag.spaces :: IsWhitespace(c)) &&
    '>' !in tag.before && |tag.src| > 0 && '"' !in tag.src && '>' !in tag.after
  }

  /** The text a match spells out. */
  function TagText(tag: ImgTag): string {
    ImgOpen + tag.spaces + tag.before + SrcOpen + tag.src + "\"" + tag.after + ">"
  }

  /** The same, for the positions the match is cut at. */
  lemma {:induction false} TagShape(s: string, i: nat, c: Cut)
    requires ValidCut(s, i, c)
    ensures Shaped(s, i, ImgTag(s[i + |ImgOpen|..c.q], s[c.q..c.k], s[c.k + |SrcOpen|..c.close], s[c.close + 1..c.gt], c.gt + 1))
  {
    TagPieces(s, i, c.q, c.k, c.close, c.gt);
    assert s[i..i + |ImgOpen|] == ImgOpen;
    assert s[c.k..c.k + |SrcOpen|] == SrcOpen;
    assert [s[c.close]] == "\"" && [s[c.gt]] == ">";
    Without(s, i + |ImgOpen|, c.q, (x: char) => IsWhitespace(x));
    Without(s, c.q, c.k, (x: char) => x != '>');
    Without(s, c.k + |SrcOpen|, c.close, (x: char) => x != '"');
    Without(s, c.close + 1, c.gt, (x: char) => x != '>');
  }

  /** A property of every character in a range holds for the slice. */
  lemma {:induction false} Without(s: string, a: nat, b: nat, p: char -> bool)
    requires a <= b <= |s| && forall j :: a <= j < b ==> p(s[j])
    ensures forall x <- s[a..b] :: p(x)
  {
    assert forall j :: 0 <= j < b - a ==> s[a..b][j] == s[a + j];
  }

  /** The text of a match, cut at the ends of its parts. */
  lemma {:induction false} TagPieces(s: string, i: nat, q: nat, k: nat, c: nat, g: nat)
    requires i + |ImgOpen| <= q <= k && k + |SrcOpen| <= c < g < |s|
    ensures s[i..g + 1] == s[i..i + |ImgOpen|] + s[i + |ImgOpen|..q] + s[q..k] + s[k..k + |SrcOpen|] +
                           s[k + |SrcOpen|..c] + [s[c]] + s[c + 1..g] + [s[g]]
  {
    SliceSplit(s, i, i + |ImgOpen|, q);
    SliceSplit(s, i, q, k);
    SliceSplit(s, i, k, k + |SrcOpen|);
    SliceSplit(s, i, k + |SrcOpen|, c);
    SliceSplit(s, i, c, c + 1);
    SliceSplit(s, i, c + 1, g);
    SliceSplit(s, i, g, g + 1);
    assert s[c..c + 1] == [s[c]] && s[g..g + 1] == [s[g]];
  }

  /** `file_stem()` of the source, or "" when it has no file name. */
  function FileStem(src: string): string {
    match TextFileName(src)
    case Some(name) => Stem(name)
    case None => ""
  }

  /** `extension()` of the source, or "" when it has none. */
  function FileExtension(src: string): string {
    match TextFileName(src)
    case Some(name) => (match Extension(name) case Some(e) => e case None => "")
    case None => ""
  }

  /** The placeholder path an image gets: the source's file stem under
      `/static/lazy/`, with `.webp` or with its own extension. */
  function Placeholder(src: string, webp: bool): string {
    if webp then LazyDir + FileStem(src) + ".webp"
    else LazyDir + FileStem(src) + "." + FileExtension(src)
  }

  /** Without conversion to WebP the placeholder is the source's file name
      under `/static/lazy/`, with a `.` added when that name has no
      extension; with conversion the extension becomes `webp`. Only the
      file name counts, so sources in different directories share one
      placeholder. */
  lemma {:induction false} PlaceholderFromName(src: string)
    ensures forall name :: TextFileName(src) == Some(name) && Extension(name).Some? ==>
              Placeholder(src, false) == LazyDir + name
    ensures forall name :: TextFileName(src) == Some(name) && Extension(name).None? ==>
              Placeholder(src, false) == LazyDir + name + "."
    ensures forall name :: TextFileName(src) == Some(name) ==>
              Placeholder(src, true) == LazyDir + Stem(name) + ".webp" && StartsWith(name, Stem(name))
    ensures TextFileName(src).None? ==>
              Placeholder(src, false) == LazyDir + "." && Placeholder(src, true) == LazyDir + ".webp"
  {
    match TextFileName(src)
    case Some(name) =>
      if Extension(name).Some? {
        StemExtension(name);
        assert LazyDir + Stem(name) + "." + Extension(name).value == LazyDir + (Stem(name) + "." + Extension(name).value);
      }
    case None =>
  }

  /** The fixed text of the replacement, around the captured pieces. */
  datatype Template = Template(open: string, dataSrc: string, lazy: string, placeholderOpen: string, close: string)

  const LazyTemplate := Template(
    "<div class=\"lazy-image-container\">\n                    <img ",
    "\" data-src=\"",
    "\" loading=\"lazy\" ",
    "><img class=\"placeholder\" src=\"",
    "\" alt=\"loading...\">\n                </div>")

  /** The container for one tag: the tag with the placeholder as `src`, the
      real source as `data-src` and `loading="lazy"`, then the placeholder
      image. */
  function Container(t: Template, tag: ImgTag, placeholder: string): string {
    t.open + tag.before + SrcOpen + placeholder + t.dataSrc + tag.src + t.lazy + tag.after +
    t.placeholderOpen + placeholder + t.close
  }

  /** The closure's text for a match at `i`, if there is one. */
  function LazyHit(t: Template, webp: bool, s: string, i: nat): Option<Hit> {
    match ImgAt(s, i)
    case None => None
    case Some(tag) => Some(Hit(tag.end - i, Container(t, tag, Placeholder(tag.src, webp))))
  }

  function LazyMatcher(t: Template, webp: bool): Matcher {
    (s: string, i: nat) => LazyHit(t, webp, s, i)
  }

  function AddLazyLoadingWith(t: Template, html: string, webp: bool): string {
    ReplaceAllMatches(html, LazyMatcher(t, webp))
  }

  /** `add_lazy_loading`: every `<img>` tag rewritten into a lazy container. */
  function AddLazyLoading(html: string, webp: bool): string {
    AddLazyLoadingWith(LazyTemplate, html, webp)
  }

  /** A page without `<img` is returned unchanged. */
  lemma {:induction false} NoImageUnchanged(html: string, webp: bool)
    requires forall k: nat :: !OccursAt(html, ImgOpen, k)
    ensures AddLazyLoading(html, webp) == html
  {
    NoImageUnchangedWith(LazyTemplate, html, webp);
  }

  lemma {:induction false} NoImageUnchangedWith(t: Template, html: string, webp: bool)
    requires forall k: nat :: !OccursAt(html, ImgOpen, k)
    ensures AddLazyLoadingWith(t, html, webp) == html
  {
    var m := LazyMatcher(t, webp);
    forall j | 0 <= j < |html| ensures m(html, j).None? {
      assert !OccursAt(html, ImgOpen, j);
      assert LazyHit(t, webp, html, j).None?;
    }
    ReplaceNoMatch(html, m);
  }

  /** The text before the first tag is copied and the tag becomes its
      container; the scan then goes on after the tag's `>`. */
  lemma {:induction false} FirstImageRewritten(html: string, webp: bool, i: nat)
    requires forall j :: 0 <= j < i ==> ImgAt(html, j).None?
    requires ImgAt(html, i).Some?
    ensures var tag := ImgAt(html, i).value;
            StartsWith(AddLazyLoading(html, webp), html[..i] + Container(LazyTemplate, tag, Placeholder(tag.src, webp)))
  {
    FirstImageRewrittenWith(LazyTemplate, html, webp, i);
  }

  lemma {:induction false} FirstImageRewrittenWith(t: Template, html: string, webp: bool, i: nat)
    requires forall j :: 0 <= j < i ==> ImgAt(html, j).None?
    requires ImgAt(html, i).Some?
    ensures var tag := ImgAt(html, i).value;
            StartsWith(AddLazyLoadingWith(t, html, webp), html[..i] + Container(t, tag, Placeholder(tag.src, webp)))
  {
    HitAt(t, webp, html, i);
    NoHitBefore(t, webp, html, i);
    var h := LazyHit(t, webp, html, i).value;
    FirstHitPrefix(t, webp, html, i, h);
  }

  /** The first hit of the matcher starts the rewritten text's tail. */
  lemma {:induction false} FirstHitPrefix(t: Template, webp: bool, html: string, i: nat, h: Hit)
    requires i < |html| && LazyHit(t, webp, html, i) == Some(h)
    requires forall j :: 0 <= j < i ==> LazyHit(t, webp, html, j).None?
    ensures StartsWith(AddLazyLoadingWith(t, html, webp), html[..i] + h.text)
  {
    var m := LazyMatcher(t, webp);
    assert m(html, i) == Some(h);
    assert forall j :: 0 <= j < i ==> m(html, j).None?;
    FirstMatchPrefix(html, m, i, h);
  }

  /** The matcher reports a tag where `ImgAt` finds one. */
  lemma {:induction false} HitAt(t: Template, webp: bool, html: string, i: nat)
    requires ImgAt(html, i).Some?
    ensures i < |html| &&
            LazyHit(t, webp, html, i) ==
            Some(Hit(ImgAt(html, i).value.end - i,
                     Container(t, ImgAt(html, i).value, Placeholder(ImgAt(html, i).value.src, webp))))
  {
  }

  lemma {:induction false} NoHitBefore(t: Template, webp: bool, html: string, i: nat)
    requires forall j :: 0 <= j < i ==> ImgAt(html, j).None?
    ensures forall j :: 0 <= j < i ==> LazyHit(t, webp, html, j).None?
  {
  }
}
