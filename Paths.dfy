/** `src/paths.rs`: the file index built from the `content` walk, the resolvers
    that turn a reference written in a note into a site URL, and the four
    rewriting passes over the Markdown text. */
module Paths {
  import opened Strings
  import opened RustPath
  import opened Utils
  import opened Rewrite

  /** The file index: a bare file name (and, for `.md` files, also the stem) to
      every walked path filed under it, in walk order. */
  type Index = map<string, seq<Path>>

  function Lookup(m: Index, key: string): seq<Path> {
    if key in m then m[key] else []
  }

  /** `entry(key).or_insert_with(Vec::new).push(p)`. */
  function Append(m: Index, key: string, p: Path): (r: Index)
    ensures Lookup(r, key) == Lookup(m, key) + [p]
    ensures forall k :: k != key ==> Lookup(r, k) == Lookup(m, k)
    ensures r.Keys == m.Keys + {key}
  {
    m[key := Lookup(m, key) + [p]]
  }

  /** What one walked entry adds to the index. */
  function AddEntry(m: Index, e: Entry): Index {
    if e.isDir then m
    else
      var name := FileName(e.path);
      var m' := Append(m, name, e.path);
      if EndsWith(name, ".md") then Append(m', Stem(name), e.path) else m'
  }

  /** The index `init_file_cache` builds from a walk. */
  function BuildIndex(walk: seq<Entry>): Index
    decreases |walk|
  {
    if |walk| == 0 then map[] else AddEntry(BuildIndex(walk[..|walk| - 1]), Last(walk))
  }

  /** Reference definition: the paths one entry files under `key` (its name, and
      for a Markdown file also its stem; a file named `.md` is its own stem and
      is filed twice). */
  function Filed(e: Entry, key: string): seq<Path> {
    var name := FileName(e.path);
    if e.isDir then []
    else
      (if name == key then [e.path] else [])
        + (if EndsWith(name, ".md") && Stem(name) == key then [e.path] else [])
  }

  /** Reference definition: everything the walk files under `key`, in walk order. */
  function EntriesFor(walk: seq<Entry>, key: string): seq<Path>
    decreases |walk|
  {
    if |walk| == 0 then [] else Filed(walk[0], key) + EntriesFor(walk[1..], key)
  }

  lemma {:induction false} EntriesForSnoc(walk: seq<Entry>, e: Entry, key: string)
    ensures EntriesFor(walk + [e], key) == EntriesFor(walk, key) + Filed(e, key)
    decreases |walk|
  {
    if |walk| == 0 {
      assert walk + [e] == [e];
      assert EntriesFor([e], key) == Filed(e, key) + EntriesFor([], key);
    } else {
      assert (walk + [e])[1..] == walk[1..] + [e];
      EntriesForSnoc(walk[1..], e, key);
    }
  }

  lemma AddEntryLookup(m: Index, e: Entry, key: string)
    ensures Lookup(AddEntry(m, e), key) == Lookup(m, key) + Filed(e, key)
  {
    if !e.isDir {
      var name := FileName(e.path);
      var m' := Append(m, name, e.path);
      var byName := if name == key then [e.path] else [];
      var byStem := if EndsWith(name, ".md") && Stem(name) == key then [e.path] else [];
      assert Lookup(m', key) == Lookup(m, key) + byName;
      if EndsWith(name, ".md") {
        assert Lookup(Append(m', Stem(name), e.path), key) == Lookup(m', key) + byStem;
      }
      assert Lookup(m, key) + byName + byStem == Lookup(m, key) + (byName + byStem);
    }
  }

  /** Every key of the index holds exactly the paths the reference definition
      files under it, in walk order. */
  lemma {:induction false} IndexLookup(walk: seq<Entry>, key: string)
    ensures Lookup(BuildIndex(walk), key) == EntriesFor(walk, key)
    decreases |walk|
  {
    if |walk| > 0 {
      var init := walk[..|walk| - 1];
      IndexLookup(init, key);
      AddEntryLookup(BuildIndex(init), Last(walk), key);
      EntriesForSnoc(init, Last(walk), key);
      assert init + [Last(walk)] == walk;
    }
  }

  lemma {:induction false} IndexKeysFiled(walk: seq<Entry>, key: string)
    ensures key in BuildIndex(walk) ==> |Lookup(BuildIndex(walk), key)| > 0
    decreases |walk|
  {
    if |walk| > 0 {
      var init := walk[..|walk| - 1];
      IndexKeysFiled(init, key);
      AddEntryLookup(BuildIndex(init), Last(walk), key);
    }
  }

  /** A key is in the index exactly when some walked file is filed under it, and
      then its list is the (non-empty) list of those files in walk order. */
  lemma IndexKeys(walk: seq<Entry>, key: string)
    ensures key in BuildIndex(walk) <==> |EntriesFor(walk, key)| > 0
    ensures key in BuildIndex(walk) ==> BuildIndex(walk)[key] == EntriesFor(walk, key)
  {
    IndexLookup(walk, key);
    IndexKeysFiled(walk, key);
  }

  /** No list in the index is empty. */
  lemma IndexListsNonEmpty(walk: seq<Entry>)
    ensures forall key <- BuildIndex(walk) :: |BuildIndex(walk)[key]| > 0
  {
    forall key <- BuildIndex(walk) ensures |BuildIndex(walk)[key]| > 0 {
      IndexKeys(walk, key);
    }
  }

  /** The directory of the current document relative to `content`:
      `parent().unwrap_or("").strip_prefix("content").unwrap_or("")`. */
  function BaseDir(current: Path): (d: Path)
    ensures d == (if |current| >= 2 && current[0] == "content" then current[1..|current| - 1] else [])
  {
    match Parent(current)
    case None => []
    case Some(p) =>
      match StripContent(p)
      case Some(q) => q
      case None => []
  }

  predicate IsRelativeRef(path: string) {
    StartsWith(path, "./") || StartsWith(path, "../")
  }

  /** The buffer after the first segment of a relative reference is interpreted. */
  function StartDir(first: string, dir: Path): string {
    if first == "." then PathString(dir)
    else if first == ".." then
      match Parent(dir)
      case Some(p) => PathString(p)
      case None => PathString(dir)
    else Push(PathString(dir), first)
  }

  /** The text `resolve_path` sanitizes. */
  function RelativeTarget(path: string, current: Path): string {
    if IsRelativeRef(path) then
      var segments := Split(path, '/');
      PushAll(StartDir(segments[0], BaseDir(current)), segments[1..])
    else path
  }

  /** A URL under `/static/` whose remainder is a sanitized, flat file name: only
      alphanumerics, `.`, `-` and `_`, so in particular no `/`. */
  predicate StaticRef(r: string) {
    StartsWith(r, "/static/") && forall i :: 8 <= i < |r| ==> PassesThrough(r[i])
  }

  function StaticUrl(relative: string): (r: string)
    ensures StaticRef(r)
    ensures r[8..] == Sanitized(relative)
  {
    SanitizedAlphabet(relative);
    "/static/" + Sanitized(relative)
  }

  /** The value `resolve_path(path, current)` returns. */
  function ResolvedPath(path: string, current: Path): (r: string)
    ensures StaticRef(r)
  {
    StaticUrl(RelativeTarget(path, current))
  }

  /** `resolve_path`: the relative case pushes the remaining segments onto a
      path buffer one at a time. */
  method ResolvePath(path: string, current: Path) returns (r: string)
    ensures r == ResolvedPath(path, current)
    ensures StaticRef(r)
  {
    var currentDir := BaseDir(current);
    var relativePath: string;
    if StartsWith(path, "./") || StartsWith(path, "../") {
      var fullPath := PathString(currentDir);
      var segments := Split(path, '/');
      var first := segments[0];
      if first == "." {
      } else if first == ".." {
        var up := Parent(currentDir);
        if up.Some? {
          fullPath := PathString(up.value);
        }
      } else {
        fullPath := Push(fullPath, first);
      }
      var start := fullPath;
      for k := 1 to |segments|
        invariant PushAll(fullPath, segments[k..]) == PushAll(start, segments[1..])
      {
        assert segments[k..][1..] == segments[k + 1..];
        fullPath := Push(fullPath, segments[k]);
      }
      assert segments[|segments|..] == [];
      relativePath := fullPath;
    } else {
      relativePath := path;
    }
    var sanitized := SanitizeFilename(relativePath);
    r := "/static/" + sanitized;
  }

  /** A reference that does not start with `./` or `../` is sanitized as written;
      the current document plays no part. */
  lemma ResolveIgnoresDocument(path: string, current: Path, other: Path)
    requires !IsRelativeRef(path)
    ensures ResolvedPath(path, current) == "/static/" + Sanitized(path)
    ensures ResolvedPath(path, current) == ResolvedPath(path, other)
  {
  }

  /** `./rest` is resolved against the document's directory below `content`. */
  lemma ResolveDotSlash(rest: string, current: Path)
    ensures ResolvedPath("./" + rest, current)
         == "/static/" + Sanitized(PushAll(PathString(BaseDir(current)), Split(rest, '/')))
  {
    assert "./" + rest == "." + ['/'] + rest;
    SplitPrefix(".", '/', rest);
    assert StartsWith("./" + rest, "./");
  }

  /** `../rest` is resolved against the parent of the document's directory, or
      the directory itself when it is already the top of `content`. */
  lemma ResolveDotDot(rest: string, current: Path)
    ensures ResolvedPath("../" + rest, current)
         == "/static/" + Sanitized(PushAll(PathString(UpOne(BaseDir(current))), Split(rest, '/')))
  {
    assert "../" + rest == ".." + ['/'] + rest;
    SplitPrefix("..", '/', rest);
    assert StartsWith("../" + rest, "../");
  }

  function UpOne(d: Path): Path {
    if |d| == 0 then d else d[..|d| - 1]
  }

  /** Only the first segment is interpreted: in `../../rest` the second `..`
      is pushed as a literal component instead of moving up again. */
  lemma ResolveOnlyFirstSegment(rest: string, current: Path)
    ensures RelativeTarget("../../" + rest, current)
         == PushAll(Push(PathString(UpOne(BaseDir(current))), ".."), Split(rest, '/'))
  {
    var path := "../../" + rest;
    assert path == ".." + ['/'] + ("../" + rest);
    assert "../" + rest == ".." + ['/'] + rest;
    SplitPrefix("..", '/', "../" + rest);
    SplitPrefix("..", '/', rest);
    assert StartsWith(path, "../");
    var segments := Split(path, '/');
    assert segments == [".."] + ([".."] + Split(rest, '/'));
    assert segments[1..] == [".."] + Split(rest, '/');
    assert segments[1..][1..] == Split(rest, '/');
  }

  /** `get_internal_link_path`. */
  function GetInternalLinkPath(path: string): (r: string)
    ensures StartsWith(r, "/")
  {
    var clean := if EndsWith(path, ".md") then path[..|path| - 3] else path;
    if clean == "index" then "/" else "/" + clean
  }

  /** Exactly one trailing `.md` is removed. */
  lemma InternalLinkStripsOneMd(s: string)
    requires s != "index"
    ensures GetInternalLinkPath(s + ".md") == "/" + s
  {
    assert (s + ".md")[..|s|] == s;
    assert (s + ".md")[|s|..] == ".md";
  }

  /** A reference without the `.md` suffix is kept as written. */
  lemma InternalLinkVerbatim(s: string)
    requires s != "index" && !EndsWith(s, ".md")
    ensures GetInternalLinkPath(s) == "/" + s
  {
  }

  /** `index` and `index.md` both go to the site root, but only at the top. */
  lemma InternalLinkIndex()
    ensures GetInternalLinkPath("index") == "/"
    ensures GetInternalLinkPath("index.md") == "/"
    ensures GetInternalLinkPath("a/index") == "/a/index"
  {
    assert "index.md"[..5] == "index";
    assert EndsWith("index.md", ".md");
    assert "index"[2] == 'd' && !EndsWith("index", ".md");
    assert "a/index"[4] == 'd' && !EndsWith("a/index", ".md");
  }

  /** `find_unique_image`: a bare name is looked up in the index and the first
      path filed under it is used (one match and several are the same case); a
      name with `/`, a name the index lacks, an empty list or a missing index
      fall back to `resolve_path`. */
  function FindUniqueImage(imageName: string, current: Path, cache: Option<Index>): (r: string)
    ensures StaticRef(r)
  {
    if '/' in imageName then ResolvedPath(imageName, current)
    else if cache.None? || imageName !in cache.value || |cache.value[imageName]| == 0 then
      ResolvedPath(imageName, current)
    else StaticUrl(PathString(StripContentOr(cache.value[imageName][0])))
  }

  /** Against the index of a walk: a bare name some file is filed under becomes
      the static URL of the first such file in walk order; anything else is
      resolved as a path. */
  lemma ImageFromWalk(imageName: string, current: Path, walk: seq<Entry>)
    ensures var found := EntriesFor(walk, imageName);
      FindUniqueImage(imageName, current, Some(BuildIndex(walk)))
        == if '/' !in imageName && |found| > 0
           then "/static/" + Sanitized(PathString(StripContentOr(found[0])))
           else ResolvedPath(imageName, current)
  {
    IndexKeys(walk, imageName);
  }

  /** The position of the first path whose text ends in `.md`. */
  function FirstMarkdown(matches: seq<Path>): (r: Option<nat>)
    ensures r.Some? ==> r.value < |matches| && EndsWith(PathString(matches[r.value]), ".md")
    ensures r.Some? ==> forall k :: 0 <= k < r.value ==> !EndsWith(PathString(matches[k]), ".md")
    ensures r.None? ==> forall k :: 0 <= k < |matches| ==> !EndsWith(PathString(matches[k]), ".md")
  {
    if |matches| == 0 then None
    else if EndsWith(PathString(matches[0]), ".md") then Some(0)
    else match FirstMarkdown(matches[1..])
      case Some(k) => Some(k + 1)
      case None => None
  }

  /** The page URL of an indexed file: `content` and the last extension are
      stripped, backslashes become `/`, and `index` is the site root. */
  function PageUrl(p: Path): (r: string)
    ensures StartsWith(r, "/")
  {
    var clean := ReplaceAll(PathString(WithoutExtension(StripContentOr(p))), "\\", "/");
    if clean == "index" then "/" else "/" + clean
  }

  /** `find_unique_internal_link`. */
  function FindUniqueInternalLink(linkName: string, cache: Option<Index>): (r: string)
    ensures StartsWith(r, "/")
  {
    if cache.None? || linkName !in cache.value || |cache.value[linkName]| == 0 then
      GetInternalLinkPath(linkName)
    else
      var matches := cache.value[linkName];
      var chosen := match FirstMarkdown(matches)
        case Some(k) => matches[k]
        case None => matches[0];
      PageUrl(chosen)
  }

  /** Against the index of a walk: a name some file is filed under links to the
      page of the first Markdown file filed under it, or of the first file when
      none is Markdown; any other name goes through `get_internal_link_path`. */
  lemma InternalLinkFromWalk(linkName: string, walk: seq<Entry>)
    ensures var found := EntriesFor(walk, linkName);
      FindUniqueInternalLink(linkName, Some(BuildIndex(walk)))
        == if |found| == 0 then GetInternalLinkPath(linkName)
           else match FirstMarkdown(found)
             case Some(k) => PageUrl(found[k])
             case None => PageUrl(found[0])
  {
    IndexKeys(walk, linkName);
  }

  // ---------------------------------------------------------------------
  // The patterns `!\[(.*?)\]\(([^)]+)\)` (open `![`, middle `](`) and
  // `\[(.*?)\]\(wiki:([^)]+)\)` (open `[`, middle `](wiki:`).

  /** A `[^)]+` run starting at `p` is closed by a `)`: the first `)` at or after
      `p` lies strictly after `p`. */
  predicate ClosesAfter(s: string, p: nat) {
    match FindChar(s, ')', p)
    case Some(q) => q > p
    case None => false
  }

  predicate NoNewline(s: string, a: nat, b: nat) {
    forall k :: a <= k < b && k < |s| ==> s[k] != '\n'
  }

  /** The lazy caption `(.*?)` of a match at `i` can end at `j`: it holds no line
      break, the middle follows, and a non-empty target closed by `)` follows that. */
  predicate LazyEndOk(s: string, i: nat, open: string, mid: string, j: nat) {
    OccursAt(s, open, i) && i + |open| <= j && NoNewline(s, i + |open|, j)
      && OccursAt(s, mid, j) && ClosesAfter(s, j + |mid|)
  }

  /** The captures of a match: caption, target and the length of the whole match. */
  datatype BracketCaps = BracketCaps(caption: string, target: string, len: PosNat)

  /** The match at `i` spells out `open caption mid target )`. */
  predicate BracketShape(s: string, i: nat, open: string, mid: string, c: BracketCaps) {
    i + c.len <= |s| && s[i..i + c.len] == open + c.caption + mid + c.target + ")"
      && '\n' !in c.caption && |c.target| > 0 && ')' !in c.target
  }

  /** Where the shortest admissible caption of a match at `i` ends. */
  function LazyEnd(s: string, i: nat, open: string, mid: string, j: nat): (r: Option<nat>)
    requires |mid| > 0 && OccursAt(s, open, i) && i + |open| <= j
    requires NoNewline(s, i + |open|, j)
    requires forall k: nat :: i + |open| <= k < j ==> !LazyEndOk(s, i, open, mid, k)
    ensures r.Some? ==> LazyEndOk(s, i, open, mid, r.value)
    ensures r.Some? ==> forall k: nat :: i + |open| <= k < r.value ==> !LazyEndOk(s, i, open, mid, k)
    ensures r.None? ==> forall k: nat :: i + |open| <= k ==> !LazyEndOk(s, i, open, mid, k)
    decreases |s| - j
  {
    if j >= |s| then
      PastTheEnd(s, i, open, mid, j);
      None
    else if OccursAt(s, mid, j) && ClosesAfter(s, j + |mid|) then Some(j)
    else if s[j] == '\n' then
      NewlineStops(s, i, open, mid, j);
      None
    else LazyEnd(s, i, open, mid, j + 1)
  }

  lemma PastTheEnd(s: string, i: nat, open: string, mid: string, j: nat)
    requires |mid| > 0 && j >= |s|
    ensures forall k: nat :: j <= k ==> !LazyEndOk(s, i, open, mid, k)
  {
  }

  lemma NewlineStops(s: string, i: nat, open: string, mid: string, j: nat)
    requires i + |open| <= j < |s| && s[j] == '\n'
    ensures forall k: nat :: j < k ==> !LazyEndOk(s, i, open, mid, k)
  {
    forall k: nat | j < k ensures !LazyEndOk(s, i, open, mid, k) {
      assert !NoNewline(s, i + |open|, k) by {
        assert i + |open| <= j < k && j < |s| && s[j] == '\n';
      }
    }
  }

  /** The captures of the match whose caption ends at `j`. */
  function CapsAt(s: string, i: nat, open: string, mid: string, j: nat): (c: BracketCaps)
    requires LazyEndOk(s, i, open, mid, j)
    ensures BracketShape(s, i, open, mid, c) && |c.caption| == j - i - |open|
  {
    var q := FindChar(s, ')', j + |mid|).value;
    CapsShape(s, i, open, mid, j, q);
    BracketCaps(s[i + |open|..j], s[j + |mid|..q], q + 1 - i)
  }

  lemma CapsShape(s: string, i: nat, open: string, mid: string, j: nat, q: nat)
    requires LazyEndOk(s, i, open, mid, j) && FindChar(s, ')', j + |mid|) == Some(q)
    ensures q + 1 <= |s| && q + 1 - i > 0
    ensures s[i..q + 1] == open + s[i + |open|..j] + mid + s[j + |mid|..q] + ")"
    ensures '\n' !in s[i + |open|..j] && |s[j + |mid|..q]| > 0 && ')' !in s[j + |mid|..q]
  {
    assert s[i..q + 1] == s[i..i + |open|] + s[i + |open|..j] + s[j..j + |mid|] + s[j + |mid|..q] + s[q..q + 1];
    var caption := s[i + |open|..j];
    forall k | 0 <= k < |caption| ensures caption[k] != '\n' {
      assert caption[k] == s[i + |open| + k];
    }
    var target := s[j + |mid|..q];
    forall k | 0 <= k < |target| ensures target[k] != ')' {
      assert target[k] == s[j + |mid| + k];
    }
  }

  /** The regex's match at `i`, if it has one: the one with the shortest
      admissible caption. */
  function LazyBracketAt(s: string, i: nat, open: string, mid: string): (r: Option<BracketCaps>)
    requires |mid| > 0
    ensures r.Some? ==> BracketShape(s, i, open, mid, r.value)
    ensures r.Some? ==> LazyEndOk(s, i, open, mid, i + |open| + |r.value.caption|)
    ensures r.Some? ==> forall k: nat :: k < i + |open| + |r.value.caption| ==> !LazyEndOk(s, i, open, mid, k)
    ensures r.None? ==> forall k: nat :: !LazyEndOk(s, i, open, mid, k)
  {
    if OccursAt(s, open, i) then
      match LazyEnd(s, i, open, mid, i + |open|)
      case Some(e) => Some(CapsAt(s, i, open, mid, e))
      case None => None
    else None
  }

  // ---------------------------------------------------------------------
  // The patterns `!\[\[([^|\]]+)(?:\|([^\]]*))?\]\]` (open `![[`) and
  // `\[\[([^|\]]+)(?:\|([^\]]*))?\]\]` (open `[[`).

  /** The text between the brackets of an embed: no `]`, and a non-empty target
      before the first `|` (or the whole text when it has no `|`). */
  predicate ValidEmbedBody(b: string) {
    ']' !in b
      && match FindChar(b, '|', 0)
         case None => |b| > 0
         case Some(p) => p > 0
  }

  /** `t` is exactly one match of the embed pattern with opening `open`. */
  predicate IsEmbed(open: string, t: string) {
    |t| >= |open| + 2 && StartsWith(t, open) && EndsWith(t, "]]") && ValidEmbedBody(t[|open|..|t| - 2])
  }

  datatype EmbedCaps = EmbedCaps(target: string, caption: Option<string>, len: PosNat)

  function CaptionText(caption: Option<string>): string {
    match caption
    case Some(l) => "|" + l
    case None => ""
  }

  /** The first index at or after `from` holding `|` or `]` (or the end). */
  function RunEnd(s: string, from: nat): (r: nat)
    requires from <= |s|
    ensures from <= r <= |s|
    ensures forall k :: from <= k < r ==> s[k] != '|' && s[k] != ']'
    ensures r < |s| ==> s[r] == '|' || s[r] == ']'
    decreases |s| - from
  {
    if from == |s| || s[from] == '|' || s[from] == ']' then from else RunEnd(s, from + 1)
  }

  /** The regex's match at `i`, if it has one: the greedy target runs to the
      first `|` or `]`; after a `|` the caption runs to the first `]`; and `]]`
      must follow. */
  function EmbedAt(s: string, i: nat, open: string): (r: Option<EmbedCaps>) {
    if !OccursAt(s, open, i) then None
    else
      var p := RunEnd(s, i + |open|);
      if p == i + |open| || p >= |s| then None
      else if s[p] == '|' then
        match FindChar(s, ']', p + 1)
        case None => None
        case Some(a) =>
          if OccursAt(s, "]]", a) then Some(EmbedCaps(s[i + |open|..p], Some(s[p + 1..a]), a + 2 - i))
          else None
      else if OccursAt(s, "]]", p) then Some(EmbedCaps(s[i + |open|..p], None, p + 2 - i))
      else None
  }

  lemma NoneOfIn(t: string, c: char, d: char, s: string, a: nat)
    requires a + |t| <= |s| && t == s[a..a + |t|]
    requires forall k :: a <= k < a + |t| ==> s[k] != c && s[k] != d
    ensures c !in t && d !in t
  {
    forall k | 0 <= k < |t| ensures t[k] != c && t[k] != d {
      assert t[k] == s[a + k];
    }
  }

  lemma EmbedWithCaption(open: string, target: string, caption: string)
    requires |target| > 0 && '|' !in target && ']' !in target && ']' !in caption
    ensures IsEmbed(open, open + target + ("|" + caption) + "]]")
  {
    var t := open + target + ("|" + caption) + "]]";
    var b := t[|open|..|t| - 2];
    assert b == target + "|" + caption;
    assert b[|target|] == '|';
    assert forall k :: 0 <= k < |target| ==> b[k] == target[k];
    assert FindChar(b, '|', 0) == Some(|target|);
    assert t[..|open|] == open;
    assert t[|t| - 2..] == "]]";
  }

  lemma EmbedPlain(open: string, target: string)
    requires |target| > 0 && '|' !in target && ']' !in target
    ensures IsEmbed(open, open + target + "]]")
  {
    var t := open + target + "]]";
    assert t[|open|..|t| - 2] == target;
    assert FindChar(target, '|', 0).None?;
    assert t[..|open|] == open;
    assert t[|t| - 2..] == "]]";
  }

  lemma CaptionSplit(s: string, i: nat, open: string, p: nat, a: nat)
    requires OccursAt(s, open, i) && i + |open| <= p < a && OccursAt(s, "]]", a) && s[p] == '|'
    ensures s[i..a + 2] == open + s[i + |open|..p] + ("|" + s[p + 1..a]) + "]]"
  {
    var target, caption := s[i + |open|..p], s[p + 1..a];
    SliceSplit(s, i, i + |open|, a + 2);
    SliceSplit(s, i + |open|, p, a + 2);
    SliceSplit(s, p, p + 1, a + 2);
    SliceSplit(s, p + 1, a, a + 2);
    assert s[p..p + 1] == "|";
    calc {
      s[i..a + 2];
      open + (target + ("|" + (caption + "]]")));
      open + target + ("|" + caption) + "]]";
    }
  }

  lemma PlainSplit(s: string, i: nat, open: string, p: nat)
    requires OccursAt(s, open, i) && i + |open| <= p && OccursAt(s, "]]", p)
    ensures s[i..p + 2] == open + s[i + |open|..p] + "]]"
  {
    SliceSplit(s, i, i + |open|, p + 2);
    SliceSplit(s, i + |open|, p, p + 2);
  }

  /** Whatever `EmbedAt` finds is one match of the pattern, spelled out by its
      captures: a non-empty target without `|` or `]`, and a caption without `]`. */
  lemma EmbedSound(s: string, i: nat, open: string)
    requires EmbedAt(s, i, open).Some?
    ensures var c := EmbedAt(s, i, open).value;
      i + c.len <= |s| && s[i..i + c.len] == open + c.target + CaptionText(c.caption) + "]]"
      && |c.target| > 0 && '|' !in c.target && ']' !in c.target
      && (c.caption.Some? ==> ']' !in c.caption.value)
      && IsEmbed(open, s[i..i + c.len])
  {
    var p := RunEnd(s, i + |open|);
    if s[p] == '|' {
      var a := FindChar(s, ']', p + 1).value;
      assert EmbedAt(s, i, open).value == EmbedCaps(s[i + |open|..p], Some(s[p + 1..a]), a + 2 - i);
      SoundCaption(s, i, open, p, a);
    } else {
      assert EmbedAt(s, i, open).value == EmbedCaps(s[i + |open|..p], None, p + 2 - i);
      SoundPlain(s, i, open, p);
    }
  }

  lemma SoundCaption(s: string, i: nat, open: string, p: nat, a: nat)
    requires OccursAt(s, open, i) && i + |open| < p < a && OccursAt(s, "]]", a) && s[p] == '|'
    requires forall k :: i + |open| <= k < p ==> s[k] != '|' && s[k] != ']'
    requires forall k :: p + 1 <= k < a ==> s[k] != ']'
    ensures var target, caption := s[i + |open|..p], s[p + 1..a];
      s[i..a + 2] == open + target + ("|" + caption) + "]]"
      && '|' !in target && ']' !in target && ']' !in caption
      && IsEmbed(open, s[i..a + 2])
  {
    var target, caption := s[i + |open|..p], s[p + 1..a];
    NoneOfIn(target, '|', ']', s, i + |open|);
    NoneOfIn(caption, ']', ']', s, p + 1);
    CaptionSplit(s, i, open, p, a);
    EmbedWithCaption(open, target, caption);
  }

  lemma SoundPlain(s: string, i: nat, open: string, p: nat)
    requires OccursAt(s, open, i) && i + |open| < p && OccursAt(s, "]]", p)
    requires forall k :: i + |open| <= k < p ==> s[k] != '|' && s[k] != ']'
    ensures var target := s[i + |open|..p];
      s[i..p + 2] == open + target + "]]"
      && '|' !in target && ']' !in target
      && IsEmbed(open, s[i..p + 2])
  {
    var target := s[i + |open|..p];
    NoneOfIn(target, '|', ']', s, i + |open|);
    PlainSplit(s, i, open, p);
    EmbedPlain(open, target);
  }

  /** The pieces a match of the embed pattern is made of. */
  lemma EmbedParts(s: string, i: nat, open: string, e: nat)
    requires i < e <= |s| && IsEmbed(open, s[i..e])
    ensures i + |open| + 2 <= e
    ensures OccursAt(s, open, i) && OccursAt(s, "]]", e - 2)
    ensures ValidEmbedBody(s[i + |open|..e - 2])
  {
    var t := s[i..e];
    SliceOfSlice(s, i, e, 0, |open|);
    SliceOfSlice(s, i, e, |t| - 2, |t|);
    SliceOfSlice(s, i, e, |open|, |t| - 2);
  }

  lemma CompletePlain(s: string, i: nat, open: string, e: nat)
    requires i + |open| + 2 < e && OccursAt(s, open, i) && OccursAt(s, "]]", e - 2)
    requires forall k :: i + |open| <= k < e - 2 ==> s[k] != '|' && s[k] != ']'
    ensures EmbedAt(s, i, open) == Some(EmbedCaps(s[i + |open|..e - 2], None, e - i))
  {
    var p := RunEnd(s, i + |open|);
    assert s[e - 2] == ']' by { OccursAtChar(s, "]]", e - 2, 0); }
    assert p == e - 2;
  }

  lemma CompleteCaption(s: string, i: nat, open: string, e: nat, p: nat)
    requires i + |open| < p && p + 2 < e && OccursAt(s, open, i) && OccursAt(s, "]]", e - 2)
    requires forall k :: i + |open| <= k < p ==> s[k] != '|' && s[k] != ']'
    requires s[p] == '|'
    requires forall k :: p < k < e - 2 ==> s[k] != ']'
    ensures EmbedAt(s, i, open) == Some(EmbedCaps(s[i + |open|..p], Some(s[p + 1..e - 2]), e - i))
  {
    assert s[e - 2] == ']' by { OccursAtChar(s, "]]", e - 2, 0); }
    assert RunEnd(s, i + |open|) == p;
    assert FindChar(s, ']', p + 1) == Some(e - 2);
  }

  /** The scanner misses no match: wherever a piece of the text starting at `i`
      is a match of the embed pattern, `EmbedAt` finds exactly that piece, with
      the target up to the first `|` and the caption after it. */
  lemma EmbedComplete(s: string, i: nat, open: string, e: nat)
    requires i < e <= |s| && IsEmbed(open, s[i..e])
    ensures EmbedAt(s, i, open).Some? && EmbedAt(s, i, open).value.len == e - i
    ensures var b := s[i + |open|..e - 2];
      match FindChar(b, '|', 0)
      case None => EmbedAt(s, i, open).value.target == b && EmbedAt(s, i, open).value.caption == None
      case Some(q) => EmbedAt(s, i, open).value.target == b[..q] && EmbedAt(s, i, open).value.caption == Some(b[q + 1..])
  {
    EmbedParts(s, i, open, e);
    var b := s[i + |open|..e - 2];
    assert forall k :: i + |open| <= k < e - 2 ==> s[k] == b[k - i - |open|];
    match FindChar(b, '|', 0)
    case None =>
      CompletePlain(s, i, open, e);
    case Some(q) =>
      var p := i + |open| + q;
      assert b[..q] == s[i + |open|..p];
      assert b[q + 1..] == s[p + 1..e - 2];
      CompleteCaption(s, i, open, e, p);
  }

  // ---------------------------------------------------------------------
  // The replacement closures and the four passes.

  /** `http://…`, `https://…` and `/…` references are left as written. */
  predicate IsAbsoluteRef(path: string) {
    StartsWith(path, "http://") || StartsWith(path, "https://") || StartsWith(path, "/")
  }

  const WikipediaPrefix: string := "https://en.wikipedia.org/wiki/"

  /** The target a standard image `![alt](path)` is rewritten to. */
  function StandardImageTarget(path: string, current: Path): (t: string)
    ensures IsAbsoluteRef(path) ==> t == path
    ensures !IsAbsoluteRef(path) ==> StaticRef(t)
  {
    if !IsAbsoluteRef(path) then ResolvedPath(path, current) else path
  }

  function StandardImageHit(current: Path, s: string, i: nat): Option<Hit> {
    match LazyBracketAt(s, i, "![", "](")
    case None => None
    case Some(c) => Some(Hit(c.len, "![" + c.caption + "](" + StandardImageTarget(c.target, current) + ")"))
  }

  /** `process_standard_images`. */
  function ProcessStandardImages(markdown: string, current: Path): string {
    ReplaceAllMatches(markdown, (s: string, i: nat) => StandardImageHit(current, s, i))
  }

  /** Where every standard image already points at an absolute reference, the
      pass returns the text unchanged. */
  lemma StandardImagesKeepAbsolute(markdown: string, current: Path)
    requires forall i :: 0 <= i < |markdown| ==>
      LazyBracketAt(markdown, i, "![", "](").Some? ==> IsAbsoluteRef(LazyBracketAt(markdown, i, "![", "](").value.target)
    ensures ProcessStandardImages(markdown, current) == markdown
  {
    var m: Matcher := (s: string, i: nat) => StandardImageHit(current, s, i);
    forall j | 0 <= j < |markdown| ensures KeepsMatch(markdown, j, m) {
      var r := LazyBracketAt(markdown, j, "![", "](");
      if r.Some? {
        assert IsAbsoluteRef(r.value.target);
      }
    }
    ReplaceIdentity(markdown, 0, m);
  }

  /** The target an embedded image `![[name|alt]]` is rewritten to. */
  function EmbeddedImageTarget(path: string, current: Path, cache: Option<Index>): (t: string)
    ensures IsAbsoluteRef(path) ==> t == path
    ensures !IsAbsoluteRef(path) ==> StaticRef(t)
    ensures !IsAbsoluteRef(path) ==> t == FindUniqueImage(path, current, cache)
  {
    if !IsAbsoluteRef(path) then FindUniqueImage(path, current, cache) else path
  }

  function EmbeddedImageHit(current: Path, cache: Option<Index>, s: string, i: nat): Option<Hit> {
    match EmbedAt(s, i, "![[")
    case None => None
    case Some(c) =>
      var alt := match c.caption case Some(l) => l case None => "";
      Some(Hit(c.len, "![" + alt + "](" + EmbeddedImageTarget(c.target, current, cache) + ")"))
  }

  /** `process_alternative_images`. */
  function ProcessEmbeddedImages(markdown: string, current: Path, cache: Option<Index>): string {
    ReplaceAllMatches(markdown, (s: string, i: nat) => EmbeddedImageHit(current, cache, s, i))
  }

  /** `path.strip_prefix("wiki:").unwrap_or(path)`. */
  function StripWiki(path: string): string {
    if StartsWith(path, "wiki:") then path[5..] else path
  }

  /** The display text of a link written without `|`: the last `/`-separated
      segment of the reference, after any `wiki:` prefix is removed. */
  function DefaultDisplay(path: string): (d: string)
    ensures '/' !in d
    ensures d == StripWiki(path) || EndsWith(StripWiki(path), "/" + d)
  {
    SplitLast(StripWiki(path), '/');
    SplitPieces(StripWiki(path), '/');
    Last(Split(StripWiki(path), '/'))
  }

  /** The target of a link `[[path|display]]`: an article on Wikipedia for
      `wiki:`, the reference itself when it is absolute, otherwise a site page. */
  function LinkTarget(path: string, cache: Option<Index>): (t: string)
    ensures StartsWith(path, "wiki:") ==> t == WikipediaPrefix + path[5..]
    ensures !StartsWith(path, "wiki:") && IsAbsoluteRef(path) ==> t == path
    ensures !StartsWith(path, "wiki:") && !IsAbsoluteRef(path) ==>
      StartsWith(t, "/") && t == if '/' in path then GetInternalLinkPath(path) else FindUniqueInternalLink(path, cache)
  {
    if StartsWith(path, "wiki:") then WikipediaPrefix + path[5..]
    else if !IsAbsoluteRef(path) then
      if '/' !in path then FindUniqueInternalLink(path, cache) else GetInternalLinkPath(path)
    else path
  }

  /** The text a link `[[path|display]]` becomes. */
  function LinkText(path: string, caption: Option<string>, cache: Option<Index>): string {
    var display := match caption case Some(l) => l case None => DefaultDisplay(path);
    var marker := if StartsWith(path, "wiki:") then "wiki:" else "";
    "[" + marker + display + "](" + LinkTarget(path, cache) + ")"
  }

  function LinkHit(cache: Option<Index>, s: string, i: nat): Option<Hit> {
    match EmbedAt(s, i, "[[")
    case None => None
    case Some(c) => Some(Hit(c.len, LinkText(c.target, c.caption, cache)))
  }

  /** `process_links`. */
  function ProcessLinks(markdown: string, cache: Option<Index>): string {
    ReplaceAllMatches(markdown, (s: string, i: nat) => LinkHit(cache, s, i))
  }

  /** A whole-text link `[[wiki:A|d]]` becomes `[wiki:d](https://en.wikipedia.org/wiki/A)`. */
  lemma WikiLinkWithDisplay(article: string, display: string, cache: Option<Index>)
    requires '|' !in article && ']' !in article && ']' !in display
    ensures ProcessLinks("[[wiki:" + article + "|" + display + "]]", cache)
         == "[wiki:" + display + "](" + WikipediaPrefix + article + ")"
  {
    var path := "wiki:" + article;
    var s := "[[wiki:" + article + "|" + display + "]]";
    WikiLinkMatch(article, display);
    var m: Matcher := (s': string, i: nat) => LinkHit(cache, s', i);
    assert m(s, 0) == Some(Hit(|s|, LinkText(path, Some(display), cache)));
    WikiLinkText(article, display, cache);
    ReplaceWhole(s, m, LinkText(path, Some(display), cache));
  }

  lemma WikiLinkText(article: string, display: string, cache: Option<Index>)
    ensures LinkText("wiki:" + article, Some(display), cache) == "[wiki:" + display + "](" + WikipediaPrefix + article + ")"
  {
    var path := "wiki:" + article;
    assert StartsWith(path, "wiki:") && path[5..] == article;
  }

  lemma WikiLinkMatch(article: string, display: string)
    requires '|' !in article && ']' !in article && ']' !in display
    ensures var s := "[[wiki:" + article + "|" + display + "]]";
      EmbedAt(s, 0, "[[") == Some(EmbedCaps("wiki:" + article, Some(display), |s|))
  {
    var path := "wiki:" + article;
    WikiPathClean(article);
    assert "[[wiki:" + article + "|" + display + "]]" == "[[" + path + ("|" + display) + "]]";
    CaptionMatch("[[", path, display);
  }

  /** A whole text `open` + target + `|` + caption + `]]` is one match. */
  lemma CaptionMatch(open: string, target: string, caption: string)
    requires |target| > 0 && '|' !in target && ']' !in target && ']' !in caption
    ensures var s := open + target + ("|" + caption) + "]]";
      EmbedAt(s, 0, open) == Some(EmbedCaps(target, Some(caption), |s|))
  {
    var s := open + target + ("|" + caption) + "]]";
    EmbedWithCaption(open, target, caption);
    assert s[0..|s|] == s;
    EmbedComplete(s, 0, open, |s|);
    assert s[|open|..|s| - 2] == target + "|" + caption;
    CaptionedBody(target, caption);
  }

  lemma WikiPathClean(article: string)
    requires '|' !in article && ']' !in article
    ensures '|' !in "wiki:" + article && ']' !in "wiki:" + article
  {
    var path := "wiki:" + article;
    forall k | 0 <= k < |path| ensures path[k] != '|' && path[k] != ']' {
      if k >= 5 { assert path[k] == article[k - 5]; }
    }
  }

  /** The first `|` of `target|caption` is the one after the target. */
  lemma CaptionedBody(target: string, caption: string)
    requires '|' !in target
    ensures var b := target + "|" + caption;
      FindChar(b, '|', 0) == Some(|target|) && b[..|target|] == target && b[|target| + 1..] == caption
  {
    var b := target + "|" + caption;
    assert b[|target|] == '|';
    assert forall k :: 0 <= k < |target| ==> b[k] == target[k];
  }

  function WikiHit(s: string, i: nat): Option<Hit> {
    match LazyBracketAt(s, i, "[", "](wiki:")
    case None => None
    case Some(c) => Some(Hit(c.len, "[" + c.caption + "](" + WikipediaPrefix + c.target + ")"))
  }

  /** `process_wiki_parenthetical_links`. */
  function ProcessWikiLinks(markdown: string): string {
    ReplaceAllMatches(markdown, WikiHit)
  }

  /** Each match `[d](wiki:A)` is replaced by `[d](https://en.wikipedia.org/wiki/A)`. */
  lemma WikiRewrite(s: string, i: nat)
    requires LazyBracketAt(s, i, "[", "](wiki:").Some?
    ensures var c := LazyBracketAt(s, i, "[", "](wiki:").value;
      s[i..i + c.len] == "[" + c.caption + "](wiki:" + c.target + ")"
      && WikiHit(s, i) == Some(Hit(c.len, "[" + c.caption + "](" + WikipediaPrefix + c.target + ")"))
  {
  }

  /** Text in which `](wiki:` never occurs is returned unchanged. */
  lemma WikiLinksAbsent(markdown: string)
    requires forall k: nat :: !OccursAt(markdown, "](wiki:", k)
    ensures ProcessWikiLinks(markdown) == markdown
  {
    forall j | 0 <= j < |markdown| ensures WikiHit(markdown, j).None? {
      if LazyBracketAt(markdown, j, "[", "](wiki:").Some? {
        WikiNeedsMarker(markdown, j);
        assert false;
      }
    }
    ReplaceNoMatch(markdown, WikiHit);
  }

  lemma WikiNeedsMarker(s: string, j: nat)
    requires LazyBracketAt(s, j, "[", "](wiki:").Some?
    ensures exists k: nat :: OccursAt(s, "](wiki:", k)
  {
    var c := LazyBracketAt(s, j, "[", "](wiki:").value;
    assert OccursAt(s, "](wiki:", j + 1 + |c.caption|);
  }

  /** `process_paths` after the index is in place: standard images, then
      embedded images, then links, then parenthetical wiki links. */
  function ProcessedPaths(markdown: string, current: Path, cache: Option<Index>): string {
    ProcessWikiLinks(ProcessLinks(ProcessEmbeddedImages(ProcessStandardImages(markdown, current), current, cache), cache))
  }

  /** Text without `[` holds no reference, and no pass changes it. */
  lemma ProcessedPathsPlain(markdown: string, current: Path, cache: Option<Index>)
    requires '[' !in markdown
    ensures ProcessedPaths(markdown, current, cache) == markdown
  {
    forall j | 0 <= j < |markdown|
      ensures StandardImageHit(current, markdown, j).None?
      ensures EmbeddedImageHit(current, cache, markdown, j).None?
      ensures LinkHit(cache, markdown, j).None?
      ensures WikiHit(markdown, j).None?
    {
      NoOpenAt(markdown, "![", j, 1);
      NoOpenAt(markdown, "![[", j, 1);
      NoOpenAt(markdown, "[[", j, 0);
      NoOpenAt(markdown, "[", j, 0);
    }
    ReplaceNoMatch(markdown, (s: string, i: nat) => StandardImageHit(current, s, i));
    ReplaceNoMatch(markdown, (s: string, i: nat) => EmbeddedImageHit(current, cache, s, i));
    ReplaceNoMatch(markdown, (s: string, i: nat) => LinkHit(cache, s, i));
    ReplaceNoMatch(markdown, WikiHit);
  }

  lemma NoOpenAt(s: string, open: string, j: nat, k: nat)
    requires k < |open| && open[k] == '[' && '[' !in s
    ensures !OccursAt(s, open, j)
  {
    if OccursAt(s, open, j) {
      OccursAtChar(s, open, j, k);
    }
  }

  /** The file index behind the resolvers. It starts out absent and is filled
      from the walk of `content` the first time it is needed. */
  class FileCache {
    var cache: Option<Index>

    constructor()
      ensures cache == None
    {
      cache := None;
    }

    /** `init_file_cache`: builds the index from the walk, unless it is already there. */
    method Init(walk: seq<Entry>)
      modifies this
      ensures old(cache).Some? ==> cache == old(cache)
      ensures old(cache).None? ==> cache == Some(BuildIndex(walk))
    {
      if cache.None? {
        var fileMap: Index := map[];
        for i := 0 to |walk|
          invariant fileMap == BuildIndex(walk[..i])
        {
          var entry := walk[i];
          if !entry.isDir {
            var filename := FileName(entry.path);
            fileMap := fileMap[filename := Lookup(fileMap, filename) + [entry.path]];
            if EndsWith(filename, ".md") {
              var stem := Stem(filename);
              fileMap := fileMap[stem := Lookup(fileMap, stem) + [entry.path]];
            }
          }
          assert walk[..i + 1][..i] == walk[..i];
        }
        assert walk[..|walk|] == walk;
        cache := Some(fileMap);
      }
    }

    /** `process_paths`: makes sure the index exists, then runs the four passes. */
    method ProcessPaths(markdown: string, current: Path, walk: seq<Entry>) returns (r: string)
      modifies this
      ensures old(cache).Some? ==> cache == old(cache)
      ensures old(cache).None? ==> cache == Some(BuildIndex(walk))
      ensures r == ProcessedPaths(markdown, current, cache)
    {
      if cache.None? {
        Init(walk);
      }
      r := ProcessedPaths(markdown, current, cache);
    }
  }
}
