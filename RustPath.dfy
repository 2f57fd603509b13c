/** The parts of Rust's `std::path` that the generator uses, on POSIX paths.

    A path that comes out of a directory walk is kept as its list of components
    (`content/notes/a.md` is `["content", "notes", "a.md"]`): a walk only ever
    yields such clean paths, and every `Path` method used on them (`parent`,
    `strip_prefix`, `file_name`, `file_stem`, `extension`, `with_extension`,
    `join`) works component by component. A path that is built by pushing text
    segments (`PathBuf::push`) is kept as the text it prints as. */
module RustPath {
  import opened Strings

  type Path = seq<string>

  /** One entry of a directory walk: its path from the walk root (the root
      itself included as the first component) and whether it is a directory.
      Entries the walk could not read are not part of the sequence. */
  datatype Entry = Entry(path: Path, isDir: bool)

  /** `to_string_lossy()` of a component path. */
  function PathString(p: Path): string {
    Join(p, "/")
  }

  /** `file_name()` of a walk path (the walk root included), "" for the empty path. */
  function FileName(p: Path): string {
    if |p| == 0 then "" else Last(p)
  }

  /** `parent()`: `None` only for the empty path; the parent of a one-component
      path is the empty path. */
  function Parent(p: Path): (r: Option<Path>)
    ensures r.Some? <==> |p| > 0
    ensures r.Some? ==> p == r.value + [Last(p)]
  {
    if |p| == 0 then None else Some(p[..|p| - 1])
  }

  /** `strip_prefix("content")`. */
  function StripContent(p: Path): (r: Option<Path>)
    ensures r.Some? <==> |p| > 0 && p[0] == "content"
    ensures r.Some? ==> p == ["content"] + r.value
  {
    if |p| > 0 && p[0] == "content" then Some(p[1..]) else None
  }

  /** `strip_prefix("content").unwrap_or(path)`. */
  function StripContentOr(p: Path): Path {
    match StripContent(p)
    case Some(q) => q
    case None => p
  }

  /** The index of the last `.` in a file name. */
  function LastDot(name: string): (r: Option<nat>)
    ensures r.Some? ==> r.value < |name| && name[r.value] == '.'
    ensures r.Some? ==> forall k :: r.value < k < |name| ==> name[k] != '.'
    ensures r.None? ==> '.' !in name
    decreases |name|
  {
    if |name| == 0 then None
    else if Last(name) == '.' then Some(|name| - 1)
    else LastDot(name[..|name| - 1])
  }

  /** Where Rust's `rsplit_file_at_dot` splits a file name: at its last `.`,
      unless that dot is the first character or the name is `..`. */
  function StemSplit(name: string): (r: Option<nat>)
    ensures r.Some? ==> 0 < r.value < |name| && name[r.value] == '.'
  {
    if name == ".." then None
    else match LastDot(name)
      case Some(i) => if i == 0 then None else Some(i)
      case None => None
  }

  /** `file_stem()` of a file name. */
  function Stem(name: string): (r: string)
    ensures |r| <= |name| && r == name[..|r|]
  {
    match StemSplit(name)
    case Some(i) => name[..i]
    case None => name
  }

  /** `extension()` of a file name. */
  function Extension(name: string): Option<string> {
    match StemSplit(name)
    case Some(i) => Some(name[i + 1..])
    case None => None
  }

  /** A name with an extension is its stem, a dot and the extension. */
  lemma StemExtension(name: string)
    requires Extension(name).Some?
    ensures name == Stem(name) + "." + Extension(name).value
  {
  }

  /** A name ending in `.md` whose stem is not empty has the extension `md`. */
  lemma MarkdownExtension(name: string)
    requires EndsWith(name, ".md") && |name| > 3
    ensures Extension(name) == Some("md")
    ensures Stem(name) == name[..|name| - 3]
  {
    assert name[|name| - 3] == '.' && name[|name| - 2] == 'm' && name[|name| - 1] == 'd';
    assert LastDot(name[..|name| - 1]) == LastDot(name[..|name| - 2]);
    assert LastDot(name) == Some(|name| - 3);
    assert StemSplit(name) == Some(|name| - 3);
    assert name[|name| - 2..] == "md";
  }

  /** `with_extension("")`: the last component loses its extension. */
  function WithoutExtension(p: Path): (r: Path)
    ensures |r| == |p|
  {
    if |p| == 0 || Last(p) == ".." then p else p[..|p| - 1] + [Stem(Last(p))]
  }

  /** `PathBuf::push(segment)` on the printed form of a relative path, for a
      segment without `/` (every segment of `str::split('/')`): a separator is
      inserted unless the buffer is empty or already ends in one. */
  function Push(buf: string, segment: string): string {
    if buf == "" then segment
    else if Last(buf) == '/' then buf + segment
    else buf + "/" + segment
  }

  /** Pushing the segments one by one. */
  function PushAll(buf: string, segments: seq<string>): string
    decreases |segments|
  {
    if |segments| == 0 then buf else PushAll(Push(buf, segments[0]), segments[1..])
  }

  /** The normal components of a path written as text, as `Path::components`
      yields them: empty and `.` components are dropped. */
  function TextComponents(s: string): seq<string> {
    Filter(Split(s, '/'))
  }

  function Filter(parts: seq<string>): (r: seq<string>)
    ensures forall q <- r :: q in parts && q != "" && q != "."
  {
    if |parts| == 0 then []
    else if parts[0] == "" || parts[0] == "." then Filter(parts[1..])
    else [parts[0]] + Filter(parts[1..])
  }

  /** `Path::new(s).file_name()` for a path written as text. */
  function TextFileName(s: string): Option<string> {
    var cs := TextComponents(s);
    if |cs| == 0 || Last(cs) == ".." then None else Some(Last(cs))
  }
}
