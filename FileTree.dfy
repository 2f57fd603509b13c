/** `src/file_tree.rs`: the navigation tree of the `content` directory and its
    HTML. The directory walk is an input: a listing of each directory's
    entries in the order the walk yields them. */
module FileTree {
  import opened Strings
  import opened RustPath
  import opened Utils
  import opened Sorting

  /** One entry of a directory: a subdirectory with its own entries, or a
      file with its lines (`None` when it cannot be opened; lines that fail
      to read are not part of the sequence). */
  datatype Listing =
    | Dir(name: string, entries: seq<Listing>)
    | File(name: string, lines: Option<seq<string>>)

  /** `FileNode`. */
  datatype FileNode = FileNode(name: string, path: string, isDir: bool, children: seq<FileNode>)

  // ---------------------------------------------------------------------------
  // Display names

  const FrontmatterFence := "---"

  /** `split_once(':')` on a trimmed line, when the key trims to `title`: the trimmed value. */
  function TitleOf(trimmed: string): Option<string> {
    match FindChar(trimmed, ':', 0)
    case None => None
    case Some(i) => if Trim(trimmed[..i]) == "title" then Some(Trim(trimmed[i + 1..])) else None
  }

  /** The line loop from line `k` on, inside the frontmatter or not yet: a
      `---` opens the frontmatter or ends the search; inside it the first
      `title:` line gives the title. */
  function ScanFrom(lines: seq<string>, k: nat, inFrontmatter: bool): Option<string>
    decreases |lines| - k
  {
    if k >= |lines| then None
    else if IsFence(lines[k]) then (if inFrontmatter then None else ScanFrom(lines, k + 1, true))
    else if inFrontmatter && LineTitle(lines[k]).Some? then LineTitle(lines[k])
    else ScanFrom(lines, k + 1, inFrontmatter)
  }

  predicate IsFence(line: string) {
    Trim(line) == FrontmatterFence
  }

  function LineTitle(line: string): Option<string> {
    TitleOf(Trim(line))
  }

  /** A line that ends the search inside the frontmatter. */
  predicate IsStop(line: string) {
    IsFence(line) || LineTitle(line).Some?
  }

  /** The first `---` line at or after `k`. */
  function FenceFrom(lines: seq<string>, k: nat): (r: Option<nat>)
    ensures r.Some? ==> k <= r.value < |lines| && IsFence(lines[r.value])
    ensures r.Some? ==> forall j :: k <= j < r.value ==> !IsFence(lines[j])
    ensures r.None? ==> forall j :: k <= j < |lines| ==> !IsFence(lines[j])
    decreases |lines| - k
  {
    if k >= |lines| then None
    else if IsFence(lines[k]) then Some(k)
    else FenceFrom(lines, k + 1)
  }

  /** The first `---` or `title:` line at or after `k`. */
  function StopFrom(lines: seq<string>, k: nat): (r: Option<nat>)
    ensures r.Some? ==> k <= r.value < |lines| && IsStop(lines[r.value])
    ensures r.Some? ==> forall j :: k <= j < |lines| && j < r.value ==> !IsStop(lines[j])
    ensures r.None? ==> forall j :: k <= j < |lines| ==> !IsStop(lines[j])
    decreases |lines| - k
  {
    if k >= |lines| then None
    else if IsStop(lines[k]) then Some(k)
    else StopFrom(lines, k + 1)
  }

  lemma FenceHasNoTitle()
    ensures forall line :: IsFence(line) ==> LineTitle(line).None?
  {
    assert FindChar(FrontmatterFence, ':', 0).None?;
  }

  /** Inside the frontmatter the title comes from the first line that is a
      `title:` line or a `---`; a `---` (or no such line) means no title. */
  lemma {:induction false} ScanInside(lines: seq<string>, k: nat)
    ensures ScanFrom(lines, k, true) ==
            match StopFrom(lines, k)
            case None => None
            case Some(j) => LineTitle(lines[j])
    decreases |lines| - k
  {
    if k < |lines| {
      FenceHasNoTitle();
      if !IsStop(lines[k]) {
        ScanInside(lines, k + 1);
      }
    }
  }

  /** Before the frontmatter, lines are skipped up to the first `---`. */
  lemma {:induction false} ScanOutside(lines: seq<string>, k: nat)
    ensures ScanFrom(lines, k, false) ==
            match FenceFrom(lines, k)
            case None => None
            case Some(i) => ScanFrom(lines, i + 1, true)
    decreases |lines| - k
  {
    if k < |lines| {
      if IsFence(lines[k]) {
        assert FenceFrom(lines, k) == Some(k);
      } else {
        assert ScanFrom(lines, k, false) == ScanFrom(lines, k + 1, false);
        assert FenceFrom(lines, k) == FenceFrom(lines, k + 1);
        ScanOutside(lines, k + 1);
      }
    }
  }

  /** The title of a Markdown file is the trimmed value of the first `title:`
      line after the first `---` line and before the next one. */
  lemma TitleSearch(lines: seq<string>)
    ensures ScanFrom(lines, 0, false) ==
            match FenceFrom(lines, 0)
            case None => None
            case Some(i) =>
              (match StopFrom(lines, i + 1)
               case None => None
               case Some(j) => LineTitle(lines[j]))
  {
    ScanOutside(lines, 0);
    match FenceFrom(lines, 0)
    case None =>
    case Some(i) => ScanInside(lines, i + 1);
  }

  /** The name shown for a Markdown file: its title, or the file stem when
      there is no title, the title is empty or the file cannot be read. */
  function DisplayName(fileName: string, lines: Option<seq<string>>): string {
    match lines
    case None => Stem(fileName)
    case Some(ls) =>
      match ScanFrom(ls, 0, false)
      case Some(title) => if title == "" then Stem(fileName) else title
      case None => Stem(fileName)
  }

  /** The stem stands in exactly when no non-empty title was read. */
  lemma DisplayNameFallback(fileName: string, lines: Option<seq<string>>)
    ensures var title := if lines.Some? then ScanFrom(lines.value, 0, false) else None;
            (title.Some? && title.value != "" ==> DisplayName(fileName, lines) == title.value) &&
            (!(title.Some? && title.value != "") ==> DisplayName(fileName, lines) == Stem(fileName))
  {
  }

  /** The line loop, with its `in_frontmatter` and `found_title` flags. */
  method ReadDisplayName(fileName: string, lines: Option<seq<string>>) returns (name: string)
    ensures name == DisplayName(fileName, lines)
  {
    var defaultName := Stem(fileName);
    name := fileName;
    if lines.Some? {
      var ls := lines.value;
      var inFrontmatter := false;
      var foundTitle := false;
      var i := 0;
      while i < |ls|
        invariant i <= |ls|
        invariant ScanFrom(ls, 0, false) == ScanFrom(ls, i, inFrontmatter)
        invariant !foundTitle
      {
        var trimmed := Trim(ls[i]);
        if trimmed == FrontmatterFence {
          if inFrontmatter {
            break;
          } else {
            inFrontmatter := true;
            i := i + 1;
            continue;
          }
        }
        if inFrontmatter {
          var title := TitleOf(trimmed);
          if title.Some? {
            name := title.value;
            foundTitle := true;
            break;
          }
        }
        i := i + 1;
      }
      assert foundTitle ==> ScanFrom(ls, 0, false) == Some(name);
      assert !foundTitle ==> ScanFrom(ls, 0, false) == None;
      if !foundTitle || name == "" {
        name := defaultName;
      }
    } else {
      name := defaultName;
    }
  }

  // ---------------------------------------------------------------------------
  // Node paths

  /** `rel_path.to_string_lossy().replace('\\', "/")`. */
  function PathText(rel: Path): string {
    ReplaceAll(PathString(rel), "\\", "/")
  }

  /** The page path of a Markdown file: its path without `.md`, and `""` for
      the `index.md` at the root. */
  function MarkdownPath(pathStr: string, atRoot: bool): string {
    if EndsWith(pathStr, ".md") then
      var trimmed := pathStr[..|pathStr| - 3];
      if trimmed == "index" && atRoot then "" else trimmed
    else pathStr
  }

  /** Putting `.md` back gives the file's path, except for the root index. */
  lemma MarkdownPathRestores(pathStr: string, atRoot: bool)
    requires EndsWith(pathStr, ".md")
    ensures MarkdownPath(pathStr, atRoot) == "" <==> (atRoot && pathStr == "index.md") || pathStr == ".md"
    ensures MarkdownPath(pathStr, atRoot) != "" ==> MarkdownPath(pathStr, atRoot) + ".md" == pathStr
  {
    var trimmed := pathStr[..|pathStr| - 3];
    assert pathStr == trimmed + ".md";
    if atRoot && pathStr == "index.md" {
      assert trimmed == "index";
    }
  }

  /** Only the index at the root becomes `""`; deeper ones keep their path. */
  lemma IndexPaths(dir: string)
    ensures MarkdownPath("index.md", true) == ""
    ensures MarkdownPath("index.md", false) == "index"
    ensures MarkdownPath(dir + "/index.md", true) == dir + "/index"
  {
    var p := dir + "/index.md";
    assert p[..|p| - 3] == dir + "/index";
    assert EndsWith(p, ".md") by {
      assert p[|p| - 3..] == ".md";
    }
    assert |dir + "/index"| != |"index"|;
  }

  predicate IsRasterExtension(ext: Option<string>) {
    ext == Some("jpg") || ext == Some("jpeg") || ext == Some("png")
  }

  /** The path of any other file: under `static/`, sanitized, and with the
      image suffixes made `.webp` when images are converted and the file's
      extension is exactly `jpg`, `jpeg` or `png`. */
  function StaticPath(pathStr: string, ext: Option<string>, webp: bool): string {
    var p := "static/" + Sanitized(pathStr);
    if webp && IsRasterExtension(ext) then
      ReplaceAll(ReplaceAll(ReplaceAll(p, ".jpg", ".webp"), ".jpeg", ".webp"), ".png", ".webp")
    else p
  }

  /** Without conversion the path is `static/` and the sanitized path; the
      extension test is case-sensitive, so `JPG` is never converted. */
  lemma StaticPathPlain(pathStr: string, ext: Option<string>, webp: bool)
    requires !webp || !IsRasterExtension(ext)
    ensures StaticPath(pathStr, ext, webp) == "static/" + Sanitized(pathStr)
  {
  }

  lemma UpperCaseNotConverted(pathStr: string)
    ensures StaticPath(pathStr, Some("JPG"), true) == "static/" + Sanitized(pathStr)
  {
    assert Some("JPG") != Some("jpg") by { assert "JPG"[0] != "jpg"[0]; }
    assert Some("JPG") != Some("jpeg") by { assert "JPG"[0] != "jpeg"[0]; }
    assert Some("JPG") != Some("png") by { assert "JPG"[0] != "png"[0]; }
  }

  /** Only the `static/` prefix holds a `/`: the rest is a flat file name. */
  lemma StaticPathFlat(pathStr: string, ext: Option<string>, webp: bool)
    ensures StartsWith(StaticPath(pathStr, ext, webp), "static/")
    ensures '/' !in StaticPath(pathStr, ext, webp)[7..]
  {
    var s := Sanitized(pathStr);
    SanitizedAlphabet(pathStr);
    assert forall k :: 0 <= k < |s| ==> s[k] in s;
    var p := "static/" + s;
    assert p[..7] == "static/" && p[7..] == s;
    if webp && IsRasterExtension(ext) {
      WebpKeepsPrefix(s);
    }
  }

  /** The three replacements leave `static/` in front and add no `/`. */
  lemma WebpKeepsPrefix(s: string)
    requires '/' !in s
    ensures var r := ReplaceAll(ReplaceAll(ReplaceAll("static/" + s, ".jpg", ".webp"), ".jpeg", ".webp"), ".png", ".webp");
            StartsWith(r, "static/") && '/' !in r[7..]
  {
    ReplaceKeepsPrefix(s, ".jpg", ".webp");
    var a := ReplaceAll(s, ".jpg", ".webp");
    ReplaceAllKeepsOut(s, ".jpg", ".webp", '/');
    ReplaceKeepsPrefix(a, ".jpeg", ".webp");
    var b := ReplaceAll(a, ".jpeg", ".webp");
    ReplaceAllKeepsOut(a, ".jpeg", ".webp", '/');
    ReplaceKeepsPrefix(b, ".png", ".webp");
    var c := ReplaceAll(b, ".png", ".webp");
    ReplaceAllKeepsOut(b, ".png", ".webp", '/');
    var r := "static/" + c;
    assert r[..7] == "static/" && r[7..] == c;
  }

  /** A pattern starting with `.` does not touch the `static/` prefix. */
  lemma ReplaceKeepsPrefix(s: string, pat: string, rep: string)
    requires |pat| > 0 && pat[0] == '.'
    ensures ReplaceAll("static/" + s, pat, rep) == "static/" + ReplaceAll(s, pat, rep)
  {
    ReplaceSkipsPlain("static/", s, pat, rep);
  }

  /** Text without the pattern's first character is copied unchanged. */
  lemma {:induction false} ReplaceSkipsPlain(a: string, s: string, pat: string, rep: string)
    requires |pat| > 0 && pat[0] !in a
    ensures ReplaceAll(a + s, pat, rep) == a + ReplaceAll(s, pat, rep)
    decreases |a|
  {
    if a != [] {
      var t := a + s;
      assert t[0] == a[0];
      if |t| >= |pat| {
        assert t[..|pat|][0] == a[0];
      }
      assert t[1..] == a[1..] + s;
      ReplaceSkipsPlain(a[1..], s, pat, rep);
      assert a == [a[0]] + a[1..];
    } else {
      assert a + s == s;
    }
  }

  // ---------------------------------------------------------------------------
  // Building the tree

  /** An entry that is kept: `filter_entry(is_not_hidden_dir)` and the skip of
      names starting with `.`. */
  predicate Visible(e: Listing) {
    IsNotHiddenDir(e.name, e.Dir?) && !StartsWith(e.name, ".")
  }

  /** The order of `sort_by`: directories first, then lower-cased names. */
  predicate NodeLe(a: FileNode, b: FileNode) {
    if a.isDir && !b.isDir then true
    else if !a.isDir && b.isDir then false
    else LexLe(ToLower(a.name), ToLower(b.name))
  }

  lemma NodeLeTotalPreorder()
    ensures TotalPreorder(NodeLe)
  {
    forall a: FileNode, b: FileNode ensures NodeLe(a, b) || NodeLe(b, a) {
      LexLeTotal(ToLower(a.name), ToLower(b.name));
    }
    forall a: FileNode, b: FileNode, c: FileNode | NodeLe(a, b) && NodeLe(b, c) ensures NodeLe(a, c) {
      if a.isDir == b.isDir == c.isDir {
        LexLeTransitive(ToLower(a.name), ToLower(b.name), ToLower(c.name));
      }
    }
  }

  /** The node of one kept entry. */
  function NodeOf(relative: Path, e: Listing, webp: bool): FileNode
    decreases e, 0
  {
    var rel := relative + [e.name];
    match e
    case Dir(name, entries) => FileNode(name, PathText(rel), true, Tree(rel, entries, webp))
    case File(name, lines) =>
      if Extension(name) == Some("md") then
        FileNode(DisplayName(name, lines), MarkdownPath(PathText(rel), relative == []), false, [])
      else
        FileNode(name, StaticPath(PathText(rel), Extension(name), webp), false, [])
  }

  /** The nodes of the kept entries, in walk order. */
  function NodesOf(relative: Path, entries: seq<Listing>, webp: bool): seq<FileNode>
    decreases entries, 0
  {
    if entries == [] then []
    else
      var e := entries[|entries| - 1];
      NodesOf(relative, entries[..|entries| - 1], webp) +
      (if Visible(e) then [NodeOf(relative, e, webp)] else [])
  }

  /** `build_file_tree` for the directory at `relative`. */
  function Tree(relative: Path, entries: seq<Listing>, webp: bool): seq<FileNode>
    decreases entries, 1
  {
    SortBy(NodesOf(relative, entries, webp), NodeLe)
  }

  /** Every directory node comes before every file node, and within each
      group names are in lower-cased order. */
  lemma TreeOrder(relative: Path, entries: seq<Listing>, webp: bool)
    ensures var t := Tree(relative, entries, webp);
            (forall i, j :: 0 <= i < j < |t| && t[j].isDir ==> t[i].isDir) &&
            (forall i, j :: 0 <= i < j < |t| && t[i].isDir == t[j].isDir ==>
                             LexLe(ToLower(t[i].name), ToLower(t[j].name)))
  {
    NodeLeTotalPreorder();
    SortBySorted(NodesOf(relative, entries, webp), NodeLe);
  }

  /** The tree holds exactly the nodes of the kept entries, and nodes that
      sort alike keep their walk order. */
  lemma TreeContents(relative: Path, entries: seq<Listing>, webp: bool, k: FileNode)
    ensures multiset(Tree(relative, entries, webp)) == multiset(NodesOf(relative, entries, webp))
    ensures SameKey(Tree(relative, entries, webp), k, NodeLe) == SameKey(NodesOf(relative, entries, webp), k, NodeLe)
  {
    NodeLeTotalPreorder();
    SortByPermutes(NodesOf(relative, entries, webp), NodeLe);
    SortByStable(NodesOf(relative, entries, webp), k, NodeLe);
  }

  /** An entry whose name starts with `.` adds nothing. */
  lemma HiddenEntryDropped(relative: Path, entries: seq<Listing>, e: Listing, webp: bool)
    requires StartsWith(e.name, ".")
    ensures NodesOf(relative, entries + [e], webp) == NodesOf(relative, entries, webp)
    ensures Tree(relative, entries + [e], webp) == Tree(relative, entries, webp)
  {
    assert (entries + [e])[..|entries|] == entries;
  }

  /** Kept entries each give one node, in walk order. */
  lemma {:induction false} NodesOfVisible(relative: Path, entries: seq<Listing>, webp: bool)
    ensures forall n <- NodesOf(relative, entries, webp) ::
              exists e <- entries :: Visible(e) && n == NodeOf(relative, e, webp)
    ensures forall e <- entries :: Visible(e) ==> NodeOf(relative, e, webp) in NodesOf(relative, entries, webp)
    decreases |entries|
  {
    if entries != [] {
      var pre := entries[..|entries| - 1];
      NodesOfVisible(relative, pre, webp);
      assert forall e <- pre :: e in entries;
      assert entries == pre + [entries[|entries| - 1]];
    }
  }

  /** The node path of a Markdown file: its path minus `.md`, and `""` for
      the root `index.md`; other files go under `static/`. */
  lemma FileNodeKinds(relative: Path, name: string, lines: Option<seq<string>>, webp: bool)
    requires Visible(File(name, lines))
    ensures var n := NodeOf(relative, File(name, lines), webp);
            var p := PathText(relative + [name]);
            !n.isDir && n.children == [] &&
            (Extension(name) == Some("md") ==> n.name == DisplayName(name, lines) && n.path == MarkdownPath(p, relative == [])) &&
            (Extension(name) != Some("md") ==> n.name == name && StartsWith(n.path, "static/"))
  {
    StaticPathFlat(PathText(relative + [name]), Extension(name), webp);
  }

  /** `build_file_tree`: the loop over the walk's entries, then the sort. */
  method BuildFileTree(relative: Path, listing: seq<Listing>, webp: bool) returns (nodes: seq<FileNode>)
    ensures nodes == Tree(relative, listing, webp)
    decreases listing
  {
    nodes := [];
    for i := 0 to |listing|
      invariant nodes == NodesOf(relative, listing[..i], webp)
    {
      assert listing[..i + 1][..i] == listing[..i];
      var entry := listing[i];
      var fileName := entry.name;
      if IsNotHiddenDir(fileName, entry.Dir?) && !StartsWith(fileName, ".") {
        var relPath := relative + [fileName];
        var pathStr := PathText(relPath);
        if entry.Dir? {
          var children := BuildFileTree(relPath, entry.entries, webp);
          nodes := nodes + [FileNode(fileName, pathStr, true, children)];
        } else {
          var name := fileName;
          var finalPath;
          if Extension(fileName) == Some("md") {
            name := ReadDisplayName(fileName, entry.lines);
            finalPath := MarkdownPath(pathStr, relative == []);
          } else {
            finalPath := StaticPath(pathStr, Extension(fileName), webp);
          }
          nodes := nodes + [FileNode(name, finalPath, false, [])];
        }
      }
    }
    assert listing[..|listing|] == listing;
    nodes := SortBy(nodes, NodeLe);
  }

  // ---------------------------------------------------------------------------
  // Rendering

  /** The fixed markup around each list item, in the order it is written. */
  datatype Markup = Markup(dirOpen: string, dirClose: string, contentsOpen: string, contentsClose: string,
                           fileOpen: string, fileMid: string, fileClose: string,
                           treeOpen: string, treeClose: string)

  /** The markup `render_file_node` and `generate_file_tree_html` write. */
  const TreeMarkup := Markup(
    "<li class=\"directory mb-1\">\n<div class=\"folder-label flex items-center cursor-pointer text-neutral-600 dark:text-neutral-200 py-1\">\n<span class=\"toggle-icon transform transition-transform duration-200 mr-1\"><i class=\"ph ph-caret-right\"></i></span>\n<span class=\"folder-name text-sm\">",
    "</span>\n</div>\n",
    "<ul class=\"folder-contents hidden ml-4\">\n",
    "</ul>\n</li>\n",
    "<li class=\"file mb-1\">\n<a href=\"/",
    "\" class=\"file-link py-1.5 text-sm flex items-center dark:text-neutral-400 dark:hover:text-neutral-200 transition text-neutral-600 hover:text-neutral-500\">\n",
    "\n</a>\n</li>\n",
    "<div class=\"file-tree\">\n<ul>\n",
    "</ul>\n</div>")

  /** A directory's list item around its name and its children's markup. */
  function DirItem(m: Markup, name: string, inner: string): string {
    m.dirOpen + name + m.dirClose + m.contentsOpen + inner + m.contentsClose
  }

  /** A file's list item, linking to `/` and its path. */
  function FileItem(m: Markup, path: string, name: string): string {
    m.fileOpen + path + m.fileMid + name + m.fileClose
  }

  /** `render_file_node`. */
  function RenderNode(m: Markup, node: FileNode): string
    decreases node, 1
  {
    if node.isDir then DirItem(m, node.name, RenderNodes(m, node.children))
    else FileItem(m, node.path, node.name)
  }

  /** The nodes rendered one after the other. */
  function RenderNodes(m: Markup, nodes: seq<FileNode>): string
    decreases nodes, 0
  {
    if nodes == [] then "" else RenderNodes(m, nodes[..|nodes| - 1]) + RenderNode(m, nodes[|nodes| - 1])
  }

  lemma {:induction false} RenderNodesConcat(m: Markup, a: seq<FileNode>, b: seq<FileNode>)
    ensures RenderNodes(m, a + b) == RenderNodes(m, a) + RenderNodes(m, b)
    decreases |b|
  {
    if b == [] {
      assert a + b == a;
    } else {
      var b' := b[..|b| - 1];
      assert (a + b)[..|a + b| - 1] == a + b';
      RenderNodesConcat(m, a, b');
    }
  }

  /** The markup of a file starts with its link; a directory's ends with
      its children's markup inside a `folder-contents` list. */
  lemma ItemShapes(m: Markup, path: string, name: string, inner: string)
    ensures StartsWith(FileItem(m, path, name), m.fileOpen + path + m.fileMid)
    ensures EndsWith(DirItem(m, name, inner), m.contentsOpen + inner + m.contentsClose)
  {
    var h := m.fileOpen + path + m.fileMid;
    assert FileItem(m, path, name) == h + (name + m.fileClose);
    ConcatEnds(h, name + m.fileClose);
    var t := m.contentsOpen + inner + m.contentsClose;
    assert DirItem(m, name, inner) == (m.dirOpen + name + m.dirClose) + t;
    ConcatEnds(m.dirOpen + name + m.dirClose, t);
  }

  /** A list's markup is its first node's markup, then the rest's. */
  lemma RenderFirst(m: Markup, nodes: seq<FileNode>)
    requires |nodes| > 0
    ensures RenderNodes(m, nodes) == RenderNode(m, nodes[0]) + RenderNodes(m, nodes[1..])
  {
    RenderNodesConcat(m, [nodes[0]], nodes[1..]);
    assert [nodes[0]] + nodes[1..] == nodes;
    assert RenderNodes(m, [nodes[0]]) == RenderNode(m, nodes[0]);
  }

  /** `render_file_node` with its loop over the children. */
  method RenderFileNode(m: Markup, node: FileNode) returns (html: string)
    ensures html == RenderNode(m, node)
    decreases node
  {
    if node.isDir {
      html := m.dirOpen + node.name + m.dirClose + m.contentsOpen;
      ghost var head := html;
      for i := 0 to |node.children|
        invariant html == head + RenderNodes(m, node.children[..i])
      {
        assert node.children[..i + 1][..i] == node.children[..i];
        var child := RenderFileNode(m, node.children[i]);
        html := html + child;
      }
      assert node.children[..|node.children|] == node.children;
      html := html + m.contentsClose;
    } else {
      html := m.fileOpen + node.path + m.fileMid + node.name + m.fileClose;
    }
  }

  /** The `file-tree` block around the top-level nodes. */
  function TreeHtml(m: Markup, nodes: seq<FileNode>): string {
    m.treeOpen + RenderNodes(m, nodes) + m.treeClose
  }

  /** `generate_file_tree_html`: the tree of `content`, rendered. */
  function FileTreeHtml(content: seq<Listing>, webp: bool): string {
    TreeHtml(TreeMarkup, Tree([], content, webp))
  }

  /** The block holds each top-level node's markup in order. */
  lemma TreeHtmlParts(m: Markup, nodes: seq<FileNode>, i: nat)
    requires i <= |nodes|
    ensures TreeHtml(m, nodes) == m.treeOpen + RenderNodes(m, nodes[..i]) + RenderNodes(m, nodes[i..]) + m.treeClose
  {
    assert nodes == nodes[..i] + nodes[i..];
    RenderNodesConcat(m, nodes[..i], nodes[i..]);
  }

  /** The loop of `generate_file_tree_html` over the top-level nodes. */
  method RenderTree(m: Markup, nodes: seq<FileNode>) returns (html: string)
    ensures html == TreeHtml(m, nodes)
  {
    html := m.treeOpen;
    for i := 0 to |nodes|
      invariant html == m.treeOpen + RenderNodes(m, nodes[..i])
    {
      assert nodes[..i + 1][..i] == nodes[..i];
      var piece := RenderFileNode(m, nodes[i]);
      html := html + piece;
    }
    assert nodes[..|nodes|] == nodes;
    html := html + m.treeClose;
  }

  method GenerateFileTreeHtml(content: seq<Listing>, webp: bool) returns (html: string)
    ensures html == FileTreeHtml(content, webp)
  {
    var nodes := BuildFileTree([], content, webp);
    html := RenderTree(TreeMarkup, nodes);
  }
}
