/** `build` in `src/build.rs`: which content entries become pages, static
    copies and listings, where each one is written, and the naming-conflict
    check that runs before anything under `content` is written.

    The walk of `content` is the sequence of entries `WalkDir` yields, in its
    order, BEFORE `filter_entry` is applied: the filter is part of the model.
    Reading, rendering and minifying one output file is a parameter. */
module Build {
  import opened Strings
  import opened RustPath
  import opened Utils
  import opened Config
  import opened Theme
  import opened Output

  const ContentRoot: Path := ["content"]
  const ThemeCssPath := "dist/static/theme.css"

  /** `filter_entry(is_not_hidden_dir)`: an entry is yielded only when it is
      not a hidden directory and no directory above it is one, since the walk
      does not descend into a directory the filter rejects. */
  predicate Walked(e: Entry) {
    (forall j :: 0 <= j < |e.path| - 1 ==> IsNotHiddenDir(e.path[j], true)) &&
    IsNotHiddenDir(FileName(e.path), e.isDir)
  }

  predicate HiddenName(e: Entry) {
    StartsWith(FileName(e.path), ".")
  }

  /** A file whose `extension()` is `md`. */
  predicate IsMarkdown(e: Entry) {
    !e.isDir && Extension(FileName(e.path)) == Some("md")
  }

  /** What the first walk pushes onto `markdown_files`. */
  predicate ListedMarkdown(e: Entry) {
    Walked(e) && !HiddenName(e) && IsMarkdown(e)
  }

  /** What the first walk pushes onto `directories`. */
  predicate ListedDirectory(e: Entry) {
    Walked(e) && !HiddenName(e) && e.isDir && e.path != ContentRoot
  }

  function MarkdownFiles(walk: seq<Entry>): seq<Path>
    decreases |walk|
  {
    if walk == [] then []
    else
      var e := Last(walk);
      MarkdownFiles(walk[..|walk| - 1]) + (if ListedMarkdown(e) then [e.path] else [])
  }

  function Directories(walk: seq<Entry>): seq<Path>
    decreases |walk|
  {
    if walk == [] then []
    else
      var e := Last(walk);
      Directories(walk[..|walk| - 1]) + (if ListedDirectory(e) then [e.path] else [])
  }

  /** The first walk: it collects the Markdown files and the directories
      other than `content` itself, skipping names that start with `.`. */
  method CollectEntries(walk: seq<Entry>) returns (markdownFiles: seq<Path>, directories: seq<Path>)
    ensures markdownFiles == MarkdownFiles(walk)
    ensures directories == Directories(walk)
  {
    markdownFiles := [];
    directories := [];
    for i := 0 to |walk|
      invariant markdownFiles == MarkdownFiles(walk[..i])
      invariant directories == Directories(walk[..i])
    {
      var entry := walk[i];
      assert walk[..i + 1][..i] == walk[..i];
      if !Walked(entry) {
        continue;
      }
      if StartsWith(FileName(entry.path), ".") {
        continue;
      }
      if !entry.isDir && Extension(FileName(entry.path)) == Some("md") {
        markdownFiles := markdownFiles + [entry.path];
      } else if entry.isDir && entry.path != ContentRoot {
        directories := directories + [entry.path];
      }
    }
    assert walk[..|walk|] == walk;
  }

  /** A path is listed exactly when some entry of the walk that passes the
      filters has it. */
  lemma {:induction false} MarkdownMembers(walk: seq<Entry>, p: Path)
    ensures p in MarkdownFiles(walk) <==> exists e <- walk :: ListedMarkdown(e) && e.path == p
    decreases |walk|
  {
    if walk != [] {
      var pre := walk[..|walk| - 1];
      MarkdownMembers(pre, p);
      assert walk == pre + [Last(walk)];
    }
  }

  lemma {:induction false} DirectoryMembers(walk: seq<Entry>, p: Path)
    ensures p in Directories(walk) <==> exists e <- walk :: ListedDirectory(e) && e.path == p
    decreases |walk|
  {
    if walk != [] {
      var pre := walk[..|walk| - 1];
      DirectoryMembers(pre, p);
      assert walk == pre + [Last(walk)];
    }
  }

  /** No listed path has a component that starts with `.`: hidden entries
      are skipped and hidden directories are not descended into. */
  lemma {:induction false} ListedPathsVisible(walk: seq<Entry>)
    ensures forall p <- MarkdownFiles(walk) :: forall j :: 0 <= j < |p| ==> !StartsWith(p[j], ".")
    ensures forall p <- Directories(walk) :: forall j :: 0 <= j < |p| ==> !StartsWith(p[j], ".")
    decreases |walk|
  {
    if walk != [] {
      ListedPathsVisible(walk[..|walk| - 1]);
      var e := Last(walk);
      if ListedMarkdown(e) || ListedDirectory(e) {
        forall j | 0 <= j < |e.path| ensures !StartsWith(e.path[j], ".") {
          if j < |e.path| - 1 {
            assert IsNotHiddenDir(e.path[j], true);
          } else {
            assert FileName(e.path) == e.path[j];
          }
        }
      }
    }
  }

  /** An entry below a hidden directory adds nothing to either list. */
  lemma HiddenSubtreeSkipped(walk: seq<Entry>, e: Entry, j: nat)
    requires j < |e.path| - 1 && StartsWith(e.path[j], ".")
    ensures MarkdownFiles(walk + [e]) == MarkdownFiles(walk)
    ensures Directories(walk + [e]) == Directories(walk)
  {
    assert !IsNotHiddenDir(e.path[j], true);
    assert (walk + [e])[..|walk|] == walk;
  }

  /** `md_parent == dir_parent && md_stem == dir_name`. */
  predicate Clash(md: Path, dir: Path) {
    Parent(md) == Parent(dir) && Stem(FileName(md)) == FileName(dir)
  }

  /** The first directory that clashes with `md`, in list order. */
  function ClashWith(md: Path, dirs: seq<Path>): (r: Option<Path>)
    ensures r.Some? ==> r.value in dirs && Clash(md, r.value)
    ensures r.None? <==> forall d <- dirs :: !Clash(md, d)
    decreases |dirs|
  {
    if dirs == [] then None
    else if Clash(md, dirs[0]) then Some(dirs[0])
    else ClashWith(md, dirs[1..])
  }

  /** The pair the check reports: the first Markdown file with a clash, and
      the first directory it clashes with. */
  function FirstConflict(mds: seq<Path>, dirs: seq<Path>): Option<(Path, Path)>
    decreases |mds|
  {
    if mds == [] then None
    else
      match ClashWith(mds[0], dirs)
      case Some(d) => Some((mds[0], d))
      case None => FirstConflict(mds[1..], dirs)
  }

  /** The check fails exactly when some Markdown file and some directory
      clash, and what it reports is such a pair. */
  lemma {:induction false} FirstConflictIff(mds: seq<Path>, dirs: seq<Path>)
    ensures FirstConflict(mds, dirs).None? <==> forall m <- mds, d <- dirs :: !Clash(m, d)
    ensures FirstConflict(mds, dirs).Some? ==>
              var (m, d) := FirstConflict(mds, dirs).value; m in mds && d in dirs && Clash(m, d)
    decreases |mds|
  {
    if mds != [] {
      FirstConflictIff(mds[1..], dirs);
      assert forall m <- mds :: m == mds[0] || m in mds[1..];
    }
  }

  /** The nested loop of the check, returning at the first clash. */
  method CheckConflicts(markdownFiles: seq<Path>, directories: seq<Path>) returns (conflict: Option<(Path, Path)>)
    ensures conflict == FirstConflict(markdownFiles, directories)
  {
    for i := 0 to |markdownFiles|
      invariant FirstConflict(markdownFiles, directories) == FirstConflict(markdownFiles[i..], directories)
    {
      var md := markdownFiles[i];
      for j := 0 to |directories|
        invariant ClashWith(md, directories) == ClashWith(md, directories[j..])
      {
        if Clash(md, directories[j]) {
          return Some((md, directories[j]));
        }
        assert directories[j..][1..] == directories[j + 1..];
      }
      assert markdownFiles[i..][1..] == markdownFiles[i + 1..];
    }
    return None;
  }

  datatype BuildError =
    | ThemeFailed(error: ThemeError)
    /** "Naming conflict detected: Markdown file '{stem}.md' and directory
        '{dir}' have the same name at '{parent}'. ..." */
    | NamingConflict(stem: string, dirName: string, parent: string)
    /** Reading, frontmatter, rendering or writing one output failed. */
    | OutputFailed(source: Path, message: string)

  function ConflictError(md: Path, dir: Path): BuildError {
    NamingConflict(Stem(FileName(md)), FileName(dir), PathString(if |md| == 0 then [] else md[..|md| - 1]))
  }

  /** Where a Markdown file's page goes, from its path below `content`. */
  function PageOutput(relative: Path): Path {
    if PathString(relative) == "index.md" then ["dist", "index.html"]
    else ["dist"] + WithoutExtension(relative) + ["index.html"]
  }

  /** Where any other content file is copied. */
  function AssetOutput(relative: Path): Path {
    ["dist", "static", Sanitized(PathString(relative))]
  }

  /** Where a directory's listing goes. */
  function ListingOutput(relative: Path): Path {
    ["dist"] + relative + ["index.html"]
  }

  /** A path of two or more components prints with a `/` after its first one. */
  lemma JoinSlash(p: Path)
    requires |p| >= 2
    ensures |PathString(p)| > |p[0]| && PathString(p)[|p[0]|] == '/'
  {
  }

  /** Only the one-component path `content` prints as `content`, and only
      `index.md` prints as `index.md`. */
  lemma PrintsAsName(p: Path, name: string)
    requires forall i :: 0 <= i < |name| ==> name[i] != '/'
    requires |name| > 0
    ensures PathString(p) == name <==> p == [name]
  {
    if |p| >= 2 {
      JoinSlash(p);
      var k := |p[0]|;
      assert PathString(p)[k] == '/' && (k < |name| ==> name[k] != '/');
    }
  }

  /** The root `index.md` becomes the site's home page. */
  lemma {:induction false} RootIndexPage(relative: Path)
    ensures PageOutput(relative) == ["dist", "index.html"] <==> PathString(relative) == "index.md" || relative == []
  {
    if PathString(relative) != "index.md" {
      assert |PageOutput(relative)| == |relative| + 2;
      if PageOutput(relative) == ["dist", "index.html"] {
        assert |relative| == 0;
      }
    }
  }

  /** Any other Markdown file becomes `index.html` in a directory named
      after its path without the extension; an `index.md` below the root
      is no exception. */
  lemma {:induction false} NestedPage(dirs: Path, name: string)
    requires |dirs| > 0 && Extension(name) == Some("md")
    ensures PageOutput(dirs + [name]) == ["dist"] + dirs + [Stem(name), "index.html"]
  {
    var rel := dirs + [name];
    PrintsAsName(rel, "index.md");
    assert rel[..|rel| - 1] == dirs && Last(rel) == name;
    assert name != "..";
  }

  /** A top-level Markdown file other than `index.md` goes to
      `dist/<stem>/index.html`. */
  lemma {:induction false} TopLevelPage(name: string)
    requires Extension(name) == Some("md") && name != "index.md"
    ensures PageOutput([name]) == ["dist", Stem(name), "index.html"]
  {
    assert PathString([name]) == name;
    assert name != "..";
  }

  /** A copied file lands directly in `dist/static`, under one flat name. */
  lemma {:induction false} AssetOutputFlat(relative: Path)
    ensures var out := AssetOutput(relative);
            |out| == 3 && out[..2] == ["dist", "static"] &&
            forall i :: 0 <= i < |out[2]| ==> out[2][i] != '/' && out[2][i] != '\\'
  {
    SanitizedAlphabet(PathString(relative));
  }

  /** Why the check exists: a Markdown file's page and a directory's listing
      would be the same file exactly when the two clash, except for the root
      `index.md`, whose page cannot meet any listing. */
  lemma {:induction false} OutputsCollideIffClash(md: Path, dir: Path)
    requires |md| >= 2 && md[0] == "content" && Extension(Last(md)) == Some("md")
    requires |dir| >= 2 && dir[0] == "content"
    ensures PageOutput(md[1..]) == ListingOutput(dir[1..]) <==>
              Clash(md, dir) && PathString(md[1..]) != "index.md"
  {
    var rm := md[1..];
    var rd := dir[1..];
    assert Last(rm) == Last(md) && Last(md) != "..";
    if PathString(rm) != "index.md" {
      var w := WithoutExtension(rm);
      assert w == rm[..|rm| - 1] + [Stem(Last(md))];
      assert PageOutput(rm) == ["dist"] + w + ["index.html"];
      if PageOutput(rm) == ListingOutput(rd) {
        assert w == (["dist"] + w + ["index.html"])[1..|w| + 1];
        assert rd == (["dist"] + rd + ["index.html"])[1..|rd| + 1];
        assert w == rd;
        assert md[..|md| - 1] == ["content"] + rm[..|rm| - 1];
        assert dir[..|dir| - 1] == ["content"] + rd[..|rd| - 1];
        assert Clash(md, dir);
      }
      if Clash(md, dir) {
        assert md[..|md| - 1] == dir[..|dir| - 1];
        assert rm[..|rm| - 1] == md[1..|md| - 1];
        assert rd[..|rd| - 1] == dir[1..|dir| - 1];
        assert rd == rd[..|rd| - 1] + [Last(dir)];
        assert w == rd;
      }
    } else {
      assert |ListingOutput(rd)| >= 3;
    }
  }

  /** What the second walk does with one entry. */
  datatype Target =
    | Page(source: Path, output: Path)
    | Asset(source: Path, output: Path)
    | Listing(source: Path, output: Path)

  /** The second walk's decision for one entry. Every walked path starts
      with `content`, so `strip_prefix` cannot fail there. */
  function TargetOf(e: Entry): Option<Target> {
    if !Walked(e) then None
    else if !e.isDir then
      if HiddenName(e) then None
      else if IsMarkdown(e) then Some(Page(e.path, PageOutput(StripContentOr(e.path))))
      else Some(Asset(e.path, AssetOutput(StripContentOr(e.path))))
    else if PathString(e.path) == "content" || HiddenName(e) then None
    else Some(Listing(e.path, ListingOutput(StripContentOr(e.path))))
  }

  /** The second walk makes a page of exactly the files the first walk
      listed as Markdown, and a listing of exactly the directories it
      listed. */
  lemma {:induction false} WalksAgree(e: Entry)
    ensures (TargetOf(e).Some? && TargetOf(e).value.Page?) <==> ListedMarkdown(e)
    ensures (TargetOf(e).Some? && TargetOf(e).value.Listing?) <==> ListedDirectory(e)
    ensures (TargetOf(e).Some? && TargetOf(e).value.Asset?) <==>
              Walked(e) && !HiddenName(e) && !e.isDir && !IsMarkdown(e)
  {
    PrintsAsName(e.path, "content");
  }

  /** The targets of the second walk, in walk order. */
  function Plan(walk: seq<Entry>): seq<Target>
    decreases |walk|
  {
    if walk == [] then []
    else (match TargetOf(walk[0]) case Some(t) => [t] case None => []) + Plan(walk[1..])
  }

  /** Writing the targets in order; the first one that fails stops the build. */
  function WriteTargets(files: map<string, string>, targets: seq<Target>, render: Target -> Result<string, string>)
    : (map<string, string>, Option<BuildError>)
    decreases |targets|
  {
    if targets == [] then (files, None)
    else
      var t := targets[0];
      match render(t)
      case Err(m) => (files, Some(OutputFailed(t.source, m)))
      case Ok(html) => WriteTargets(files[PathString(t.output) := html], targets[1..], render)
  }

  /** Every file written is an output of some target; when no target fails,
      every target's output is written. */
  lemma {:induction false} WriteTargetsFiles(files: map<string, string>, targets: seq<Target>,
                                             render: Target -> Result<string, string>)
    ensures var (out, err) := WriteTargets(files, targets, render);
            (forall k <- out :: k in files || exists t <- targets :: PathString(t.output) == k) &&
            (err.None? ==> forall t <- targets :: PathString(t.output) in out)
    decreases |targets|
  {
    if targets != [] {
      var t := targets[0];
      if render(t).Ok? {
        var next := files[PathString(t.output) := render(t).value];
        WriteTargetsFiles(next, targets[1..], render);
        assert forall u <- targets[1..] :: u in targets;
        var (out, err) := WriteTargets(next, targets[1..], render);
        if err.None? {
          assert forall u <- targets :: u == t || u in targets[1..];
          assert PathString(t.output) in out by {
            WriteKeepsKeys(next, targets[1..], render);
          }
        }
      }
    }
  }

  /** Writing never removes a file. */
  lemma {:induction false} WriteKeepsKeys(files: map<string, string>, targets: seq<Target>,
                                          render: Target -> Result<string, string>)
    ensures files.Keys <= WriteTargets(files, targets, render).0.Keys
    decreases |targets|
  {
    if targets != [] && render(targets[0]).Ok? {
      var next := files[PathString(targets[0].output) := render(targets[0]).value];
      WriteKeepsKeys(next, targets[1..], render);
    }
  }

  /** The files and the result of a whole build, starting from `files`. */
  function BuildOutcome(files: map<string, string>, config: Config, walk: seq<Entry>,
                        iterate: Palette -> seq<(string, string)>, minify: string -> Result<string, string>,
                        render: Target -> Result<string, string>): (map<string, string>, Result<(), BuildError>)
  {
    match ThemeFile(config.theme, iterate, minify)
    case Err(e) => (files, Err(ThemeFailed(e)))
    case Ok(css) =>
      var withTheme := files[ThemeCssPath := css];
      match FirstConflict(MarkdownFiles(walk), Directories(walk))
      case Some((md, dir)) => (withTheme, Err(ConflictError(md, dir)))
      case None =>
        var (out, err) := WriteTargets(withTheme, Plan(walk), render);
        (out, if err.Some? then Err(err.value) else Ok(()))
  }

  /** On a naming conflict the stylesheet is the only file written: the check
      finishes before any page, copy or listing. And the check fails exactly
      when some Markdown file and some directory clash. */
  lemma {:induction false} ConflictWritesNoPage(files: map<string, string>, config: Config, walk: seq<Entry>,
                                                iterate: Palette -> seq<(string, string)>,
                                                minify: string -> Result<string, string>,
                                                render: Target -> Result<string, string>)
    requires ThemeFile(config.theme, iterate, minify).Ok?
    ensures var (out, r) := BuildOutcome(files, config, walk, iterate, minify, render);
            (r.Err? && r.error.NamingConflict?) <==>
              exists m <- MarkdownFiles(walk), d <- Directories(walk) :: Clash(m, d)
    ensures var (out, r) := BuildOutcome(files, config, walk, iterate, minify, render);
            r.Err? && r.error.NamingConflict? ==>
              out == files[ThemeCssPath := ThemeFile(config.theme, iterate, minify).value]
  {
    var mds := MarkdownFiles(walk);
    var dirs := Directories(walk);
    FirstConflictIff(mds, dirs);
    if FirstConflict(mds, dirs).None? {
      var withTheme := files[ThemeCssPath := ThemeFile(config.theme, iterate, minify).value];
      var (out, err) := WriteTargets(withTheme, Plan(walk), render);
      assert err.Some? ==> err.value.OutputFailed? by {
        WriteTargetsError(withTheme, Plan(walk), render);
      }
    }
  }

  /** The only error writing reports is a failing output. */
  lemma {:induction false} WriteTargetsError(files: map<string, string>, targets: seq<Target>,
                                             render: Target -> Result<string, string>)
    ensures var err := WriteTargets(files, targets, render).1;
            err.Some? ==> err.value.OutputFailed?
    decreases |targets|
  {
    if targets != [] && render(targets[0]).Ok? {
      WriteTargetsError(files[PathString(targets[0].output) := render(targets[0]).value], targets[1..], render);
    }
  }

  /** Writing the outputs of one entry, as the second walk does. */
  method WriteEntry(entry: Entry, dist: Dist, render: Target -> Result<string, string>)
    returns (failed: Option<BuildError>)
    modifies dist
    ensures var ts := match TargetOf(entry) case Some(t) => [t] case None => [];
            (dist.files, failed) == WriteTargets(old(dist.files), ts, render)
  {
    var target := TargetOf(entry);
    if target.None? {
      return None;
    }
    var t := target.value;
    var rendered := render(t);
    if rendered.Err? {
      return Some(OutputFailed(t.source, rendered.error));
    }
    dist.Write(PathString(t.output), rendered.value);
    return None;
  }

  /** Writing one entry's targets and then the rest is writing them all. */
  lemma {:induction false} WriteTargetsAppend(files: map<string, string>, a: seq<Target>, b: seq<Target>,
                                              render: Target -> Result<string, string>)
    requires |a| <= 1
    ensures WriteTargets(files, a + b, render) ==
              (var (mid, err) := WriteTargets(files, a, render);
               if err.Some? then (mid, err) else WriteTargets(mid, b, render))
  {
    if |a| == 1 {
      assert (a + b)[0] == a[0] && (a + b)[1..] == b;
      assert a[1..] == [];
    } else {
      assert a + b == b;
    }
  }

  /** `build` from the theme onwards: the stylesheet, the first walk, the
      naming-conflict check, then the second walk writing every target. */
  method Build(config: Config, walk: seq<Entry>, dist: Dist,
               iterate: Palette -> seq<(string, string)>, minify: string -> Result<string, string>,
               render: Target -> Result<string, string>)
    returns (r: Result<(), BuildError>)
    modifies dist
    ensures (dist.files, r) == BuildOutcome(old(dist.files), config, walk, iterate, minify, render)
  {
    var theme := GenerateThemeCss(config, ThemeCssPath, dist, iterate, minify);
    if theme.Err? {
      return Err(ThemeFailed(theme.error));
    }
    ghost var withTheme := dist.files;
    var markdownFiles, directories := CollectEntries(walk);
    var conflict := CheckConflicts(markdownFiles, directories);
    if conflict.Some? {
      var (md, dir) := conflict.value;
      return Err(ConflictError(md, dir));
    }
    for i := 0 to |walk|
      invariant WriteTargets(withTheme, Plan(walk), render) == WriteTargets(dist.files, Plan(walk[i..]), render)
    {
      var before := Plan(walk[i..]);
      assert walk[i..][1..] == walk[i + 1..];
      var ts := match TargetOf(walk[i]) case Some(t) => [t] case None => [];
      assert before == ts + Plan(walk[i + 1..]);
      WriteTargetsAppend(dist.files, ts, Plan(walk[i + 1..]), render);
      var failed := WriteEntry(walk[i], dist, render);
      if failed.Some? {
        return Err(failed.value);
      }
    }
    assert walk[|walk|..] == [];
    return Ok(());
  }
}
