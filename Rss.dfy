/** `generate_rss` in `src/rss.rs`: the feed collects every Markdown page
    with its URL and publication date, newest first. Reading a file, the YAML
    parser, the date parser under one format, the Markdown renderer, RFC 2822
    formatting and the XML serialization of the channel are parameters. The
    renderer yields `None` where `markdown_to_html` panics (as
    `Events.MarkdownToHtml` does); the panic ends the feed, modelled as the
    error `RenderPanicked`. */
module Rss {
  import opened Strings
  import opened RustPath
  import opened Frontmatter
  import opened Sorting
  import opened Output
  import Build
  import FileTree
  import LazyLoad

  /** A publication instant (midnight UTC of the parsed day), in the order
      `DateTime<Utc>` compares instants. */
  type Date = int

  /** One collected post: frontmatter, Markdown body, URL, date and path. */
  datatype Post = Post(frontmatter: Yaml, body: string, url: string, date: Date, path: Path)

  datatype RssError =
    | ReadFailed(path: Path, message: string)
    | FrontmatterFailed(error: FrontmatterError)
    /** "Missing date in frontmatter" */
    | MissingDate
    /** "Invalid date format in {relative}: {message}" */
    | InvalidDate(relative: string, message: string)
    /** `markdown_to_html` panicked on the post at this path. */
    | RenderPanicked(path: Path)

  // ---------------------------------------------------------------------------
  // URLs

  /** The feed URL of a page, from its path below `content`. */
  function FeedUrl(relative: string): string {
    if relative == "index.md" then "/" else "/" + ReplaceAll(relative, ".md", "")
  }

  /** Every `.md` of the path is removed, not only the extension: the page
      `a` + `.md` + `b` + `.md` (say `notes.md/x.md`, below a directory
      named `notes.md`) gets the URL `/` + `a` + `b` (`/notes/x`). Here `a`
      and `b` hold no `.md` of their own. */
  lemma {:induction false} EveryMdRemoved(a: string, b: string)
    requires forall k: nat :: k < |a| ==> !OccursAt(a + (".md" + b + ".md"), ".md", k)
    requires forall k: nat :: k < |b| ==> !OccursAt(b + ".md", ".md", k)
    ensures ReplaceAll(a + ".md" + b + ".md", ".md", "") == a + b
    ensures a + ".md" + b + ".md" != "index.md" ==> FeedUrl(a + ".md" + b + ".md") == "/" + a + b
  {
    var tail := ".md" + b + ".md";
    assert a + ".md" + b + ".md" == a + tail;
    ReplacePrefixFree(a, tail, ".md", "");
    assert tail[..3] == ".md" && tail[3..] == b + ".md";
    assert ReplaceAll(tail, ".md", "") == ReplaceAll(b + ".md", ".md", "");
    ReplacePrefixFree(b, ".md", ".md", "");
    assert ReplaceAll(".md", ".md", "") == "" + ReplaceAll("", ".md", "");
  }

  /** Replacing leaves a prefix alone when no occurrence starts inside it. */
  lemma {:induction false} ReplacePrefixFree(a: string, b: string, pat: string, rep: string)
    requires |pat| > 0
    requires forall k: nat :: k < |a| ==> !OccursAt(a + b, pat, k)
    ensures ReplaceAll(a + b, pat, rep) == a + ReplaceAll(b, pat, rep)
    decreases |a|
  {
    if a == [] {
      assert a + b == b;
    } else if |a + b| < |pat| {
      assert ReplaceAll(b, pat, rep) == b;
    } else {
      assert !OccursAt(a + b, pat, 0);
      assert (a + b)[1..] == a[1..] + b;
      forall k: nat | k < |a| - 1 ensures !OccursAt(a[1..] + b, pat, k) {
        assert !OccursAt(a + b, pat, k + 1);
        if k + |pat| <= |a[1..] + b| {
          assert (a[1..] + b)[k..k + |pat|] == (a + b)[k + 1..k + 1 + |pat|];
        }
      }
      ReplacePrefixFree(a[1..], b, pat, rep);
      assert a == [a[0]] + a[1..];
    }
  }

  // ---------------------------------------------------------------------------
  // Dates

  /** The formats tried, in order. */
  const DateFormats: seq<string> := ["%d %b %Y", "%d %B %Y", "%Y-%m-%d", "%Y/%m/%d", "%d/%m/%Y"]

  /** The date under the first format, in order, that accepts the text. */
  function FirstParse(text: string, formats: seq<string>, parse: (string, string) -> Option<Date>): Option<Date>
    decreases |formats|
  {
    if formats == [] then None
    else
      match parse(text, formats[0])
      case Some(d) => Some(d)
      case None => FirstParse(text, formats[1..], parse)
  }

  /** What `parse_custom_date` returns. */
  function CustomDate(dateStr: string, parse: (string, string) -> Option<Date>): Result<Date, string> {
    var trimmed := Trim(dateStr);
    match FirstParse(trimmed, DateFormats, parse)
    case Some(d) => Ok(d)
    case None => Err("Could not parse date '" + trimmed + "'. Expected format '24 Jan 2025' or '24 January 2025'")
  }

  /** The search fails exactly when every format rejects the text, and
      otherwise yields the date of the first format that accepts it. */
  lemma {:induction false} FirstParseSpec(text: string, formats: seq<string>, parse: (string, string) -> Option<Date>)
    ensures FirstParse(text, formats, parse).None? <==> forall f <- formats :: parse(text, f).None?
    ensures FirstParse(text, formats, parse).Some? ==>
              exists i :: 0 <= i < |formats| && parse(text, formats[i]) == FirstParse(text, formats, parse) &&
                          forall k :: 0 <= k < i ==> parse(text, formats[k]).None?
    decreases |formats|
  {
    if formats != [] {
      FirstParseSpec(text, formats[1..], parse);
      assert forall f <- formats :: f == formats[0] || f in formats[1..];
      if parse(text, formats[0]).None? && FirstParse(text, formats[1..], parse).Some? {
        var i :| 0 <= i < |formats| - 1 && parse(text, formats[1..][i]) == FirstParse(text, formats[1..], parse) &&
                 forall k :: 0 <= k < i ==> parse(text, formats[1..][k]).None?;
        assert parse(text, formats[i + 1]) == FirstParse(text, formats, parse);
        assert forall k :: 1 <= k < i + 1 ==> formats[k] == formats[1..][k - 1];
      }
    }
  }

  /** `parse_custom_date` fails exactly when none of the five formats
      accepts the trimmed text; otherwise the first that does decides. */
  lemma {:induction false} CustomDateSpec(dateStr: string, parse: (string, string) -> Option<Date>)
    ensures CustomDate(dateStr, parse).Err? <==> forall f <- DateFormats :: parse(Trim(dateStr), f).None?
    ensures CustomDate(dateStr, parse).Ok? ==>
              exists i :: 0 <= i < |DateFormats| && parse(Trim(dateStr), DateFormats[i]) == Some(CustomDate(dateStr, parse).value) &&
                          forall k :: 0 <= k < i ==> parse(Trim(dateStr), DateFormats[k]).None?
  {
    FirstParseSpec(Trim(dateStr), DateFormats, parse);
  }

  /** The loop over the formats, returning at the first success. */
  method ParseCustomDate(dateStr: string, parse: (string, string) -> Option<Date>) returns (r: Result<Date, string>)
    ensures r == CustomDate(dateStr, parse)
  {
    var formats := DateFormats;
    var trimmed := Trim(dateStr);
    for i := 0 to |formats|
      invariant FirstParse(trimmed, formats, parse) == FirstParse(trimmed, formats[i..], parse)
    {
      var parsed := parse(trimmed, formats[i]);
      if parsed.Some? {
        return Ok(parsed.value);
      }
      assert formats[i..][1..] == formats[i + 1..];
    }
    return Err("Could not parse date '" + trimmed + "'. Expected format '24 Jan 2025' or '24 January 2025'");
  }

  // ---------------------------------------------------------------------------
  // Collecting posts

  /** The walk keeps Markdown files below no hidden directory; unlike the
      build, it does not skip file names that start with `.`. */
  predicate IsPostEntry(e: Entry) {
    Build.Walked(e) && Build.IsMarkdown(e)
  }

  /** `frontmatter["date"].as_str()`. */
  function DateText(fm: Yaml): Option<string> {
    if Get(fm, "date").Some? && Get(fm, "date").value.YString? then Some(Get(fm, "date").value.s) else None
  }

  /** The post one Markdown file gives, or the error that stops the feed. */
  function PostOf(e: Entry, read: Path -> Result<string, string>, yaml: string -> Result<Yaml, string>,
                  dates: (string, string) -> Option<Date>): Result<Post, RssError>
  {
    match read(e.path)
    case Err(m) => Err(ReadFailed(e.path, m))
    case Ok(content) =>
      match ExtractFrontmatter(content, yaml)
      case Err(fe) => Err(FrontmatterFailed(fe))
      case Ok((fm, body)) =>
        var relative := FileTree.PathText(StripContentOr(e.path));
        match DateText(fm)
        case None => Err(MissingDate)
        case Some(text) =>
          match CustomDate(text, dates)
          case Err(m) => Err(InvalidDate(relative, m))
          case Ok(d) => Ok(Post(fm, body, FeedUrl(relative), d, e.path))
  }

  /** The date check after the frontmatter can never fail: a frontmatter
      that parses always has a string `date`. */
  lemma {:induction false} DateAlwaysPresent(e: Entry, read: Path -> Result<string, string>,
                                             yaml: string -> Result<Yaml, string>, dates: (string, string) -> Option<Date>)
    ensures PostOf(e, read, yaml, dates) != Err(MissingDate)
  {
    if read(e.path).Ok? {
      SuccessIsValid(read(e.path).value, yaml);
    }
  }

  /** The posts of the walk in walk order; the first failing page stops it. */
  function Posts(walk: seq<Entry>, read: Path -> Result<string, string>, yaml: string -> Result<Yaml, string>,
                 dates: (string, string) -> Option<Date>): Result<seq<Post>, RssError>
    decreases |walk|
  {
    if walk == [] then Ok([])
    else
      match Posts(walk[..|walk| - 1], read, yaml, dates)
      case Err(e) => Err(e)
      case Ok(posts) =>
        var e := Last(walk);
        if !IsPostEntry(e) then Ok(posts)
        else
          match PostOf(e, read, yaml, dates)
          case Err(err) => Err(err)
          case Ok(p) => Ok(posts + [p])
  }

  /** Once a prefix of the walk fails, the whole walk fails the same way. */
  lemma {:induction false} FailureSticks(walk: seq<Entry>, i: nat, read: Path -> Result<string, string>,
                                         yaml: string -> Result<Yaml, string>, dates: (string, string) -> Option<Date>)
    requires i <= |walk| && Posts(walk[..i], read, yaml, dates).Err?
    ensures Posts(walk, read, yaml, dates) == Posts(walk[..i], read, yaml, dates)
    decreases |walk| - i
  {
    if i < |walk| {
      assert walk[..i + 1][..i] == walk[..i];
      FailureSticks(walk, i + 1, read, yaml, dates);
    } else {
      assert walk[..i] == walk;
    }
  }

  /** Collecting fails exactly when some page of the walk fails. */
  lemma {:induction false} PostsFail(walk: seq<Entry>, read: Path -> Result<string, string>,
                                     yaml: string -> Result<Yaml, string>, dates: (string, string) -> Option<Date>)
    ensures Posts(walk, read, yaml, dates).Err? <==> exists e <- walk :: IsPostEntry(e) && PostOf(e, read, yaml, dates).Err?
    decreases |walk|
  {
    if walk != [] {
      var pre := walk[..|walk| - 1];
      PostsFail(pre, read, yaml, dates);
      assert walk == pre + [Last(walk)];
    }
  }

  /** On success there is one post per page, in walk order. */
  lemma {:induction false} PostsOfPages(walk: seq<Entry>, read: Path -> Result<string, string>,
                                        yaml: string -> Result<Yaml, string>, dates: (string, string) -> Option<Date>)
    requires Posts(walk, read, yaml, dates).Ok?
    ensures forall p <- Posts(walk, read, yaml, dates).value :: exists e <- walk :: IsPostEntry(e) && PostOf(e, read, yaml, dates) == Ok(p)
    ensures forall e <- walk :: IsPostEntry(e) ==>
              PostOf(e, read, yaml, dates).Ok? && PostOf(e, read, yaml, dates).value in Posts(walk, read, yaml, dates).value
    decreases |walk|
  {
    if walk != [] {
      var pre := walk[..|walk| - 1];
      var e := Last(walk);
      PostsOfPages(pre, read, yaml, dates);
      var before := Posts(pre, read, yaml, dates).value;
      var after := Posts(walk, read, yaml, dates).value;
      assert after == if IsPostEntry(e) then before + [PostOf(e, read, yaml, dates).value] else before;
      assert forall p <- after :: p in before || (IsPostEntry(e) && p == PostOf(e, read, yaml, dates).value);
      assert forall x <- walk :: x in pre || x == e;
    }
  }

  /** The collecting loop: each page is read, split and dated in turn. */
  method CollectPosts(walk: seq<Entry>, read: Path -> Result<string, string>, yaml: string -> Result<Yaml, string>,
                      dates: (string, string) -> Option<Date>)
    returns (r: Result<seq<Post>, RssError>)
    ensures r == Posts(walk, read, yaml, dates)
  {
    var posts: seq<Post> := [];
    for i := 0 to |walk|
      invariant Posts(walk[..i], read, yaml, dates) == Ok(posts)
    {
      var entry := walk[i];
      assert walk[..i + 1][..i] == walk[..i] && Last(walk[..i + 1]) == entry;
      if !IsPostEntry(entry) {
        continue;
      }
      if PostOf(entry, read, yaml, dates).Err? {
        FailureSticks(walk, i + 1, read, yaml, dates);
      }
      var content := read(entry.path);
      if content.Err? {
        return Err(ReadFailed(entry.path, content.error));
      }
      var split := ExtractFrontmatter(content.value, yaml);
      if split.Err? {
        return Err(FrontmatterFailed(split.error));
      }
      var (frontmatter, mdContent) := split.value;
      var relative := FileTree.PathText(StripContentOr(entry.path));
      var url := FeedUrl(relative);
      var dateStr := DateText(frontmatter);
      if dateStr.None? {
        return Err(MissingDate);
      }
      var pubDate := ParseCustomDate(dateStr.value, dates);
      if pubDate.Err? {
        return Err(InvalidDate(relative, pubDate.error));
      }
      posts := posts + [Post(frontmatter, mdContent, url, pubDate.value, entry.path)];
    }
    assert walk[..|walk|] == walk;
    return Ok(posts);
  }

  // ---------------------------------------------------------------------------
  // Ordering and items

  /** `sort_by(|a, b| b.3.cmp(&a.3))` lets `a` come first when it is not older. */
  function NotOlder(a: Post, b: Post): bool {
    a.date >= b.date
  }

  lemma NotOlderPreorder()
    ensures TotalPreorder(NotOlder)
  {
  }

  /** The posts newest first: `sort_by` comparing the later date first. */
  function Feed(posts: seq<Post>): seq<Post> {
    SortBy(posts, NotOlder)
  }

  /** The feed holds the same posts, newest first, and posts of the same
      date keep their walk order. */
  lemma {:induction false} FeedOrder(posts: seq<Post>, k: Post)
    ensures forall i, j :: 0 <= i < j < |Feed(posts)| ==> Feed(posts)[i].date >= Feed(posts)[j].date
    ensures multiset(Feed(posts)) == multiset(posts)
    ensures SameKey(Feed(posts), k, NotOlder) == SameKey(posts, k, NotOlder)
  {
    NotOlderPreorder();
    SortBySorted(posts, NotOlder);
    SortByPermutes(posts, NotOlder);
    SortByStable(posts, k, NotOlder);
  }

  /** One feed item. */
  datatype Item = Item(title: string, link: string, description: string, pubDate: string)

  /** `frontmatter["title"].as_str().unwrap_or("Untitled")`. */
  function TitleText(fm: Yaml): string {
    if Get(fm, "title").Some? && Get(fm, "title").value.YString? then Get(fm, "title").value.s else "Untitled"
  }

  /** One post's item; `None` where `markdown_to_html` panics on its body. */
  function ItemOf(post: Post, baseUrl: string, webp: bool, toHtml: (string, Path) -> Option<string>,
                  rfc2822: Date -> string): Option<Item>
  {
    match toHtml(post.body, post.path)
    case None => None
    case Some(html) =>
      Some(Item(TitleText(post.frontmatter), baseUrl + post.url,
                LazyLoad.AddLazyLoading(html, webp), rfc2822(post.date)))
  }

  /** The items of the posts in order; the first post whose rendering panics
      stops the feed. */
  function Items(posts: seq<Post>, baseUrl: string, webp: bool, toHtml: (string, Path) -> Option<string>,
                 rfc2822: Date -> string): Result<seq<Item>, RssError>
    decreases |posts|
  {
    if posts == [] then Ok([])
    else
      match Items(posts[..|posts| - 1], baseUrl, webp, toHtml, rfc2822)
      case Err(e) => Err(e)
      case Ok(before) =>
        match ItemOf(Last(posts), baseUrl, webp, toHtml, rfc2822)
        case None => Err(RenderPanicked(Last(posts).path))
        case Some(item) => Ok(before + [item])
  }

  /** Building the items fails exactly when the rendering of some post panics. */
  lemma {:induction false} ItemsFail(posts: seq<Post>, baseUrl: string, webp: bool, toHtml: (string, Path) -> Option<string>,
                                     rfc2822: Date -> string)
    ensures Items(posts, baseUrl, webp, toHtml, rfc2822).Err? <==> exists p <- posts :: toHtml(p.body, p.path).None?
    decreases |posts|
  {
    if posts != [] {
      var pre := posts[..|posts| - 1];
      ItemsFail(pre, baseUrl, webp, toHtml, rfc2822);
      assert posts == pre + [Last(posts)];
      assert forall p <- posts :: p in pre || p == Last(posts);
    }
  }

  /** A failure names the first post whose rendering panics. */
  lemma {:induction false} ItemsFirstPanic(posts: seq<Post>, baseUrl: string, webp: bool,
                                           toHtml: (string, Path) -> Option<string>, rfc2822: Date -> string)
    requires Items(posts, baseUrl, webp, toHtml, rfc2822).Err?
    ensures exists i :: 0 <= i < |posts| && toHtml(posts[i].body, posts[i].path).None? &&
              (forall j :: 0 <= j < i ==> toHtml(posts[j].body, posts[j].path).Some?) &&
              Items(posts, baseUrl, webp, toHtml, rfc2822).error == RenderPanicked(posts[i].path)
    decreases |posts|
  {
    var pre := posts[..|posts| - 1];
    if Items(pre, baseUrl, webp, toHtml, rfc2822).Err? {
      ItemsFirstPanic(pre, baseUrl, webp, toHtml, rfc2822);
      var i :| 0 <= i < |pre| && toHtml(pre[i].body, pre[i].path).None? &&
               (forall j :: 0 <= j < i ==> toHtml(pre[j].body, pre[j].path).Some?) &&
               Items(pre, baseUrl, webp, toHtml, rfc2822).error == RenderPanicked(pre[i].path);
      assert forall j :: 0 <= j <= i ==> pre[j] == posts[j];
    } else {
      ItemsFail(pre, baseUrl, webp, toHtml, rfc2822);
      var i := |posts| - 1;
      assert forall j :: 0 <= j < i ==> pre[j] == posts[j] && pre[j] in pre;
    }
  }

  /** Item `i` belongs to post `i`: its link is the base URL followed by the
      post's URL, its date is the post's date. */
  lemma {:induction false} ItemsOfPosts(posts: seq<Post>, baseUrl: string, webp: bool, toHtml: (string, Path) -> Option<string>,
                                        rfc2822: Date -> string)
    requires Items(posts, baseUrl, webp, toHtml, rfc2822).Ok?
    ensures var items := Items(posts, baseUrl, webp, toHtml, rfc2822).value;
            |items| == |posts| &&
            forall i :: 0 <= i < |posts| ==>
              items[i].link == baseUrl + posts[i].url && items[i].pubDate == rfc2822(posts[i].date) &&
              ItemOf(posts[i], baseUrl, webp, toHtml, rfc2822) == Some(items[i])
    decreases |posts|
  {
    if posts != [] {
      var pre := posts[..|posts| - 1];
      ItemsOfPosts(pre, baseUrl, webp, toHtml, rfc2822);
      var before := Items(pre, baseUrl, webp, toHtml, rfc2822).value;
      var items := Items(posts, baseUrl, webp, toHtml, rfc2822).value;
      var item := ItemOf(Last(posts), baseUrl, webp, toHtml, rfc2822).value;
      assert items == before + [item];
      forall i | 0 <= i < |posts|
        ensures ItemOf(posts[i], baseUrl, webp, toHtml, rfc2822) == Some(items[i])
      {
        if i < |pre| {
          assert items[i] == before[i] && pre[i] == posts[i];
        }
      }
    }
  }

  /** Once the items of a prefix fail, the items of the whole fail the same way. */
  lemma {:induction false} ItemsSticks(posts: seq<Post>, i: nat, baseUrl: string, webp: bool,
                                       toHtml: (string, Path) -> Option<string>, rfc2822: Date -> string)
    requires i <= |posts| && Items(posts[..i], baseUrl, webp, toHtml, rfc2822).Err?
    ensures Items(posts, baseUrl, webp, toHtml, rfc2822) == Items(posts[..i], baseUrl, webp, toHtml, rfc2822)
    decreases |posts|
  {
    if i < |posts| {
      var pre := posts[..|posts| - 1];
      assert pre[..i] == posts[..i];
      ItemsSticks(pre, i, baseUrl, webp, toHtml, rfc2822);
    } else {
      assert posts[..i] == posts;
    }
  }

  /** The items loop; a panic of `markdown_to_html` ends it. */
  method BuildItems(posts: seq<Post>, baseUrl: string, webp: bool, toHtml: (string, Path) -> Option<string>,
                    rfc2822: Date -> string)
    returns (r: Result<seq<Item>, RssError>)
    ensures r == Items(posts, baseUrl, webp, toHtml, rfc2822)
  {
    var items := [];
    for i := 0 to |posts|
      invariant Items(posts[..i], baseUrl, webp, toHtml, rfc2822) == Ok(items)
    {
      var post := posts[i];
      assert posts[..i + 1][..i] == posts[..i] && Last(posts[..i + 1]) == post;
      var title := TitleText(post.frontmatter);
      var htmlContent := toHtml(post.body, post.path);
      if htmlContent.None? {
        ItemsSticks(posts, i + 1, baseUrl, webp, toHtml, rfc2822);
        return Err(RenderPanicked(post.path));
      }
      var description := LazyLoad.AddLazyLoading(htmlContent.value, webp);
      items := items + [Item(title, baseUrl + post.url, description, rfc2822(post.date))];
    }
    assert posts[..|posts|] == posts;
    return Ok(items);
  }

  /** The `[general]` settings the channel uses. */
  datatype General = General(title: string, baseUrl: string, description: string)

  /** The channel: the site's title, link and description, and the items. */
  datatype Channel = Channel(title: string, link: string, description: string, items: seq<Item>)

  /** Where the feed is written. */
  const FeedPath := "dist/rss.xml"

  /** The channel of the feed, or the error that stops it. */
  function FeedChannel(walk: seq<Entry>, read: Path -> Result<string, string>, yaml: string -> Result<Yaml, string>,
                       dates: (string, string) -> Option<Date>, general: General, webp: bool,
                       toHtml: (string, Path) -> Option<string>, rfc2822: Date -> string): Result<Channel, RssError>
  {
    match Posts(walk, read, yaml, dates)
    case Err(e) => Err(e)
    case Ok(posts) =>
      match Items(Feed(posts), general.baseUrl, webp, toHtml, rfc2822)
      case Err(e) => Err(e)
      case Ok(items) => Ok(Channel(general.title, general.baseUrl, general.description, items))
  }

  /** The feed fails exactly when some page fails to be read, split or
      dated, or when every page is collected and the rendering of some post
      panics. */
  lemma {:induction false} FeedChannelFails(walk: seq<Entry>, read: Path -> Result<string, string>,
                                            yaml: string -> Result<Yaml, string>, dates: (string, string) -> Option<Date>,
                                            general: General, webp: bool, toHtml: (string, Path) -> Option<string>,
                                            rfc2822: Date -> string)
    ensures FeedChannel(walk, read, yaml, dates, general, webp, toHtml, rfc2822).Err? <==>
              (exists e <- walk :: IsPostEntry(e) && PostOf(e, read, yaml, dates).Err?) ||
              (Posts(walk, read, yaml, dates).Ok? &&
               exists p <- Posts(walk, read, yaml, dates).value :: toHtml(p.body, p.path).None?)
  {
    PostsFail(walk, read, yaml, dates);
    var posts := Posts(walk, read, yaml, dates);
    if posts.Ok? {
      var order := Feed(posts.value);
      FeedOrder(posts.value, Post(YOther, "", "", 0, []));
      ItemsFail(order, general.baseUrl, webp, toHtml, rfc2822);
      assert forall p :: p in order <==> p in posts.value by {
        forall p ensures p in order <==> p in posts.value {
          assert p in order <==> p in multiset(order);
          assert p in posts.value <==> p in multiset(posts.value);
        }
      }
    }
  }

  /** A feed that is produced links to the base URL, and its items are, one
      for one, the items of the posts put newest first. */
  lemma {:induction false} FeedChannelSpec(walk: seq<Entry>, read: Path -> Result<string, string>,
                                           yaml: string -> Result<Yaml, string>, dates: (string, string) -> Option<Date>,
                                           general: General, webp: bool, toHtml: (string, Path) -> Option<string>,
                                           rfc2822: Date -> string)
    requires FeedChannel(walk, read, yaml, dates, general, webp, toHtml, rfc2822).Ok?
    ensures var channel := FeedChannel(walk, read, yaml, dates, general, webp, toHtml, rfc2822).value;
            channel.link == general.baseUrl &&
            exists order: seq<Post> ::
              multiset(order) == multiset(Posts(walk, read, yaml, dates).value) &&
              (forall i, j :: 0 <= i < j < |order| ==> order[i].date >= order[j].date) &&
              |channel.items| == |order| &&
              forall i :: 0 <= i < |order| ==> ItemOf(order[i], general.baseUrl, webp, toHtml, rfc2822) == Some(channel.items[i])
  {
    var posts := Posts(walk, read, yaml, dates).value;
    var order := Feed(posts);
    var items := Items(order, general.baseUrl, webp, toHtml, rfc2822);
    assert items.Ok?;
    var channel := FeedChannel(walk, read, yaml, dates, general, webp, toHtml, rfc2822).value;
    assert channel == Channel(general.title, general.baseUrl, general.description, items.value);
    FeedOrder(posts, Post(YOther, "", "", 0, []));
    ItemsOfPosts(order, general.baseUrl, webp, toHtml, rfc2822);
    assert |channel.items| == |order|;
  }

  /** `generate_rss`: collect, sort, build the items and write the feed;
      on an error or a panic nothing is written. */
  method GenerateRss(walk: seq<Entry>, read: Path -> Result<string, string>, yaml: string -> Result<Yaml, string>,
                     dates: (string, string) -> Option<Date>, general: General, webp: bool,
                     toHtml: (string, Path) -> Option<string>, rfc2822: Date -> string,
                     serialize: Channel -> string, dist: Dist)
    returns (r: Result<(), RssError>)
    modifies dist
    ensures var channel := FeedChannel(walk, read, yaml, dates, general, webp, toHtml, rfc2822);
            (channel.Err? ==> r == Err(channel.error) && dist.files == old(dist.files)) &&
            (channel.Ok? ==> r == Ok(()) && dist.files == old(dist.files)[FeedPath := serialize(channel.value)])
  {
    var collected := CollectPosts(walk, read, yaml, dates);
    if collected.Err? {
      return Err(collected.error);
    }
    var posts := SortBy(collected.value, NotOlder);
    var items := BuildItems(posts, general.baseUrl, webp, toHtml, rfc2822);
    if items.Err? {
      return Err(items.error);
    }
    var channel := Channel(general.title, general.baseUrl, general.description, items.value);
    dist.Write(FeedPath, serialize(channel));
    return Ok(());
  }
}
