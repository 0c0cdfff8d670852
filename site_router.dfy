/**
 * The request side of app.py: the route table of `serve`, the path mapping of
 * `MarkdownHandler`, the `pre_title` each page gets, and the response each
 * request path receives.
 */
module SiteRouter {
  import opened Wrappers
  import opened Text
  import opened SiteContent
  import BlogIndex
  import SitePaths

  /**
   * The five route patterns. Tornado anchors each one at both ends. `Exact` is a
   * pattern without groups, in which `.` still matches any character.
   */
  datatype Pattern =
    | Exact(regex: string)   // "/blog/index.html" and "/"
    | HtmlPath               // "/(.*\.html)"
    | DirectoryPath          // "/(.*)/"
    | AnyPath                // "/(.+)"

  datatype Handler = BlogIndexPage | MarkdownPage | Redirect | StaticFile

  datatype Rule = Rule(pattern: Pattern, handler: Handler)

  /** The table handed to `Application`, in its order. */
  const Routes: seq<Rule> := [
    Rule(Exact("/blog/index.html"), BlogIndexPage),
    Rule(Exact("/"), MarkdownPage),
    Rule(HtmlPath, MarkdownPage),
    Rule(DirectoryPath, Redirect),
    Rule(AnyPath, StaticFile)
  ]

  /** A group-free pattern matched as a regular expression: `.` stands for any one character. */
  predicate ExactMatch(regex: string, path: string) {
    |path| == |regex| && forall k :: 0 <= k < |path| ==> regex[k] == '.' || path[k] == regex[k]
  }

  /** Matching one anchored pattern; the result is the list of captured groups. */
  function Match(p: Pattern, path: string): (r: Option<seq<string>>)
    ensures r.Some? && p.Exact? ==> r.value == [] && ExactMatch(p.regex, path)
    ensures r.Some? && !p.Exact? ==>
      |r.value| == 1 && StartsWith(path, "/") && path == "/" + r.value[0] + (if p.DirectoryPath? then "/" else "")
    ensures r.Some? && p.HtmlPath? ==> EndsWith(r.value[0], ".html")
    ensures r.Some? && p.AnyPath? ==> r.value[0] != []
  {
    match p
    case Exact(regex) => if ExactMatch(regex, path) then Some([]) else None
    case HtmlPath =>
      if |path| >= 1 && path[0] == '/' && EndsWith(path[1..], ".html") then
        assert path == "/" + path[1..];
        Some([path[1..]])
      else None
    case DirectoryPath =>
      if |path| >= 2 && path[0] == '/' && path[|path| - 1] == '/' then
        assert path == "/" + path[1..|path| - 1] + "/";
        Some([path[1..|path| - 1]])
      else None
    case AnyPath =>
      if |path| >= 2 && path[0] == '/' then
        assert path == "/" + path[1..];
        Some([path[1..]])
      else None
  }

  /** Every path of a pattern's form is matched, and its group comes back. */
  lemma MatchComplete(g: string)
    ensures EndsWith(g, ".html") ==> Match(HtmlPath, "/" + g) == Some([g])
    ensures Match(DirectoryPath, "/" + g + "/") == Some([g])
    ensures g != [] ==> Match(AnyPath, "/" + g) == Some([g])
  {
    assert ("/" + g)[1..] == g;
    var d := "/" + g + "/";
    assert d[1..|d| - 1] == g;
  }

  /** Which rule matched, and the groups it captured. */
  datatype RouteMatch = RouteMatch(index: nat, args: seq<string>)

  /** The first rule at or after `i` whose pattern matches. */
  function RouteFrom(rules: seq<Rule>, path: string, i: nat): (r: Option<RouteMatch>)
    decreases |rules| - i
    ensures r.Some? ==> i <= r.value.index < |rules| && Match(rules[r.value.index].pattern, path) == Some(r.value.args)
    ensures r.Some? ==> forall j :: i <= j < r.value.index ==> Match(rules[j].pattern, path).None?
    ensures r.None? ==> forall j :: i <= j < |rules| ==> Match(rules[j].pattern, path).None?
  {
    if i >= |rules| then None
    else match Match(rules[i].pattern, path)
      case Some(args) => Some(RouteMatch(i, args))
      case None => RouteFrom(rules, path, i + 1)
  }

  /** Tornado's dispatch: rules are tried in order and the first match wins. */
  function Route(path: string): Option<(Handler, seq<string>)>
  {
    match RouteFrom(Routes, path, 0)
    case None => None
    case Some(m) => Some((Routes[m.index].handler, m.args))
  }

  /**
   * The table as a decision list: the blog index, then the root, then any
   * `.html` path, then any path ending in `/`, then any other path of at least
   * one character after the `/`; nothing else is routed.
   */
  lemma RouteTable(path: string)
    ensures Route(path) ==
      if ExactMatch("/blog/index.html", path) then Some((BlogIndexPage, []))
      else if path == "/" then Some((MarkdownPage, []))
      else if |path| >= 1 && path[0] == '/' && EndsWith(path[1..], ".html") then Some((MarkdownPage, [path[1..]]))
      else if |path| >= 2 && path[0] == '/' && path[|path| - 1] == '/' then Some((Redirect, [path[1..|path| - 1]]))
      else if |path| >= 2 && path[0] == '/' then Some((StaticFile, [path[1..]]))
      else None
  {
    if path == "/" {
      assert !ExactMatch("/blog/index.html", path);
      assert ExactMatch("/", path);
    } else {
      assert !ExactMatch("/", path) by {
        assert |path| != 1 || path[0] != '/';
      }
    }
  }

  /** Only the empty path and paths not starting with `/` go unrouted. */
  lemma EveryRootedPathRouted(path: string)
    ensures Route(path).None? <==> path == [] || path[0] != '/'
  {
    RouteTable(path);
    if path != [] && path[0] == '/' && |path| < 2 {
      assert path == "/";
    }
  }

  /** `/blog/index.html` is a regular expression: any character may stand at its dots. */
  lemma BlogIndexPatternDots()
    ensures Route("/blog/index_html") == Some((BlogIndexPage, []))
  {
    var path := "/blog/index_html";
    forall k | 0 <= k < |path|
      ensures "/blog/index.html"[k] == '.' || path[k] == "/blog/index.html"[k]
    {
      if k != 11 {
        assert path[k] == "/blog/index.html"[k];
      }
    }
    assert Match(Routes[0].pattern, path) == Some([]);
  }

  /** A path ending in `.html` is never handed to the static file handler nor redirected. */
  lemma HtmlNeverStatic(path: string)
    requires StartsWith(path, "/") && EndsWith(path[1..], ".html")
    ensures Route(path).Some? && Route(path).value.0 in {BlogIndexPage, MarkdownPage}
  {
    RouteTable(path);
  }

  /**
   * `MarkdownHandler.get`: the group (or `index.html` when the route has none)
   * loses its leading `/` characters and every `.html` becomes `.md`.
   */
  function MarkdownSourceName(arg: Option<string>): (name: string)
    ensures arg.None? ==> name == "index.md"
    ensures name == [] || name[0] != '/'
  {
    var path := LStripChars(if arg.Some? then arg.value else "index.html", {'/'});
    if arg.None? then
      assert path == "index.html";
      IndexSourceName();
      ReplaceAll(path, ".html", ".md")
    else
      var name := ReplaceAll(path, ".html", ".md");
      assert name == [] || name[0] != '/' by { ReplaceAllFirst(path, ".html", ".md"); }
      name
  }

  lemma IndexSourceName()
    ensures ReplaceAll("index.html", ".html", ".md") == "index.md"
  {
    assert "index.html" == "index" + (".html" + []);
    forall i | 0 <= i < 5
      ensures !OccursAt("index" + (".html" + []), ".html", i)
    {
      assert ("index" + (".html" + []))[i] != '.';
    }
    ReplaceAllKeepsPrefix("index", ".html" + [], ".html", ".md");
    ReplaceAllPrefix(".html", ".md", []);
    assert ReplaceAll([], ".html", ".md") == [];
    assert ".md" + [] == ".md";
  }

  /** The first character of a replacement result is the input's or the replacement's. */
  lemma ReplaceAllFirst(s: string, pat: string, rep: string)
    requires pat != [] && rep != []
    ensures var r := ReplaceAll(s, pat, rep);
      r == [] || (s != [] && (r[0] == s[0] || r[0] == rep[0]))
  {
  }

  /** The `pre_title` `BaseHandler` puts in every template namespace, unless the handler passes its own. */
  function PreTitle(given: Option<string>): (p: string)
    ensures given.None? ==> p == ""
    ensures given.Some? ==> p == given.value
  {
    match given
    case None => ""
    case Some(p) => p
  }

  /** What a handler passes to its template; the templates themselves are not modelled. */
  datatype Body =
    | MarkdownBody(html: string, title: string, preTitle: string)
    | IndexBody(entries: seq<BlogIndex.BlogEntry>, preTitle: string)
    | FileBody(content: string)

  datatype Response =
    | Ok(body: Body)
    | NotFound
    | Forbidden                   // 403
    | MovedTo(location: string)   // 301 with this Location header
    | ServerError                 // an exception escaped the handler: 500

  /**
   * `_render_markdown`: 404 when `is_file()` finds no source, 500 when the page
   * has no usable title. A name whose components are all entries reads the file
   * of that key; other names are walked as the operating system does.
   */
  function MarkdownResponse(site: Site, name: string): (r: Response)
    requires name == [] || name[0] != '/'
    ensures r.NotFound? <==> SitePaths.MarkdownFile(site.files, name).None?
    ensures SitePaths.Plain(name) ==> (r.NotFound? <==> name !in site.files)
    ensures r.Ok? <==> (SitePaths.MarkdownFile(site.files, name).Some? &&
      var c := site.convert(site.files[SitePaths.MarkdownFile(site.files, name).value]);
      "title" in c.meta && |c.meta["title"]| > 0)
    ensures r.Ok? ==> var c := site.convert(site.files[SitePaths.MarkdownFile(site.files, name).value]);
      r.body == MarkdownBody(c.html, c.meta["title"][0], c.meta["title"][0] + " - ")
    ensures r.Ok? || r.NotFound? || r.ServerError?
  {
    match SitePaths.MarkdownFile(site.files, name)
    case None => NotFound
    case Some(key) =>
      var c := site.convert(site.files[key]);
      // `Meta.get("title")` is `None` here: `title[0]` raises TypeError
      if "title" !in c.meta then ServerError
      // an empty list: `title[0]` raises IndexError while `pre_title` is computed
      else if c.meta["title"] == [] then ServerError
      else
        var title := c.meta["title"][0];
        Ok(MarkdownBody(c.html, title, PreTitle(Some(title + " - "))))
  }

  /** `StaticFileHandler` rooted at the content directory: the file's bytes, or an error status. */
  function StaticResponse(site: Site, name: string): (r: Response)
    ensures r.Ok? || r.Forbidden? || r.NotFound?
    ensures r.Ok? ==> SitePaths.StaticLookup(site.files, name).Found?
    ensures r.Ok? ==> r == Ok(FileBody(site.files[SitePaths.StaticLookup(site.files, name).key]))
  {
    match SitePaths.StaticLookup(site.files, name)
    case Found(key) => Ok(FileBody(site.files[key]))
    case Forbidden => Forbidden
    case Missing => NotFound
  }

  /**
   * `RedirectHandler` with `url` `"{0}/index.html"`: the group formatted into
   * that text, sent as a 301. The `Location` is relative unless the group
   * starts with `/` or is empty.
   */
  function RedirectLocationAsWritten(g: string): (loc: string)
    ensures |loc| == |g| + |"/index.html"| && StartsWith(loc, g) && EndsWith(loc, "/index.html")
    ensures g != [] && g[0] != '/' ==> !StartsWith(loc, "/")
    ensures g == [] ==> loc == "/index.html"
  {
    g + "/index.html"
  }

  /**
   * The redirect target the site needs: the relative reference `index.html`,
   * which resolves against `/<g>/` to `/<g>/index.html` whatever `g` is.
   */
  function RedirectLocation(g: string): (loc: string)
    ensures loc == "index.html"
  {
    "index.html"
  }

  /** The request path of `/x/y.html` is `/x/`: everything up to and including the last `/`. */
  function DirPart(p: string): (r: string)
    ensures StartsWith(p, r)
    ensures r == [] || r[|r| - 1] == '/'
    ensures forall k :: |r| <= k < |p| ==> p[k] != '/'
  {
    if p == [] then []
    else if p[|p| - 1] == '/' then p
    else
      var r := DirPart(p[..|p| - 1]);
      assert p[..|p| - 1][..|r|] == p[..|r|];
      r
  }

  /** A path without `.` or `..` components, which `remove_dot_segments` leaves alone. */
  predicate NoDotSegments(p: string) {
    forall s | s in SitePaths.Segments(p) :: s != "." && s != ".."
  }

  /**
   * A reference that is a path and nothing more, under section 4.2 of RFC 3986:
   * no query or fragment, no authority (`//`), and no `:` in a first relative
   * segment, where it would be read as a scheme.
   */
  predicate PathReference(ref: string) {
    Lacks(ref, '?') && Lacks(ref, '#') && !StartsWith(ref, "//") &&
    (StartsWith(ref, "/") || Lacks(SitePaths.Segments(ref)[0], ':'))
  }

  /**
   * Resolving a path reference against a request path, as section 5.2.2 of
   * RFC 3986 does: a reference starting with `/` replaces the path, any other
   * is merged with the base path's directory (section 5.2.3). Without `.` and
   * `..` components `remove_dot_segments` (section 5.2.4) changes nothing.
   */
  function ResolvePath(base: string, ref: string): (r: string)
    requires PathReference(ref) && NoDotSegments(ref) && NoDotSegments(base)
    ensures StartsWith(ref, "/") ==> r == ref
    ensures !StartsWith(ref, "/") ==> EndsWith(r, ref) && StartsWith(base, r[..|r| - |ref|])
    ensures !StartsWith(ref, "/") ==> var d := r[..|r| - |ref|];
      (d == [] || d[|d| - 1] == '/') && forall k :: |d| <= k < |base| ==> base[k] != '/'
  {
    if StartsWith(ref, "/") then ref
    else
      var d := DirPart(base);
      assert (d + ref)[..|d|] == d;
      assert (d + ref)[|d + ref| - |ref|..] == ref;
      d + ref
  }

  /** The components of the directory path `/<g>/`. */
  lemma DirectorySegments(g: string)
    ensures SitePaths.Segments("/" + g + "/") == [""] + SitePaths.Segments(g) + [""]
  {
    assert "/" + g + "/" == "" + "/" + (g + "/" + "");
    SitePaths.SegmentsAppend("", g + "/" + "");
    SitePaths.SegmentsAppend(g, "");
    SplitLacking("", '/');
  }

  /** The components of the as-written redirect target `<g>/index.html`. */
  lemma RedirectSegments(g: string)
    ensures SitePaths.Segments(RedirectLocationAsWritten(g)) == SitePaths.Segments(g) + ["index.html"]
  {
    assert RedirectLocationAsWritten(g) == g + "/" + "index.html";
    SitePaths.SegmentsAppend(g, "index.html");
    IndexSegments();
  }

  lemma IndexSegments()
    ensures SitePaths.Segments("index.html") == ["index.html"]
  {
    assert Lacks("index.html", '/');
    SplitLacking("index.html", '/');
  }

  /** `/<g>/` has dot components only where `g` has them. */
  lemma DirectoryNoDots(g: string)
    requires NoDotSegments(g)
    ensures NoDotSegments("/" + g + "/")
  {
    DirectorySegments(g);
  }

  /** The as-written target of a directory name of this kind is a plain path reference. */
  lemma RedirectReference(g: string)
    requires g != [] && g[0] != '/'
    requires Lacks(g, '?') && Lacks(g, '#') && Lacks(SitePaths.Segments(g)[0], ':') && NoDotSegments(g)
    ensures PathReference(RedirectLocationAsWritten(g)) && NoDotSegments(RedirectLocationAsWritten(g))
  {
    var loc := RedirectLocationAsWritten(g);
    RedirectSegments(g);
    assert SitePaths.Segments(loc)[0] == SitePaths.Segments(g)[0];
    assert !StartsWith(loc, "/") && !StartsWith(loc, "//") by {
      assert loc[0] == g[0];
    }
    assert Lacks(loc, '?') && Lacks(loc, '#') by {
      forall k | 0 <= k < |loc| ensures loc[k] != '?' && loc[k] != '#' {
        if k >= |g| {
          assert loc[k] == "/index.html"[k - |g|];
        }
      }
    }
  }

  /**
   * For every directory name that does not start with `/`, has no `.` or `..`
   * component, no `?` or `#`, and no `:` in its first component, the as-written
   * redirect repeats the directory.
   */
  lemma RedirectAsWrittenDoublesPath(g: string)
    requires g != [] && g[0] != '/'
    requires Lacks(g, '?') && Lacks(g, '#') && Lacks(SitePaths.Segments(g)[0], ':') && NoDotSegments(g)
    ensures PathReference(RedirectLocationAsWritten(g)) && NoDotSegments(RedirectLocationAsWritten(g))
    ensures NoDotSegments("/" + g + "/")
    ensures ResolvePath("/" + g + "/", RedirectLocationAsWritten(g)) == "/" + g + "/" + g + "/index.html"
    ensures ResolvePath("/" + g + "/", RedirectLocationAsWritten(g)) != "/" + g + "/index.html"
  {
    var base := "/" + g + "/";
    DirectoryNoDots(g);
    RedirectReference(g);
    assert DirPart(base) == base;
    var r := ResolvePath(base, RedirectLocationAsWritten(g));
    assert |r| == |base| + |g| + |"/index.html"|;
  }

  /** The corrected redirect lands on `index.html` inside any requested directory without dot components. */
  lemma RedirectResolvesToIndex(g: string)
    requires NoDotSegments(g)
    ensures PathReference(RedirectLocation(g)) && NoDotSegments(RedirectLocation(g)) && NoDotSegments("/" + g + "/")
    ensures ResolvePath("/" + g + "/", RedirectLocation(g)) == "/" + g + "/index.html"
  {
    DirectoryNoDots(g);
    IndexSegments();
    assert DirPart("/" + g + "/") == "/" + g + "/";
  }

  /** The response the live server sends for a request path. */
  function Respond(site: Site, path: string): Response
  {
    match Route(path)
    case None => NotFound
    case Some((handler, args)) =>
      match handler
      case BlogIndexPage =>
        (match BlogIndex.Entries(site)
         case Success(es) => Ok(IndexBody(es, PreTitle(Some("Articles - "))))
         case Failure(_) => ServerError)
      case MarkdownPage =>
        MarkdownResponse(site, MarkdownSourceName(if args == [] then None else Some(args[0])))
      case Redirect => MovedTo(RedirectLocationAsWritten(args[0]))
      case StaticFile => StaticResponse(site, args[0])
  }

  lemma RouteRoot()
    ensures Route("/") == Some((MarkdownPage, []))
  {
    RouteTable("/");
  }

  lemma RouteIndexHtml()
    ensures Route("/index.html") == Some((MarkdownPage, ["index.html"]))
  {
    RouteTable("/index.html");
    assert "/index.html"[1..] == "index.html";
    assert EndsWith("index.html", ".html");
    assert !ExactMatch("/blog/index.html", "/index.html") by {
      assert |"/index.html"| != |"/blog/index.html"|;
    }
  }

  /** `GET /` renders `index.md`, exactly as `GET /index.html` does. */
  lemma RootRendersIndex(site: Site)
    ensures Respond(site, "/") == MarkdownResponse(site, "index.md")
    ensures Respond(site, "/index.html") == Respond(site, "/")
  {
    RouteRoot();
    RouteIndexHtml();
    IndexHtmlSourceName();
  }

  lemma IndexHtmlSourceName()
    ensures MarkdownSourceName(Some("index.html")) == "index.md"
  {
    assert LStripChars("index.html", {'/'}) == "index.html";
    IndexSourceName();
  }

  /**
   * Any run of leading `/` is dropped before the `.html` to `.md` rewrite, so
   * `//a.html` and `a.html` name the same source.
   */
  lemma SourceNameStripsSlashes(slashes: string, g: string)
    requires forall k :: 0 <= k < |slashes| ==> slashes[k] == '/'
    requires g == [] || g[0] != '/'
    ensures MarkdownSourceName(Some(slashes + g)) == ReplaceAll(g, ".html", ".md")
  {
    LStripRun(slashes, g, {'/'});
  }

  /**
   * The `pre_title` of every page: `"<title> - "` for a Markdown page, always
   * `"Articles - "` for the blog index.
   */
  lemma PreTitles(site: Site, path: string)
    ensures var r := Respond(site, path);
      r.Ok? && r.body.MarkdownBody? ==> r.body.preTitle == r.body.title + " - "
    ensures var r := Respond(site, path);
      r.Ok? && r.body.IndexBody? ==> r.body.preTitle == "Articles - "
  {
  }

  /**
   * Any other path of at least one character after the `/` that does not end
   * in `/` or `.html` is served by `StaticFileHandler`: the bytes of the file
   * the normalised name reaches, a 403 for a directory or a name outside the
   * root, a 404 otherwise. A name whose components are all entries is served
   * exactly when it is a file, and refused exactly when it is a directory.
   */
  lemma StaticPathServed(site: Site, g: string)
    requires g != [] && g[|g| - 1] != '/' && !EndsWith(g, ".html")
    requires !ExactMatch("/blog/index.html", "/" + g)
    ensures Respond(site, "/" + g) == match SitePaths.StaticLookup(site.files, g)
      case Found(key) => Ok(FileBody(site.files[key]))
      case Forbidden => Forbidden
      case Missing => NotFound
    ensures SitePaths.Plain(g) && g in site.files ==> Respond(site, "/" + g) == Ok(FileBody(site.files[g]))
    ensures SitePaths.Plain(g) && g !in site.files ==>
      Respond(site, "/" + g) == if SitePaths.IsDir(site.files, SitePaths.Segments(g)) then Forbidden else NotFound
  {
    var path := "/" + g;
    RouteTable(path);
    assert path[1..] == g;
    assert path[|path| - 1] == g[|g| - 1];
  }

  /**
   * A request for a directory `/<g>/` is answered with a redirect to
   * `<g>/index.html`, the as-written location.
   */
  lemma DirectoryRedirect(site: Site, g: string)
    ensures Respond(site, "/" + g + "/") == MovedTo(RedirectLocationAsWritten(g))
  {
    var path := "/" + g + "/";
    RouteTable(path);
    assert path[1..|path| - 1] == g;
    assert path[|path| - 1] == '/';
  }

  /** A missing Markdown source is a 404, never a rendered page. */
  lemma MissingSourceIsNotFound(site: Site, g: string)
    requires EndsWith(g, ".html") && !ExactMatch("/blog/index.html", "/" + g)
    requires SitePaths.MarkdownFile(site.files, MarkdownSourceName(Some(g))).None?
    ensures Respond(site, "/" + g) == NotFound
  {
    RouteTable("/" + g);
    assert ("/" + g)[1..] == g;
  }

  /** The blog index is served exactly when every post yields an entry, and then lists them newest first. */
  lemma BlogIndexResponse(site: Site)
    ensures Respond(site, "/blog/index.html").Ok? <==> BlogIndex.Entries(site).Success?
    ensures Respond(site, "/blog/index.html").Ok? ==>
      Respond(site, "/blog/index.html").body == IndexBody(BlogIndex.Entries(site).value, "Articles - ") &&
      BlogIndex.NewestFirst(BlogIndex.Entries(site).value)
  {
    RouteTable("/blog/index.html");
    BlogIndex.EntriesSpec(site);
  }

  /** `MarkdownHandler.get` and `_render_markdown` with a fresh converter. */
  method MarkdownGet(site: Site, arg: Option<string>) returns (resp: Response)
    ensures resp == MarkdownResponse(site, MarkdownSourceName(arg))
  {
    var path := if arg.None? then "index.html" else arg.value;
    path := LStripChars(path, {'/'});
    var filename := ReplaceAll(path, ".html", ".md");
    assert filename == MarkdownSourceName(arg);
    var source := SitePaths.MarkdownFile(site.files, filename);
    if source.None? {
      return NotFound;
    }
    var md := new Renderer(site.convert);
    var html := md.Convert(site.files[source.value]);
    var title := if "title" in md.meta then Some(md.meta["title"]) else None;
    if title.None? || title.value == [] {
      return ServerError;
    }
    var preTitle := title.value[0] + " - ";
    return Ok(MarkdownBody(html, title.value[0], preTitle));
  }

  /** `BlogIndexHandler.get` with a fresh converter. */
  method BlogIndexGet(site: Site) returns (resp: Response)
    ensures resp == Respond(site, "/blog/index.html")
  {
    RouteTable("/blog/index.html");
    var md := new Renderer(site.convert);
    var entries := BlogIndex.GetEntries(site, md);
    if entries.Failure? {
      return ServerError;
    }
    return Ok(IndexBody(entries.value, "Articles - "));
  }

  /** One request to the live server: a new handler per request, dispatched by the route table. */
  method Handle(site: Site, path: string) returns (resp: Response)
    ensures resp == Respond(site, path)
  {
    var route := Route(path);
    if route.None? {
      return NotFound;
    }
    var (handler, args) := route.value;
    match handler {
      case BlogIndexPage =>
        RouteTable(path);
        var md := new Renderer(site.convert);
        var entries := BlogIndex.GetEntries(site, md);
        resp := if entries.Success? then Ok(IndexBody(entries.value, "Articles - ")) else ServerError;
      case MarkdownPage =>
        resp := MarkdownGet(site, if args == [] then None else Some(args[0]));
      case Redirect =>
        resp := MovedTo(RedirectLocationAsWritten(args[0]));
      case StaticFile =>
        resp := StaticResponse(site, args[0]);
    }
  }
}
