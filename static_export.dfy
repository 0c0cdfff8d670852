/**
 * `generate` of app.py: the static export. Every enumerated source path, plus
 * the synthetic `blog/index.html`, is fetched from a development server that
 * runs the same routes, and each response body is written under the output
 * directory, which is removed first.
 */
module StaticExport {
  import opened Wrappers
  import opened Text
  import opened SiteContent
  import opened SiteRouter
  import SitePaths

  const DefaultPort: int := 4444

  /** `port or DEFAULT_PORT`: a missing port and the falsy port `0` both fall back to the default. */
  function EffectivePort(port: Option<int>): (p: int)
    ensures port.None? ==> p == DefaultPort
    ensures port.Some? ==> (p == DefaultPort <==> port.value == 0 || port.value == DefaultPort)
    ensures p != 0
  {
    if port.None? || port.value == 0 then DefaultPort else port.value
  }

  /**
   * What `generate` fetches as written: everything the recursive glob of `*.*` yields,
   * directories with a dot in their name included, then the blog index.
   */
  function ExportListAsWritten(site: Site): (paths: seq<string>)
    ensures |paths| == |site.treeScan| + 1 && paths[|paths| - 1] == "blog/index.html"
    ensures paths[..|site.treeScan|] == site.treeScan
  {
    site.treeScan + ["blog/index.html"]
  }

  /** The enumerated paths that are regular files, in enumeration order. */
  function FilesOnly(paths: seq<string>, files: map<string, string>): (r: seq<string>)
    ensures forall k :: 0 <= k < |r| ==> r[k] in files && r[k] in paths
    ensures forall p :: p in paths && p in files ==> p in r
  {
    if paths == [] then []
    else
      var rest := FilesOnly(paths[1..], files);
      assert forall p :: p in paths ==> p == paths[0] || p in paths[1..];
      if paths[0] in files then [paths[0]] + rest else rest
  }

  /** What the export needs to fetch: every enumerated regular file, then the blog index. */
  function ExportList(site: Site): (paths: seq<string>)
    ensures |paths| >= 1 && paths[|paths| - 1] == "blog/index.html"
    ensures forall k :: 0 <= k < |paths| - 1 ==> paths[k] in site.files && paths[k] in site.treeScan
    ensures forall p :: p in site.treeScan && p in site.files ==> p in paths
  {
    FilesOnly(site.treeScan, site.files) + ["blog/index.html"]
  }

  /**
   * The request and output name as written: for a path ending in `.md`, that
   * suffix becomes `.html` and so does every `.md` before it, in directory
   * names included.
   */
  function RequestNameAsWritten(rel: string): (name: string)
    ensures !EndsWith(rel, ".md") ==> name == rel
    ensures EndsWith(rel, ".md") ==> name == ReplaceAll(rel[..|rel| - 3], ".md", ".html") + ".html"
  {
    if EndsWith(rel, ".md") then
      assert rel == rel[..|rel| - 3] + ".md";
      ReplaceAllBeforeSuffix(rel[..|rel| - 3], ".md", ".html");
      ReplaceAll(rel, ".md", ".html")
    else rel
  }

  /** The request and output name the export needs: only the final `.md` becomes `.html`. */
  function RequestName(rel: string): (name: string)
    ensures !EndsWith(rel, ".md") ==> name == rel
    ensures EndsWith(rel, ".md") ==> EndsWith(name, ".html") && name[..|name| - 5] == rel[..|rel| - 3]
  {
    if EndsWith(rel, ".md") then
      var name := rel[..|rel| - 3] + ".html";
      assert name[|name| - 5..] == ".html";
      name
    else rel
  }

  /** `Path(rel).parent` relative to the output directory; `""` is the output directory itself. */
  function Parent(p: string): (d: string)
    ensures StartsWith(p, d)
    ensures d == [] <==> forall k :: 0 <= k < |p| ==> p[k] != '/' || k == 0
    ensures d != [] ==> |d| < |p| && p[|d|] == '/' && forall k :: |d| < k < |p| ==> p[k] != '/'
  {
    var dp := DirPart(p);
    if |dp| <= 1 then
      assert dp == [] || (dp[0] == '/' && p[0] == '/');
      []
    else
      assert p[..|dp|][..|dp| - 1] == p[..|dp| - 1];
      dp[..|dp| - 1]
  }

  /** The directories `mkdir(parents=True)` needs for `d`: `d` and each of its leading components. */
  function Ancestors(d: string): (r: set<string>)
    ensures "" in r && d in r
    ensures forall a :: a in r ==> StartsWith(d, a)
  {
    {"", d} + set k | 0 < k < |d| && d[k] == '/' :: d[..k]
  }

  /** The output tree: directories created (`""` is the output directory) and files written. */
  datatype Tree = Tree(dirs: set<string>, files: map<string, Body>)

  /** The exceptions that end an export run. */
  datatype ExportError =
    | MkdirBlocked(dir: string)              // a file stands where a directory is needed
    | FetchFailed(name: string, response: Response)  // the client raises on a non-200 response
    | MissingDirectory(name: string)         // `open` in a directory that was never created
    | IsADirectory(name: string)             // `open` of a path that is a directory

  /** `outdir.mkdir(parents=True, exist_ok=True)`. */
  function MakeDirsIn(t: Tree, d: string): (r: Result<Tree, ExportError>)
    ensures r.Success? <==> Ancestors(d) * t.files.Keys == {}
    ensures r.Success? ==> r.value == Tree(t.dirs + Ancestors(d), t.files)
  {
    if Ancestors(d) * t.files.Keys != {} then Failure(MkdirBlocked(d))
    else Success(Tree(t.dirs + Ancestors(d), t.files))
  }

  /**
   * One iteration of the loop for source path `rel` fetched and written under
   * `name`, with `fetch` answering the client's requests: the tree afterwards,
   * and the exception that ends the run, if any. The directories are created
   * before the fetch, so they stay behind even when the fetch fails.
   */
  function StepAs(fetch: string -> Response, t: Tree, rel: string, name: string): (r: (Tree, Option<ExportError>))
    ensures r.1.None? ==> fetch("/" + name).Ok? && r.0.files == t.files[name := fetch("/" + name).body]
    ensures r.1.Some? ==> r.0.files == t.files
    ensures !fetch("/" + name).Ok? ==> r.1.Some?
    ensures t.dirs <= r.0.dirs
  {
    match MakeDirsIn(t, Parent(rel))
    case Failure(e) => (t, Some(e))
    case Success(t1) =>
      var resp := fetch("/" + name);
      if !resp.Ok? then (t1, Some(FetchFailed(name, resp)))
      else if Parent(name) !in t1.dirs then (t1, Some(MissingDirectory(name)))
      else if name in t1.dirs then (t1, Some(IsADirectory(name)))
      else (t1.(files := t1.files[name := resp.body]), None)
  }

  /** One iteration, with `name` mapping the source path to its request and output name. */
  function Step(fetch: string -> Response, t: Tree, rel: string, name: string -> string): (Tree, Option<ExportError>)
  {
    StepAs(fetch, t, rel, name(rel))
  }

  /** The output tree and the error (if any) after the loop has run over `paths`. */
  datatype Outcome = Outcome(tree: Tree, error: Option<ExportError>)

  function Run(fetch: string -> Response, t: Tree, paths: seq<string>, name: string -> string): Outcome
    decreases |paths|
  {
    if paths == [] then Outcome(t, None)
    else
      var (t1, err) := Step(fetch, t, paths[0], name);
      if err.Some? then Outcome(t1, err) else Run(fetch, t1, paths[1..], name)
  }

  /** The client's requests go to the live server. */
  function Client(site: Site): string -> Response {
    path => Respond(site, path)
  }

  /**
   * A whole export as the script runs it: `rmtree` leaves nothing behind,
   * so the run starts from an empty tree.
   */
  function ExportAsWritten(site: Site): Outcome
  {
    Run(Client(site), Tree({}, map[]), ExportListAsWritten(site), RequestNameAsWritten)
  }

  /** A whole export over the regular files only, each named by its final `.md` alone. */
  function Export(site: Site): Outcome
  {
    Run(Client(site), Tree({}, map[]), ExportList(site), RequestName)
  }

  /** Every file in the tree holds exactly what `fetch` answers for its name. */
  predicate Served(fetch: string -> Response, t: Tree) {
    forall n :: n in t.files ==> fetch("/" + n) == Ok(t.files[n])
  }

  lemma StepServed(fetch: string -> Response, t: Tree, rel: string, name: string -> string)
    requires Served(fetch, t)
    ensures Served(fetch, Step(fetch, t, rel, name).0)
  {
    var (t1, err) := StepAs(fetch, t, rel, name(rel));
    forall n | n in t1.files
      ensures fetch("/" + n) == Ok(t1.files[n])
    {
      if n != name(rel) || err.Some? {
        assert t1.files[n] == t.files[n];
      }
    }
  }

  lemma {:induction false} RunServed(fetch: string -> Response, t: Tree, paths: seq<string>, name: string -> string)
    requires Served(fetch, t)
    ensures Served(fetch, Run(fetch, t, paths, name).tree)
    decreases |paths|
  {
    if paths != [] {
      var (t1, err) := Step(fetch, t, paths[0], name);
      StepServed(fetch, t, paths[0], name);
      if err.None? {
        RunServed(fetch, t1, paths[1..], name);
      }
    }
  }

  /**
   * The export is byte-identical to the live server: every file written, also
   * by a run that ends in an error, is the body the server sends for its name.
   * This holds of the script as written and of the corrected export alike.
   */
  lemma ExportMatchesServer(site: Site)
    ensures forall n :: n in Export(site).tree.files ==> Respond(site, "/" + n) == Ok(Export(site).tree.files[n])
    ensures forall n :: n in ExportAsWritten(site).tree.files ==>
      Respond(site, "/" + n) == Ok(ExportAsWritten(site).tree.files[n])
  {
    var client := Client(site);
    RunServed(client, Tree({}, map[]), ExportList(site), RequestName);
    RunServed(client, Tree({}, map[]), ExportListAsWritten(site), RequestNameAsWritten);
    forall n ensures client("/" + n) == Respond(site, "/" + n) {
    }
  }

  /** The names a run over `paths` writes. */
  function Names(paths: seq<string>, name: string -> string): (names: set<string>)
    ensures forall rel :: rel in paths ==> name(rel) in names
  {
    if paths == [] then {} else {name(paths[0])} + Names(paths[1..], name)
  }

  lemma StepKeys(fetch: string -> Response, t: Tree, rel: string, name: string -> string)
    ensures Step(fetch, t, rel, name).1.None? ==> Step(fetch, t, rel, name).0.files.Keys == t.files.Keys + {name(rel)}
  {
  }

  lemma {:induction false} RunCovers(fetch: string -> Response, t: Tree, paths: seq<string>, name: string -> string)
    ensures Run(fetch, t, paths, name).error.None? ==>
      Run(fetch, t, paths, name).tree.files.Keys == t.files.Keys + Names(paths, name)
    decreases |paths|
  {
    if paths != [] {
      var (t1, err) := Step(fetch, t, paths[0], name);
      StepKeys(fetch, t, paths[0], name);
      if err.None? {
        RunCovers(fetch, t1, paths[1..], name);
      }
    }
  }

  /** A fetch that is not answered with status 200 ends the run, at that path or earlier. */
  lemma {:induction false} RunFailsOnBadFetch(fetch: string -> Response, t: Tree, paths: seq<string>, name: string -> string, k: nat)
    requires k < |paths| && !fetch("/" + name(paths[k])).Ok?
    ensures Run(fetch, t, paths, name).error.Some?
    decreases k
  {
    var (t1, err) := Step(fetch, t, paths[0], name);
    if err.None? && k > 0 {
      assert paths[1..][k - 1] == paths[k];
      RunFailsOnBadFetch(fetch, t1, paths[1..], name, k - 1);
    }
  }

  /**
   * A successful export writes exactly one file per fetched name, and it
   * succeeds only if every fetched name is served with status 200.
   */
  lemma ExportSpec(site: Site)
    ensures Export(site).error.None? ==> Export(site).tree.files.Keys == Names(ExportList(site), RequestName)
    ensures Export(site).error.None? ==>
      forall rel :: rel in ExportList(site) ==> Respond(site, "/" + RequestName(rel)).Ok?
    ensures "blog/index.html" in Names(ExportList(site), RequestName)
  {
    RunCovers(Client(site), Tree({}, map[]), ExportList(site), RequestName);
    ExportNeedsEveryPage(site);
    var paths := ExportList(site);
    assert RequestName("blog/index.html") == "blog/index.html";
    assert paths[|paths| - 1] in paths;
  }

  lemma ExportNeedsEveryPage(site: Site)
    ensures Export(site).error.None? ==>
      forall rel :: rel in ExportList(site) ==> Respond(site, "/" + RequestName(rel)).Ok?
  {
    var client := Client(site);
    var paths := ExportList(site);
    forall rel | rel in paths
      ensures Export(site).error.None? ==> Respond(site, "/" + RequestName(rel)).Ok?
    {
      if !Respond(site, "/" + RequestName(rel)).Ok? {
        var k :| 0 <= k < |paths| && paths[k] == rel;
        assert client("/" + RequestName(rel)) == Respond(site, "/" + RequestName(rel));
        RunFailsOnBadFetch(client, Tree({}, map[]), paths, RequestName, k);
      }
    }
  }

  /**
   * As written, a directory whose name has a dot, such as `v1.2`, is
   * fetched like a page; no file answers for it, so the whole export fails.
   */
  lemma AsWrittenDottedDirectoryFails(site: Site, k: nat)
    requires k < |site.treeScan|
    requires var d := site.treeScan[k];
      d != [] && SitePaths.Plain(d) && d !in site.files && !EndsWith(d, ".md") && !EndsWith(d, ".html") &&
      !ExactMatch("/blog/index.html", "/" + d)
    ensures ExportAsWritten(site).error.Some?
  {
    var d := site.treeScan[k];
    var paths := ExportListAsWritten(site);
    assert paths[k] == d;
    RouteTable("/" + d);
    assert ("/" + d)[1..] == d;
    assert Client(site)("/" + d) == Respond(site, "/" + d);
    RunFailsOnBadFetch(Client(site), Tree({}, map[]), paths, RequestNameAsWritten, k);
  }

  /** No occurrence of `.html` starts before the suffix of `p + ".html"`, when `p + ".md"` has none. */
  lemma NoHtmlBeforeSuffix(p: string)
    requires !Contains(p + ".md", ".html")
    ensures forall i :: 0 <= i < |p| ==> !OccursAt(p + ".html", ".html", i)
  {
    forall i | 0 <= i < |p|
      ensures !OccursAt(p + ".html", ".html", i)
    {
      if i + 5 <= |p| {
        assert (p + ".md")[i..i + 5] == (p + ".html")[i..i + 5];
        assert !OccursAt(p + ".md", ".html", i);
      } else {
        var j := |p| - i;
        assert (p + ".html")[|p|] == '.';
        assert ".html"[j] != '.';
        assert (p + ".html")[i..i + 5][j] != ".html"[j];
      }
    }
  }

  /**
   * A Markdown source without `.html` in its path is fetched under its own
   * export name and rendered from itself: the routes map the name back to the
   * source file.
   */
  lemma MarkdownNameRoundTrip(rel: string)
    requires EndsWith(rel, ".md") && !Contains(rel, ".html") && rel[0] != '/'
    ensures MarkdownSourceName(Some(RequestName(rel))) == rel
    ensures !ExactMatch("/blog/index.html", "/" + RequestName(rel)) ==>
      Route("/" + RequestName(rel)) == Some((MarkdownPage, [RequestName(rel)]))
  {
    var p := rel[..|rel| - 3];
    assert rel == p + ".md" by { assert rel[|rel| - 3..] == ".md"; }
    assert RequestName(rel) == p + ".html";
    assert p == [] || p[0] != '/' by {
      if p != [] {
        assert p[0] == rel[0];
      }
    }
    SourceOfHtmlName(p);
    RouteOfHtmlName(p + ".html");
  }

  /** The routes render `p.html` from `p.md` when `p.md` holds no `.html`. */
  lemma SourceOfHtmlName(p: string)
    requires !Contains(p + ".md", ".html") && (p == [] || p[0] != '/')
    ensures MarkdownSourceName(Some(p + ".html")) == p + ".md"
  {
    var name := p + ".html";
    assert name[0] != '/' by {
      if p == [] {
        assert name[0] == '.';
      } else {
        assert name[0] == p[0];
      }
    }
    assert LStripChars(name, {'/'}) == name;
    NoHtmlBeforeSuffix(p);
    ReplaceAllKeepsPrefix(p, ".html", ".html", ".md");
    assert ".html" == ".html" + [];
    ReplaceAllPrefix(".html", ".md", []);
    assert ReplaceAll(".html", ".html", ".md") == ".md";
  }

  /** A rooted path ending in `.html`, other than the blog index, is a Markdown page. */
  lemma RouteOfHtmlName(name: string)
    requires EndsWith(name, ".html")
    ensures !ExactMatch("/blog/index.html", "/" + name) ==>
      Route("/" + name) == Some((MarkdownPage, [name]))
  {
    RouteTable("/" + name);
    assert ("/" + name)[1..] == name;
  }

  /** Text without a `.` followed by `.md`: only that one `.md` is replaced. */
  lemma ReplaceOneMd(t: string)
    requires forall k :: 0 <= k < |t| ==> t[k] != '.'
    ensures ReplaceAll(t + ".md", ".md", ".html") == t + ".html"
  {
    forall i | 0 <= i < |t|
      ensures !OccursAt(t + ".md", ".md", i)
    {
      assert (t + ".md")[i] == t[i];
    }
    ReplaceAllKeepsPrefix(t, ".md", ".md", ".html");
    ReplaceAllWhole(".md", ".html");
  }

  lemma AsWrittenName(x: string, a: string)
    requires forall k :: 0 <= k < |x| ==> x[k] != '.'
    requires forall k :: 0 <= k < |a| ==> a[k] != '.'
    ensures RequestNameAsWritten(x + ".md/" + a + ".md") == x + ".html/" + a + ".html"
  {
    var tail := "/" + a;
    assert forall k :: 0 <= k < |tail| ==> tail[k] != '.';
    var rel := x + ".md/" + a + ".md";
    var md := ".md" + (tail + ".md");
    assert ".md" + "/" == ".md/" && ".html" + "/" == ".html/";
    NestSuffixes(x, ".md", a, ".md");
    NestSuffixes(x, ".html", a, ".html");
    assert rel == x + md;
    assert EndsWith(rel, ".md") by { assert rel[|rel| - 3..] == ".md"; }
    NoDotPrefix(x, md);
    ReplaceAllPrefix(".md", ".html", tail + ".md");
    ReplaceOneMd(tail);
    assert ReplaceAll(md, ".md", ".html") == ".html" + (tail + ".html");
  }

  lemma NestSuffixes(x: string, p: string, a: string, q: string)
    ensures x + (p + "/") + a + q == x + (p + (("/" + a) + q))
  {
  }

  /** Text without a dot passes through the `.md` replacement unchanged. */
  lemma NoDotPrefix(x: string, rest: string)
    requires forall k :: 0 <= k < |x| ==> x[k] != '.'
    ensures ReplaceAll(x + rest, ".md", ".html") == x + ReplaceAll(rest, ".md", ".html")
  {
    forall i | 0 <= i < |x|
      ensures !OccursAt(x + rest, ".md", i)
    {
      assert (x + rest)[i] == x[i];
    }
    ReplaceAllKeepsPrefix(x, rest, ".md", ".html");
  }

  /**
   * The as-written name of a post `<x>.md/<a>.md` lies in `<x>.html`, while the
   * iteration creates `<x>.md`.
   */
  lemma AsWrittenNameLeavesDirectory(x: string, a: string)
    requires x != [] && forall k :: 0 <= k < |x| ==> x[k] != '.' && x[k] != '/'
    requires forall k :: 0 <= k < |a| ==> a[k] != '.' && a[k] != '/'
    ensures var rel := x + ".md/" + a + ".md";
      Parent(rel) == x + ".md" && Parent(RequestNameAsWritten(rel)) == x + ".html"
  {
    AsWrittenName(x, a);
    var p, q := x + ".md/" + a + ".md", x + ".html/" + a + ".html";
    DirPartOf(p, x + ".md/");
    DirPartOf(q, x + ".html/");
    assert (x + ".md/")[..|x| + 3] == x + ".md";
    assert (x + ".html/")[..|x| + 5] == x + ".html";
  }

  /** The export name of a source `blog/index.md` is the blog index, so that page is fetched in its place. */
  lemma BlogIndexSourceName()
    ensures RequestName("blog/index.md") == "blog/index.html"
  {
    var rel := "blog/index.md";
    assert rel[|rel| - 3..] == ".md";
    assert rel[..|rel| - 3] + ".html" == "blog/index.html";
  }

  /**
   * With the as-written name, exporting a post `<x>.md/<a>.md` whose page is
   * served fails: `<x>.md` is created, the page is fetched, and the write into
   * `<x>.html` raises.
   */
  lemma AsWrittenExportFails(site: Site, x: string, a: string)
    requires x != [] && forall k :: 0 <= k < |x| ==> x[k] != '.' && x[k] != '/'
    requires forall k :: 0 <= k < |a| ==> a[k] != '.' && a[k] != '/'
    requires Respond(site, "/" + (x + ".html/" + a + ".html")).Ok?
    ensures var rel := x + ".md/" + a + ".md";
      StepAs(Client(site), Tree({}, map[]), rel, RequestNameAsWritten(rel)).1 == Some(MissingDirectory(x + ".html/" + a + ".html"))
  {
    AsWrittenName(x, a);
    AsWrittenNameLeavesDirectory(x, a);
    var d := x + ".md";
    assert x + ".html" !in Ancestors(d) by {
      assert !StartsWith(d, x + ".html");
    }
  }

  /** With the corrected name, the write goes into the directory the iteration has just created. */
  lemma ExportNameStaysInDirectory(rel: string)
    requires EndsWith(rel, ".md")
    ensures Parent(RequestName(rel)) == Parent(rel)
  {
    var d := DirPart(rel);
    var name := RequestName(rel);
    assert StartsWith(rel, d);
    forall k | |rel| - 3 <= k < |rel|
      ensures rel[k] != '/'
    {
      assert rel[k] == rel[|rel| - 3..][k - (|rel| - 3)];
    }
    if d != [] {
      assert rel[|d| - 1] == '/';
    }
    assert name == rel[..|rel| - 3] + ".html";
    assert name[..|d|] == d;
    forall k | |d| <= k < |name|
      ensures name[k] != '/'
    {
      if k < |rel| - 3 {
        assert name[k] == rel[k];
      } else {
        assert name[k] == ".html"[k - (|rel| - 3)];
      }
    }
    DirPartOf(name, d);
  }

  /** A scan of regular files only is kept whole. */
  lemma {:induction false} FilesOnlyAll(paths: seq<string>, files: map<string, string>)
    requires forall k :: 0 <= k < |paths| ==> paths[k] in files
    ensures FilesOnly(paths, files) == paths
  {
    if paths != [] {
      FilesOnlyAll(paths[1..], files);
      assert [paths[0]] + paths[1..] == paths;
    }
  }

  /** Two naming rules that agree on every path give the same run. */
  lemma {:induction false} RunSameNames(fetch: string -> Response, t: Tree, paths: seq<string>,
                                        f: string -> string, g: string -> string)
    requires forall k :: 0 <= k < |paths| ==> f(paths[k]) == g(paths[k])
    ensures Run(fetch, t, paths, f) == Run(fetch, t, paths, g)
    decreases |paths|
  {
    if paths != [] {
      var (t1, err) := Step(fetch, t, paths[0], f);
      assert Step(fetch, t, paths[0], g) == (t1, err);
      if err.None? {
        RunSameNames(fetch, t1, paths[1..], f, g);
      }
    }
  }

  /** Without a `.md` before the suffix, both naming rules give the same name. */
  lemma SameRequestName(rel: string)
    requires EndsWith(rel, ".md") ==> !Contains(rel[..|rel| - 3], ".md")
    ensures RequestNameAsWritten(rel) == RequestName(rel)
  {
    if EndsWith(rel, ".md") {
      ReplaceAllAbsent(rel[..|rel| - 3], ".md", ".html");
    }
  }

  /**
   * On a site whose scan yields regular files only, none with a `.md` before
   * its suffix, the script as written exports exactly what the corrected
   * export does.
   */
  lemma AsWrittenAgreesOnPlainSites(site: Site)
    requires forall k :: 0 <= k < |site.treeScan| ==> site.treeScan[k] in site.files
    requires forall k :: 0 <= k < |site.treeScan| ==> var p := site.treeScan[k];
      EndsWith(p, ".md") ==> !Contains(p[..|p| - 3], ".md")
    ensures ExportAsWritten(site) == Export(site)
  {
    FilesOnlyAll(site.treeScan, site.files);
    var paths := ExportListAsWritten(site);
    assert ExportList(site) == paths;
    forall k | 0 <= k < |paths|
      ensures RequestNameAsWritten(paths[k]) == RequestName(paths[k])
    {
      ListedNameAgrees(site, k);
    }
    RunSameNames(Client(site), Tree({}, map[]), paths, RequestNameAsWritten, RequestName);
  }

  /** Each listed name of such a site has the same request name as written and corrected. */
  lemma ListedNameAgrees(site: Site, k: nat)
    requires forall k :: 0 <= k < |site.treeScan| ==> var p := site.treeScan[k];
      EndsWith(p, ".md") ==> !Contains(p[..|p| - 3], ".md")
    requires k < |ExportListAsWritten(site)|
    ensures var p := ExportListAsWritten(site)[k]; RequestNameAsWritten(p) == RequestName(p)
  {
    var paths := ExportListAsWritten(site);
    if k < |site.treeScan| {
      assert paths[k] == site.treeScan[k];
      SameRequestName(paths[k]);
    } else {
      assert paths[k] == "blog/index.html";
      assert "blog/index.html"[|"blog/index.html"| - 3..] != ".md";
    }
  }

  /** The directory part of a path is fixed by its last `/`. */
  lemma DirPartOf(p: string, d: string)
    requires StartsWith(p, d) && (d == [] || d[|d| - 1] == '/')
    requires forall k :: |d| <= k < |p| ==> p[k] != '/'
    ensures DirPart(p) == d
  {
    var dp := DirPart(p);
    if d != [] {
      assert p[|d| - 1] == '/';
    }
    if dp != [] {
      assert p[|dp| - 1] == '/';
    }
  }

  /** The development server task; `generate` cancels it however the export ends. */
  class ServeTask {
    const port: int
    var running: bool

    constructor (port: int)
      ensures this.port == port && running
    {
      this.port := port;
      running := true;
    }

    method Cancel()
      modifies this
      ensures !running
    {
      running := false;
    }
  }

  /** The output directory on disk. */
  class OutputDir {
    var dirs: set<string>
    var files: map<string, Body>

    function Contents(): Tree
      reads this
    {
      Tree(dirs, files)
    }

    /** `shutil.rmtree(dest, ignore_errors=True)`. */
    method Remove()
      modifies this
      ensures Contents() == Tree({}, map[])
    {
      dirs := {};
      files := map[];
    }

    method MakeDirs(d: string) returns (err: Option<ExportError>)
      modifies this
      ensures var r := MakeDirsIn(old(Contents()), d);
        (r.Success? ==> err.None? && Contents() == r.value) &&
        (r.Failure? ==> err == Some(r.error) && Contents() == old(Contents()))
    {
      if Ancestors(d) * files.Keys != {} {
        return Some(MkdirBlocked(d));
      }
      dirs := dirs + Ancestors(d);
      return None;
    }

    /** `dest.joinpath(name).open("wb")` and `write(body)`. */
    method Write(name: string, body: Body) returns (err: Option<ExportError>)
      modifies this
      ensures Parent(name) !in old(dirs) ==> err == Some(MissingDirectory(name)) && Contents() == old(Contents())
      ensures Parent(name) in old(dirs) && name in old(dirs) ==> err == Some(IsADirectory(name)) && Contents() == old(Contents())
      ensures Parent(name) in old(dirs) && name !in old(dirs) ==> err.None? && Contents() == Tree(old(dirs), old(files)[name := body])
    {
      if Parent(name) !in dirs {
        return Some(MissingDirectory(name));
      }
      if name in dirs {
        return Some(IsADirectory(name));
      }
      files := files[name := body];
      return None;
    }
  }

  /** The first pass of a run decides whether it stops there or goes on with the rest. */
  lemma RunCons(fetch: string -> Response, t: Tree, paths: seq<string>, name: string -> string)
    requires paths != []
    ensures var (t1, e) := StepAs(fetch, t, paths[0], name(paths[0]));
      Run(fetch, t, paths, name) == if e.Some? then Outcome(t1, e) else Run(fetch, t1, paths[1..], name)
  {
  }

  /** One pass of the loop in `generate`: create the directories, fetch the page and write it. */
  method ExportOne(site: Site, dest: OutputDir, rel: string) returns (err: Option<ExportError>)
    modifies dest
    ensures (dest.Contents(), err) == StepAs(Client(site), old(dest.Contents()), rel, RequestNameAsWritten(rel))
  {
    err := dest.MakeDirs(Parent(rel));
    if err.Some? {
      return;
    }
    var name := RequestNameAsWritten(rel);
    var response := Handle(site, "/" + name);
    assert Client(site)("/" + name) == response;
    if !response.Ok? {
      return Some(FetchFailed(name, response));
    }
    err := dest.Write(name, response.body);
  }

  /** The loop in `generate` over `paths`, stopping at the first exception. */
  method ExportAll(site: Site, dest: OutputDir, paths: seq<string>) returns (err: Option<ExportError>)
    modifies dest
    ensures Outcome(dest.Contents(), err) == Run(Client(site), old(dest.Contents()), paths, RequestNameAsWritten)
  {
    var i := 0;
    err := None;
    while i < |paths|
      invariant 0 <= i <= |paths| && err.None?
      invariant Run(Client(site), dest.Contents(), paths[i..], RequestNameAsWritten) ==
        Run(Client(site), old(dest.Contents()), paths, RequestNameAsWritten)
    {
      assert paths[i..][0] == paths[i] && paths[i..][1..] == paths[i + 1..];
      ghost var before := dest.Contents();
      err := ExportOne(site, dest, paths[i]);
      RunCons(Client(site), before, paths[i..], RequestNameAsWritten);
      if err.Some? {
        return;
      }
      i := i + 1;
    }
    assert paths[i..] == [];
  }

  /**
   * `generate`: starts the server, empties the output directory, fetches and
   * writes every name in turn, and cancels the server on every way out. It
   * runs the scan and the names as written, so its outcome is
   * `ExportAsWritten`; `Export` is the corrected export.
   */
  method Generate(site: Site, port: Option<int>, dest: OutputDir) returns (err: Option<ExportError>, server: ServeTask)
    modifies dest
    ensures Outcome(dest.Contents(), err) == ExportAsWritten(site)
    ensures fresh(server) && server.port == EffectivePort(port) && !server.running
  {
    server := new ServeTask(EffectivePort(port));
    dest.Remove();
    err := ExportAll(site, dest, ExportListAsWritten(site));
    server.Cancel();
  }
}
