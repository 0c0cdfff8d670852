/**
 * `BlogIndexHandler._get_entries` of app.py: one entry per Markdown post found
 * directly inside `blog/`, built from the post's `date` and `title` metadata,
 * then ordered newest first by a stable sort.
 */
module BlogIndex {
  import opened Wrappers
  import opened Text
  import opened SiteContent
  import opened Dates

  /** The link text of an entry: `path.with_suffix('.html').name`. */
  datatype BlogEntry = BlogEntry(date: Date, title: string, link: string)

  /** The exceptions `_get_entries` can raise; each one fails the whole index request. */
  datatype EntryError =
    | MissingKey(key: string)      // KeyError from metadata[key]
    | NoValue(key: string)         // IndexError from metadata[key][0]
    | InvalidDate(text: string)    // ValueError from date.fromisoformat
    | Unreadable(path: string)     // the scanned file could not be read

  function FirstValue(meta: Meta, key: string): (r: Result<string, EntryError>)
    ensures r.Success? <==> key in meta && |meta[key]| > 0
    ensures r.Success? ==> r.value == meta[key][0]
    ensures key !in meta ==> r == Failure(MissingKey(key))
  {
    if key !in meta then Failure(MissingKey(key))
    else if |meta[key]| == 0 then Failure(NoValue(key))
    else Success(meta[key][0])
  }

  /** Index of the last `.` of `s`, if any. */
  function LastDot(s: string): (r: Option<nat>)
    ensures r.Some? ==> r.value < |s| && s[r.value] == '.' && forall k :: r.value < k < |s| ==> s[k] != '.'
    ensures r.None? ==> forall k :: 0 <= k < |s| ==> s[k] != '.'
  {
    if s == [] then None
    else if s[|s| - 1] == '.' then Some(|s| - 1)
    else LastDot(s[..|s| - 1])
  }

  /** The last dot of a name ending in `.md` is the one of that suffix. */
  lemma LastDotOfMd(name: string)
    requires EndsWith(name, ".md")
    ensures LastDot(name) == Some(|name| - 3)
  {
    assert name[|name| - 3..] == ".md";
    assert name[|name| - 3] == '.' && name[|name| - 2] == 'm' && name[|name| - 1] == 'd';
  }

  /** `PurePath(name).with_suffix('.html')` for a file name: the suffix is the text from the last `.`, unless that `.` is first or last. */
  function WithHtmlSuffix(name: string): (r: string)
    ensures EndsWith(r, ".html")
    ensures EndsWith(name, ".md") && |name| > 3 ==> r == name[..|name| - 3] + ".html"
  {
    assert EndsWith(name, ".md") ==> LastDot(name) == Some(|name| - 3) by {
      if EndsWith(name, ".md") {
        LastDotOfMd(name);
      }
    }
    match LastDot(name)
    case Some(i) =>
      if 0 < i < |name| - 1 then name[..i] + ".html" else name + ".html"
    case None => name + ".html"
  }

  /** One tuple of `_get_entries`: the date first, then the title, as Python evaluates them. */
  function EntryFor(path: string, meta: Meta): (r: Result<BlogEntry, EntryError>)
    ensures r.Success? ==> "date" in meta && |meta["date"]| > 0 && ParseIsoDate(meta["date"][0]) == Some(r.value.date)
    ensures r.Success? ==> "title" in meta && |meta["title"]| > 0 && r.value.title == meta["title"][0]
    ensures r.Success? ==> r.value.link == WithHtmlSuffix(FileName(path))
    ensures r.Success? <==>
      "date" in meta && |meta["date"]| > 0 && ParseIsoDate(meta["date"][0]).Some? &&
      "title" in meta && |meta["title"]| > 0
    ensures "date" !in meta ==> r == Failure(MissingKey("date"))
    ensures "date" in meta && |meta["date"]| == 0 ==> r == Failure(NoValue("date"))
    ensures "date" in meta && |meta["date"]| > 0 && ParseIsoDate(meta["date"][0]).None? ==>
      r == Failure(InvalidDate(meta["date"][0]))
    ensures "date" in meta && "title" !in meta ==> r.Failure?
    ensures "date" in meta && |meta["date"]| > 0 && ParseIsoDate(meta["date"][0]).Some? ==>
      ("title" !in meta ==> r == Failure(MissingKey("title"))) &&
      ("title" in meta && |meta["title"]| == 0 ==> r == Failure(NoValue("title")))
  {
    var text :- FirstValue(meta, "date");
    match ParseIsoDate(text)
    case None => Failure(InvalidDate(text))
    case Some(date) =>
      var title :- FirstValue(meta, "title");
      Success(BlogEntry(date, title, WithHtmlSuffix(FileName(path))))
  }

  /** Reading and converting one scanned post. */
  function EntryAt(site: Site, path: string): Result<BlogEntry, EntryError>
  {
    if path !in site.files then Failure(Unreadable(path))
    else EntryFor(path, site.convert(site.files[path]).meta)
  }

  /** The list a loop over `paths` builds with `f`, in order, stopping at the first failure. */
  function Scan<T, E>(f: string -> Result<T, E>, paths: seq<string>): Result<seq<T>, E>
  {
    if paths == [] then Success([])
    else
      var before :- Scan(f, paths[..|paths| - 1]);
      var e :- f(paths[|paths| - 1]);
      Success(before + [e])
  }

  /** One more step of the loop. */
  lemma ScanSnoc<T, E>(f: string -> Result<T, E>, paths: seq<string>, i: nat)
    requires i < |paths|
    ensures var before, last := Scan(f, paths[..i]), f(paths[i]);
      Scan(f, paths[..i + 1]) ==
        if before.Failure? then Failure(before.error)
        else if last.Failure? then Failure(last.error)
        else Success(before.value + [last.value])
  {
    assert paths[..i + 1][..i] == paths[..i];
    assert paths[..i + 1][i] == paths[i];
  }

  /** The loop succeeds exactly when `f` succeeds on every path, and then yields `f`'s values in order. */
  lemma {:induction false} ScanSpec<T, E>(f: string -> Result<T, E>, paths: seq<string>)
    ensures Scan(f, paths).Success? <==> forall k :: 0 <= k < |paths| ==> f(paths[k]).Success?
    ensures Scan(f, paths).Success? ==>
      (|Scan(f, paths).value| == |paths| &&
       forall k :: 0 <= k < |paths| ==> f(paths[k]) == Success(Scan(f, paths).value[k]))
  {
    if paths != [] {
      var n := |paths| - 1;
      var init := paths[..n];
      ScanSpec(f, init);
      var before := Scan(f, init);
      if before.Failure? {
        var k :| 0 <= k < n && f(init[k]).Failure?;
        assert init[k] == paths[k];
      } else if f(paths[n]).Success? {
        var r := before.value + [f(paths[n]).value];
        assert Scan(f, paths) == Success(r);
        forall k | 0 <= k < |paths|
          ensures f(paths[k]) == Success(r[k])
        {
          if k < n {
            assert init[k] == paths[k];
          }
        }
      }
    }
  }

  /** A failure in a scanned prefix is the failure of the whole scan. */
  lemma {:induction false} ScanPrefixFailure<T, E>(f: string -> Result<T, E>, paths: seq<string>, n: nat)
    requires n <= |paths|
    requires Scan(f, paths[..n]).Failure?
    ensures Scan(f, paths) == Scan(f, paths[..n])
    decreases |paths| - n
  {
    if n < |paths| {
      ScanSnoc(f, paths, n);
      ScanPrefixFailure(f, paths, n + 1);
    } else {
      assert paths[..n] == paths;
    }
  }

  /** One pass of the loop, from the list built so far: it stops the loop on a failure, else grows the list. */
  lemma ScanAdvance<T, E>(f: string -> Result<T, E>, paths: seq<string>, i: nat, done: seq<T>)
    requires i < |paths| && Scan(f, paths[..i]) == Success(done)
    ensures f(paths[i]).Failure? ==> Scan(f, paths) == Failure(f(paths[i]).error)
    ensures f(paths[i]).Success? ==> Scan(f, paths[..i + 1]) == Success(done + [f(paths[i]).value])
  {
    ScanSnoc(f, paths, i);
    if f(paths[i]).Failure? {
      ScanPrefixFailure(f, paths, i + 1);
    }
  }

  /** The entry of each scanned path. */
  function EntryOf(site: Site): string -> Result<BlogEntry, EntryError> {
    path => EntryAt(site, path)
  }

  /** The list `_get_entries` has built after the scanned `paths`, in scan order. */
  function ScanEntries(site: Site, paths: seq<string>): Result<seq<BlogEntry>, EntryError>
  {
    Scan(EntryOf(site), paths)
  }

  /**
   * The scan succeeds exactly when every scanned post yields an entry, and
   * then holds one entry per post, in scan order.
   */
  lemma ScanEntriesSpec(site: Site, paths: seq<string>)
    ensures ScanEntries(site, paths).Success? <==> forall k :: 0 <= k < |paths| ==> EntryAt(site, paths[k]).Success?
    ensures ScanEntries(site, paths).Success? ==>
      (|ScanEntries(site, paths).value| == |paths| &&
       forall k :: 0 <= k < |paths| ==> EntryAt(site, paths[k]) == Success(ScanEntries(site, paths).value[k]))
  {
    var f := EntryOf(site);
    ScanSpec(f, paths);
    forall k | 0 <= k < |paths|
      ensures f(paths[k]) == EntryAt(site, paths[k])
    {
    }
  }

  /** Every entry is at least as recent as every entry after it. */
  predicate NewestFirst(es: seq<BlogEntry>) {
    forall i, j :: 0 <= i < j < |es| ==> !DateLess(es[i].date, es[j].date)
  }

  /** The entries dated `d`, in their order in `es`. */
  function WithDate(es: seq<BlogEntry>, d: Date): seq<BlogEntry>
  {
    if es == [] then [] else (if es[0].date == d then [es[0]] else []) + WithDate(es[1..], d)
  }

  function InsertNewestFirst(e: BlogEntry, es: seq<BlogEntry>): (r: seq<BlogEntry>)
    requires NewestFirst(es)
    ensures NewestFirst(r)
    ensures multiset(r) == multiset(es) + multiset{e}
  {
    if es == [] || !DateLess(e.date, es[0].date) then
      ConsNewestFirst(e, es);
      [e] + es
    else
      var rest := InsertNewestFirst(e, es[1..]);
      InsertBelowHead(e, es, rest);
      [es[0]] + rest
  }

  /** An entry no older than every entry of a list can go in front of it. */
  lemma ConsNewestFirst(h: BlogEntry, es: seq<BlogEntry>)
    requires NewestFirst(es)
    requires es == [] || !DateLess(h.date, es[0].date)
    ensures NewestFirst([h] + es)
  {
    var r := [h] + es;
    forall i, j | 0 <= i < j < |r|
      ensures !DateLess(r[i].date, r[j].date)
    {
      if i == 0 {
        assert r[j] == es[j - 1];
        if j > 1 {
          assert !DateLess(es[0].date, es[j - 1].date);
        }
      } else {
        assert r[i] == es[i - 1] && r[j] == es[j - 1];
      }
    }
  }

  /** The head of a list stays in front when `e`, older than it, is inserted into its tail. */
  lemma InsertBelowHead(e: BlogEntry, es: seq<BlogEntry>, rest: seq<BlogEntry>)
    requires NewestFirst(es) && es != [] && DateLess(e.date, es[0].date)
    requires NewestFirst(rest) && multiset(rest) == multiset(es[1..]) + multiset{e}
    ensures NewestFirst([es[0]] + rest)
    ensures multiset([es[0]] + rest) == multiset(es) + multiset{e}
  {
    var h := es[0];
    forall x | x in rest
      ensures !DateLess(h.date, x.date)
    {
      assert x in multiset(rest);
      if x != e {
        assert x in multiset(es[1..]);
        var j :| 0 <= j < |es[1..]| && es[1..][j] == x;
        assert es[j + 1] == x;
      }
    }
    if rest != [] {
      assert rest[0] in rest;
    }
    ConsNewestFirst(h, rest);
    assert es == [h] + es[1..];
  }

  /**
   * `sorted(entries, key=lambda entry: entry[0], reverse=True)`: Python's sort
   * is stable, also when reversed, so entries of equal date keep their order.
   */
  function SortNewestFirst(es: seq<BlogEntry>): (r: seq<BlogEntry>)
    ensures NewestFirst(r)
    ensures multiset(r) == multiset(es)
  {
    if es == [] then [] else
      var r := InsertNewestFirst(es[0], SortNewestFirst(es[1..]));
      assert es == [es[0]] + es[1..];
      r
  }

  lemma {:induction false} WithDateAppend(a: seq<BlogEntry>, b: seq<BlogEntry>, d: Date)
    ensures WithDate(a + b, d) == WithDate(a, d) + WithDate(b, d)
  {
    if a != [] {
      var head := if a[0].date == d then [a[0]] else [];
      assert (a + b)[0] == a[0];
      assert (a + b)[1..] == a[1..] + b;
      WithDateAppend(a[1..], b, d);
      calc {
        WithDate(a + b, d);
        { assert a + b != []; }
        head + WithDate(a[1..] + b, d);
        head + (WithDate(a[1..], d) + WithDate(b, d));
        (head + WithDate(a[1..], d)) + WithDate(b, d);
        WithDate(a, d) + WithDate(b, d);
      }
    } else {
      assert a + b == b;
    }
  }

  lemma WithDateSingle(x: BlogEntry, d: Date)
    ensures WithDate([x], d) == if x.date == d then [x] else []
  {
    var h := if x.date == d then [x] else [];
    calc {
      WithDate([x], d);
      h + WithDate([x][1..], d);
      { assert [x][1..] == []; }
      h + WithDate([], d);
      h;
    }
  }

  lemma InsertPastNewer(e: BlogEntry, es: seq<BlogEntry>)
    requires NewestFirst(es) && es != [] && DateLess(e.date, es[0].date)
    ensures InsertNewestFirst(e, es) == [es[0]] + InsertNewestFirst(e, es[1..])
  {
  }

  /** Moving an entry past one of another date does not change the entries of any one date. */
  lemma SwapPastOtherDate(f: BlogEntry, e: BlogEntry, rest: seq<BlogEntry>, ins: seq<BlogEntry>, d: Date)
    requires f.date != e.date
    requires WithDate(ins, d) == WithDate([e] + rest, d)
    ensures WithDate([f] + ins, d) == WithDate([e] + ([f] + rest), d)
  {
    var wf, we, wr := WithDate([f], d), WithDate([e], d), WithDate(rest, d);
    WithDateSingle(f, d);
    WithDateSingle(e, d);
    WithDateAppend([f], ins, d);
    WithDateAppend([e], rest, d);
    WithDateAppend([f], rest, d);
    WithDateAppend([e], [f] + rest, d);
    SwapFronts(wf, we, wr);
  }

  /** Two fronts of which one is empty commute. */
  lemma SwapFronts<T>(x: seq<T>, y: seq<T>, z: seq<T>)
    requires x == [] || y == []
    ensures x + (y + z) == y + (x + z)
  {
    if x == [] {
      assert x + (y + z) == y + z == y + (x + z);
    } else {
      assert x + (y + z) == x + z == y + (x + z);
    }
  }

  lemma {:induction false} InsertKeepsOrderOfEqualDates(e: BlogEntry, es: seq<BlogEntry>, d: Date)
    requires NewestFirst(es)
    ensures WithDate(InsertNewestFirst(e, es), d) == WithDate([e] + es, d)
  {
    if es != [] && DateLess(e.date, es[0].date) {
      InsertPastNewer(e, es);
      InsertKeepsOrderOfEqualDates(e, es[1..], d);
      assert es == [es[0]] + es[1..];
      SwapPastOtherDate(es[0], e, es[1..], InsertNewestFirst(e, es[1..]), d);
    } else {
      assert InsertNewestFirst(e, es) == [e] + es;
    }
  }

  /** The sort is stable: the entries of any one date appear in scan order. */
  lemma {:induction false} SortKeepsOrderOfEqualDates(es: seq<BlogEntry>, d: Date)
    ensures WithDate(SortNewestFirst(es), d) == WithDate(es, d)
  {
    if es != [] {
      var h, tail := es[0], es[1..];
      var t := SortNewestFirst(tail);
      assert SortNewestFirst(es) == InsertNewestFirst(h, t);
      SortKeepsOrderOfEqualDates(tail, d);
      InsertKeepsOrderOfEqualDates(h, t, d);
      StableStep(h, tail, t, InsertNewestFirst(h, t), d);
      assert es == [h] + tail;
    }
  }

  /** Putting `h` in front of lists with the same entries of date `d` keeps them the same. */
  lemma StableStep(h: BlogEntry, tail: seq<BlogEntry>, t: seq<BlogEntry>, ins: seq<BlogEntry>, d: Date)
    requires WithDate(t, d) == WithDate(tail, d)
    requires WithDate(ins, d) == WithDate([h] + t, d)
    ensures WithDate(ins, d) == WithDate([h] + tail, d)
  {
    WithDateAppend([h], t, d);
    WithDateAppend([h], tail, d);
  }

  /** What `_get_entries` returns (or raises) for the site. */
  function Entries(site: Site): Result<seq<BlogEntry>, EntryError>
  {
    var es :- ScanEntries(site, site.blogScan);
    Success(SortNewestFirst(es))
  }

  /**
   * The index holds exactly one entry per scanned post, newest first, with posts
   * of equal date in scan order; it fails as a whole as soon as one post lacks a
   * usable `date` or `title`.
   */
  lemma EntriesSpec(site: Site)
    ensures Entries(site).Success? <==> forall k :: 0 <= k < |site.blogScan| ==> EntryAt(site, site.blogScan[k]).Success?
    ensures Entries(site).Success? ==>
      var es := Entries(site).value;
      var scanned := ScanEntries(site, site.blogScan).value;
      NewestFirst(es) && multiset(es) == multiset(scanned) && |es| == |site.blogScan| &&
      forall d :: WithDate(es, d) == WithDate(scanned, d)
  {
    ScanEntriesSpec(site, site.blogScan);
    if Entries(site).Success? {
      var scanned := ScanEntries(site, site.blogScan).value;
      forall d ensures WithDate(Entries(site).value, d) == WithDate(scanned, d) {
        SortKeepsOrderOfEqualDates(scanned, d);
      }
      assert |Entries(site).value| == |multiset(Entries(site).value)| == |multiset(scanned)| == |scanned|;
    }
  }

  /** A scanned post without a `date` key makes the whole index request fail: no default date is ever used. */
  lemma MissingDateFailsIndex(site: Site, k: nat)
    requires k < |site.blogScan| && site.blogScan[k] in site.files
    requires "date" !in site.convert(site.files[site.blogScan[k]]).meta
    ensures Entries(site).Failure?
  {
    ScanEntriesSpec(site, site.blogScan);
    assert EntryAt(site, site.blogScan[k]).Failure?;
  }

  /** Posts dated 2024-01-01, 2024-06-15 and 2023-12-31, scanned in that order, are listed 2024-06-15, 2024-01-01, 2023-12-31. */
  lemma ExampleOrder(a: string, b: string, c: string)
    ensures
      var x, y, z := BlogEntry(Date(2024, 1, 1), a, a), BlogEntry(Date(2024, 6, 15), b, b), BlogEntry(Date(2023, 12, 31), c, c);
      SortNewestFirst([x, y, z]) == [y, x, z]
  {
    var x, y, z := BlogEntry(Date(2024, 1, 1), a, a), BlogEntry(Date(2024, 6, 15), b, b), BlogEntry(Date(2023, 12, 31), c, c);
    assert DateLess(x.date, y.date) && DateLess(z.date, x.date) && DateLess(z.date, y.date);
    ThreeEntriesSorted(x, y, z);
  }

  /** Three entries scanned as middle, newest, oldest come out newest, middle, oldest. */
  lemma ThreeEntriesSorted(x: BlogEntry, y: BlogEntry, z: BlogEntry)
    requires DateLess(x.date, y.date) && DateLess(z.date, x.date) && DateLess(z.date, y.date)
    ensures SortNewestFirst([x, y, z]) == [y, x, z]
  {
    SortCons([x, y, z]);
    assert [x, y, z][1..] == [y, z];
    SortTwo(y, z);
    InsertPastHead(x, [y, z]);
    assert [y, z][1..] == [z];
    InsertAtFront(x, [z]);
    ConsThree(y, x, z);
  }

  lemma ConsThree<T>(a: T, b: T, c: T)
    ensures [a] + ([b] + [c]) == [a, b, c]
  {
  }

  lemma SortOne(z: BlogEntry)
    ensures SortNewestFirst([z]) == [z]
  {
    SortCons([z]);
    assert [z][1..] == [];
    InsertAtFront(z, []);
  }

  lemma SortTwo(y: BlogEntry, z: BlogEntry)
    requires DateLess(z.date, y.date)
    ensures SortNewestFirst([y, z]) == [y, z]
  {
    SortCons([y, z]);
    assert [y, z][1..] == [z];
    SortOne(z);
    InsertAtFront(y, [z]);
  }

  lemma SortCons(es: seq<BlogEntry>)
    requires es != []
    ensures SortNewestFirst(es) == InsertNewestFirst(es[0], SortNewestFirst(es[1..]))
  {
  }

  lemma InsertAtFront(e: BlogEntry, es: seq<BlogEntry>)
    requires NewestFirst(es) && (es == [] || !DateLess(e.date, es[0].date))
    ensures InsertNewestFirst(e, es) == [e] + es
  {
  }

  lemma InsertPastHead(e: BlogEntry, es: seq<BlogEntry>)
    requires NewestFirst(es) && es != [] && DateLess(e.date, es[0].date)
    ensures NewestFirst(es[1..]) && InsertNewestFirst(e, es) == [es[0]] + InsertNewestFirst(e, es[1..])
  {
    assert es[1..] == es[1..];
  }

  /** `_get_entries` itself: the loop converts each scanned post with the handler's converter and reads its `Meta` straight away. */
  method GetEntries(site: Site, md: Renderer) returns (r: Result<seq<BlogEntry>, EntryError>)
    requires md.convert == site.convert
    modifies md
    ensures r == Entries(site)
  {
    var scanned := ReadEntries(site, md, site.blogScan);
    if scanned.Failure? {
      return Failure(scanned.error);
    }
    return Success(SortNewestFirst(scanned.value));
  }

  /** The loop of `_get_entries` over `paths`, stopping at the first post that fails. */
  method ReadEntries(site: Site, md: Renderer, paths: seq<string>) returns (r: Result<seq<BlogEntry>, EntryError>)
    requires md.convert == site.convert
    modifies md
    ensures r == Scan(EntryOf(site), paths)
  {
    var entries: seq<BlogEntry> := [];
    var i := 0;
    ghost var f := EntryOf(site);
    while i < |paths|
      invariant 0 <= i <= |paths|
      invariant Scan(f, paths[..i]) == Success(entries)
    {
      var entry := ReadEntry(site, md, paths[i]);
      assert f(paths[i]) == entry;
      ScanAdvance(f, paths, i, entries);
      if entry.Failure? {
        return Failure(entry.error);
      }
      entries := entries + [entry.value];
      i := i + 1;
    }
    assert paths[..i] == paths;
    return Success(entries);
  }

  /** One pass of the loop: read the post, convert it and build its entry from the converter's `Meta`. */
  method ReadEntry(site: Site, md: Renderer, path: string) returns (r: Result<BlogEntry, EntryError>)
    requires md.convert == site.convert
    modifies md
    ensures r == EntryAt(site, path)
  {
    if path !in site.files {
      return Failure(Unreadable(path));
    }
    var _ := md.Convert(site.files[path]);
    r := EntryFor(path, md.meta);
  }
}
