/**
 * How the handlers of app.py find a file under `src/` for a request name.
 *
 * `MarkdownHandler` joins the name to `src` with pathlib, which drops empty
 * and `.` components, and asks `Path.is_file()`. The operating system answers
 * that by looking each component up in the directory reached so far, so
 * `a/..` needs `a` to be a directory. Tornado's `StaticFileHandler` instead
 * normalises the joined path lexically with `os.path.abspath`. It answers 403
 * for a path outside the root or one that is not a regular file, and 404 for
 * a path that does not exist.
 *
 * The content root is the site's file map, keyed by plain relative paths. A
 * directory exists when some file lies below it.
 */
module SitePaths {
  import opened Wrappers
  import opened Text

  /** The components of a path, split at every `/`. */
  function Segments(p: string): (r: seq<string>)
    ensures |r| >= 1 && Join(r, "/") == p
  {
    JoinSplit(p, "/");
    Split(p, "/")
  }

  /** A component that names an entry: not empty, `.` or `..`. */
  predicate IsEntry(s: string) {
    s != "" && s != "." && s != ".."
  }

  /** A relative path as a directory listing gives it: every component names an entry. */
  predicate Plain(p: string) {
    forall s | s in Segments(p) :: IsEntry(s)
  }

  /** A directory of the site: the root, or a path some file lies below. */
  predicate IsDir(files: map<string, string>, dir: seq<string>) {
    dir == [] || exists k | k in files :: |dir| < |Segments(k)| && Segments(k)[..|dir|] == dir
  }

  /**
   * `os.path.abspath` below the root, from the components `at` reached so
   * far: empty and `.` components vanish, and `..` drops the component before
   * it. `None` when a `..` climbs out of the root.
   */
  function Lexical(at: seq<string>, segs: seq<string>): Option<seq<string>>
    decreases |segs|
  {
    if segs == [] then Some(at)
    else if segs[0] == "" || segs[0] == "." then Lexical(at, segs[1..])
    else if segs[0] == ".." then (if at == [] then None else Lexical(at[..|at| - 1], segs[1..]))
    else Lexical(at + [segs[0]], segs[1..])
  }

  /**
   * The lookup behind `Path.is_file()`, from the directory `at`. pathlib has
   * already dropped empty and `.` components. Each remaining component is
   * looked up in the directory reached so far, which must exist, and `..`
   * goes back to its parent. `None` when a lookup is made in something that
   * is not a directory, or a `..` climbs out of the root.
   */
  function Physical(files: map<string, string>, at: seq<string>, segs: seq<string>): Option<seq<string>>
    decreases |segs|
  {
    if segs == [] then Some(at)
    else if segs[0] == "" || segs[0] == "." then Physical(files, at, segs[1..])
    else if !IsDir(files, at) then None
    else if segs[0] == ".." then (if at == [] then None else Physical(files, at[..|at| - 1], segs[1..]))
    else Physical(files, at + [segs[0]], segs[1..])
  }

  /** The key of the regular file that the components `at` name, if any. */
  function FileAt(files: map<string, string>, at: seq<string>): (r: Option<string>)
    ensures r.Some? ==> r.value in files
    ensures r.Some? <==> at != [] && Join(at, "/") in files
  {
    if at != [] && Join(at, "/") in files then Some(Join(at, "/")) else None
  }

  /**
   * `(SOURCE_DIR / name).is_file()` and the file it reads. A plain name is
   * found exactly when it is a key of the map.
   */
  function MarkdownFile(files: map<string, string>, name: string): (r: Option<string>)
    requires name == [] || name[0] != '/'
    ensures r.Some? ==> r.value in files
    ensures Plain(name) ==> r == if name in files then Some(name) else None
  {
    PlainWalks(files, name);
    FileOf(files, Physical(files, [], Segments(name)))
  }

  /** The regular file a walk ends at, if it ends. */
  function FileOf(files: map<string, string>, walk: Option<seq<string>>): (r: Option<string>)
    ensures r.Some? ==> r.value in files
  {
    match walk
    case None => None
    case Some(at) => FileAt(files, at)
  }

  /** What `StaticFileHandler` answers for a name: the file it serves, a 403 or a 404. */
  datatype Lookup = Found(key: string) | Forbidden | Missing

  /**
   * `StaticFileHandler` rooted at `src`. `os.path.join` discards the root
   * for a name starting with `/`, and `abspath` takes any other name out of
   * the root only through `..`. Both are refused with 403. Inside the root, a
   * regular file is served, a directory is refused with 403, and anything
   * else is a 404. A plain name is served exactly when it is a key of the
   * map, and is refused exactly when it names a directory.
   */
  function StaticLookup(files: map<string, string>, name: string): (r: Lookup)
    ensures r.Found? ==> r.key in files
    ensures Plain(name) ==> (r.Found? <==> name in files) && (r.Found? ==> r.key == name)
    ensures Plain(name) && name !in files ==> (r.Forbidden? <==> IsDir(files, Segments(name)))
  {
    PlainWalks(files, name);
    if name != [] && name[0] == '/' then Forbidden else Answer(files, Lexical([], Segments(name)))
  }

  /** The answer for a normalised path: `None` lies outside the root. */
  function Answer(files: map<string, string>, walk: Option<seq<string>>): (r: Lookup)
    ensures r.Found? ==> r.key in files
  {
    match walk
    case None => Forbidden
    case Some(at) =>
      match FileAt(files, at)
      case Some(key) => Found(key)
      case None => if IsDir(files, at) then Forbidden else Missing
  }

  // ------------------------------------------------------------ components

  /** Both walks of a plain name pass its components through unchanged. */
  lemma PlainWalks(files: map<string, string>, name: string)
    ensures Plain(name) ==> name != [] && name[0] != '/' && Lexical([], Segments(name)) == Some(Segments(name))
    ensures Plain(name) && Physical(files, [], Segments(name)).Some? ==>
      Physical(files, [], Segments(name)) == Some(Segments(name))
    ensures Plain(name) && name in files ==> Physical(files, [], Segments(name)) == Some(Segments(name))
  {
    var segs := Segments(name);
    if Plain(name) {
      LexicalEntries([], segs);
      PhysicalEntries(files, [], segs);
      assert [] + segs == segs;
      if name in files {
        PhysicalToFile(files, name, [], segs);
      }
      assert segs[0] in segs;
      JoinHead(segs, "/");
      assert IsEntry(segs[0]);
      assert name[..|segs[0]|] == segs[0];
      assert name[0] == segs[0][0];
    }
  }

  /** A joined list starts with its first piece. */
  lemma JoinHead(pieces: seq<string>, sep: string)
    requires |pieces| >= 1
    ensures StartsWith(Join(pieces, sep), pieces[0])
  {
    if |pieces| > 1 {
      assert Join(pieces, sep) == pieces[0] + (sep + Join(pieces[1..], sep));
    }
  }

  /** Splitting at every `/` distributes over a `/` between two paths. */
  lemma SegmentsAppend(a: string, b: string)
    ensures Segments(a + "/" + b) == Segments(a) + Segments(b)
  {
    SplitAppend(a, '/', b);
  }

  /** Splitting at a character distributes over that character between two texts. */
  lemma {:induction false} SplitAppend(a: string, c: char, b: string)
    ensures Split(a + [c] + b, [c]) == Split(a, [c]) + Split(b, [c])
    decreases |a|
  {
    if Lacks(a, c) {
      SplitAppendLacking(a, c, b);
    } else {
      var i := FirstOccurrence(a, c);
      SplitAppendStep(a, c, b, i);
      SplitAppend(a[i + 1..], c, b);
      Regroup3([a[..i]], Split(a[i + 1..], [c]), Split(b, [c]));
    }
  }

  lemma SplitAppendLacking(a: string, c: char, b: string)
    requires Lacks(a, c)
    ensures Split(a + [c] + b, [c]) == Split(a, [c]) + Split(b, [c])
  {
    SplitAtChar(a, c, b);
    SplitLacking(a, c);
  }

  /** Both sides of `SplitAppend` split off the same first piece. */
  lemma SplitAppendStep(a: string, c: char, b: string, i: nat)
    requires i < |a| && a[i] == c && Lacks(a[..i], c)
    ensures Split(a + [c] + b, [c]) == [a[..i]] + Split(a[i + 1..] + [c] + b, [c])
    ensures Split(a, [c]) == [a[..i]] + Split(a[i + 1..], [c])
  {
    var s := a + [c] + b;
    SplitAtFirstChar(a, c, i);
    assert s[..i] == a[..i] && s[i] == c;
    SplitAtFirstChar(s, c, i);
    assert s[i + 1..] == a[i + 1..] + [c] + b;
  }

  /** A component between two `/` is one segment of its own. */
  lemma SegmentsAround(a: string, x: string, b: string)
    requires Lacks(x, '/')
    ensures Segments(a + "/" + x + "/" + b) == Segments(a) + [x] + Segments(b)
  {
    assert a + "/" + x + "/" + b == a + "/" + (x + "/" + b);
    SegmentsAppend(a, x + "/" + b);
    SegmentsAppend(x, b);
    SplitLacking(x, '/');
  }

  /** `<x>/..` as two segments between `/`. */
  lemma SegmentsAroundParent(a: string, x: string, b: string)
    requires Lacks(x, '/')
    ensures Segments(a + "/" + x + "/../" + b) == Segments(a) + [x, ".."] + Segments(b)
  {
    ParentText(a, x, b);
    SegmentsAppend(x, ".." + "/" + b);
    SegmentsAppend("..", b);
    SplitLacking(x, '/');
    SplitLacking("..", '/');
    SegmentsAppend(a, x + "/" + (".." + "/" + b));
    Regroup3([x], [".."], Segments(b));
    Regroup3(Segments(a), [x, ".."], Segments(b));
  }

  lemma ParentText(a: string, x: string, b: string)
    ensures a + "/" + x + "/../" + b == a + "/" + (x + "/" + (".." + "/" + b))
  {
    assert "/../" + b == "/" + (".." + "/" + b);
  }

  // ----------------------------------------------------------------- walks

  /** A walk over entries only just appends them. */
  lemma {:induction false} LexicalEntries(at: seq<string>, segs: seq<string>)
    requires forall s | s in segs :: IsEntry(s)
    ensures Lexical(at, segs) == Some(at + segs)
    decreases |segs|
  {
    if segs != [] {
      assert segs[0] in segs;
      assert forall s | s in segs[1..] :: s in segs;
      LexicalEntries(at + [segs[0]], segs[1..]);
      assert at + [segs[0]] + segs[1..] == at + segs;
    } else {
      assert at + segs == at;
    }
  }

  /** Over entries only, the operating system's walk either fails or appends them. */
  lemma {:induction false} PhysicalEntries(files: map<string, string>, at: seq<string>, segs: seq<string>)
    requires forall s | s in segs :: IsEntry(s)
    ensures Physical(files, at, segs).Some? ==> Physical(files, at, segs) == Some(at + segs)
    decreases |segs|
  {
    if segs != [] {
      assert segs[0] in segs;
      if IsDir(files, at) {
        assert forall s | s in segs[1..] :: s in segs;
        PhysicalEntries(files, at + [segs[0]], segs[1..]);
        assert at + [segs[0]] + segs[1..] == at + segs;
      }
    } else {
      assert at + segs == at;
    }
  }

  /** The walk towards an existing file passes through directories only. */
  lemma {:induction false} PhysicalToFile(files: map<string, string>, key: string, at: seq<string>, segs: seq<string>)
    requires key in files && Segments(key) == at + segs
    requires forall s | s in segs :: IsEntry(s)
    ensures Physical(files, at, segs) == Some(at + segs)
    decreases |segs|
  {
    if segs != [] {
      assert segs[0] in segs;
      assert forall s | s in segs[1..] :: s in segs;
      assert Segments(key)[..|at|] == at;
      assert IsDir(files, at);
      assert Segments(key) == (at + [segs[0]]) + segs[1..];
      PhysicalToFile(files, key, at + [segs[0]], segs[1..]);
      assert at + [segs[0]] + segs[1..] == at + segs;
    } else {
      assert at + segs == at;
    }
  }

  /** Normalising `a + b` is normalising `a`, then `b` from where `a` ended. */
  lemma {:induction false} LexicalThen(at: seq<string>, a: seq<string>, b: seq<string>)
    ensures Lexical(at, a + b) == match Lexical(at, a) case None => None case Some(m) => Lexical(m, b)
    decreases |a|
  {
    if a != [] {
      assert (a + b)[0] == a[0] && (a + b)[1..] == a[1..] + b;
      if a[0] == "" || a[0] == "." {
        LexicalThen(at, a[1..], b);
      } else if a[0] == ".." {
        if at != [] {
          LexicalThen(at[..|at| - 1], a[1..], b);
        }
      } else {
        LexicalThen(at + [a[0]], a[1..], b);
      }
    } else {
      assert a + b == b;
    }
  }

  /** The operating system's walk of `a + b` is its walk of `a`, then of `b`. */
  lemma {:induction false} PhysicalThen(files: map<string, string>, at: seq<string>, a: seq<string>, b: seq<string>)
    ensures Physical(files, at, a + b) ==
      match Physical(files, at, a) case None => None case Some(m) => Physical(files, m, b)
    decreases |a|
  {
    if a != [] {
      assert (a + b)[0] == a[0] && (a + b)[1..] == a[1..] + b;
      if a[0] == "" || a[0] == "." {
        PhysicalThen(files, at, a[1..], b);
      } else if !IsDir(files, at) {
      } else if a[0] == ".." {
        if at != [] {
          PhysicalThen(files, at[..|at| - 1], a[1..], b);
        }
      } else {
        PhysicalThen(files, at + [a[0]], a[1..], b);
      }
    } else {
      assert a + b == b;
    }
  }

  /** A directory's parent is a directory. */
  lemma ParentIsDir(files: map<string, string>, m: seq<string>, x: string)
    requires IsDir(files, m + [x])
    ensures IsDir(files, m)
  {
    if m != [] {
      var k :| k in files && |m + [x]| < |Segments(k)| && Segments(k)[..|m + [x]|] == m + [x];
      assert Segments(k)[..|m|] == (m + [x])[..|m|] == m;
    }
  }

  /** An empty or `.` component leaves the lexical walk where it was. */
  lemma LexicalSkip(at: seq<string>, a: seq<string>, x: string, b: seq<string>)
    requires x == "" || x == "."
    ensures Lexical(at, a + [x] + b) == Lexical(at, a + b)
  {
    Regroup3(a, [x], b);
    LexicalThen(at, a, [x] + b);
    LexicalThen(at, a, b);
    assert ([x] + b)[1..] == b;
  }

  /** A component followed by `..` leaves the lexical walk where it was. */
  lemma LexicalCancel(at: seq<string>, a: seq<string>, x: string, b: seq<string>)
    requires IsEntry(x)
    ensures Lexical(at, a + [x, ".."] + b) == Lexical(at, a + b)
  {
    Regroup3(a, [x, ".."], b);
    LexicalThen(at, a, [x, ".."] + b);
    LexicalThen(at, a, b);
    assert ([x, ".."] + b)[1..] == [".."] + b;
    assert ([".."] + b)[1..] == b;
    if Lexical(at, a).Some? {
      var m := Lexical(at, a).value;
      assert (m + [x])[..|m|] == m;
    }
  }

  /** An empty or `.` component leaves the operating system's walk where it was. */
  lemma PhysicalSkip(files: map<string, string>, at: seq<string>, a: seq<string>, x: string, b: seq<string>)
    requires x == "" || x == "."
    ensures Physical(files, at, a + [x] + b) == Physical(files, at, a + b)
  {
    Regroup3(a, [x], b);
    PhysicalThen(files, at, a, [x] + b);
    PhysicalThen(files, at, a, b);
    assert ([x] + b)[1..] == b;
  }

  /** Into a directory `x` and back out again leaves the operating system's walk where it was. */
  lemma PhysicalCancel(files: map<string, string>, at: seq<string>, a: seq<string>, x: string, b: seq<string>)
    requires IsEntry(x)
    requires Physical(files, at, a).Some? && IsDir(files, Physical(files, at, a).value + [x])
    ensures Physical(files, at, a + [x, ".."] + b) == Physical(files, at, a + b)
  {
    var m := Physical(files, at, a).value;
    Regroup3(a, [x, ".."], b);
    PhysicalThen(files, at, a, [x, ".."] + b);
    PhysicalThen(files, at, a, b);
    ParentIsDir(files, m, x);
    assert ([x, ".."] + b)[1..] == [".."] + b;
    assert ([".."] + b)[1..] == b;
    assert (m + [x])[..|m|] == m;
  }

  /** Looking up `..` inside something that is not a directory ends the operating system's walk. */
  lemma PhysicalStuck(files: map<string, string>, at: seq<string>, a: seq<string>, x: string, b: seq<string>)
    requires IsEntry(x)
    requires Physical(files, at, a).Some? && !IsDir(files, Physical(files, at, a).value + [x])
    ensures Physical(files, at, a + [x, ".."] + b) == None
  {
    Regroup3(a, [x, ".."], b);
    PhysicalThen(files, at, a, [x, ".."] + b);
    assert ([x, ".."] + b)[1..] == [".."] + b;
  }

  // ------------------------------------------------------------ requests

  /** A static name with an empty or `.` component is served as the name without it. */
  lemma StaticSkips(files: map<string, string>, a: string, x: string, b: string)
    requires x == "" || x == "."
    ensures StaticLookup(files, a + "/" + x + "/" + b) == StaticLookup(files, a + "/" + b)
  {
    SegmentsAround(a, x, b);
    SegmentsAppend(a, b);
    LexicalSkip([], Segments(a), x, Segments(b));
    assert (a + "/" + x + "/" + b)[0] == (a + "/" + b)[0];
  }

  /** A static name with `<x>/..` is served as the name without it, whether or not `x` exists. */
  lemma StaticCancels(files: map<string, string>, a: string, x: string, b: string)
    requires IsEntry(x) && Lacks(x, '/')
    ensures StaticLookup(files, a + "/" + x + "/../" + b) == StaticLookup(files, a + "/" + b)
  {
    SegmentsAroundParent(a, x, b);
    SegmentsAppend(a, b);
    LexicalCancel([], Segments(a), x, Segments(b));
    assert (a + "/" + x + "/../" + b)[0] == (a + "/" + b)[0];
  }

  /** A Markdown source name with an empty or `.` component reads the file without it. */
  lemma MarkdownSkips(files: map<string, string>, a: string, x: string, b: string)
    requires x == "" || x == "."
    requires a != [] && a[0] != '/'
    ensures MarkdownFile(files, a + "/" + x + "/" + b) == MarkdownFile(files, a + "/" + b)
  {
    SegmentsAround(a, x, b);
    SegmentsAppend(a, b);
    PhysicalSkip(files, [], Segments(a), x, Segments(b));
  }

  /**
   * A Markdown source name with `<x>/..` reads the file without it when `x`
   * is a directory where the walk has arrived.
   */
  lemma MarkdownCancels(files: map<string, string>, a: string, x: string, b: string)
    requires IsEntry(x) && Lacks(x, '/')
    requires a != [] && a[0] != '/'
    requires Physical(files, [], Segments(a)).Some? && IsDir(files, Physical(files, [], Segments(a)).value + [x])
    ensures MarkdownFile(files, a + "/" + x + "/../" + b) == MarkdownFile(files, a + "/" + b)
  {
    SegmentsAroundParent(a, x, b);
    SegmentsAppend(a, b);
    PhysicalCancel(files, [], Segments(a), x, Segments(b));
  }

  /**
   * Unlike the static handler, the Markdown handler finds nothing through
   * `<x>/..` when `x` is not a directory where the walk has arrived.
   */
  lemma MarkdownNeedsDirectory(files: map<string, string>, a: string, x: string, b: string)
    requires IsEntry(x) && Lacks(x, '/')
    requires a != [] && a[0] != '/'
    requires Physical(files, [], Segments(a)).Some? && !IsDir(files, Physical(files, [], Segments(a)).value + [x])
    ensures MarkdownFile(files, a + "/" + x + "/../" + b) == None
  {
    SegmentsAroundParent(a, x, b);
    PhysicalStuck(files, [], Segments(a), x, Segments(b));
  }
}
