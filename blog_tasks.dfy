/**
 * The build tasks of `tasks.py`: `blog_meta` reads the YAML front matter of
 * every blog post, and `mkdocs_yml` groups the posts by year for the
 * navigation of the generated MkDocs configuration.
 *
 * The YAML parser and the file reads are oracles; the JSON round trip
 * through the invoke context is modelled by converting dates to their
 * encoded text; the Jinja template that renders the result is left out.
 */
module BlogTasks {
  import opened Wrappers
  import opened Text
  import opened Dates

  // ---------------------------------------------------------- JSONEncoder

  /** The values `JSONEncoder.default` is asked about. */
  datatype PyObject =
    | DateObject(date: ValidDay)
    | DateTimeObject(date: ValidDay, hour: nat, minute: nat, second: nat)
    | OtherObject(typeName: string)

  /** A valid date, as a value Python's `datetime.date` can hold. */
  type ValidDay = d: Date | ValidDate(d) witness Date(1, 1, 1)

  /** `year-month-day`, each part in decimal without zero padding. */
  function EncodeDate(d: ValidDay): string
  {
    Decimal(d.year) + "-" + Decimal(d.month) + "-" + Decimal(d.day)
  }

  /**
   * `JSONEncoder.default`: a date, or a datetime (a subclass of date), is
   * encoded by its date; anything else falls through to the base class,
   * which raises a `TypeError`.
   */
  function Default(o: PyObject): (r: Result<string, string>)
    ensures r.Success? <==> !o.OtherObject?
    ensures r.Success? ==> DecodeDate(r.value) == Some(o.date)
  {
    match o
    case DateObject(d) => DecodeEncodeDate(d); Success(EncodeDate(d))
    case DateTimeObject(d, _, _, _) => DecodeEncodeDate(d); Success(EncodeDate(d))
    case OtherObject(t) => Failure("Object of type " + t + " is not JSON serializable")
  }

  /** Reads back what `EncodeDate` writes. */
  function DecodeDate(s: string): Option<Date>
  {
    var parts := Split(s, "-");
    if |parts| == 3 && |parts[0]| >= 1 && |parts[1]| >= 1 && |parts[2]| >= 1 &&
       AllDigits(parts[0]) && AllDigits(parts[1]) && AllDigits(parts[2])
    then Some(Date(ParseDecimal(parts[0]), ParseDecimal(parts[1]), ParseDecimal(parts[2])))
    else None
  }

  /** The three pieces of an encoded date are the decimal forms of its fields. */
  lemma EncodeDatePieces(d: ValidDay)
    ensures Split(EncodeDate(d), "-") == [Decimal(d.year), Decimal(d.month), Decimal(d.day)]
  {
    var y, m, dd := Decimal(d.year), Decimal(d.month), Decimal(d.day);
    var c := '-';
    assert "-" == [c];
    DigitsLack(y, c);
    DigitsLack(m, c);
    DigitsLack(dd, c);
    SplitThree(y, m, dd, c);
  }

  /** Digits hold no other character. */
  lemma DigitsLack(s: string, c: char)
    requires AllDigits(s) && !IsDigit(c)
    ensures Lacks(s, c)
  {
  }

  /** Encoding then decoding gives the date back. */
  lemma DecodeEncodeDate(d: ValidDay)
    ensures DecodeDate(EncodeDate(d)) == Some(d)
  {
    EncodeDatePieces(d);
    ParseDecimalOfDecimal(d.year);
    ParseDecimalOfDecimal(d.month);
    ParseDecimalOfDecimal(d.day);
  }

  lemma DecodeEncodeAll()
    ensures forall d: ValidDay :: DecodeDate(EncodeDate(d)) == Some(d)
  {
    forall d: ValidDay ensures DecodeDate(EncodeDate(d)) == Some(d) {
      DecodeEncodeDate(d);
    }
  }

  /**
   * No piece is zero-padded: none starts with `0`, and a month or a day is a
   * single digit exactly when it is below ten.
   */
  lemma EncodeDateNotPadded(d: ValidDay)
    ensures var parts := Split(EncodeDate(d), "-");
      |parts| == 3 && (forall i :: 0 <= i < 3 ==> |parts[i]| >= 1 && parts[i][0] != '0') &&
      (d.month < 10 <==> |parts[1]| == 1) && (d.day < 10 <==> |parts[2]| == 1)
  {
    EncodeDatePieces(d);
  }

  // ------------------------------------------------------------ blog_meta

  /**
   * A YAML value: text; a date; another value that JSON writes and reads back
   * as it was (a number, a boolean, null, or a list or mapping of such
   * values); or a value of a type the encoder cannot write, such as a set or
   * bytes.
   */
  datatype Field = Text(text: string) | DateField(date: ValidDay) | JsonValue | Unserialisable(typeName: string)

  type Metadata = map<string, Field>

  const Separator := "---\n"

  /** `raw.split("---\n")[1].strip()`: `None` is the `IndexError` of a post without a separator. */
  function FrontMatter(raw: string): Option<string>
  {
    var parts := Split(raw, Separator);
    if |parts| < 2 then None else Some(Strip(parts[1], IsUnicodeSpace))
  }

  /**
   * The first occurrence of a separator whose last character appears nowhere
   * else in it, in `a + sep + rest` with no separator inside `a`, is the one
   * after `a`.
   */
  lemma SplitAtFirst(a: string, sep: string, rest: string)
    requires sep != [] && !Contains(a, sep)
    requires forall k :: 0 <= k < |sep| - 1 ==> sep[k] != sep[|sep| - 1]
    ensures Split(a + sep + rest, sep) == [a] + Split(rest, sep)
  {
    var s := a + sep + rest;
    assert OccursAt(s, sep, |a|) by { assert s[|a|..|a| + |sep|] == sep; }
    var i := IndexOf(s, sep).value;
    if i < |a| {
      if i + |sep| <= |a| {
        assert s[i..i + |sep|] == a[i..i + |sep|];
        assert OccursAt(a, sep, i);
        assert false;
      } else {
        assert false;
      }
    }
    assert i == |a|;
    assert s[..i] == a;
    assert s[i + |sep|..] == rest;
  }

  lemma SeparatorLastUnique()
    ensures forall k :: 0 <= k < |Separator| - 1 ==> Separator[k] != Separator[|Separator| - 1]
  {
  }

  /** Text without the separator is one piece. */
  lemma SplitWhole(a: string, sep: string)
    requires sep != [] && !Contains(a, sep)
    ensures Split(a, sep) == [a]
  {
  }

  /** The piece after the first separator, whatever follows it. */
  lemma SecondPiece(a: string, b: string, c: string, sep: string)
    requires sep != [] && !Contains(a, sep) && !Contains(b, sep)
    requires forall k :: 0 <= k < |sep| - 1 ==> sep[k] != sep[|sep| - 1]
    ensures |Split(a + sep + b + sep + c, sep)| >= 2 && Split(a + sep + b + sep + c, sep)[1] == b
    ensures |Split(a + sep + b, sep)| >= 2 && Split(a + sep + b, sep)[1] == b
  {
    SplitAtFirst(a, sep, b + sep + c);
    SplitAtFirst(b, sep, c);
    Regroup5(a, sep, b, sep, c);
    SplitAtFirst(a, sep, b);
    SplitWhole(b, sep);
  }

  /** The front matter is the text between the first and the second separator, stripped. */
  lemma FrontMatterBetween(a: string, b: string, c: string)
    requires !Contains(a, Separator) && !Contains(b, Separator)
    ensures FrontMatter(a + Separator + b + Separator + c) == Some(Strip(b, IsUnicodeSpace))
    ensures FrontMatter(a + Separator + b) == Some(Strip(b, IsUnicodeSpace))
  {
    SeparatorLastUnique();
    SecondPiece(a, b, c, Separator);
  }

  /** A post without a separator has no front matter. */
  lemma FrontMatterMissing(raw: string)
    ensures FrontMatter(raw).None? <==> !Contains(raw, Separator)
  {
    SplitHead(raw, Separator);
  }

  /** The key under which a post's metadata is stored: `str(Path("content/blog") / name)`. */
  function PostPath(name: string): string {
    "content/blog/" + name
  }

  /** `glob("*.md")`: the names in the listing ending in `.md`. */
  function MarkdownFiles(names: seq<string>): (r: seq<string>)
    ensures forall k :: 0 <= k < |r| ==> EndsWith(r[k], ".md") && r[k] in names
    ensures forall n :: n in names && EndsWith(n, ".md") ==> n in r
  {
    if names == [] then []
    else
      var rest := MarkdownFiles(names[..|names| - 1]);
      var n := names[|names| - 1];
      if EndsWith(n, ".md") then rest + [n] else rest
  }

  /** Every value of the metadata is one the encoder can write. */
  predicate Serialisable(m: Metadata) {
    forall k :: k in m ==> !m[k].Unserialisable?
  }

  /** The metadata as it comes back from the JSON text: dates have become encoded text. */
  function ThroughJson(m: Metadata): (r: Metadata)
    requires Serialisable(m)
    ensures r.Keys == m.Keys
    ensures forall k :: k in m && m[k].DateField? ==> r[k].Text? && DecodeDate(r[k].text) == Some(m[k].date)
    ensures forall k :: k in m && !m[k].DateField? ==> r[k] == m[k]
  {
    DecodeEncodeAll();
    map k | k in m :: if m[k].DateField? then Text(EncodeDate(m[k].date)) else m[k]
  }

  /** The metadata of one post as YAML reads it, or why the loop fails on it. */
  function PostMeta(raw: string, yaml: string -> Option<Metadata>): Result<Metadata, string>
  {
    match FrontMatter(raw)
    case None => Failure("IndexError: list index out of range")
    case Some(front) =>
      match yaml(front)
      case None => Failure("yaml.YAMLError")
      case Some(m) => Success(m)
  }

  /** What `json.dumps` raises on a value its encoder cannot write. */
  const NotSerializable := "TypeError: Object is not JSON serializable"

  /**
   * `json.dumps(meta, cls=JSONEncoder)` read back by `json.loads`: every
   * post's metadata through JSON, or the `TypeError` of a value the encoder
   * cannot write.
   */
  function Dumps(meta: map<string, Metadata>): (r: Result<map<string, Metadata>, string>)
    ensures r.Success? <==> forall p :: p in meta ==> Serialisable(meta[p])
    ensures r.Failure? ==> r.error == NotSerializable
    ensures r.Success? ==> r.value.Keys == meta.Keys
    ensures r.Success? ==> forall p :: p in meta ==> Serialisable(meta[p]) && r.value[p] == ThroughJson(meta[p])
  {
    if forall p :: p in meta ==> Serialisable(meta[p]) then Success(map p | p in meta :: ThroughJson(meta[p]))
    else Failure(NotSerializable)
  }

  /**
   * The dictionary filled from `files` in order, keyed by `PostPath`, where
   * `post` gives each file's metadata or the error that ends `blog_meta`.
   */
  function Collect(files: seq<string>, post: string -> Result<Metadata, string>): Result<map<string, Metadata>, string>
  {
    if files == [] then Success(map[])
    else
      var f := files[|files| - 1];
      match Collect(files[..|files| - 1], post)
      case Failure(e) => Failure(e)
      case Success(meta) =>
        match post(f)
        case Failure(e) => Failure(e)
        case Success(m) => Success(meta[PostPath(f) := m])
  }

  /** The loop's dictionary written as JSON: the error of the loop, or that of `json.dumps`. */
  function Dumped(files: seq<string>, post: string -> Result<Metadata, string>): Result<map<string, Metadata>, string>
  {
    match Collect(files, post)
    case Failure(e) => Failure(e)
    case Success(meta) => Dumps(meta)
  }

  /**
   * What `blog_meta` computes from a directory listing, the file contents and
   * the YAML parser: the dictionary the loop fills, written as JSON.
   */
  function BlogMetaOf(names: seq<string>, read: string -> string, yaml: string -> Option<Metadata>):
    Result<map<string, Metadata>, string>
  {
    Dumped(MarkdownFiles(names), PostOf(read, yaml))
  }

  /** `blog_meta`: fills the metadata dictionary one post at a time. */
  method BlogMeta(names: seq<string>, read: string -> string, yaml: string -> Option<Metadata>)
    returns (result: Result<map<string, Metadata>, string>)
    ensures result == BlogMetaOf(names, read, yaml)
  {
    var files := MarkdownFiles(names);
    var post := PostOf(read, yaml);
    var meta: map<string, Metadata> := map[];
    var i := 0;
    while i < |files|
      invariant 0 <= i <= |files|
      invariant Collect(files[..i], post) == Success(meta)
    {
      assert files[..i + 1][..i] == files[..i];
      var raw := read(PostPath(files[i]));
      var front := FrontMatter(raw);
      if front.None? {
        result := Failure("IndexError: list index out of range");
        FailureStays(files, i + 1, post);
        return;
      }
      var metadata := yaml(front.value);
      if metadata.None? {
        result := Failure("yaml.YAMLError");
        FailureStays(files, i + 1, post);
        return;
      }
      meta := meta[PostPath(files[i]) := metadata.value];
      i := i + 1;
    }
    assert files[..i] == files;
    result := Dumps(meta);
  }

  lemma {:induction false} FailureStays(files: seq<string>, i: nat, post: string -> Result<Metadata, string>)
    requires i <= |files| && Collect(files[..i], post).Failure?
    ensures Collect(files, post) == Collect(files[..i], post)
    decreases |files| - i
  {
    if i < |files| {
      assert files[..i + 1][..i] == files[..i];
      FailureStays(files, i + 1, post);
    } else {
      assert files[..i] == files;
    }
  }

  /** When filling succeeds its keys are the paths of the files. */
  lemma {:induction false} CollectKeys(files: seq<string>, post: string -> Result<Metadata, string>)
    requires Collect(files, post).Success?
    ensures forall key :: key in Collect(files, post).value <==> exists k :: 0 <= k < |files| && key == PostPath(files[k])
    decreases |files|
  {
    if files != [] {
      var front := files[..|files| - 1];
      var f := files[|files| - 1];
      CollectKeys(front, post);
      var meta := Collect(files, post).value;
      assert meta.Keys == Collect(front, post).value.Keys + {PostPath(f)};
      forall key | key in meta ensures exists k :: 0 <= k < |files| && key == PostPath(files[k]) {
        if key != PostPath(f) {
          var k :| 0 <= k < |front| && key == PostPath(front[k]);
          assert files[k] == front[k];
        }
      }
      forall k | 0 <= k < |files| ensures PostPath(files[k]) in meta {
        if k < |front| {
          assert files[k] == front[k];
        }
      }
    }
  }

  /** When filling succeeds each file's entry holds that file's metadata. */
  lemma {:induction false} CollectValues(files: seq<string>, post: string -> Result<Metadata, string>, k: nat)
    requires Collect(files, post).Success? && k < |files|
    ensures PostPath(files[k]) in Collect(files, post).value
    ensures post(files[k]) == Success(Collect(files, post).value[PostPath(files[k])])
    decreases |files|
  {
    var front := files[..|files| - 1];
    var f := files[|files| - 1];
    if k < |front| && PostPath(files[k]) != PostPath(f) {
      CollectValues(front, post, k);
      assert files[k] == front[k];
    } else if k < |front| {
      assert files[k] == f by {
        assert PostPath(files[k])[13..] == files[k];
        assert PostPath(f)[13..] == f;
      }
    }
  }

  /** Filling fails exactly when some file's metadata is an error. */
  lemma {:induction false} CollectFails(files: seq<string>, post: string -> Result<Metadata, string>)
    ensures Collect(files, post).Failure? <==> exists k :: 0 <= k < |files| && post(files[k]).Failure?
    decreases |files|
  {
    if files != [] {
      var front := files[..|files| - 1];
      CollectFails(front, post);
      if exists k :: 0 <= k < |front| && post(front[k]).Failure? {
        var k :| 0 <= k < |front| && post(front[k]).Failure?;
        assert files[k] == front[k];
      }
      if exists k :: 0 <= k < |files| && post(files[k]).Failure? {
        var k :| 0 <= k < |files| && post(files[k]).Failure?;
        if k < |front| {
          assert front[k] == files[k];
        }
      }
    }
  }

  /** The metadata of the file named `f`. */
  function PostOf(read: string -> string, yaml: string -> Option<Metadata>): string -> Result<Metadata, string> {
    f => PostMeta(read(PostPath(f)), yaml)
  }

  /** A failed fill carries the error of one of the files. */
  lemma {:induction false} CollectError(files: seq<string>, post: string -> Result<Metadata, string>)
    requires Collect(files, post).Failure?
    ensures exists k :: 0 <= k < |files| && post(files[k]) == Failure(Collect(files, post).error)
    decreases |files|
  {
    var front := files[..|files| - 1];
    var f := files[|files| - 1];
    if Collect(front, post).Failure? {
      CollectError(front, post);
      var k :| 0 <= k < |front| && post(front[k]) == Failure(Collect(front, post).error);
      assert files[k] == front[k];
    } else {
      assert post(files[|files| - 1]) == Failure(Collect(files, post).error);
    }
  }

  /** `m` is what the front matter of `raw` becomes after the round trip through JSON. */
  predicate ReadBack(raw: string, yaml: string -> Option<Metadata>, m: Metadata) {
    Writable(PostMeta(raw, yaml)) && m == ThroughJson(PostMeta(raw, yaml).value)
  }

  /** Writing the filled dictionary fails exactly when a file fails or holds a value JSON cannot write. */
  lemma DumpedFails(files: seq<string>, post: string -> Result<Metadata, string>)
    ensures Dumped(files, post).Failure? <==>
      exists k :: 0 <= k < |files| && !Writable(post(files[k]))
    ensures Collect(files, post).Failure? ==>
      exists k :: 0 <= k < |files| && post(files[k]) == Failure(Dumped(files, post).error)
  {
    CollectFails(files, post);
    if Collect(files, post).Failure? {
      CollectError(files, post);
    } else {
      var meta := Collect(files, post).value;
      CollectKeys(files, post);
      forall k | 0 <= k < |files|
        ensures post(files[k]) == Success(meta[PostPath(files[k])])
      {
        CollectValues(files, post, k);
      }
      if Dumps(meta).Failure? {
        var p :| p in meta && !Serialisable(meta[p]);
        var k :| 0 <= k < |files| && p == PostPath(files[k]);
      }
    }
  }

  /** The loop reports only the two errors of reading a post. */
  lemma PostMetaError(raw: string, yaml: string -> Option<Metadata>)
    requires PostMeta(raw, yaml).Failure?
    ensures PostMeta(raw, yaml).error != NotSerializable
  {
  }

  /** A post's metadata was read and JSON can write all of it. */
  predicate Writable(r: Result<Metadata, string>) {
    r.Success? && Serialisable(r.value)
  }

  /**
   * `blog_meta` fails exactly when some Markdown post has no separator, has
   * front matter the parser rejects, or holds a value JSON cannot write.
   */
  lemma {:induction false} BlogMetaFails(names: seq<string>, read: string -> string, yaml: string -> Option<Metadata>)
    ensures BlogMetaOf(names, read, yaml).Failure? <==>
      exists k :: 0 <= k < |MarkdownFiles(names)| && !Writable(PostMeta(read(PostPath(MarkdownFiles(names)[k])), yaml))
  {
    var files := MarkdownFiles(names);
    var post := PostOf(read, yaml);
    if BlogMetaOf(names, read, yaml).Failure? {
      var k := UnwritablePost(files, post);
      assert post(files[k]) == PostMeta(read(PostPath(files[k])), yaml);
      assert !Writable(PostMeta(read(PostPath(MarkdownFiles(names)[k])), yaml));
    } else {
      forall k | 0 <= k < |files|
        ensures Writable(PostMeta(read(PostPath(files[k])), yaml))
      {
        WritablePost(files, post, k);
        assert post(files[k]) == PostMeta(read(PostPath(files[k])), yaml);
      }
    }
  }

  /** A failed write names a file that failed or holds a value JSON cannot write. */
  lemma UnwritablePost(files: seq<string>, post: string -> Result<Metadata, string>) returns (k: nat)
    requires Dumped(files, post).Failure?
    ensures k < |files| && !Writable(post(files[k]))
  {
    DumpedFails(files, post);
    k :| 0 <= k < |files| && !Writable(post(files[k]));
  }

  /** After a successful write every file was read and JSON could write it. */
  lemma WritablePost(files: seq<string>, post: string -> Result<Metadata, string>, k: nat)
    requires Dumped(files, post).Success? && k < |files|
    ensures Writable(post(files[k]))
  {
    DumpedFails(files, post);
  }

  /**
   * The `TypeError` of `json.dumps` comes after the loop: a post that cannot
   * be read fails `blog_meta` with its own error first.
   */
  lemma ReadErrorFirst(names: seq<string>, read: string -> string, yaml: string -> Option<Metadata>, f: string)
    requires f in MarkdownFiles(names) && PostMeta(read(PostPath(f)), yaml).Failure?
    ensures BlogMetaOf(names, read, yaml).Failure? && BlogMetaOf(names, read, yaml).error != NotSerializable
  {
    var files := MarkdownFiles(names);
    var post := PostOf(read, yaml);
    var k :| 0 <= k < |files| && files[k] == f;
    assert post(files[k]).Failure?;
    CollectFails(files, post);
    DumpedFails(files, post);
    var j :| 0 <= j < |files| && post(files[j]) == Failure(Dumped(files, post).error);
    assert post(files[j]) == PostMeta(read(PostPath(files[j])), yaml);
    PostMetaError(read(PostPath(files[j])), yaml);
  }

  /**
   * When `blog_meta` succeeds it holds one entry per post, keyed by its path,
   * with that post's front matter and its dates as text.
   */
  lemma {:induction false} BlogMetaResult(names: seq<string>, read: string -> string, yaml: string -> Option<Metadata>)
    requires BlogMetaOf(names, read, yaml).Success?
    ensures forall key :: key in BlogMetaOf(names, read, yaml).value <==>
      exists k :: 0 <= k < |MarkdownFiles(names)| && key == PostPath(MarkdownFiles(names)[k])
    ensures forall k :: 0 <= k < |MarkdownFiles(names)| ==>
      PostPath(MarkdownFiles(names)[k]) in BlogMetaOf(names, read, yaml).value &&
      ReadBack(read(PostPath(MarkdownFiles(names)[k])), yaml, BlogMetaOf(names, read, yaml).value[PostPath(MarkdownFiles(names)[k])])
  {
    var files := MarkdownFiles(names);
    var post := PostOf(read, yaml);
    assert BlogMetaOf(names, read, yaml).value.Keys == Collect(files, post).value.Keys;
    CollectKeys(files, post);
    forall k | 0 <= k < |files|
      ensures PostPath(files[k]) in BlogMetaOf(names, read, yaml).value
      ensures ReadBack(read(PostPath(files[k])), yaml, BlogMetaOf(names, read, yaml).value[PostPath(files[k])])
    {
      ReadBackOfPost(files, post, read, yaml, k);
    }
  }

  /** One file's entry after the round trip through JSON. */
  lemma ReadBackOfPost(files: seq<string>, post: string -> Result<Metadata, string>,
                       read: string -> string, yaml: string -> Option<Metadata>, k: nat)
    requires post == PostOf(read, yaml) && Dumped(files, post).Success? && k < |files|
    ensures PostPath(files[k]) in Dumped(files, post).value
    ensures ReadBack(read(PostPath(files[k])), yaml, Dumped(files, post).value[PostPath(files[k])])
  {
    var raw := Collect(files, post).value;
    var p := PostPath(files[k]);
    CollectValues(files, post, k);
    assert post(files[k]) == PostMeta(read(p), yaml);
    assert PostMeta(read(p), yaml) == Success(raw[p]);
    assert Serialisable(raw[p]) && Dumps(raw).value[p] == ThroughJson(raw[p]);
  }

  /** A post's metadata is its front matter as the parser reads it. */
  lemma PostMetaOfFrontMatter(a: string, b: string, c: string, yaml: string -> Option<Metadata>)
    requires !Contains(a, Separator) && !Contains(b, Separator)
    requires yaml(Strip(b, IsUnicodeSpace)).Some?
    ensures PostMeta(a + Separator + b + Separator + c, yaml) == Success(yaml(Strip(b, IsUnicodeSpace)).value)
  {
    FrontMatterBetween(a, b, c);
  }

  // ----------------------------------------------------------- mkdocs_yml

  /** One row of the data frame. */
  datatype Post = Post(path: string, title: Field, date: string)

  /**
   * One column of the data frame, `[metadata[key][name] for key in paths]`:
   * the value under `name` of each path's metadata, in order, or the
   * `KeyError` of the first path that lacks it.
   */
  function Column(meta: map<string, Metadata>, paths: seq<string>, name: string): (r: Result<seq<Field>, string>)
    requires forall k :: 0 <= k < |paths| ==> paths[k] in meta
    ensures r.Success? <==> forall k :: 0 <= k < |paths| ==> name in meta[paths[k]]
    ensures r.Failure? ==> r.error == KeyError(name)
    ensures r.Success? ==> |r.value| == |paths| && forall k :: 0 <= k < |paths| ==> r.value[k] == meta[paths[k]][name]
  {
    if paths == [] then Success([])
    else
      var p := paths[|paths| - 1];
      match Column(meta, paths[..|paths| - 1], name)
      case Failure(e) => Failure(e)
      case Success(c) =>
        if name !in meta[p] then Failure(KeyError(name)) else Success(c + [meta[p][name]])
  }

  /** The message of the `KeyError` raised for a missing key. */
  function KeyError(name: string): string {
    "KeyError: '" + name + "'"
  }

  /**
   * The rows of the data frame: the title column is built first, then the
   * date column; splitting a date that is not text then fails.
   */
  function Posts(meta: map<string, Metadata>, paths: seq<string>): Result<seq<Post>, string>
    requires forall k :: 0 <= k < |paths| ==> paths[k] in meta
  {
    match Column(meta, paths, "title")
    case Failure(e) => Failure(e)
    case Success(titles) =>
      match Column(meta, paths, "date")
      case Failure(e) => Failure(e)
      case Success(dates) =>
        if exists k :: 0 <= k < |dates| && !dates[k].Text? then Failure("AttributeError: no split")
        else Success(Rows(paths, titles, dates))
  }

  /** The rows zipped from the path, title and date columns. */
  function Rows(paths: seq<string>, titles: seq<Field>, dates: seq<Field>): (r: seq<Post>)
    requires |titles| == |paths| && |dates| == |paths|
    requires forall k :: 0 <= k < |dates| ==> dates[k].Text?
    ensures |r| == |paths| && forall k :: 0 <= k < |paths| ==> r[k] == Post(paths[k], titles[k], dates[k].text)
  {
    seq(|paths|, k requires 0 <= k < |paths| => Post(paths[k], titles[k], dates[k].text))
  }

  /** `date.split("-")[0]`. */
  function YearOf(date: string): string {
    Split(date, "-")[0]
  }

  /** The year is the text of the date before its first `-`. */
  lemma YearOfPrefix(date: string)
    ensures StartsWith(date, YearOf(date)) && !Contains(YearOf(date), "-")
    ensures |YearOf(date)| < |date| ==> date[|YearOf(date)|] == '-'
  {
    SplitHead(date, "-");
    FirstPieceThenSeparator(date, "-");
    var y := YearOf(date);
    if |y| < |date| {
      assert date[|y|..|y| + 1][0] == date[|y|];
    }
  }

  /** Unless it is the whole text, the first piece of a split is followed by the separator. */
  lemma FirstPieceThenSeparator(s: string, sep: string)
    requires sep != []
    ensures |Split(s, sep)[0]| < |s| ==> OccursAt(s, sep, |Split(s, sep)[0]|)
  {
    match IndexOf(s, sep)
    case None =>
    case Some(i) =>
      assert Split(s, sep)[0] == s[..i];
  }

  /** Python's ordering of strings: code point by code point, a proper prefix first. */
  predicate LexLess(a: string, b: string)
    decreases |a|
  {
    b != [] && (a == [] || a[0] < b[0] || (a[0] == b[0] && LexLess(a[1..], b[1..])))
  }

  lemma {:induction false} LexIrreflexive(a: string)
    ensures !LexLess(a, a)
    decreases |a|
  {
    if a != [] {
      LexIrreflexive(a[1..]);
    }
  }

  lemma {:induction false} LexTotal(a: string, b: string)
    ensures a == b || LexLess(a, b) || LexLess(b, a)
    decreases |a|
  {
    if a != [] && b != [] && a[0] == b[0] {
      LexTotal(a[1..], b[1..]);
      if a[1..] == b[1..] {
        assert a == [a[0]] + a[1..] && b == [b[0]] + b[1..];
      }
    }
  }

  lemma {:induction false} LexTransitive(a: string, b: string, c: string)
    requires LexLess(a, b) && LexLess(b, c)
    ensures LexLess(a, c)
    decreases |a|
  {
    if a != [] && a[0] == b[0] && b[0] == c[0] {
      LexTransitive(a[1..], b[1..], c[1..]);
    }
  }

  lemma {:induction false} LexAsymmetric(a: string, b: string)
    requires LexLess(a, b)
    ensures !LexLess(b, a)
    decreases |a|
  {
    if a != [] && a[0] == b[0] {
      LexAsymmetric(a[1..], b[1..]);
    }
  }

  /** "At least" is transitive too. */
  lemma {:induction false} NotLessTransitive(a: string, b: string, c: string)
    requires !LexLess(a, b) && !LexLess(b, c)
    ensures !LexLess(a, c)
    decreases |a|
  {
    if c != [] && a != [] && a[0] == b[0] && b[0] == c[0] {
      NotLessTransitive(a[1..], b[1..], c[1..]);
    }
  }

  /** Each later element is at most each earlier one. */
  predicate Descending(s: seq<string>) {
    forall i, j :: 0 <= i < j < |s| ==> !LexLess(s[i], s[j])
  }

  /** Each later element is below each earlier one, so none repeats. */
  predicate StrictlyDescending(s: seq<string>) {
    forall i, j :: 0 <= i < j < |s| ==> LexLess(s[j], s[i])
  }

  function InsertDescending(y: string, s: seq<string>): (r: seq<string>)
    ensures multiset(r) == multiset(s) + multiset{y}
  {
    if s == [] || !LexLess(y, s[0]) then [y] + s
    else
      assert s == [s[0]] + s[1..];
      [s[0]] + InsertDescending(y, s[1..])
  }

  /** `sort_values(ascending=False)`. */
  function SortDescending(ys: seq<string>): (r: seq<string>)
    ensures multiset(r) == multiset(ys)
  {
    if ys == [] then []
    else
      assert ys == [ys[0]] + ys[1..];
      InsertDescending(ys[0], SortDescending(ys[1..]))
  }

  lemma {:induction false} InsertDescendingSorted(y: string, s: seq<string>)
    requires Descending(s)
    ensures Descending(InsertDescending(y, s))
    decreases |s|
  {
    if s != [] && LexLess(y, s[0]) {
      InsertDescendingSorted(y, s[1..]);
      var t := InsertDescending(y, s[1..]);
      assert InsertDescending(y, s) == [s[0]] + t;
      forall j | 0 <= j < |t| ensures !LexLess(s[0], t[j]) {
        assert t[j] in multiset(t);
        if t[j] == y {
          LexAsymmetric(y, s[0]);
        } else {
          assert t[j] in multiset(s[1..]);
          var k :| 0 <= k < |s[1..]| && s[1..][k] == t[j];
          assert s[k + 1] == t[j];
        }
      }
    } else if s != [] {
      forall j | 0 < j < |s| ensures !LexLess(y, s[j]) {
        NotLessTransitive(y, s[0], s[j]);
      }
    }
  }

  lemma {:induction false} SortDescendingSorted(ys: seq<string>)
    ensures Descending(SortDescending(ys))
    decreases |ys|
  {
    if ys != [] {
      SortDescendingSorted(ys[1..]);
      InsertDescendingSorted(ys[0], SortDescending(ys[1..]));
    }
  }

  /** `unique()`: each value once, at its first occurrence. */
  function Unique(s: seq<string>): (r: seq<string>)
    ensures forall y :: y in r <==> y in s
  {
    if s == [] then []
    else
      var u := Unique(s[..|s| - 1]);
      assert forall y :: y in s <==> y in s[..|s| - 1] || y == s[|s| - 1];
      if s[|s| - 1] in u then u else u + [s[|s| - 1]]
  }

  lemma {:induction false} UniqueOfDescending(s: seq<string>)
    requires Descending(s)
    ensures StrictlyDescending(Unique(s))
    decreases |s|
  {
    if s != [] {
      var front := s[..|s| - 1];
      var x := s[|s| - 1];
      UniqueOfDescending(front);
      var u := Unique(front);
      if x !in u {
        forall i | 0 <= i < |u| ensures LexLess(x, u[i]) {
          assert u[i] in front;
          var k :| 0 <= k < |front| && front[k] == u[i];
          assert !LexLess(s[k], x);
          LexTotal(x, u[i]);
        }
      }
    }
  }

  function YearList(posts: seq<Post>): (r: seq<string>)
    ensures |r| == |posts| && forall k :: 0 <= k < |posts| ==> r[k] == YearOf(posts[k].date)
  {
    seq(|posts|, k requires 0 <= k < |posts| => YearOf(posts[k].date))
  }

  /** The `years` list: the leading segments of the dates, sorted descending, each once. */
  function Years(posts: seq<Post>): seq<string> {
    Unique(SortDescending(YearList(posts)))
  }

  /** `years` is strictly descending and holds exactly the years of the posts. */
  lemma YearsDistinctDescending(posts: seq<Post>)
    ensures StrictlyDescending(Years(posts))
    ensures forall y :: y in Years(posts) <==> exists k :: 0 <= k < |posts| && y == YearOf(posts[k].date)
  {
    var ys := YearList(posts);
    SortDescendingSorted(ys);
    UniqueOfDescending(SortDescending(ys));
    forall y ensures y in SortDescending(ys) <==> y in ys {
      assert y in SortDescending(ys) <==> y in multiset(SortDescending(ys));
    }
  }

  /** The characters `lstrip("content/")` removes. */
  const ContentChars: set<char> := {'c', 'o', 'n', 't', 'e', '/'}

  function ShortPath(path: string): string {
    LStripChars(path, ContentChars)
  }

  /** One year's entries: `(title, short path)` of each row whose date starts with the year, in row order. */
  function Group(posts: seq<Post>, year: string): (r: seq<(Field, string)>)
    ensures |r| <= |posts|
  {
    if posts == [] then []
    else
      var p := posts[|posts| - 1];
      var rest := Group(posts[..|posts| - 1], year);
      if StartsWith(p.date, year) then rest + [EntryOf(p)] else rest
  }

  /** The `entries` dictionary: one group per year. */
  function YearGroups(posts: seq<Post>): map<string, seq<(Field, string)>> {
    var years := Years(posts);
    map y | y in years :: Group(posts, y)
  }

  /** The entry a row contributes to its year's group. */
  function EntryOf(p: Post): (Field, string) {
    (p.title, ShortPath(p.path))
  }

  /** A row whose date starts with the year is in that year's group. */
  lemma {:induction false} GroupHas(posts: seq<Post>, year: string, k: nat)
    requires k < |posts| && StartsWith(posts[k].date, year)
    ensures EntryOf(posts[k]) in Group(posts, year)
    decreases |posts|
  {
    var front := posts[..|posts| - 1];
    if k < |front| {
      GroupHas(front, year, k);
      assert front[k] == posts[k];
    }
  }

  /** Each entry of a year's group comes from a row whose date starts with the year. */
  lemma {:induction false} GroupOnly(posts: seq<Post>, year: string, e: (Field, string))
    requires e in Group(posts, year)
    ensures exists j :: 0 <= j < |posts| && StartsWith(posts[j].date, year) && e == EntryOf(posts[j])
    decreases |posts|
  {
    var front := posts[..|posts| - 1];
    if e in Group(front, year) {
      GroupOnly(front, year, e);
      var j :| 0 <= j < |front| && StartsWith(front[j].date, year) && e == EntryOf(front[j]);
      assert posts[j] == front[j];
    } else {
      GroupOnlyLast(posts, year, e);
    }
  }

  /** An entry the earlier rows did not contribute comes from the last row. */
  lemma GroupOnlyLast(posts: seq<Post>, year: string, e: (Field, string))
    requires posts != [] && e in Group(posts, year) && e !in Group(posts[..|posts| - 1], year)
    ensures StartsWith(posts[|posts| - 1].date, year) && e == EntryOf(posts[|posts| - 1])
  {
  }

  /** Every post is listed under its own year. */
  lemma PostInItsYear(posts: seq<Post>, k: nat)
    requires k < |posts|
    ensures var y := YearOf(posts[k].date);
      y in YearGroups(posts) && EntryOf(posts[k]) in YearGroups(posts)[y]
  {
    YearsDistinctDescending(posts);
    YearOfPrefix(posts[k].date);
    GroupHas(posts, YearOf(posts[k].date), k);
  }

  /**
   * Grouping is by prefix, so a post is only kept out of a year of the same
   * length as its own: when all years have the same length, each post is
   * listed under its own year and no other.
   */
  lemma OnlyOwnYearOfSameLength(date: string, year: string)
    requires StartsWith(date, year) && |year| == |YearOf(date)|
    ensures year == YearOf(date)
  {
    YearOfPrefix(date);
  }

  /** The navigation `mkdocs_yml` renders: the `years` list and the `entries` dictionary. */
  datatype Nav = Nav(years: seq<string>, entries: map<string, seq<(Field, string)>>)

  /** `mkdocs_yml` up to the template: the data frame's rows, then the years and their groups. */
  function MkdocsNav(meta: map<string, Metadata>, paths: seq<string>): Result<Nav, string>
    requires forall k :: 0 <= k < |paths| ==> paths[k] in meta
  {
    match Posts(meta, paths)
    case Failure(e) => Failure(e)
    case Success(rows) => Success(Nav(Years(rows), YearGroups(rows)))
  }

  /** A row's fields as `mkdocs_yml` reads them from the metadata. */
  predicate RowOf(meta: map<string, Metadata>, path: string, row: Post) {
    path in meta && "title" in meta[path] && "date" in meta[path] &&
    row == Post(path, meta[path]["title"], row.date) && meta[path]["date"] == Text(row.date)
  }

  /**
   * The data frame has one row per path, in order, with that path's title
   * and date; building it fails exactly when some path lacks a title or a
   * date, or has a date that is not text. A missing title is reported
   * before a missing date, and both before a date that is not text.
   */
  lemma PostsRows(meta: map<string, Metadata>, paths: seq<string>)
    requires forall k :: 0 <= k < |paths| ==> paths[k] in meta
    ensures Posts(meta, paths).Success? ==>
      |Posts(meta, paths).value| == |paths| &&
      forall k :: 0 <= k < |paths| ==> RowOf(meta, paths[k], Posts(meta, paths).value[k])
    ensures Posts(meta, paths).Failure? <==>
      exists k :: 0 <= k < |paths| && !("title" in meta[paths[k]] &&
        "date" in meta[paths[k]] && meta[paths[k]]["date"].Text?)
    ensures (exists k :: 0 <= k < |paths| && "title" !in meta[paths[k]]) ==>
      Posts(meta, paths) == Failure(KeyError("title"))
    ensures ((forall k :: 0 <= k < |paths| ==> "title" in meta[paths[k]]) &&
      (exists k :: 0 <= k < |paths| && "date" !in meta[paths[k]])) ==>
      Posts(meta, paths) == Failure(KeyError("date"))
  {
    var titles := Column(meta, paths, "title");
    var dates := Column(meta, paths, "date");
    if titles.Success? && dates.Success? {
      assert forall k :: 0 <= k < |paths| ==> dates.value[k] == meta[paths[k]]["date"];
    }
  }

  /**
   * When `mkdocs_yml` succeeds its years are strictly descending, and every
   * post is listed under its own year with its title and shortened path.
   */
  lemma MkdocsNavListsEveryPost(meta: map<string, Metadata>, paths: seq<string>, k: nat)
    requires forall k :: 0 <= k < |paths| ==> paths[k] in meta
    requires MkdocsNav(meta, paths).Success? && k < |paths|
    ensures StrictlyDescending(MkdocsNav(meta, paths).value.years)
    ensures var nav := MkdocsNav(meta, paths).value;
      "date" in meta[paths[k]] && meta[paths[k]]["date"].Text? &&
      var year := YearOf(meta[paths[k]]["date"].text);
      year in nav.years && year in nav.entries &&
      ("title" in meta[paths[k]] && (meta[paths[k]]["title"], ShortPath(paths[k])) in nav.entries[year])
  {
    var rows := Posts(meta, paths).value;
    PostsRows(meta, paths);
    YearsDistinctDescending(rows);
    PostInItsYear(rows, k);
  }

  /** `list(metadata.keys())`: the post paths in the order the dictionary first received them. */
  function KeyOrder(files: seq<string>): seq<string> {
    Unique(seq(|files|, k requires 0 <= k < |files| => PostPath(files[k])))
  }

  /**
   * The two tasks run in turn, `blog_meta` then `mkdocs_yml`: the navigation
   * built from the posts' metadata, in the dictionary's key order.
   */
  function MkdocsYml(names: seq<string>, read: string -> string, yaml: string -> Option<Metadata>): Result<Nav, string>
  {
    match BlogMetaOf(names, read, yaml)
    case Failure(e) => Failure(e)
    case Success(meta) =>
      KeyOrderInMeta(MarkdownFiles(names), PostOf(read, yaml));
      MkdocsNav(meta, KeyOrder(MarkdownFiles(names)))
  }

  /** Every path of the key order is a key of the dictionary the files filled. */
  lemma KeyOrderInMeta(files: seq<string>, post: string -> Result<Metadata, string>)
    requires Collect(files, post).Success?
    ensures forall k :: 0 <= k < |KeyOrder(files)| ==> KeyOrder(files)[k] in Collect(files, post).value
  {
    CollectKeys(files, post);
    var all := seq(|files|, k requires 0 <= k < |files| => PostPath(files[k]));
    forall k | 0 <= k < |KeyOrder(files)|
      ensures KeyOrder(files)[k] in Collect(files, post).value
    {
      var y := KeyOrder(files)[k];
      assert y in all;
      var j :| 0 <= j < |all| && all[j] == y;
      assert y == PostPath(files[j]);
    }
  }

  /**
   * When both tasks succeed, every Markdown file of the blog directory is
   * listed under the year of its date, with its title and its path below
   * `blog/`; the title and date are those of the file's front matter.
   */
  lemma MkdocsYmlListsEveryPost(names: seq<string>, read: string -> string, yaml: string -> Option<Metadata>, f: string)
    requires MkdocsYml(names, read, yaml).Success? && f in names && EndsWith(f, ".md")
    ensures BlogMetaOf(names, read, yaml).Success? && PostPath(f) in BlogMetaOf(names, read, yaml).value
    ensures var nav := MkdocsYml(names, read, yaml).value;
      var m := BlogMetaOf(names, read, yaml).value[PostPath(f)];
      ReadBack(read(PostPath(f)), yaml, m) &&
      "title" in m && "date" in m && m["date"].Text? &&
      var year := YearOf(m["date"].text);
      year in nav.years && year in nav.entries && (m["title"], "blog/" + f) in nav.entries[year]
  {
    var files := MarkdownFiles(names);
    var meta := BlogMetaOf(names, read, yaml).value;
    var i :| 0 <= i < |files| && files[i] == f;
    BlogMetaHas(names, read, yaml, i);
    KeyOrderInMeta(files, PostOf(read, yaml));
    assert MkdocsYml(names, read, yaml) == MkdocsNav(meta, KeyOrder(files));
    NavListsFile(meta, files, i);
  }

  /** The dictionary `blog_meta` filled holds the metadata of each Markdown file. */
  lemma BlogMetaHas(names: seq<string>, read: string -> string, yaml: string -> Option<Metadata>, i: nat)
    requires BlogMetaOf(names, read, yaml).Success? && i < |MarkdownFiles(names)|
    ensures var key := PostPath(MarkdownFiles(names)[i]); var meta := BlogMetaOf(names, read, yaml).value;
      key in meta && ReadBack(read(key), yaml, meta[key])
  {
    BlogMetaResult(names, read, yaml);
  }

  /** The navigation built in key order lists the post of each file under its year. */
  lemma NavListsFile(meta: map<string, Metadata>, files: seq<string>, i: nat)
    requires i < |files| && forall k :: 0 <= k < |KeyOrder(files)| ==> KeyOrder(files)[k] in meta
    requires MkdocsNav(meta, KeyOrder(files)).Success?
    ensures PostPath(files[i]) in meta
    ensures var nav := MkdocsNav(meta, KeyOrder(files)).value; var m := meta[PostPath(files[i])];
      "title" in m && "date" in m && m["date"].Text? &&
      var year := YearOf(m["date"].text);
      year in nav.years && year in nav.entries && (m["title"], "blog/" + files[i]) in nav.entries[year]
  {
    var paths := KeyOrder(files);
    assert PostPath(files[i]) in paths by {
      var all := seq(|files|, k requires 0 <= k < |files| => PostPath(files[k]));
      assert all[i] == PostPath(files[i]);
    }
    var k :| 0 <= k < |paths| && paths[k] == PostPath(files[i]);
    MkdocsNavListsEveryPost(meta, paths, k);
    BlogPathShortened(files[i]);
  }

  /** A post path under `content/blog/` loses exactly `content/`. */
  lemma BlogPathShortened(name: string)
    ensures ShortPath(PostPath(name)) == "blog/" + name
  {
    assert PostPath(name) == "content/" + ("blog/" + name);
    LStripRun("content/", "blog/" + name, ContentChars);
  }

  /** The set is not the prefix: `content/note.md` would lose `note` as well. */
  lemma CharSetNotPrefix()
    ensures ShortPath("content/note.md") == ".md"
  {
    assert "content/note.md" == "content/note" + ".md";
    LStripRun("content/note", ".md", ContentChars);
  }
}
