/**
 * The page assembler script `mdscript.py`: it reads its options, runs the
 * Markdown command on one file and writes `<name>.html`, a fixed XHTML
 * skeleton around the converted text. When that HTML file already exists and
 * no title was given, the title of the old page is reused.
 *
 * The Markdown command's output, the files the script may read (the old page,
 * `header.txt`, `footer.txt`) and today's date are inputs (`Env`).
 */
module PageAssembler {
  import opened Wrappers
  import opened Text
  import opened Dates

  // ---------------------------------------------------------------- options

  /**
   * The dictionary built from getopt's `(option, value)` pairs, in order, each
   * pair overwriting an earlier one with the same option (flags carry `""`).
   */
  function OptionsMap(pairs: seq<(string, string)>): map<string, string>
  {
    if pairs == [] then map[]
    else OptionsMap(pairs[..|pairs| - 1])[pairs[|pairs| - 1].0 := pairs[|pairs| - 1].1]
  }

  /** The loop that fills `opts` from getopt's list. */
  method CollectOptions(pairs: seq<(string, string)>) returns (opts: map<string, string>)
    ensures opts == OptionsMap(pairs)
  {
    opts := map[];
    var i := 0;
    while i < |pairs|
      invariant 0 <= i <= |pairs|
      invariant opts == OptionsMap(pairs[..i])
    {
      assert pairs[..i + 1][..i] == pairs[..i];
      opts := opts[pairs[i].0 := pairs[i].1];
      i := i + 1;
    }
    assert pairs[..|pairs|] == pairs;
  }

  /**
   * An option is present exactly when some pair names it, and its value is
   * the one of the last pair that names it.
   */
  lemma {:induction false} OptionsLastWins(pairs: seq<(string, string)>, key: string)
    ensures key in OptionsMap(pairs) <==> exists i :: 0 <= i < |pairs| && pairs[i].0 == key
    ensures forall i :: (0 <= i < |pairs| && pairs[i].0 == key &&
        (forall j :: i < j < |pairs| ==> pairs[j].0 != key)) ==>
      key in OptionsMap(pairs) && OptionsMap(pairs)[key] == pairs[i].1
  {
    if pairs != [] {
      var init := pairs[..|pairs| - 1];
      OptionsLastWins(init, key);
      forall i | 0 <= i < |init| ensures init[i] == pairs[i] { }
      if pairs[|pairs| - 1].0 != key {
        if key in OptionsMap(pairs) {
          var i :| 0 <= i < |init| && init[i].0 == key;
          assert pairs[i].0 == key;
        }
      }
    }
  }

  // -------------------------------------------------------- body attributes

  /** One attribute as the script formats it: ` name="value"`. */
  function Attribute(name: string, value: string): string
  {
    " " + name + "=\"" + value + "\""
  }

  /** The attribute for `option` when it was given, else nothing. */
  function IfGiven(opts: map<string, string>, option: string, name: string): string
  {
    if option in opts then Attribute(name, opts[option]) else ""
  }

  /**
   * `body_string`: the attributes of the colour options that were given, in
   * the fixed order bgcolor, text, link, vlink.
   */
  function BodyString(opts: map<string, string>): string
  {
    IfGiven(opts, "--bg-color", "bgcolor") + IfGiven(opts, "--text-color", "text") +
    IfGiven(opts, "--link-color", "link") + IfGiven(opts, "--vlink-color", "vlink")
  }

  /** The successive `body_string +=` steps, one per colour option. */
  method BodyAttributes(opts: map<string, string>) returns (body: string)
    ensures body == BodyString(opts)
  {
    body := "";
    if "--bg-color" in opts {
      body := body + Attribute("bgcolor", opts["--bg-color"]);
    }
    assert body == IfGiven(opts, "--bg-color", "bgcolor");
    if "--text-color" in opts {
      body := body + Attribute("text", opts["--text-color"]);
    }
    assert body == IfGiven(opts, "--bg-color", "bgcolor") + IfGiven(opts, "--text-color", "text");
    if "--link-color" in opts {
      body := body + Attribute("link", opts["--link-color"]);
    }
    assert body == IfGiven(opts, "--bg-color", "bgcolor") + IfGiven(opts, "--text-color", "text") +
      IfGiven(opts, "--link-color", "link");
    if "--vlink-color" in opts {
      body := body + Attribute("vlink", opts["--vlink-color"]);
    }
  }

  /** Without colour options the `<body>` tag has no attributes. */
  lemma NoColoursNoAttributes(opts: map<string, string>)
    requires "--bg-color" !in opts && "--text-color" !in opts
    requires "--link-color" !in opts && "--vlink-color" !in opts
    ensures BodyString(opts) == ""
  {
  }

  /** All four colours given: the attributes come in the fixed order bgcolor, text, link, vlink. */
  lemma AllColoursInOrder(opts: map<string, string>)
    requires "--bg-color" in opts && "--text-color" in opts && "--link-color" in opts && "--vlink-color" in opts
    ensures var bg, text, link, vlink := opts["--bg-color"], opts["--text-color"], opts["--link-color"], opts["--vlink-color"];
      BodyString(opts) ==
      " bgcolor=\"" + bg + "\" text=\"" + text + "\" link=\"" + link + "\" vlink=\"" + vlink + "\""
  {
    var q := "\"";
    var p1, p2, p3, p4 := " bgcolor=\"", " text=\"", " link=\"", " vlink=\"";
    assert " " + "bgcolor" + "=\"" == p1 && " " + "text" + "=\"" == p2;
    assert " " + "link" + "=\"" == p3 && " " + "vlink" + "=\"" == p4;
    assert q + p2 == "\" text=\"" && q + p3 == "\" link=\"" && q + p4 == "\" vlink=\"";
    Interleave(p1, opts["--bg-color"], p2, opts["--text-color"], p3, opts["--link-color"], p4, opts["--vlink-color"], q);
  }

  /** Four `prefix + value + quote` pieces, regrouped so that each quote joins the next prefix. */
  lemma Interleave<T>(p1: seq<T>, v1: seq<T>, p2: seq<T>, v2: seq<T>, p3: seq<T>, v3: seq<T>, p4: seq<T>, v4: seq<T>, q: seq<T>)
    ensures (p1 + v1 + q) + (p2 + v2 + q) + (p3 + v3 + q) + (p4 + v4 + q) ==
      p1 + v1 + (q + p2) + v2 + (q + p3) + v3 + (q + p4) + v4 + q
  {
  }

  lemma FourParts(a: string, b: string, c: string, d: string)
    ensures var s := a + b + c + d;
      Contains(s, a) && Contains(s, b) && Contains(s, c) && Contains(s, d)
  {
    var s := a + b + c + d;
    assert s[..|a|] == a;
    assert OccursAt(s, a, 0);
    assert s[|a|..|a| + |b|] == b;
    assert OccursAt(s, b, |a|);
    assert s[|a| + |b|..|a| + |b| + |c|] == c;
    assert OccursAt(s, c, |a| + |b|);
    assert s[|a| + |b| + |c|..] == d;
    assert OccursAt(s, d, |a| + |b| + |c|);
  }

  /** Every colour option that was given contributes its attribute. */
  lemma GivenColourAppears(opts: map<string, string>)
    ensures "--bg-color" in opts ==> Contains(BodyString(opts), Attribute("bgcolor", opts["--bg-color"]))
    ensures "--text-color" in opts ==> Contains(BodyString(opts), Attribute("text", opts["--text-color"]))
    ensures "--link-color" in opts ==> Contains(BodyString(opts), Attribute("link", opts["--link-color"]))
    ensures "--vlink-color" in opts ==> Contains(BodyString(opts), Attribute("vlink", opts["--vlink-color"]))
  {
    FourParts(IfGiven(opts, "--bg-color", "bgcolor"), IfGiven(opts, "--text-color", "text"),
      IfGiven(opts, "--link-color", "link"), IfGiven(opts, "--vlink-color", "vlink"));
  }

  // ---------------------------------------------------------------- file name

  /**
   * `filename.split('.')` followed by `tmp[0]` and `tmp[1]`: the text before
   * the first dot, or `None` (the "no extension" exit) when there is no dot.
   */
  function BaseName(file: string): (r: Option<string>)
  {
    var parts := Split(file, ".");
    if |parts| < 2 then None else Some(parts[0])
  }

  /** The base name exists iff the file name has a dot, and is the text before the first dot. */
  lemma BaseNameSpec(file: string)
    ensures BaseName(file).None? <==> !Contains(file, ".")
    ensures BaseName(file).Some? ==>
      var name := BaseName(file).value;
      StartsWith(file, name) && |name| < |file| && file[|name|] == '.' &&
      forall k :: 0 <= k < |name| ==> name[k] != '.'
  {
    SplitHead(file, ".");
    if BaseName(file).Some? {
      var name := BaseName(file).value;
      var i := IndexOf(file, ".").value;
      assert name == file[..i];
      forall k | 0 <= k < |name| ensures name[k] != '.' {
        assert !OccursAt(file, ".", k);
        assert file[k..k + 1] == [file[k]];
      }
      assert file[i..i + 1] == ".";
    }
  }

  /** A name whose first dot starts a relative path loses everything: `./post.md` gives `""`. */
  lemma BaseNameOfDotPath(rest: string)
    ensures BaseName("." + rest) == Some("")
  {
    SplitHead("." + rest, ".");
    assert OccursAt("." + rest, ".", 0);
  }

  // ------------------------------------------------------------ title search

  /** Case folding of `re.IGNORECASE` on a Python 2 byte string: ASCII letters only. */
  function AsciiLower(c: char): (r: char)
    ensures ('A' <= c <= 'Z') ==> r as int == c as int + 32
    ensures !('A' <= c <= 'Z') ==> r == c
  {
    if 'A' <= c <= 'Z' then ((c as int) + 32) as char else c
  }

  /** `w` is the lower-case pattern `p` up to case. */
  predicate MatchCI(w: string, p: string) {
    |w| == |p| && forall k :: 0 <= k < |p| ==> AsciiLower(w[k]) == p[k]
  }

  /** The lower-case pattern `p` matches `s` at `i`, ignoring case. */
  predicate OccursAtCI(s: string, p: string, i: nat) {
    i + |p| <= |s| && MatchCI(s[i..i + |p|], p)
  }

  /** A mismatch at offset `k` (or too little text) rules out a match at `i`. */
  lemma MismatchCI(s: string, p: string, i: nat, k: nat)
    requires k < |p| && (i + |p| > |s| || AsciiLower(s[i + k]) != p[k])
    ensures !OccursAtCI(s, p, i)
  {
    if i + |p| <= |s| {
      assert s[i..i + |p|][k] == s[i + k];
    }
  }

  /** A match inside a slice is a match in the whole text, shifted by the slice start. */
  lemma OccursAtCISlice(s: string, x: nat, y: nat, p: string, q: nat)
    requires x <= y <= |s|
    ensures OccursAtCI(s[x..y], p, q) <==> q + |p| <= y - x && OccursAtCI(s, p, x + q)
  {
    if q + |p| <= y - x {
      var n := |p|;
      var w, v := s[x..y][q..q + n], s[x + q..x + q + n];
      forall i | 0 <= i < n ensures w[i] == v[i] {
        assert w[i] == s[x..y][q + i] == s[x + q + i];
      }
      assert w == v;
    }
  }

  /** `re.search` for a pattern without special characters: the first match at or after `from`. */
  function FindCIFrom(s: string, p: string, from: nat): (r: Option<nat>)
    decreases |s| - from
    ensures r.Some? ==> from <= r.value && OccursAtCI(s, p, r.value)
    ensures r.Some? ==> forall j :: from <= j < r.value ==> !OccursAtCI(s, p, j)
    ensures r.None? ==> forall j: nat :: from <= j ==> !OccursAtCI(s, p, j)
  {
    if from + |p| > |s| then None
    else if OccursAtCI(s, p, from) then Some(from)
    else FindCIFrom(s, p, from + 1)
  }

  function FindCI(s: string, p: string): (r: Option<nat>)
    ensures r.None? <==> forall j: nat :: !OccursAtCI(s, p, j)
    ensures r.Some? ==> OccursAtCI(s, p, r.value) && forall j :: 0 <= j < r.value ==> !OccursAtCI(s, p, j)
  {
    FindCIFrom(s, p, 0)
  }

  /** A match with no match before it is the one `re.search` finds. */
  lemma FindCIIs(s: string, p: string, q: nat)
    requires OccursAtCI(s, p, q)
    requires forall j :: 0 <= j < q ==> !OccursAtCI(s, p, j)
    ensures FindCI(s, p) == Some(q)
  {
    assert FindCI(s, p).Some?;
  }

  const OpenTitle := "<title>"
  const CloseTitle := "</title>"

  /**
   * The title of an existing page: the text between the end of the first
   * `<title>` and the start of the first `</title>`, ignoring case; empty when
   * either is missing, and (Python slicing) when the close tag comes first.
   * It never contains a close tag itself.
   */
  function ExtractTitle(html: string): (r: string)
    ensures FindCI(r, CloseTitle).None?
    ensures FindCI(html, OpenTitle).None? || FindCI(html, CloseTitle).None? ==> r == ""
  {
    match (FindCI(html, OpenTitle), FindCI(html, CloseTitle))
    case (Some(i), Some(j)) =>
      var x := i + |OpenTitle|;
      if x <= j then
        var r := html[x..j];
        forall q: nat ensures !OccursAtCI(r, CloseTitle, q) {
          OccursAtCISlice(html, x, j, CloseTitle, q);
        }
        r
      else ""
    case _ => ""
  }

  // ------------------------------------------------------------ page skeleton

  /**
   * The constants of the script's header, written as concatenations of short
   * pieces; each equals the script's single-line literal.
   */
  const DocType := "<!DOCTYPE html PUBLIC " + "\"-//W3C//DTD XHTML 1.0 " + "Transitional//EN\" " +
    "\"http://www.w3.org/TR/" + "xhtml1/DTD/xhtml1-" + "transitional.dtd\">"
  const HtmlTag := "<html xmlns=" + "\"http://www.w3.org/1999/xhtml\" " + "lang=\"en\" xml:lang=\"en\">"
  const MetaTag := "<meta http-equiv=" + "\"Content-Type\" " + "content=\"text/html;" + "charset=utf-8\"/>"
  const PostText := "</body>\n</html>"

  /** `pre_text`: the DOCTYPE line only when it is used, then `<html>`, `<head>` and the meta line. */
  function PreText(useDoctype: bool): string
  {
    (if useDoctype then DocType + "\n" else "") + HtmlTag + "\n<head>\n" + MetaTag + "\n"
  }

  /** `title_text`: the title element and the end of the head. */
  function TitleText(title: string): string
  {
    OpenTitle + title + CloseTitle + "\n</head>\n"
  }

  /**
   * Every `<` of `s` is followed, inside `s`, by a character that can start
   * neither `title>` nor `/title>` in any case.
   */
  predicate TagFree(s: string) {
    forall k :: 0 <= k < |s| && s[k] == '<' ==>
      k + 1 < |s| && AsciiLower(s[k + 1]) != 't' && s[k + 1] != '/'
  }

  lemma TagFreeAppend(a: string, b: string)
    requires TagFree(a) && TagFree(b)
    ensures TagFree(a + b)
  {
    forall k | 0 <= k < |a + b| && (a + b)[k] == '<'
      ensures k + 1 < |a + b| && AsciiLower((a + b)[k + 1]) != 't' && (a + b)[k + 1] != '/'
    {
      if k < |a| {
        assert a[k] == '<';
      } else {
        assert b[k - |a|] == '<';
      }
    }
  }

  /** `s` has no `<` at all. */
  predicate NoLt(s: string) {
    forall k :: 0 <= k < |s| ==> s[k] != '<'
  }

  /** A piece whose only `<` is its first character, followed by a harmless one. */
  lemma TagFreePiece(s: string)
    requires |s| >= 2 && AsciiLower(s[1]) != 't' && s[1] != '/' && NoLt(s[1..])
    ensures TagFree(s)
  {
    forall k | 1 <= k < |s| ensures s[k] != '<' {
      assert s[k] == s[1..][k - 1];
    }
  }

  lemma TagFreePlain(s: string)
    requires NoLt(s)
    ensures TagFree(s)
  {
  }

  lemma TagFreeJoin(a: string, b: string, c: string, d: string, e: string, f: string)
    requires TagFree(a) && TagFree(b) && TagFree(c) && TagFree(d) && TagFree(e) && TagFree(f)
    ensures TagFree(a + b + c + d + e + f)
  {
    TagFreeAppend(a, b);
    TagFreeAppend(a + b, c);
    TagFreeAppend(a + b + c, d);
    TagFreeAppend(a + b + c + d, e);
    TagFreeAppend(a + b + c + d + e, f);
  }

  lemma DocTypePiecesTagFree()
    ensures TagFree("<!DOCTYPE html PUBLIC ") && TagFree("\"-//W3C//DTD XHTML 1.0 ")
    ensures TagFree("Transitional//EN\" ") && TagFree("\"http://www.w3.org/TR/")
  {
    DocTypeHeadTagFree();
    assert NoLt("Transitional//EN\" ");
    TagFreePlain("Transitional//EN\" ");
    assert NoLt("\"http://www.w3.org/TR/");
    TagFreePlain("\"http://www.w3.org/TR/");
  }

  lemma DocTypeHeadTagFree()
    ensures TagFree("<!DOCTYPE html PUBLIC ") && TagFree("\"-//W3C//DTD XHTML 1.0 ")
  {
    assert NoLt("<!DOCTYPE html PUBLIC "[1..]);
    TagFreePiece("<!DOCTYPE html PUBLIC ");
    assert NoLt("\"-//W3C//DTD XHTML 1.0 ");
    TagFreePlain("\"-//W3C//DTD XHTML 1.0 ");
  }

  lemma DocTypeTagFree()
    ensures TagFree(DocType)
  {
    DocTypePiecesTagFree();
    assert NoLt("xhtml1/DTD/xhtml1-");
    TagFreePlain("xhtml1/DTD/xhtml1-");
    assert NoLt("transitional.dtd\">");
    TagFreePlain("transitional.dtd\">");
    TagFreeJoin("<!DOCTYPE html PUBLIC ", "\"-//W3C//DTD XHTML 1.0 ", "Transitional//EN\" ",
      "\"http://www.w3.org/TR/", "xhtml1/DTD/xhtml1-", "transitional.dtd\">");
  }

  lemma HtmlTagTagFree()
    ensures TagFree(HtmlTag)
  {
    assert NoLt("<html xmlns="[1..]);
    TagFreePiece("<html xmlns=");
    assert NoLt("\"http://www.w3.org/1999/xhtml\" ");
    TagFreePlain("\"http://www.w3.org/1999/xhtml\" ");
    assert NoLt("lang=\"en\" xml:lang=\"en\">");
    TagFreePlain("lang=\"en\" xml:lang=\"en\">");
    assert NoLt("");
    TagFreePlain("");
    TagFreeJoin("<html xmlns=", "\"http://www.w3.org/1999/xhtml\" ", "lang=\"en\" xml:lang=\"en\">", "", "", "");
    assert "<html xmlns=" + "\"http://www.w3.org/1999/xhtml\" " + "lang=\"en\" xml:lang=\"en\">" + "" + "" + "" == HtmlTag;
  }

  lemma MetaTagTagFree()
    ensures TagFree(MetaTag)
  {
    assert NoLt("<meta http-equiv="[1..]);
    TagFreePiece("<meta http-equiv=");
    assert NoLt("\"Content-Type\" ");
    TagFreePlain("\"Content-Type\" ");
    assert NoLt("content=\"text/html;");
    TagFreePlain("content=\"text/html;");
    assert NoLt("charset=utf-8\"/>");
    TagFreePlain("charset=utf-8\"/>");
    assert NoLt("");
    TagFreePlain("");
    TagFreeJoin("<meta http-equiv=", "\"Content-Type\" ", "content=\"text/html;", "charset=utf-8\"/>", "", "");
    assert "<meta http-equiv=" + "\"Content-Type\" " + "content=\"text/html;" + "charset=utf-8\"/>" + "" + "" == MetaTag;
  }

  /** The head written before the title holds no title tag, in any case. */
  lemma PreTextTagFree(useDoctype: bool)
    ensures TagFree(PreText(useDoctype))
  {
    DocTypeTagFree();
    HtmlTagTagFree();
    MetaTagTagFree();
    assert NoLt("\n");
    TagFreePlain("\n");
    assert NoLt("");
    TagFreePlain("");
    assert NoLt("<head>\n"[1..]);
    TagFreePiece("<head>\n");
    TagFreeAppend("\n", "<head>\n");
    assert "\n" + "<head>\n" == "\n<head>\n";
    var front := if useDoctype then DocType + "\n" else "";
    if useDoctype {
      TagFreeAppend(DocType, "\n");
    }
    TagFreeJoin(front, HtmlTag, "\n<head>\n", MetaTag, "\n", "");
    assert front + HtmlTag + "\n<head>\n" + MetaTag + "\n" + "" == PreText(useDoctype);
  }

  /** The title tags are their own lower-case forms. */
  lemma TitleTagsLower()
    ensures MatchCI(OpenTitle, OpenTitle) && MatchCI(CloseTitle, CloseTitle)
  {
  }

  /** No title tag, open or close, starts inside a tag-free prefix `pre` of `s`. */
  lemma NoTitleTagIn(s: string, pre: string, i: nat)
    requires TagFree(pre) && |pre| <= |s| && s[..|pre|] == pre && i < |pre|
    ensures !OccursAtCI(s, OpenTitle, i) && !OccursAtCI(s, CloseTitle, i)
  {
    assert s[i] == pre[i];
    if pre[i] == '<' {
      assert s[i + 1] == pre[i + 1];
      MismatchCI(s, OpenTitle, i, 1);
      MismatchCI(s, CloseTitle, i, 1);
    } else {
      MismatchCI(s, OpenTitle, i, 0);
      MismatchCI(s, CloseTitle, i, 0);
    }
  }

  /** After a tag-free prefix, an open tag is the first one `re.search` finds. */
  lemma OpenTagFound(s: string, pre: string)
    requires TagFree(pre) && |pre| + 7 <= |s| && s[..|pre|] == pre && s[|pre|..|pre| + 7] == OpenTitle
    ensures FindCI(s, OpenTitle) == Some(|pre|)
  {
    TitleTagsLower();
    forall j | 0 <= j < |pre| ensures !OccursAtCI(s, OpenTitle, j) {
      NoTitleTagIn(s, pre, j);
    }
    FindCIIs(s, OpenTitle, |pre|);
  }

  /**
   * A close tag cannot start inside a title free of close tags that is
   * directly followed by `<`: it would have to continue with `<`.
   */
  lemma NoCloseTagInTitle(s: string, x: nat, title: string, j: nat)
    requires x + |title| < |s| && s[x..x + |title|] == title && s[x + |title|] == '<'
    requires FindCI(title, CloseTitle).None?
    requires x <= j < x + |title|
    ensures !OccursAtCI(s, CloseTitle, j)
  {
    var p := j - x;
    if p + 8 <= |title| {
      OccursAtCISlice(s, x, x + |title|, CloseTitle, p);
    } else {
      var m := |title| - p;
      assert j + m == x + |title|;
      MismatchCI(s, CloseTitle, j, m);
    }
  }

  /** The close tag after `pre`, the open tag and a title free of close tags is the first one. */
  lemma CloseTagFound(s: string, pre: string, title: string)
    requires TagFree(pre) && FindCI(title, CloseTitle).None?
    requires var a, b := |pre|, |pre| + 7 + |title|;
      b + 8 <= |s| && s[..a] == pre && s[a..a + 7] == OpenTitle && s[a + 7..b] == title &&
      s[b..b + 8] == CloseTitle
    ensures FindCI(s, CloseTitle) == Some(|pre| + 7 + |title|)
  {
    TitleTagsLower();
    var a, b := |pre|, |pre| + 7 + |title|;
    assert s[b] == s[b..b + 8][0];
    forall j | 0 <= j < b ensures !OccursAtCI(s, CloseTitle, j) {
      if j < a {
        NoTitleTagIn(s, pre, j);
      } else if j == a {
        assert s[a + 1] == s[a..a + 7][1];
        MismatchCI(s, CloseTitle, j, 1);
      } else if j < a + 7 {
        assert s[j] == s[a..a + 7][j - a];
        MismatchCI(s, CloseTitle, j, 0);
      } else {
        NoCloseTagInTitle(s, a + 7, title, j);
      }
    }
    FindCIIs(s, CloseTitle, b);
  }

  lemma PageSlices(p: string, q: string, r: string, t: string, u: string, v: string)
    ensures var s := p + (q + r + t + u) + v; var a, b, c := |p|, |p| + |q|, |p| + |q| + |r|;
      c + |t| <= |s| && s[..a] == p && s[a..b] == q && s[b..c] == r && s[c..c + |t|] == t
  {
  }

  /**
   * The title written after a tag-free head is the title read back, as long
   * as it holds no close tag itself.
   */
  lemma ExtractTitleOfPage(pre: string, title: string, rest: string)
    requires TagFree(pre)
    requires FindCI(title, CloseTitle).None?
    ensures ExtractTitle(pre + TitleText(title) + rest) == title
  {
    var s := pre + TitleText(title) + rest;
    PageSlices(pre, OpenTitle, title, CloseTitle, "\n</head>\n", rest);
    OpenTagFound(s, pre);
    CloseTagFound(s, pre, title);
  }

  // ---------------------------------------------------------------- the date

  const MonthNames: seq<string> := ["January", "February", "March", "April", "May", "June",
    "July", "August", "September", "October", "November", "December"]

  /** `%d`: the day of the month as two digits. */
  function TwoDigits(n: nat): (r: string)
    requires n < 100
    ensures |r| == 2 && AllDigits(r) && ParseDecimal(r) == n
  {
    var r := [DigitChar(n / 10), DigitChar(n % 10)];
    assert r[..1] == [r[0]];
    r
  }

  /**
   * `strftime("%d %B %Y")` in the C locale. Python 2 refuses years before
   * 1900, so only those dates are formatted.
   */
  function LongDate(d: Date): (r: string)
    requires ValidDate(d) && d.year >= 1900
  {
    TwoDigits(d.day) + " " + MonthNames[d.month - 1] + " " + Decimal(d.year)
  }

  lemma FourDigitYear(y: nat)
    requires 1000 <= y < 10000
    ensures |Decimal(y)| == 4
  {
    assert |Decimal(y / 10 / 10 / 10)| == 1;
    assert |Decimal(y / 10 / 10)| == 2;
    assert |Decimal(y / 10)| == 3;
  }

  /** The month whose name is `name`, or 0. */
  function MonthNumber(name: string): (m: nat)
    ensures m <= 12
    ensures m >= 1 ==> MonthNames[m - 1] == name
  {
    if name == "January" then 1 else if name == "February" then 2
    else if name == "March" then 3 else if name == "April" then 4
    else if name == "May" then 5 else if name == "June" then 6
    else if name == "July" then 7 else if name == "August" then 8
    else if name == "September" then 9 else if name == "October" then 10
    else if name == "November" then 11 else if name == "December" then 12
    else 0
  }

  lemma MonthNumberOfName(m: int)
    requires 1 <= m <= 12
    ensures MonthNumber(MonthNames[m - 1]) == m
  {
  }

  /** Two different dates never give the same "Last updated" text. */
  lemma LongDateInjective(d1: Date, d2: Date)
    requires ValidDate(d1) && d1.year >= 1900
    requires ValidDate(d2) && d2.year >= 1900
    requires LongDate(d1) == LongDate(d2)
    ensures d1 == d2
  {
    var r := LongDate(d1);
    FourDigitYear(d1.year);
    FourDigitYear(d2.year);
    var t1, t2 := TwoDigits(d1.day), TwoDigits(d2.day);
    var m1, m2 := MonthNames[d1.month - 1], MonthNames[d2.month - 1];
    assert r == t1 + " " + m1 + " " + Decimal(d1.year);
    assert r == t2 + " " + m2 + " " + Decimal(d2.year);
    LongDateParts(t1, m1, Decimal(d1.year));
    LongDateParts(t2, m2, Decimal(d2.year));
    ParseDecimalOfDecimal(d1.year);
    ParseDecimalOfDecimal(d2.year);
    MonthNumberOfName(d1.month);
    MonthNumberOfName(d2.month);
  }

  /** Day, month name and year can be read back from their fixed places. */
  lemma LongDateParts(t: string, m: string, y: string)
    requires |t| == 2 && |y| == 4
    ensures var r := t + " " + m + " " + y;
      r[..2] == t && r[|r| - 4..] == y && r[3..|r| - 5] == m
  {
    var r := t + " " + m + " " + y;
    assert r == t + (" " + (m + (" " + y)));
  }

  /** The paragraph appended to the body unless `-d` was given. */
  function DateLine(d: Date): string
    requires ValidDate(d) && d.year >= 1900
  {
    "\n<p><i>Last updated " + LongDate(d) + "</i></p>"
  }

  // ---------------------------------------------------------------- the script

  /**
   * What the script can see besides its arguments: the files of the working
   * directory by name, what the Markdown command prints for the given file,
   * and today's date.
   */
  datatype Env = Env(files: map<string, string>, markdown: string, today: Date)

  /** The clock yields a real date that Python 2's `strftime` accepts. */
  predicate ClockOk(env: Env) {
    ValidDate(env.today) && env.today.year >= 1900
  }

  /**
   * How a run ends: help (`-h`, exit status 1), version (`-v`, exit status 1),
   * no file argument (exit status 0), a file name without a dot (exit
   * status 0), or the page written to `path`.
   */
  datatype Outcome = Usage | Version | NoFileGiven | NoExtension | Written(path: string, text: string)

  /** The text read from `name` when `enabled` and the file exists, else nothing. */
  function Optional(files: map<string, string>, name: string, enabled: bool): (r: string)
    ensures !enabled || name !in files ==> r == ""
    ensures enabled && name in files ==> r == files[name]
  {
    if enabled && name in files then files[name] else ""
  }

  /**
   * The script's variables once the options are processed: the title from
   * `-t`, whether the DOCTYPE and the date are used, the `<body>` attributes,
   * and whether header and footer are wanted.
   */
  datatype Settings = Settings(title: string, useDoctype: bool, appendDate: bool, bodyString: string,
                               header: bool, footer: bool)

  function SettingsOf(opts: map<string, string>): Settings
  {
    Settings(if "-t" in opts then opts["-t"] else "", "-n" !in opts, "-d" !in opts, BodyString(opts),
      "--no-header" !in opts, "--no-footer" !in opts)
  }

  /** The title used: the given one, or the old page's when the page exists and none was given. */
  function ChosenTitle(title: string, files: map<string, string>, target: string): string
  {
    if target !in files || title != "" then title else ExtractTitle(files[target])
  }

  /** `main_text`: the body tag, header, converted text, footer and, unless `-d`, the date line. */
  function MainText(st: Settings, env: Env): string
    requires ClockOk(env)
  {
    var body := "<body" + st.bodyString + ">\n" + Optional(env.files, "header.txt", st.header) +
      env.markdown + Optional(env.files, "footer.txt", st.footer);
    if st.appendDate then body + DateLine(env.today) else body
  }

  /** `markdown_processed`: head, title, body and the closing tags, in that order. */
  function Page(pre: string, title: string, main: string): string
  {
    pre + TitleText(title) + main + PostText
  }

  /** The page written to `target`. */
  function PageText(st: Settings, target: string, env: Env): string
    requires ClockOk(env)
  {
    Page(PreText(st.useDoctype), ChosenTitle(st.title, env.files, target), MainText(st, env))
  }

  /** The script run with getopt's `pairs` and positional `args`. */
  function Script(pairs: seq<(string, string)>, args: seq<string>, env: Env): Outcome
    requires ClockOk(env)
  {
    var opts := OptionsMap(pairs);
    if "-h" in opts then Usage
    else if "-v" in opts then Version
    else if |args| < 1 then NoFileGiven
    else match BaseName(args[0])
      case None => NoExtension
      case Some(name) => Written(name + ".html", PageText(SettingsOf(opts), name + ".html", env))
  }

  /** The option tests that set the script's variables, in the script's order. */
  method ProcessOptions(opts: map<string, string>) returns (st: Settings)
    ensures st == SettingsOf(opts)
  {
    var title := "";
    var useDoctype := true;
    var appendDate := true;
    var header, footer := true, true;
    if "-t" in opts {
      title := opts["-t"];
    }
    if "-n" in opts {
      useDoctype := false;
    }
    if "-d" in opts {
      appendDate := false;
    }
    var bodyString := BodyAttributes(opts);
    if "--no-header" in opts {
      header := false;
    }
    if "--no-footer" in opts {
      footer := false;
    }
    st := Settings(title, useDoctype, appendDate, bodyString, header, footer);
  }

  /** The script itself, statement by statement. */
  method RunScript(pairs: seq<(string, string)>, args: seq<string>, env: Env) returns (out: Outcome)
    requires ClockOk(env)
    ensures out == Script(pairs, args, env)
  {
    var opts := CollectOptions(pairs);
    if "-h" in opts {
      return Usage;
    }
    if "-v" in opts {
      return Version;
    }
    if |args| < 1 {
      return NoFileGiven;
    }
    var st := ProcessOptions(opts);
    var base := BaseName(args[0]);
    if base.None? {
      return NoExtension;
    }
    var name := base.value;
    var pageExists := name + ".html" in env.files;
    var headerText, footerText := "", "";
    if st.header && "header.txt" in env.files {
      headerText := env.files["header.txt"];
    }
    if st.footer && "footer.txt" in env.files {
      footerText := env.files["footer.txt"];
    }
    var preText := PreText(st.useDoctype);
    var mainText := "<body" + st.bodyString + ">\n" + headerText + env.markdown + footerText;
    if st.appendDate {
      mainText := mainText + DateLine(env.today);
    }
    assert mainText == MainText(st, env);
    var title := st.title;
    if pageExists && title == "" {
      title := ExtractTitle(env.files[name + ".html"]);
    }
    var titleText := TitleText(title);
    out := Written(name + ".html", preText + titleText + mainText + PostText);
  }

  // ------------------------------------------------------- what a run yields

  /**
   * `-h` wins over everything, `-v` over a missing file, a file is needed
   * before its name is split, and a page is written to the base name plus
   * `.html`.
   */
  lemma ScriptExits(pairs: seq<(string, string)>, args: seq<string>, env: Env)
    requires ClockOk(env)
    ensures var opts := OptionsMap(pairs); var out := Script(pairs, args, env);
      (out == Usage <==> "-h" in opts) &&
      (out == Version <==> "-h" !in opts && "-v" in opts) &&
      (out == NoFileGiven <==> "-h" !in opts && "-v" !in opts && args == []) &&
      (out == NoExtension <==> "-h" !in opts && "-v" !in opts && args != [] && !Contains(args[0], ".")) &&
      (out.Written? ==> args != [] && BaseName(args[0]).Some? && out.path == BaseName(args[0]).value + ".html")
  {
    if args != [] {
      BaseNameSpec(args[0]);
    }
  }

  lemma StartsWithAppend(a: string, b: string)
    ensures StartsWith(a + b, a)
  {
    assert (a + b)[..|a|] == a;
  }

  lemma StartsWithTrans(a: string, b: string, c: string)
    requires StartsWith(a, b) && StartsWith(b, c)
    ensures StartsWith(a, c)
  {
    assert a[..|c|] == b[..|c|];
  }

  /** Two texts that differ at index `i` cannot both start `t`. */
  lemma StartsWithClash(t: string, x: string, y: string, i: nat)
    requires StartsWith(t, x) && i < |x| && i < |y| && x[i] != y[i]
    ensures !StartsWith(t, y)
  {
    assert t[i] == t[..|x|][i];
    if |y| <= |t| {
      assert t[..|y|][i] == t[i];
    }
  }

  lemma FiveParts(a: string, b: string, c: string, d: string, e: string)
    ensures Contains(a + b + c + d + e, b) && Contains(a + b + c + d + e, d)
    ensures StartsWith(a + b + c + d + e, a + b)
  {
    var s := a + b + c + d + e;
    assert s[|a|..|a| + |b|] == b;
    assert OccursAt(s, b, |a|);
    var m := |a| + |b| + |c|;
    assert s[m..m + |d|] == d;
    assert OccursAt(s, d, m);
    assert s[..|a + b|] == a + b;
  }

  lemma HeadsDiffer()
    ensures |HtmlTag| > 1 && |DocType| > 1 && HtmlTag[1] != DocType[1]
  {
    assert HtmlTag[1] == "<html xmlns="[1];
    assert DocType[1] == "<!DOCTYPE html PUBLIC "[1];
  }

  /** The head holds the `<html>` tag and the meta line, with or without the DOCTYPE. */
  lemma PreTextParts(useDoctype: bool)
    ensures var pre := PreText(useDoctype);
      Contains(pre, HtmlTag) && Contains(pre, MetaTag) &&
      (useDoctype ==> StartsWith(pre, DocType)) && (!useDoctype ==> StartsWith(pre, HtmlTag))
  {
    var front := if useDoctype then DocType + "\n" else "";
    FiveParts(front, HtmlTag, "\n<head>\n", MetaTag, "\n");
    StartsWithAppend(front, HtmlTag);
    StartsWithTrans(PreText(useDoctype), front + HtmlTag, front);
    if useDoctype {
      StartsWithAppend(DocType, "\n");
      StartsWithTrans(PreText(useDoctype), front, DocType);
    }
  }

  /** A page starts with its head and title, and the head's content stays in it. */
  lemma PageParts(pre: string, title: string, main: string)
    ensures StartsWith(Page(pre, title, main), pre + TitleText(title))
    ensures StartsWith(Page(pre, title, main), pre)
    ensures forall x :: Contains(pre, x) ==> Contains(Page(pre, title, main), x)
    ensures EndsWith(Page(pre, title, main), PostText)
  {
    var page := Page(pre, title, main);
    var tt := TitleText(title);
    var rest := main + PostText;
    assert page == pre + tt + rest;
    assert page[..|pre + tt|] == pre + tt;
    assert page[..|pre|] == pre;
    forall x | Contains(pre, x) ensures Contains(page, x) {
      var i: nat :| i <= |pre| && OccursAt(pre, x, i);
      assert page[i..i + |x|] == pre[i..i + |x|];
      assert OccursAt(page, x, i);
    }
    assert page[|page| - |PostText|..] == PostText;
  }

  /** A written page always ends by closing body and html, and always holds the `<html>` tag and the meta line. */
  lemma PageShape(st: Settings, target: string, env: Env)
    requires ClockOk(env)
    ensures var text := PageText(st, target, env);
      EndsWith(text, PostText) && Contains(text, HtmlTag) && Contains(text, MetaTag)
  {
    PreTextParts(st.useDoctype);
    PageParts(PreText(st.useDoctype), ChosenTitle(st.title, env.files, target), MainText(st, env));
  }

  /**
   * The page starts with the DOCTYPE line if and only if it is used, that is,
   * `-n` was not given; likewise the date is appended exactly when `-d` was not given.
   */
  lemma DocTypeUnlessNoDoctype(st: Settings, target: string, env: Env)
    requires ClockOk(env)
    ensures StartsWith(PageText(st, target, env), DocType) <==> st.useDoctype
    ensures forall opts :: SettingsOf(opts).useDoctype <==> "-n" !in opts
    ensures forall opts :: SettingsOf(opts).appendDate <==> "-d" !in opts
  {
    var text := PageText(st, target, env);
    var pre := PreText(st.useDoctype);
    PreTextParts(st.useDoctype);
    PageParts(pre, ChosenTitle(st.title, env.files, target), MainText(st, env));
    if st.useDoctype {
      StartsWithTrans(text, pre, DocType);
    } else {
      StartsWithTrans(text, pre, HtmlTag);
      HeadsDiffer();
      StartsWithClash(text, HtmlTag, DocType, 1);
    }
  }

  lemma BodyTail(p: string, bs: string, h: string, m: string, f: string, d: string)
    ensures EndsWith(p + ("<body" + bs + ">\n" + h + m + f + d) + PostText, h + m + f + d + PostText)
    ensures EndsWith(p + ("<body" + bs + ">\n" + h + m + f) + PostText, h + m + f + PostText)
  {
    var x := p + ("<body" + bs + ">\n" + h + m + f + d) + PostText;
    var y := h + m + f + d + PostText;
    assert x == (p + "<body" + bs + ">\n") + y;
    assert x[|x| - |y|..] == y;
    var x' := p + ("<body" + bs + ">\n" + h + m + f) + PostText;
    var y' := h + m + f + PostText;
    assert x' == (p + "<body" + bs + ">\n") + y';
    assert x'[|x'| - |y'|..] == y';
  }

  /**
   * The body holds the header, the converted text and the footer, in that
   * order, header and footer each only when wanted and present; the "Last
   * updated" paragraph follows them exactly when the date is appended.
   */
  lemma BodyContent(st: Settings, target: string, env: Env)
    requires ClockOk(env)
    ensures var text := PageText(st, target, env);
      var header := Optional(env.files, "header.txt", st.header);
      var footer := Optional(env.files, "footer.txt", st.footer);
      (st.appendDate ==> EndsWith(text, header + env.markdown + footer + DateLine(env.today) + PostText)) &&
      (!st.appendDate ==> EndsWith(text, header + env.markdown + footer + PostText)) &&
      (!st.header || "header.txt" !in env.files ==> header == "") &&
      (!st.footer || "footer.txt" !in env.files ==> footer == "") &&
      (st.header && "header.txt" in env.files ==> header == env.files["header.txt"]) &&
      (st.footer && "footer.txt" in env.files ==> footer == env.files["footer.txt"])
  {
    BodyTail(PreText(st.useDoctype) + TitleText(ChosenTitle(st.title, env.files, target)), st.bodyString,
      Optional(env.files, "header.txt", st.header), env.markdown, Optional(env.files, "footer.txt", st.footer),
      DateLine(env.today));
  }

  /**
   * The title: a non-empty `-t`, or any title when the page does not exist
   * yet, is written as given; otherwise the old page's title is written.
   */
  lemma TitleRule(st: Settings, target: string, env: Env)
    requires ClockOk(env)
    ensures var text, pre := PageText(st, target, env), PreText(st.useDoctype);
      (target !in env.files || st.title != "" ==> StartsWith(text, pre + TitleText(st.title))) &&
      (target in env.files && st.title == "" ==> StartsWith(text, pre + TitleText(ExtractTitle(env.files[target]))))
  {
    PageParts(PreText(st.useDoctype), ChosenTitle(st.title, env.files, target), MainText(st, env));
  }

  /**
   * The page written reads back with the title it was written with, provided
   * that title holds no `</title>`; titles read from an old page never do.
   */
  lemma WrittenTitleReadsBack(st: Settings, target: string, env: Env)
    requires ClockOk(env)
    requires FindCI(ChosenTitle(st.title, env.files, target), CloseTitle).None?
    ensures ExtractTitle(PageText(st, target, env)) == ChosenTitle(st.title, env.files, target)
  {
    var pre := PreText(st.useDoctype);
    var title := ChosenTitle(st.title, env.files, target);
    var main := MainText(st, env);
    PreTextTagFree(st.useDoctype);
    ExtractTitleOfPage(pre, title, main + PostText);
    assert Page(pre, title, main) == pre + TitleText(title) + (main + PostText);
  }

  /**
   * Running the script again on the same file without `-t`, after the first
   * run wrote its page, keeps the first run's title.
   */
  lemma TitleSurvivesRerun(st: Settings, st2: Settings, target: string, env: Env, env2: Env)
    requires ClockOk(env) && ClockOk(env2)
    requires FindCI(ChosenTitle(st.title, env.files, target), CloseTitle).None?
    requires env2.files == env.files[target := PageText(st, target, env)]
    requires st2.title == ""
    ensures ChosenTitle(st2.title, env2.files, target) == ChosenTitle(st.title, env.files, target)
  {
    WrittenTitleReadsBack(st, target, env);
  }
}
