/**
 * The daily arXiv digest script `arxivsum.py`: it reads the RSS feed of each
 * category, collects the items not seen on an earlier run, mails them as one
 * plain-text message and records their ids in a history file.
 *
 * The parsed feeds (feedparser), the history file's contents and the mail
 * sent (smtplib) are values here.
 */
module ArxivDigest {
  import opened Wrappers
  import opened Text

  // ------------------------------------------------------------- StripHTML

  /**
   * Where the non-greedy `.*?>` that follows a `<` ends: the index in `t` of
   * the first `>`, provided no newline comes before it (`.` does not match a
   * newline).
   */
  function LineClose(t: string): (r: Option<nat>)
    ensures r.Some? ==> (r.value < |t| && t[r.value] == '>' &&
                         forall m :: 0 <= m < r.value ==> t[m] != '>' && t[m] != '\n')
    ensures r.None? ==> forall j :: 0 <= j < |t| && t[j] == '>' ==> exists m :: 0 <= m < j && t[m] == '\n'
  {
    if t == [] then None
    else if t[0] == '>' then Some(0)
    else if t[0] == '\n' then None
    else match LineClose(t[1..])
      case None =>
        assert forall j :: 1 <= j < |t| && t[j] == '>' ==> t[1..][j - 1] == '>';
        None
      case Some(j) => Some(j + 1)
  }

  /**
   * `re.sub(r"<.*?>", "", s)`: scanning left to right, each `<` that has a
   * `>` later on its line is removed together with everything up to the
   * first such `>`; every other character is kept.
   */
  function StripHTML(s: string): (r: string)
    decreases |s|
    ensures |r| <= |s|
  {
    if s == [] then []
    else if s[0] == '<' && LineClose(s[1..]).Some? then StripHTML(s[LineClose(s[1..]).value + 2..])
    else [s[0]] + StripHTML(s[1..])
  }

  /** `a` is `b` with some characters left out, the rest in order. */
  predicate IsSubsequence(a: string, b: string)
    decreases |b|
  {
    a == [] || (b != [] && if a[0] == b[0] then IsSubsequence(a[1..], b[1..]) else IsSubsequence(a, b[1..]))
  }

  lemma {:induction false} SubsequenceDrop(a: string, b: string, k: nat)
    requires k <= |b| && IsSubsequence(a, b[k..])
    ensures IsSubsequence(a, b)
    decreases |b|, 1
  {
    if k > 0 && a != [] {
      assert b[1..][k - 1..] == b[k..];
      SubsequenceDrop(a, b[1..], k - 1);
      if a[0] == b[0] {
        SubsequenceShorter(a, b[1..]);
      }
    }
  }

  /** Dropping the first character of a subsequence keeps it a subsequence. */
  lemma {:induction false} SubsequenceShorter(a: string, b: string)
    requires a != [] && IsSubsequence(a, b)
    ensures IsSubsequence(a[1..], b)
    decreases |b|, 2
  {
    if a[1..] != [] {
      if a[0] == b[0] {
        SubsequenceDrop(a[1..], b, 1);
      } else {
        SubsequenceShorter(a, b[1..]);
        SubsequenceDrop(a[1..], b, 1);
      }
    }
  }

  lemma {:induction false} SubsequenceCons(c: char, a: string, b: string)
    requires IsSubsequence(a, b)
    ensures IsSubsequence([c] + a, [c] + b)
  {
    assert ([c] + a)[1..] == a && ([c] + b)[1..] == b;
  }

  /** The stripped text keeps characters of the input, in order. */
  lemma {:induction false} StripHTMLSubsequence(s: string)
    ensures IsSubsequence(StripHTML(s), s)
    decreases |s|
  {
    if s != [] {
      if s[0] == '<' && LineClose(s[1..]).Some? {
        var k := LineClose(s[1..]).value + 2;
        StripHTMLSubsequence(s[k..]);
        SubsequenceDrop(StripHTML(s), s, k);
      } else {
        StripHTMLSubsequence(s[1..]);
        SubsequenceCons(s[0], StripHTML(s[1..]), s[1..]);
        assert [s[0]] + s[1..] == s;
      }
    }
  }

  /** Text without `<` holds no tag and is returned unchanged. */
  lemma {:induction false} StripHTMLNoTag(s: string)
    requires forall k :: 0 <= k < |s| ==> s[k] != '<'
    ensures StripHTML(s) == s
    decreases |s|
  {
    if s != [] {
      StripHTMLNoTag(s[1..]);
      assert [s[0]] + s[1..] == s;
    }
  }

  /** The first `>` on the line ends right after `inner`. */
  lemma {:induction false} LineCloseAfter(inner: string, rest: string)
    requires forall k :: 0 <= k < |inner| ==> inner[k] != '>' && inner[k] != '\n'
    ensures LineClose(inner + ">" + rest) == Some(|inner|)
    decreases |inner|
  {
    if inner != [] {
      LineCloseAfter(inner[1..], rest);
      assert (inner + ">" + rest)[1..] == inner[1..] + ">" + rest;
    }
  }

  /** A tag `<...>` on one line at the front is removed whole. */
  lemma StripHTMLTag(inner: string, rest: string)
    requires forall k :: 0 <= k < |inner| ==> inner[k] != '>' && inner[k] != '\n'
    ensures StripHTML("<" + inner + ">" + rest) == StripHTML(rest)
  {
    var s := "<" + inner + ">" + rest;
    assert s[1..] == inner + ">" + rest;
    LineCloseAfter(inner, rest);
    assert s[|inner| + 2..] == rest;
  }

  /** No `<` in `s` still has a `>` after it on the same line. */
  predicate Clean(s: string)
    decreases |s|
  {
    s == [] || ((s[0] != '<' || LineClose(s[1..]).None?) && Clean(s[1..]))
  }

  lemma {:induction false} CleanUnchanged(s: string)
    requires Clean(s)
    ensures StripHTML(s) == s
    decreases |s|
  {
    if s != [] {
      CleanUnchanged(s[1..]);
      assert [s[0]] + s[1..] == s;
    }
  }

  /** Stripping never puts a `>` on the first line where there was none. */
  lemma {:induction false} NoCloseStaysNoClose(t: string)
    requires LineClose(t).None?
    ensures LineClose(StripHTML(t)).None?
    decreases |t|
  {
    if t != [] && t[0] != '\n' {
      assert LineClose(t[1..]).None?;
      NoCloseStaysNoClose(t[1..]);
      var r := StripHTML(t);
      assert r == [t[0]] + StripHTML(t[1..]);
      assert r[1..] == StripHTML(t[1..]);
    }
  }

  /** What StripHTML returns holds no tag. */
  lemma {:induction false} StripHTMLClean(s: string)
    ensures Clean(StripHTML(s))
    decreases |s|
  {
    if s != [] {
      if s[0] == '<' && LineClose(s[1..]).Some? {
        StripHTMLClean(s[LineClose(s[1..]).value + 2..]);
      } else {
        StripHTMLClean(s[1..]);
        var r := StripHTML(s);
        assert r[1..] == StripHTML(s[1..]);
        if s[0] == '<' {
          NoCloseStaysNoClose(s[1..]);
        }
      }
    }
  }

  /** Stripping twice strips no more than stripping once. */
  lemma StripHTMLIdempotent(s: string)
    ensures StripHTML(StripHTML(s)) == StripHTML(s)
  {
    StripHTMLClean(s);
    CleanUnchanged(StripHTML(s));
  }

  // ------------------------------------------------------------ Unobfuscate

  const AtMarker := "<ATATAT>"
  const DotMarker := "<DOTDOTDOT>"

  /** Every `<ATATAT>` becomes `@`, then every `<DOTDOTDOT>` becomes `.`. */
  function Unobfuscate(email: string): string
  {
    ReplaceAll(ReplaceAll(email, AtMarker, "@"), DotMarker, ".")
  }

  predicate NoAngle(s: string) {
    forall k :: 0 <= k < |s| ==> s[k] != '<'
  }

  /** Text without `<` contains no marker, and replacing markers leaves it alone. */
  lemma ReplaceMarkerAbsent(x: string, pat: string, rep: string)
    requires pat != [] && pat[0] == '<' && NoAngle(x)
    ensures ReplaceAll(x, pat, rep) == x
  {
    forall i: nat | i <= |x| ensures !OccursAt(x, pat, i) {
      if i + |pat| <= |x| {
        assert x[i..i + |pat|][0] == x[i];
      }
    }
    ReplaceAllAbsent(x, pat, rep);
  }

  /** A prefix without `<` passes a marker replacement unchanged. */
  lemma ReplaceMarkerKeepsPrefix(t: string, x: string, pat: string, rep: string)
    requires pat != [] && pat[0] == '<' && NoAngle(t)
    ensures ReplaceAll(t + x, pat, rep) == t + ReplaceAll(x, pat, rep)
  {
    forall i | 0 <= i < |t| ensures !OccursAt(t + x, pat, i) {
      if i + |pat| <= |t + x| {
        assert (t + x)[i..i + |pat|][0] == t[i];
      }
    }
    ReplaceAllKeepsPrefix(t, x, pat, rep);
  }

  /**
   * Replacing a marker in `user + pat + rest` where `user` has no `<` and
   * `rest` is unchanged by the replacement.
   */
  lemma ReplaceOneMarker(user: string, pat: string, rep: string, rest: string)
    requires pat != [] && pat[0] == '<' && NoAngle(user)
    requires ReplaceAll(rest, pat, rep) == rest
    ensures ReplaceAll(user + pat + rest, pat, rep) == user + rep + rest
  {
    ReplaceAllPrefix(pat, rep, rest);
    ReplaceMarkerKeepsPrefix(user, pat + rest, pat, rep);
    Regroup3(user, pat, rest);
    Regroup3(user, rep, rest);
  }

  /** The `@` marker is not found in text made of the `.` marker and text without `<`. */
  lemma AtMarkerNotInDotted(tld: string)
    requires NoAngle(tld)
    ensures ReplaceAll(DotMarker + tld, AtMarker, "@") == DotMarker + tld
  {
    var dotted := DotMarker + tld;
    assert dotted[..|AtMarker|] != AtMarker by {
      assert dotted[1] == 'D' && AtMarker[1] == 'A';
    }
    assert NoAngle(dotted[1..]);
    ReplaceMarkerAbsent(dotted[1..], AtMarker, "@");
    assert [dotted[0]] + dotted[1..] == dotted;
  }

  /** An address written as `user<ATATAT>host<DOTDOTDOT>tld` becomes `user@host.tld`. */
  lemma UnobfuscateAddress(user: string, host: string, tld: string)
    requires NoAngle(user) && NoAngle(host) && NoAngle(tld)
    ensures Unobfuscate(user + AtMarker + host + DotMarker + tld) == user + "@" + host + "." + tld
  {
    AtMarkerNotInDotted(tld);
    assert NoAngle("@");
    ReplaceTwoMarkers(user, host, tld, AtMarker, "@", DotMarker, ".");
  }

  /** Two marker replacements in turn, when the second marker and what follows it survive the first. */
  lemma ReplaceTwoMarkers(user: string, host: string, tld: string, p1: string, r1: string, p2: string, r2: string)
    requires p1 != [] && p1[0] == '<' && p2 != [] && p2[0] == '<'
    requires NoAngle(user) && NoAngle(host) && NoAngle(tld) && NoAngle(r1)
    requires ReplaceAll(p2 + tld, p1, r1) == p2 + tld
    ensures ReplaceAll(ReplaceAll(user + p1 + host + p2 + tld, p1, r1), p2, r2) == user + r1 + host + r2 + tld
  {
    FirstMarker(user, host, tld, p1, r1, p2);
    var once := user + r1 + host;
    assert NoAngle(once);
    ReplaceMarkerAbsent(tld, p2, r2);
    ReplaceOneMarker(once, p2, r2, tld);
  }

  /** The first replacement reaches only the first marker. */
  lemma FirstMarker(user: string, host: string, tld: string, p1: string, r1: string, p2: string)
    requires p1 != [] && p1[0] == '<' && NoAngle(user) && NoAngle(host)
    requires ReplaceAll(p2 + tld, p1, r1) == p2 + tld
    ensures ReplaceAll(user + p1 + host + p2 + tld, p1, r1) == user + r1 + host + p2 + tld
  {
    ReplaceMarkerKeepsPrefix(host, p2 + tld, p1, r1);
    ReplaceOneMarker(user, p1, r1, host + (p2 + tld));
    Regroup5(user, p1, host, p2, tld);
    Regroup5(user, r1, host, p2, tld);
    Regroup3(host, p2, tld);
  }

  lemma SenderPieces()
    ensures "depalatis" + AtMarker + "gmail" + DotMarker + "com" == "depalatis<ATATAT>gmail<DOTDOTDOT>com"
    ensures "depalatis" + "@" + "gmail" + "." + "com" == "depalatis@gmail.com"
  {
  }

  /** The sender address the script configures. */
  lemma SenderAddress()
    ensures Unobfuscate("depalatis<ATATAT>gmail<DOTDOTDOT>com") == "depalatis@gmail.com"
  {
    assert NoAngle("depalatis") && NoAngle("gmail") && NoAngle("com");
    UnobfuscateAddress("depalatis", "gmail", "com");
    SenderPieces();
  }

  // ---------------------------------------------------------------- History

  /** `file.readlines()`: the lines of `c`, each keeping its newline. */
  function ReadLines(c: string): (r: seq<string>)
    decreases |c|
    ensures Concat(r) == c
    ensures forall j :: 0 <= j < |r| ==> NewlineOnlyAtEnd(r[j]) && r[j] != []
    ensures forall j :: 0 <= j < |r| - 1 ==> r[j][|r[j]| - 1] == '\n'
  {
    if c == [] then []
    else match IndexOf(c, "\n")
      case None =>
        NewlineFreeBefore(c, |c|);
        [c]
      case Some(i) =>
        NewlineFreeBefore(c, i);
        var rest := ReadLines(c[i + 1..]);
        FirstLine(c, i, rest);
        assert c[i..i + 1] == "\n";
        LinesCons(c[..i + 1], rest);
        [c[..i + 1]] + rest
  }

  /** No occurrence of a newline before `n` means no newline character there. */
  lemma NewlineFreeBefore(c: string, n: nat)
    requires n <= |c| && forall j :: 0 <= j < n ==> !OccursAt(c, "\n", j)
    ensures forall k :: 0 <= k < n ==> c[k] != '\n'
  {
    forall k | 0 <= k < n ensures c[k] != '\n' {
      assert !OccursAt(c, "\n", k);
      assert c[k..k + 1] == [c[k]];
    }
  }

  /** The line up to the first newline, then the lines of the rest. */
  lemma FirstLine(c: string, i: nat, rest: seq<string>)
    requires i < |c| && forall k :: 0 <= k < i ==> c[k] != '\n'
    requires Concat(rest) == c[i + 1..] && forall j :: 0 <= j < |rest| ==> NewlineOnlyAtEnd(rest[j])
    ensures Concat([c[..i + 1]] + rest) == c
    ensures EachLineEnds([c[..i + 1]] + rest)
  {
    var line := c[..i + 1];
    assert NewlineOnlyAtEnd(line) by {
      assert forall k :: 0 <= k < i ==> line[k] == c[k];
    }
    ConcatCons(line, rest);
    Around(c, i);
    assert line + c[i + 1..] == c;
    AllLinesCons(line, rest);
  }

  /** A line ended by a newline, put before lines of which all but the last are. */
  lemma LinesCons(x: string, rest: seq<string>)
    requires x != [] && x[|x| - 1] == '\n'
    requires forall j :: 0 <= j < |rest| ==> rest[j] != []
    requires forall j :: 0 <= j < |rest| - 1 ==> rest[j][|rest[j]| - 1] == '\n'
    ensures forall j :: 0 <= j < |[x] + rest| ==> ([x] + rest)[j] != []
    ensures forall j :: 0 <= j < |[x] + rest| - 1 ==> ([x] + rest)[j][|([x] + rest)[j]| - 1] == '\n'
  {
    forall j | 0 < j < |rest| + 1 ensures ([x] + rest)[j] == rest[j - 1] { }
  }

  lemma ConcatCons(x: string, rest: seq<string>)
    ensures Concat([x] + rest) == x + Concat(rest)
  {
    assert ([x] + rest)[1..] == rest;
  }

  lemma AllLinesCons(x: string, rest: seq<string>)
    requires NewlineOnlyAtEnd(x) && forall j :: 0 <= j < |rest| ==> NewlineOnlyAtEnd(rest[j])
    ensures EachLineEnds([x] + rest)
  {
    forall j | 0 <= j < |rest| + 1 ensures NewlineOnlyAtEnd(([x] + rest)[j]) {
      if j > 0 {
        assert ([x] + rest)[j] == rest[j - 1];
      }
    }
  }

  function Concat(lines: seq<string>): string
  {
    if lines == [] then [] else lines[0] + Concat(lines[1..])
  }

  predicate EachLineEnds(lines: seq<string>) {
    forall j :: 0 <= j < |lines| ==> NewlineOnlyAtEnd(lines[j])
  }

  /** A newline can only be the last character. */
  predicate NewlineOnlyAtEnd(line: string) {
    forall k :: 0 <= k < |line| - 1 ==> line[k] != '\n'
  }

  /** A line that survives being written and read back: no newline, no surrounding whitespace. */
  predicate LineClean(x: string) {
    (forall k :: 0 <= k < |x| ==> x[k] != '\n') &&
    (x == [] || (!IsAsciiSpace(x[0]) && !IsAsciiSpace(x[|x| - 1])))
  }

  function StripLine(line: string): string {
    Strip(line, IsAsciiSpace)
  }

  /**
   * The history as loaded: `['']` when the file does not exist, otherwise
   * its lines, each stripped of surrounding whitespace.
   */
  function History(file: Option<string>): seq<string>
  {
    match file
    case None => [""]
    case Some(c) =>
      var lines := ReadLines(c);
      seq(|lines|, k requires 0 <= k < |lines| => StripLine(lines[k]))
  }

  /** Loads the history and strips each line in place. */
  method LoadHistory(file: Option<string>) returns (hist: seq<string>)
    ensures hist == History(file)
  {
    if file.None? {
      hist := [""];
    } else {
      hist := ReadLines(file.value);
      hist := StripEach(hist);
    }
  }

  /** Strips every line of `lines` in place. */
  method StripEach(lines: seq<string>) returns (hist: seq<string>)
    ensures hist == seq(|lines|, k requires 0 <= k < |lines| => StripLine(lines[k]))
  {
    hist := UpdateEach(lines, StripLine);
  }

  /** The loop `for i, item in enumerate(hist): hist[i] = f(item)`. */
  method UpdateEach(lines: seq<string>, f: string -> string) returns (hist: seq<string>)
    ensures hist == seq(|lines|, k requires 0 <= k < |lines| => f(lines[k]))
  {
    hist := lines;
    var i := 0;
    while i < |hist|
      invariant 0 <= i <= |hist| == |lines|
      invariant forall k :: 0 <= k < i ==> hist[k] == f(lines[k])
      invariant forall k :: i <= k < |hist| ==> hist[k] == lines[k]
    {
      hist := hist[i := f(hist[i])];
      i := i + 1;
    }
  }

  /** A stripped line holds no newline and has no whitespace at either end. */
  lemma StripLineClean(line: string)
    requires NewlineOnlyAtEnd(line)
    ensures LineClean(StripLine(line))
  {
    var r := StripLine(line);
    var a := |line| - |StripLeft(line, IsAsciiSpace)|;
    forall k | 0 <= k < |r| ensures r[k] != '\n' {
      assert r[k] == line[a + k];
      if a + k == |line| - 1 {
        assert r[|r| - 1] == line[a + k];
      }
    }
  }

  /** Every entry of a loaded history is a clean line. */
  lemma HistoryClean(file: Option<string>)
    ensures forall j :: 0 <= j < |History(file)| ==> LineClean(History(file)[j])
  {
    if file.Some? {
      var lines := ReadLines(file.value);
      forall j | 0 <= j < |lines| ensures LineClean(StripLine(lines[j])) {
        StripLineClean(lines[j]);
      }
    }
  }

  /** The history file as written: one id per line. */
  function HistoryText(ids: seq<string>): (r: string)
  {
    if ids == [] then [] else ids[0] + "\n" + HistoryText(ids[1..])
  }

  lemma StripWrittenLine(x: string)
    requires LineClean(x)
    ensures StripLine(x + "\n") == x
  {
    var l := StripLeft(x + "\n", IsAsciiSpace);
    if x == [] {
      assert ("\n")[1..] == [];
    } else {
      assert l == x + "\n";
      assert (x + "\n")[..|x|] == x;
    }
  }

  lemma {:induction false} ReadWrittenLines(ids: seq<string>)
    requires forall j :: 0 <= j < |ids| ==> LineClean(ids[j])
    ensures |ReadLines(HistoryText(ids))| == |ids|
    ensures forall j :: 0 <= j < |ids| ==> ReadLines(HistoryText(ids))[j] == ids[j] + "\n"
  {
    if ids != [] {
      var x, rest := ids[0], HistoryText(ids[1..]);
      var c := x + "\n" + rest;
      assert OccursAt(c, "\n", |x|) by { assert c[|x|..|x| + 1] == "\n"; }
      var i := IndexOf(c, "\n").value;
      assert c[i..i + 1][0] == c[i];
      assert i == |x|;
      assert c[..i + 1] == x + "\n";
      assert c[i + 1..] == rest;
      ReadWrittenLines(ids[1..]);
    }
  }

  /** Writing clean ids one per line and loading the file again gives them back. */
  lemma HistoryRoundTrip(ids: seq<string>)
    requires forall j :: 0 <= j < |ids| ==> LineClean(ids[j])
    ensures History(Some(HistoryText(ids))) == ids
  {
    ReadWrittenLines(ids);
    forall j | 0 <= j < |ids| ensures StripLine(ids[j] + "\n") == ids[j] {
      StripWrittenLine(ids[j]);
    }
  }

  // ----------------------------------------------------------------- Digest

  /** One RSS item, as far as the digest reads it. */
  datatype Item = Item(id: string, title: string, author: string, link: string, summary: string)

  /** A parsed feed: its channel title and its items, newest first. */
  datatype Feed = Feed(title: string, items: seq<Item>)

  const Subject := "SUBJECT: arXiv Updates\n"

  /** `id.split('/')[-1]`. */
  function ItemId(id: string): string
  {
    var parts := Split(id, "/");
    parts[|parts| - 1]
  }

  /** The item id is the text after the last `/` of the id field, or all of it. */
  lemma ItemIdIsLastSegment(id: string)
    ensures var r := ItemId(id);
      EndsWith(id, r) && (forall k :: 0 <= k < |r| ==> r[k] != '/') &&
      (|r| < |id| ==> id[|id| - |r| - 1] == '/')
  {
    assert "/" == ['/'];
    LastPiece(id, '/');
    assert LastPieceShape(id, '/');
  }

  /** `r` is what follows the last `c` of `s` (all of `s` when there is none). */
  predicate TextAfterLast(s: string, r: string, c: char) {
    EndsWith(s, r) && Lacks(r, c) && (|r| < |s| ==> s[|s| - |r| - 1] == c)
  }

  function LastPieceOf(s: string, c: char): string {
    var parts := Split(s, [c]);
    parts[|parts| - 1]
  }

  /** The last piece of a split at `c` is the text after the last `c` of `s`. */
  predicate LastPieceShape(s: string, c: char) {
    TextAfterLast(s, LastPieceOf(s, c), c)
  }

  /** The last piece of a split at one character: the text after its last occurrence. */
  lemma {:induction false} LastPiece(s: string, c: char)
    ensures LastPieceShape(s, c)
    decreases |s|
  {
    if Lacks(s, c) {
      LastPieceLacking(s, c);
    } else {
      var i := FirstOccurrence(s, c);
      LastPiece(s[i + 1..], c);
      LastPieceOfStep(s, c, i);
      SuffixOfRest(s, i, s[i + 1..], LastPieceOf(s[i + 1..], c));
    }
  }

  lemma LastPieceLacking(s: string, c: char)
    requires Lacks(s, c)
    ensures LastPieceShape(s, c)
  {
    SplitLacking(s, c);
    assert s[|s| - |s|..] == s;
  }

  /** Past the first `c`, the last piece is that of the rest. */
  lemma LastPieceOfStep(s: string, c: char, i: nat)
    requires i < |s| && s[i] == c && Lacks(s[..i], c)
    ensures LastPieceOf(s, c) == LastPieceOf(s[i + 1..], c)
  {
    SplitAtFirstChar(s, c, i);
    LastOfCons(s[..i], Split(s[i + 1..], [c]), Split(s, [c]));
  }

  /** The last element of `[x] + t` is the last element of `t`. */
  lemma LastOfCons<T>(x: T, t: seq<T>, p: seq<T>)
    requires |t| >= 1 && p == [x] + t
    ensures |p| >= 1 && p[|p| - 1] == t[|t| - 1]
  {
  }

  /** Text after the last `c` of the rest after a `c` at `i` is text after the last `c` of the whole. */
  lemma SuffixOfRest(s: string, i: nat, rest: string, r: string)
    requires i < |s| && rest == s[i + 1..]
    requires TextAfterLast(rest, r, s[i])
    ensures TextAfterLast(s, r, s[i])
  {
    assert s[|s| - |r|..] == rest[|rest| - |r|..];
    if |r| < |rest| {
      assert s[|s| - |r| - 1] == rest[|rest| - |r| - 1];
    }
  }

  /**
   * The items of one feed that are mailed: those before the first item
   * whose id is already in the history.
   */
  function TakeNew(items: seq<Item>, hist: seq<string>): (r: seq<Item>)
    ensures |r| <= |items| && r == items[..|r|]
    ensures forall k :: 0 <= k < |r| ==> ItemId(r[k].id) !in hist
    ensures |r| < |items| ==> ItemId(items[|r|].id) in hist
  {
    if items == [] || ItemId(items[0].id) in hist then []
    else
      var rest := TakeNew(items[1..], hist);
      PrefixCons(items, |rest|);
      [items[0]] + rest
  }

  lemma PrefixCons<T>(s: seq<T>, n: nat)
    requires n < |s|
    ensures s[..n + 1] == [s[0]] + s[1..][..n]
  {
  }

  function Underline(n: nat): (r: string)
    ensures |r| == n && forall k :: 0 <= k < n ==> r[k] == '='
  {
    if n == 0 then [] else Underline(n - 1) + "="
  }

  /** The text one item adds to the message; `strip_html` is set, so the abstract loses its markup too. */
  function Entry(item: Item): string {
    TitleLine(item) + AuthorsLine(item) + LinkLine(item) + AbstractLines(item)
  }

  function TitleLine(item: Item): string { "Title: " + item.title + "\n" }
  function AuthorsLine(item: Item): string { "Authors: " + StripHTML(item.author) + "\n" }
  function LinkLine(item: Item): string { "Link: " + item.link + "\n" }
  function AbstractLines(item: Item): string { "Abstract:\n" + StripHTML(item.summary) + "\n\n" }

  function ItemEntries(items: seq<Item>): string
  {
    if items == [] then [] else ItemEntries(items[..|items| - 1]) + Entry(items[|items| - 1])
  }

  function Heading(title: string): string {
    title + "\n" + Underline(|title|) + "\n\n"
  }

  /** The text one feed adds: its heading, its new items and a rule. */
  function Section(feed: Feed, hist: seq<string>): string {
    Heading(feed.title) + ItemEntries(TakeNew(feed.items, hist)) + "---\n\n"
  }

  function Sections(feeds: seq<Feed>, hist: seq<string>): string
  {
    if feeds == [] then [] else Sections(feeds[..|feeds| - 1], hist) + Section(feeds[|feeds| - 1], hist)
  }

  /** The message: the subject line and one section per feed, in feed order. */
  function DigestBody(feeds: seq<Feed>, hist: seq<string>): string {
    Subject + Sections(feeds, hist)
  }

  /** The new items of every feed, in feed order. */
  function NewItems(feeds: seq<Feed>, hist: seq<string>): seq<Item>
  {
    if feeds == [] then [] else NewItems(feeds[..|feeds| - 1], hist) + TakeNew(feeds[|feeds| - 1].items, hist)
  }

  function Ids(items: seq<Item>): (r: seq<string>)
    ensures |r| == |items|
  {
    if items == [] then [] else Ids(items[..|items| - 1]) + [ItemId(items[|items| - 1].id)]
  }

  lemma {:induction false} IdsAppend(a: seq<Item>, b: seq<Item>)
    ensures Ids(a + b) == Ids(a) + Ids(b)
    decreases |b|
  {
    if b != [] {
      assert (a + b)[..|a + b| - 1] == a + b[..|b| - 1];
      IdsAppend(a, b[..|b| - 1]);
    } else {
      assert a + b == a;
    }
  }

  /** Appending the four parts one at a time appends the whole entry. */
  lemma EntryAppended(prev: string, item: Item, body: string)
    requires body == prev + TitleLine(item) + AuthorsLine(item) + LinkLine(item) + AbstractLines(item)
    ensures body == prev + Entry(item)
  {
    Regroup4(prev, TitleLine(item), AuthorsLine(item), LinkLine(item), AbstractLines(item));
  }

  lemma Regroup4(p: string, w: string, x: string, y: string, z: string)
    ensures p + w + x + y + z == p + (w + x + y + z)
  {
  }

  /** An unseen item right after a taken prefix is taken too. */
  lemma TakeNewContinues(items: seq<Item>, hist: seq<string>, j: nat)
    requires j <= |TakeNew(items, hist)| && j < |items| && ItemId(items[j].id) !in hist
    ensures j < |TakeNew(items, hist)|
  {
  }

  /** Where the loop stops, at the end or at a seen item, the taken prefix is complete. */
  lemma TakeNewStops(items: seq<Item>, hist: seq<string>, j: nat)
    requires j <= |TakeNew(items, hist)|
    requires j == |items| || (j < |items| && ItemId(items[j].id) in hist)
    ensures items[..j] == TakeNew(items, hist)
  {
  }

  /** Adding the entry of the next item keeps the body equal to the entries so far. */
  lemma EntriesStep(body0: string, items: seq<Item>, j: nat, prev: string, body: string)
    requires j < |items|
    requires prev == body0 + ItemEntries(items[..j]) && body == prev + Entry(items[j])
    ensures body == body0 + ItemEntries(items[..j + 1])
  {
    EntriesSnoc(items, j);
    AppendStep(body0, ItemEntries(items[..j]), Entry(items[j]), ItemEntries(items[..j + 1]), prev, body);
  }

  lemma EntriesSnoc(items: seq<Item>, j: nat)
    requires j < |items|
    ensures ItemEntries(items[..j + 1]) == ItemEntries(items[..j]) + Entry(items[j])
  {
    assert items[..j + 1][..j] == items[..j];
  }

  lemma IdsStep(items: seq<Item>, j: nat)
    requires j < |items|
    ensures Ids(items[..j + 1]) == Ids(items[..j]) + [ItemId(items[j].id)]
  {
    assert items[..j + 1][..j] == items[..j];
  }

  lemma HeadingAppended(prev: string, title: string)
    ensures prev + title + "\n" + Underline(|title|) + "\n\n" == prev + Heading(title)
  {
    Regroup4(prev, title, "\n", Underline(|title|), "\n\n");
  }

  /** Adding the next feed's section keeps the body equal to the sections so far. */
  lemma SectionStep(start: string, feeds: seq<Feed>, f: nat, hist: seq<string>, prev: string, body: string)
    requires f < |feeds|
    requires prev == start + Sections(feeds[..f], hist)
    requires body == prev + Section(feeds[f], hist)
    ensures body == start + Sections(feeds[..f + 1], hist)
  {
    SectionsSnoc(feeds, f, hist);
    AppendStep(start, Sections(feeds[..f], hist), Section(feeds[f], hist), Sections(feeds[..f + 1], hist), prev, body);
  }

  lemma AppendStep<T>(start: seq<T>, done: seq<T>, next: seq<T>, both: seq<T>, prev: seq<T>, body: seq<T>)
    requires both == done + next && prev == start + done && body == prev + next
    ensures body == start + both
  {
  }

  /** The heading, the new entries and the rule make up the section. */
  lemma SectionAppended(prev: string, feed: Feed, hist: seq<string>, body: string)
    requires body == prev + Heading(feed.title) + ItemEntries(TakeNew(feed.items, hist)) + "---\n\n"
    ensures body == prev + Section(feed, hist)
  {
    Regroup(prev, Heading(feed.title), ItemEntries(TakeNew(feed.items, hist)), "---\n\n");
  }

  lemma SectionsSnoc(feeds: seq<Feed>, f: nat, hist: seq<string>)
    requires f < |feeds|
    ensures Sections(feeds[..f + 1], hist) == Sections(feeds[..f], hist) + Section(feeds[f], hist)
  {
    assert feeds[..f + 1][..f] == feeds[..f];
  }

  lemma Regroup(p: string, x: string, y: string, z: string)
    ensures p + x + y + z == p + (x + y + z)
  {
  }

  lemma IdsOfFeedsStep(feeds: seq<Feed>, f: nat, hist: seq<string>)
    requires f < |feeds|
    ensures Ids(NewItems(feeds[..f + 1], hist)) == Ids(NewItems(feeds[..f], hist)) + Ids(TakeNew(feeds[f].items, hist))
    ensures |NewItems(feeds[..f + 1], hist)| == |NewItems(feeds[..f], hist)| + |TakeNew(feeds[f].items, hist)|
  {
    assert feeds[..f + 1][..f] == feeds[..f];
    IdsAppend(NewItems(feeds[..f], hist), TakeNew(feeds[f].items, hist));
  }

  /**
   * The inner loop over one feed's items: they are taken until the first one
   * already in the history, each new id being written to the history file,
   * counted, and its entry added to the body.
   */
  method AddNewItems(body0: string, written0: seq<string>, count0: nat, items: seq<Item>, hist: seq<string>)
    returns (body: string, written: seq<string>, newCount: nat)
    ensures body == body0 + ItemEntries(TakeNew(items, hist))
    ensures written == written0 + Ids(TakeNew(items, hist))
    ensures newCount == count0 + |TakeNew(items, hist)|
  {
    body, written, newCount := body0, written0, count0;
    ghost var taken := TakeNew(items, hist);
    ghost var writtenPrev := written;
    var j := 0;
    while j < |items|
      invariant 0 <= j <= |taken|
      invariant body == body0 + ItemEntries(items[..j])
      invariant written == written0 + Ids(items[..j])
      invariant newCount == count0 + j
    {
      var itemId := ItemId(items[j].id);
      if itemId in hist {
        break;
      } else {
        writtenPrev := written;
        written := written + [itemId];
        newCount := newCount + 1;
      }
      ghost var prev := body;
      body := body + "Title: " + items[j].title + "\n";
      Regroup(prev, "Title: ", items[j].title, "\n");
      ghost var b1 := body;
      body := body + "Authors: " + StripHTML(items[j].author) + "\n";
      Regroup(b1, "Authors: ", StripHTML(items[j].author), "\n");
      ghost var b2 := body;
      body := body + "Link: " + items[j].link + "\n";
      Regroup(b2, "Link: ", items[j].link, "\n");
      ghost var b3 := body;
      var summary := StripHTML(items[j].summary);
      body := body + "Abstract:\n" + summary + "\n\n";
      Regroup(b3, "Abstract:\n", summary, "\n\n");
      EntryAppended(prev, items[j], body);
      EntriesStep(body0, items, j, prev, body);
      IdsStep(items, j);
      TakeNewContinues(items, hist, j);
      AppendStep(written0, Ids(items[..j]), [itemId], Ids(items[..j + 1]), writtenPrev, written);
      j := j + 1;
    }
    TakeNewStops(items, hist, j);
  }

  /**
   * The loop over the feeds: for each one its heading goes into the body,
   * then its new items, then a rule.
   */
  method Digest(feeds: seq<Feed>, hist: seq<string>) returns (body: string, written: seq<string>, newCount: nat)
    ensures body == DigestBody(feeds, hist)
    ensures written == Ids(NewItems(feeds, hist))
    ensures newCount == |written| == |NewItems(feeds, hist)|
  {
    body := Subject;
    written := [];
    newCount := 0;
    var f := 0;
    while f < |feeds|
      invariant 0 <= f <= |feeds|
      invariant body == Subject + Sections(feeds[..f], hist)
      invariant written == Ids(NewItems(feeds[..f], hist))
      invariant newCount == |written|
    {
      var items := feeds[f].items;
      var title := feeds[f].title;
      ghost var before := body;
      body := body + title + "\n" + Underline(|title|) + "\n\n";
      HeadingAppended(before, title);
      body, written, newCount := AddNewItems(body, written, newCount, items, hist);
      body := body + "---\n\n";
      SectionAppended(before, feeds[f], hist, body);
      SectionStep(Subject, feeds, f, hist, before, body);
      IdsOfFeedsStep(feeds, f, hist);
      f := f + 1;
    }
    assert feeds[..f] == feeds;
  }

  /** No mailed item has its id in the history it was checked against. */
  lemma {:induction false} NewItemsUnseen(feeds: seq<Feed>, hist: seq<string>)
    ensures forall k :: 0 <= k < |NewItems(feeds, hist)| ==> Ids(NewItems(feeds, hist))[k] !in hist
    decreases |feeds|
  {
    if feeds != [] {
      var front := feeds[..|feeds| - 1];
      var a, b := NewItems(front, hist), TakeNew(feeds[|feeds| - 1].items, hist);
      NewItemsUnseen(front, hist);
      IdsAppend(a, b);
      IdsOfEach(b);
    }
  }

  lemma {:induction false} IdsOfEach(items: seq<Item>)
    ensures forall k :: 0 <= k < |items| ==> Ids(items)[k] == ItemId(items[k].id)
    decreases |items|
  {
    if items != [] {
      IdsOfEach(items[..|items| - 1]);
    }
  }

  /** Nothing is new exactly when every feed is empty or starts with an item already seen. */
  lemma {:induction false} NothingNew(feeds: seq<Feed>, hist: seq<string>)
    ensures |NewItems(feeds, hist)| == 0 <==>
      forall f :: 0 <= f < |feeds| ==> feeds[f].items == [] || ItemId(feeds[f].items[0].id) in hist
    decreases |feeds|
  {
    if feeds != [] {
      var front := feeds[..|feeds| - 1];
      NothingNew(front, hist);
      assert forall f :: 0 <= f < |front| ==> front[f] == feeds[f];
    }
  }

  // -------------------------------------------------------------- One run

  /** What one run leaves behind: the history file and the message mailed, if any. */
  datatype RunResult = RunResult(historyFile: string, mail: Option<string>)

  /**
   * One run as the script does it: the history file is truncated when it is
   * opened for writing and then holds only the ids found new on this run.
   */
  function RunAsWritten(feeds: seq<Feed>, histFile: Option<string>): RunResult {
    var hist := History(histFile);
    var found := NewItems(feeds, hist);
    RunResult(HistoryText(Ids(found)), if |found| != 0 then Some(DigestBody(feeds, hist)) else None)
  }

  /** One run keeping the history: the new ids are written ahead of the old ones. */
  function Run(feeds: seq<Feed>, histFile: Option<string>): RunResult {
    var hist := History(histFile);
    var found := NewItems(feeds, hist);
    RunResult(HistoryText(Ids(found) + hist), if |found| != 0 then Some(DigestBody(feeds, hist)) else None)
  }

  /** The whole script: load the history, walk the feeds, mail if anything was new. */
  method RunScript(feeds: seq<Feed>, histFile: Option<string>) returns (result: RunResult, newCount: nat)
    ensures result == RunAsWritten(feeds, histFile)
    ensures result.mail.Some? <==> newCount != 0
  {
    var hist := LoadHistory(histFile);
    var body, written;
    body, written, newCount := Digest(feeds, hist);
    var mail := None;
    if newCount != 0 {
      mail := Some(body);
    }
    result := RunResult(HistoryText(written), mail);
  }

  /**
   * Mail goes out exactly when some feed starts with an item not in the
   * history, and it is the digest of those feeds.
   */
  lemma MailOnlyWhenNew(feeds: seq<Feed>, histFile: Option<string>)
    ensures var hist := History(histFile);
      (Run(feeds, histFile).mail.Some? <==>
         exists f :: 0 <= f < |feeds| && feeds[f].items != [] && ItemId(feeds[f].items[0].id) !in hist) &&
      (Run(feeds, histFile).mail.Some? ==> Run(feeds, histFile).mail.value == DigestBody(feeds, hist)) &&
      RunAsWritten(feeds, histFile).mail == Run(feeds, histFile).mail
  {
    NothingNew(feeds, History(histFile));
  }

  /** Every item id in the feeds is a clean line. */
  predicate CleanIds(feeds: seq<Feed>) {
    forall f, k :: 0 <= f < |feeds| && 0 <= k < |feeds[f].items| ==> LineClean(ItemId(feeds[f].items[k].id))
  }

  predicate AllClean(ids: seq<string>) {
    forall k :: 0 <= k < |ids| ==> LineClean(ids[k])
  }

  lemma {:induction false} NewItemsClean(feeds: seq<Feed>, hist: seq<string>)
    requires CleanIds(feeds)
    ensures AllClean(Ids(NewItems(feeds, hist)))
    decreases |feeds|
  {
    if feeds != [] {
      var front := feeds[..|feeds| - 1];
      assert forall f :: 0 <= f < |front| ==> front[f] == feeds[f];
      NewItemsClean(front, hist);
      var items := feeds[|feeds| - 1].items;
      assert forall k :: 0 <= k < |items| ==> LineClean(ItemId(items[k].id));
      var b := TakeNew(items, hist);
      IdsAppend(NewItems(front, hist), b);
      TakeNewClean(items, hist);
      CleanAppend(Ids(NewItems(front, hist)), Ids(b));
    }
  }

  lemma TakeNewClean(items: seq<Item>, hist: seq<string>)
    requires forall k :: 0 <= k < |items| ==> LineClean(ItemId(items[k].id))
    ensures AllClean(Ids(TakeNew(items, hist)))
  {
    var b := TakeNew(items, hist);
    IdsOfEach(b);
    forall k | 0 <= k < |b| ensures LineClean(Ids(b)[k]) {
      assert b[k] == items[k];
    }
  }

  lemma CleanAppend(a: seq<string>, b: seq<string>)
    requires AllClean(a) && AllClean(b)
    ensures AllClean(a + b)
  {
    forall k | 0 <= k < |a + b| ensures LineClean((a + b)[k]) {
      if k >= |a| {
        assert (a + b)[k] == b[k - |a|];
      }
    }
  }

  /**
   * With the history kept, the next run loads back the ids just mailed
   * followed by the old history, so the history only grows.
   */
  lemma HistoryGrows(feeds: seq<Feed>, histFile: Option<string>)
    requires CleanIds(feeds)
    ensures History(Some(Run(feeds, histFile).historyFile)) ==
      Ids(NewItems(feeds, History(histFile))) + History(histFile)
  {
    var hist := History(histFile);
    var ids := Ids(NewItems(feeds, hist));
    NewItemsClean(feeds, hist);
    HistoryClean(histFile);
    HistoryRoundTrip(ids + hist);
  }

  /** With the history kept, nothing mailed by one run is mailed by the next. */
  lemma NoResend(feeds: seq<Feed>, later: seq<Feed>, histFile: Option<string>)
    requires CleanIds(feeds)
    ensures var sent := Ids(NewItems(feeds, History(histFile)));
      var next := History(Some(Run(feeds, histFile).historyFile));
      forall k :: 0 <= k < |NewItems(later, next)| ==>
        Ids(NewItems(later, next))[k] !in sent && Ids(NewItems(later, next))[k] !in History(histFile)
  {
    HistoryGrows(feeds, histFile);
    NewItemsUnseen(later, History(Some(Run(feeds, histFile).historyFile)));
  }

  /**
   * As written, an item mailed on one run is mailed again two runs later
   * if the feed has not changed: the quiet run in between leaves the
   * history file empty.
   */
  lemma AsWrittenResends(item: Item, title: string)
    requires ItemId(item.id) != [] && LineClean(ItemId(item.id))
    ensures var feeds := [Feed(title, [item])];
      var first := RunAsWritten(feeds, None);
      var second := RunAsWritten(feeds, Some(first.historyFile));
      var third := RunAsWritten(feeds, Some(second.historyFile));
      first.mail.Some? && second.mail.None? && second.historyFile == [] && third.mail.Some?
  {
    var feeds := [Feed(title, [item])];
    AsWrittenQuietRun(item, title);
    var first := RunAsWritten(feeds, None);
    var second := RunAsWritten(feeds, Some(first.historyFile));
    assert History(Some(second.historyFile)) == [];
    SingleFeedRun(item, title, Some(second.historyFile));
  }

  /** The first run mails the item; the second finds nothing new and writes an empty history. */
  lemma AsWrittenQuietRun(item: Item, title: string)
    requires ItemId(item.id) != [] && LineClean(ItemId(item.id))
    ensures var feeds := [Feed(title, [item])];
      var first := RunAsWritten(feeds, None);
      var second := RunAsWritten(feeds, Some(first.historyFile));
      first.mail.Some? && second.mail.None? && second.historyFile == []
  {
    FirstRunLoadsBack(item, title);
    var first := RunAsWritten([Feed(title, [item])], None);
    SingleFeedRun(item, title, Some(first.historyFile));
  }

  /** The first run mails the item, and its history file loads back as that one id. */
  lemma FirstRunLoadsBack(item: Item, title: string)
    requires ItemId(item.id) != [] && LineClean(ItemId(item.id))
    ensures var first := RunAsWritten([Feed(title, [item])], None);
      first.mail.Some? && History(Some(first.historyFile)) == [ItemId(item.id)]
  {
    SingleFeedRun(item, title, None);
    HistoryRoundTrip([ItemId(item.id)]);
  }

  /** One as-written run over a feed of one item. */
  lemma SingleFeedRun(item: Item, title: string, histFile: Option<string>)
    ensures var x := ItemId(item.id);
      var run := RunAsWritten([Feed(title, [item])], histFile);
      (x !in History(histFile) ==> run.mail.Some? && run.historyFile == HistoryText([x])) &&
      (x in History(histFile) ==> run.mail.None? && run.historyFile == [])
  {
    SingleFeed(item, title, History(histFile));
  }

  /** A feed of one item: it is new exactly when its id is not in the history. */
  lemma SingleFeed(item: Item, title: string, hist: seq<string>)
    ensures var found := NewItems([Feed(title, [item])], hist);
      (ItemId(item.id) !in hist ==> found == [item] && Ids(found) == [ItemId(item.id)]) &&
      (ItemId(item.id) in hist ==> found == [] && Ids(found) == [])
  {
    var feeds := [Feed(title, [item])];
    assert feeds[..0] == [];
    assert [item][..0] == [];
  }
}
