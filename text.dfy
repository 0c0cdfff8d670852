/**
 * String operations of the Python standard library that the scripts use:
 * prefix and suffix tests, `str.find`, `str.replace`, `str.split`, `str.lstrip`
 * with a character set, `str.strip`, and decimal formatting of integers.
 */
module Text {
  import opened Wrappers

  predicate StartsWith(s: string, p: string) {
    |p| <= |s| && s[..|p|] == p
  }

  predicate EndsWith(s: string, p: string) {
    |p| <= |s| && s[|s| - |p|..] == p
  }

  /** `p` occurs in `s` starting at index `i`. */
  predicate OccursAt(s: string, p: string, i: nat) {
    i + |p| <= |s| && s[i..i + |p|] == p
  }

  predicate Contains(s: string, p: string) {
    exists i: nat | i <= |s| :: OccursAt(s, p, i)
  }

  lemma OccursAtShift(s: string, p: string, i: nat)
    requires 1 <= |s|
    ensures OccursAt(s[1..], p, i) <==> OccursAt(s, p, i + 1)
  {
    if i + 1 + |p| <= |s| {
      assert s[1..][i..i + |p|] == s[i + 1..i + 1 + |p|];
    }
  }

  lemma OccursAtDrop(s: string, p: string, k: nat, i: nat)
    requires k <= |s|
    ensures OccursAt(s[k..], p, i) <==> OccursAt(s, p, i + k)
  {
    if i + k + |p| <= |s| {
      assert s[k..][i..i + |p|] == s[i + k..i + k + |p|];
    }
  }

  /** `str.find(p, from)`: the first occurrence of `p` at or after `from`. */
  function IndexOfFrom(s: string, p: string, from: nat): (r: Option<nat>)
    decreases |s| - from
    ensures r.Some? ==> from <= r.value && OccursAt(s, p, r.value)
    ensures r.Some? ==> forall j :: from <= j < r.value ==> !OccursAt(s, p, j)
    ensures r.None? ==> forall j: nat :: from <= j ==> !OccursAt(s, p, j)
  {
    if from + |p| > |s| then None
    else if OccursAt(s, p, from) then Some(from)
    else IndexOfFrom(s, p, from + 1)
  }

  function IndexOf(s: string, p: string): (r: Option<nat>)
    ensures r.None? <==> !Contains(s, p)
    ensures r.Some? ==> OccursAt(s, p, r.value) && forall j :: 0 <= j < r.value ==> !OccursAt(s, p, j)
  {
    IndexOfFrom(s, p, 0)
  }

  /**
   * `s.replace(pat, rep)` (and `re.sub` with a pattern free of special
   * characters): every occurrence found scanning left to right, without
   * overlap, is replaced.
   */
  function ReplaceAll(s: string, pat: string, rep: string): string
    requires pat != []
    decreases |s|
  {
    if |s| < |pat| then s
    else if s[..|pat|] == pat then rep + ReplaceAll(s[|pat|..], pat, rep)
    else [s[0]] + ReplaceAll(s[1..], pat, rep)
  }

  /** Text without an occurrence of the pattern is returned unchanged. */
  lemma {:induction false} ReplaceAllAbsent(s: string, pat: string, rep: string)
    requires pat != []
    requires !Contains(s, pat)
    ensures ReplaceAll(s, pat, rep) == s
  {
    if |s| >= |pat| {
      assert !OccursAt(s, pat, 0);
      forall i: nat | i <= |s[1..]|
        ensures !OccursAt(s[1..], pat, i)
      {
        OccursAtShift(s, pat, i);
      }
      ReplaceAllAbsent(s[1..], pat, rep);
      assert [s[0]] + s[1..] == s;
    }
  }

  /** Replacing at the front: an occurrence at index 0 becomes `rep`. */
  lemma ReplaceAllPrefix(pat: string, rep: string, x: string)
    requires pat != []
    ensures ReplaceAll(pat + x, pat, rep) == rep + ReplaceAll(x, pat, rep)
  {
    assert (pat + x)[..|pat|] == pat;
    assert (pat + x)[|pat|..] == x;
  }

  /** The pattern alone becomes the replacement. */
  lemma ReplaceAllWhole(pat: string, rep: string)
    requires pat != []
    ensures ReplaceAll(pat, pat, rep) == rep
  {
    assert pat[..|pat|] == pat;
    assert pat[|pat|..] == [];
  }

  /** A prefix in which no occurrence of the pattern starts passes through unchanged. */
  lemma {:induction false} ReplaceAllKeepsPrefix(t: string, x: string, pat: string, rep: string)
    requires pat != []
    requires forall i :: 0 <= i < |t| ==> !OccursAt(t + x, pat, i)
    ensures ReplaceAll(t + x, pat, rep) == t + ReplaceAll(x, pat, rep)
  {
    if t == [] {
      assert t + x == x;
    } else {
      var s := t + x;
      assert !OccursAt(s, pat, 0);
      if |s| < |pat| {
        assert ReplaceAll(x, pat, rep) == x;
      } else {
        assert s[..|pat|] != pat;
        assert ReplaceAll(s, pat, rep) == [s[0]] + ReplaceAll(s[1..], pat, rep);
        assert s[1..] == t[1..] + x;
        forall i | 0 <= i < |t[1..]|
          ensures !OccursAt(t[1..] + x, pat, i)
        {
          OccursAtShift(s, pat, i);
        }
        ReplaceAllKeepsPrefix(t[1..], x, pat, rep);
        calc {
          ReplaceAll(s, pat, rep);
          [t[0]] + ReplaceAll(t[1..] + x, pat, rep);
          [t[0]] + (t[1..] + ReplaceAll(x, pat, rep));
          { assert [t[0]] + t[1..] == t; }
          t + ReplaceAll(x, pat, rep);
        }
      }
    }
  }

  /**
   * When the pattern's first character does not recur in it, an occurrence
   * at the very end is always replaced, after whatever the text before it
   * becomes.
   */
  lemma {:induction false} ReplaceAllBeforeSuffix(a: string, pat: string, rep: string)
    requires pat != [] && forall k :: 1 <= k < |pat| ==> pat[k] != pat[0]
    ensures ReplaceAll(a + pat, pat, rep) == ReplaceAll(a, pat, rep) + rep
    decreases |a|
  {
    var s := a + pat;
    if a == [] {
      assert s == pat;
      ReplaceAllWhole(pat, rep);
    } else {
      var t := if |a| >= |pat| && a[..|pat|] == pat then a[|pat|..] else a[1..];
      assert s[|a| - |t|..] == t + pat;
      ReplaceAllBeforeSuffix(t, pat, rep);
      if |a| < |pat| {
        NoEarlyOccurrence(a, pat);
        ReplaceAllMiss(s, pat, rep);
        assert [a[0]] + t == a;
      } else if a[..|pat|] == pat {
        assert s[..|pat|] == pat;
        ReplaceAllHit(s, pat, rep);
        ReplaceAllHit(a, pat, rep);
      } else {
        assert s[..|pat|] == a[..|pat|];
        ReplaceAllMiss(s, pat, rep);
        ReplaceAllMiss(a, pat, rep);
      }
    }
  }

  /** `ReplaceAll` on a text that starts with the pattern. */
  lemma ReplaceAllHit(s: string, pat: string, rep: string)
    requires pat != [] && |s| >= |pat| && s[..|pat|] == pat
    ensures ReplaceAll(s, pat, rep) == rep + ReplaceAll(s[|pat|..], pat, rep)
  {
  }

  /** `ReplaceAll` on a text that does not start with the pattern. */
  lemma ReplaceAllMiss(s: string, pat: string, rep: string)
    requires pat != [] && |s| >= |pat| && s[..|pat|] != pat
    ensures ReplaceAll(s, pat, rep) == [s[0]] + ReplaceAll(s[1..], pat, rep)
  {
  }

  /** A text shorter than the pattern, followed by it, does not start with it. */
  lemma NoEarlyOccurrence(a: string, pat: string)
    requires forall k :: 1 <= k < |pat| ==> pat[k] != pat[0]
    requires 0 < |a| < |pat|
    ensures (a + pat)[..|pat|] != pat
  {
    var s := a + pat;
    assert s[..|pat|][|a|] == pat[0] != pat[|a|];
  }

  /** `s.lstrip(chars)`: drops the longest leading run of characters from `chars`. */
  function LStripChars(s: string, chars: set<char>): (r: string)
    ensures |r| <= |s| && s[|s| - |r|..] == r
    ensures r == [] || r[0] !in chars
    ensures forall k :: 0 <= k < |s| - |r| ==> s[k] in chars
  {
    if s != [] && s[0] in chars then
      var r := LStripChars(s[1..], chars);
      assert s[1..][|s| - 1 - |r|..] == s[|s| - |r|..];
      r
    else s
  }

  /** `lstrip` removes a leading run of set characters and stops at the first other one. */
  lemma {:induction false} LStripRun(run: string, rest: string, chars: set<char>)
    requires forall k :: 0 <= k < |run| ==> run[k] in chars
    requires rest == [] || rest[0] !in chars
    ensures LStripChars(run + rest, chars) == rest
    decreases |run|
  {
    if run != [] {
      assert (run + rest)[1..] == run[1..] + rest;
      LStripRun(run[1..], rest, chars);
    } else {
      assert run + rest == rest;
    }
  }

  /** Python 2 `str.isspace` on a byte string. */
  predicate IsAsciiSpace(c: char) {
    c == ' ' || c == '\t' || c == '\n' || c == '\r' || c == '\U{0B}' || c == '\U{0C}'
  }

  /** Python 3 `str.isspace`: the characters with the Unicode whitespace property. */
  predicate IsUnicodeSpace(c: char) {
    IsAsciiSpace(c) || '\U{1C}' <= c <= '\U{1F}' || c == '\U{85}' || c == '\U{A0}' ||
    c == '\U{1680}' || '\U{2000}' <= c <= '\U{200A}' || c == '\U{2028}' || c == '\U{2029}' ||
    c == '\U{202F}' || c == '\U{205F}' || c == '\U{3000}'
  }

  /** The length of the leading run of whitespace. */
  function LeadLen(s: string, ws: char -> bool): (n: nat)
    ensures n <= |s| && (n == |s| || !ws(s[n]))
    ensures forall k :: 0 <= k < n ==> ws(s[k])
  {
    if s != [] && ws(s[0]) then
      var m := LeadLen(s[1..], ws);
      assert forall k :: 1 <= k < 1 + m ==> s[k] == s[1..][k - 1];
      1 + m
    else 0
  }

  /** The length of the trailing run of whitespace. */
  function TrailLen(s: string, ws: char -> bool): (n: nat)
    ensures n <= |s| && (n == |s| || !ws(s[|s| - 1 - n]))
    ensures forall k :: |s| - n <= k < |s| ==> ws(s[k])
  {
    if s != [] && ws(s[|s| - 1]) then
      var m := TrailLen(s[..|s| - 1], ws);
      assert forall k :: |s| - 1 - m <= k < |s| - 1 ==> s[k] == s[..|s| - 1][k];
      1 + m
    else 0
  }

  /** `s.lstrip()` for the whitespace predicate `ws`. */
  function StripLeft(s: string, ws: char -> bool): (r: string)
    ensures |r| <= |s| && s[|s| - |r|..] == r
    ensures r == [] || !ws(r[0])
    ensures forall k :: 0 <= k < |s| - |r| ==> ws(s[k])
  {
    s[LeadLen(s, ws)..]
  }

  /** `s.rstrip()` for the whitespace predicate `ws`. */
  function StripRight(s: string, ws: char -> bool): (r: string)
    ensures |r| <= |s| && s[..|r|] == r
    ensures r == [] || !ws(r[|r| - 1])
    ensures forall k :: |r| <= k < |s| ==> ws(s[k])
  {
    s[..|s| - TrailLen(s, ws)]
  }

  /**
   * `s.strip()` for the whitespace predicate `ws`: `s` less a leading and a
   * trailing run of whitespace, neither end of what is left being whitespace.
   */
  function Strip(s: string, ws: char -> bool): (r: string)
    ensures var a := |s| - |StripLeft(s, ws)|;
      a + |r| <= |s| && s[a..a + |r|] == r &&
      (forall k :: 0 <= k < a ==> ws(s[k])) && (forall k :: a + |r| <= k < |s| ==> ws(s[k]))
    ensures r == [] || (!ws(r[0]) && !ws(r[|r| - 1]))
  {
    StripLeftRight(s, StripLeft(s, ws), StripRight(StripLeft(s, ws), ws), ws);
    StripRight(StripLeft(s, ws), ws)
  }

  /** The shape of `Strip` over plain sequences: `l` strips the left of `s`, `r` the right of `l`. */
  lemma StripLeftRight(s: string, l: string, r: string, ws: char -> bool)
    requires |l| <= |s| && s[|s| - |l|..] == l
    requires l == [] || !ws(l[0])
    requires forall k :: 0 <= k < |s| - |l| ==> ws(s[k])
    requires |r| <= |l| && l[..|r|] == r
    requires r == [] || !ws(r[|r| - 1])
    requires forall k :: |r| <= k < |l| ==> ws(l[k])
    ensures var a := |s| - |l|;
      a + |r| <= |s| && s[a..a + |r|] == r &&
      (forall k :: 0 <= k < a ==> ws(s[k])) && (forall k :: a + |r| <= k < |s| ==> ws(s[k]))
    ensures r == [] || (!ws(r[0]) && !ws(r[|r| - 1]))
  {
    var a := |s| - |l|;
    SliceOfSuffix(s, l, r);
    forall k | a + |r| <= k < |s|
      ensures ws(s[k])
    {
      assert s[k] == s[a..][k - a];
    }
  }

  /** A prefix `r` of a suffix `l` of `s` sits at `|s| - |l|` in `s`. */
  lemma SliceOfSuffix<T>(s: seq<T>, l: seq<T>, r: seq<T>)
    requires |l| <= |s| && s[|s| - |l|..] == l
    requires |r| <= |l| && l[..|r|] == r
    ensures s[|s| - |l|..|s| - |l| + |r|] == r
    ensures r == [] || r[0] == l[0]
  {
    var a := |s| - |l|;
    assert s[a..a + |r|] == s[a..][..|r|];
  }

  /** `str.split(sep)`: the pieces between the occurrences of `sep`. */
  function Split(s: string, sep: string): (r: seq<string>)
    requires sep != []
    decreases |s|
    ensures |r| >= 1
  {
    match IndexOf(s, sep)
    case None => [s]
    case Some(i) => [s[..i]] + Split(s[i + |sep|..], sep)
  }

  predicate Lacks(s: string, c: char) {
    forall k :: 0 <= k < |s| ==> s[k] != c
  }

  /** A piece without the separator character splits off whole. */
  lemma SplitAtChar(a: string, c: char, rest: string)
    requires Lacks(a, c)
    ensures Split(a + [c] + rest, [c]) == [a] + Split(rest, [c])
  {
    var s := a + [c] + rest;
    assert OccursAt(s, [c], |a|) by { assert s[|a|..|a| + 1] == [c]; }
    var i := IndexOf(s, [c]).value;
    assert s[i..i + 1][0] == s[i];
    assert i == |a|;
    assert s[..i] == a;
    assert s[i + 1..] == rest;
  }

  /** Text without the separator character is one piece. */
  lemma SplitLacking(a: string, c: char)
    requires Lacks(a, c)
    ensures Split(a, [c]) == [a]
  {
    forall i: nat | i <= |a| ensures !OccursAt(a, [c], i) {
      if i + 1 <= |a| {
        assert a[i..i + 1][0] == a[i];
      }
    }
  }

  /** Three pieces without `c`, joined by `c`, split back into themselves. */
  lemma SplitThree(a: string, b: string, e: string, c: char)
    requires Lacks(a, c) && Lacks(b, c) && Lacks(e, c)
    ensures Split(a + [c] + b + [c] + e, [c]) == [a, b, e]
  {
    Regroup5(a, [c], b, [c], e);
    SplitAtChar(a, c, b + [c] + e);
    SplitAtChar(b, c, e);
    SplitLacking(e, c);
  }

  /** A sequence is what comes before index `i`, the element there, and what follows. */
  lemma Around<T>(s: seq<T>, i: nat)
    requires i < |s|
    ensures s == s[..i] + [s[i]] + s[i + 1..]
  {
  }

  lemma Regroup3<T>(a: seq<T>, b: seq<T>, c: seq<T>)
    ensures a + b + c == a + (b + c)
  {
  }

  lemma Regroup5<T>(a: seq<T>, x: seq<T>, b: seq<T>, y: seq<T>, e: seq<T>)
    ensures a + x + b + y + e == a + x + (b + y + e)
  {
  }

  /** The first occurrence of `c` in `s`: everything before it lacks `c`. */
  lemma FirstOccurrence(s: string, c: char) returns (i: nat)
    requires !Lacks(s, c)
    ensures i < |s| && s[i] == c && Lacks(s[..i], c)
  {
    if s[0] == c {
      i := 0;
    } else {
      var j := FirstOccurrence(s[1..], c);
      i := j + 1;
      assert s[..i] == [s[0]] + s[1..][..j];
    }
  }

  /** Splitting at the first occurrence of `c`, at index `i`. */
  lemma SplitAtFirstChar(s: string, c: char, i: nat)
    requires i < |s| && s[i] == c && Lacks(s[..i], c)
    ensures Split(s, [c]) == [s[..i]] + Split(s[i + 1..], [c])
  {
    Around(s, i);
    SplitAtChar(s[..i], c, s[i + 1..]);
  }

  function Join(pieces: seq<string>, sep: string): string
  {
    if |pieces| <= 1 then (if pieces == [] then [] else pieces[0])
    else pieces[0] + sep + Join(pieces[1..], sep)
  }

  /** Splitting and joining again gives back the original text. */
  lemma {:induction false} JoinSplit(s: string, sep: string)
    requires sep != []
    ensures Join(Split(s, sep), sep) == s
  {
    match IndexOf(s, sep)
    case None =>
    case Some(i) =>
      var rest := s[i + |sep|..];
      JoinSplit(rest, sep);
      var tail := Split(rest, sep);
      assert Split(s, sep) == [s[..i]] + tail;
      assert s == s[..i] + sep + rest;
  }

  /** The first piece of a split is the text before the first occurrence of `sep`. */
  lemma SplitHead(s: string, sep: string)
    requires sep != []
    ensures StartsWith(s, Split(s, sep)[0])
    ensures !Contains(Split(s, sep)[0], sep)
    ensures |Split(s, sep)| == 1 <==> !Contains(s, sep)
  {
    match IndexOf(s, sep)
    case None =>
    case Some(i) =>
      var h := s[..i];
      assert s[..|h|] == h;
      match IndexOf(h, sep)
      case None =>
      case Some(j) =>
        assert j + |sep| <= |h| && h[j..j + |sep|] == sep;
        assert s[j..j + |sep|] == h[j..j + |sep|];
        assert OccursAt(s, sep, j);
        assert false;
  }

  predicate IsDigit(c: char) { '0' <= c <= '9' }

  predicate AllDigits(s: string) { forall k :: 0 <= k < |s| ==> IsDigit(s[k]) }

  function DigitChar(d: nat): (c: char)
    requires d < 10
    ensures IsDigit(c)
  {
    (('0' as int) + d) as char
  }

  function DigitValue(c: char): (d: nat)
    requires IsDigit(c)
    ensures d < 10 && DigitChar(d) == c
  {
    (c as int) - ('0' as int)
  }

  /** `str(n)` for a non-negative integer: decimal digits without padding. */
  function Decimal(n: nat): (r: string)
    ensures |r| >= 1 && AllDigits(r)
    ensures r[0] != '0' || n == 0
  {
    if n < 10 then [DigitChar(n)] else Decimal(n / 10) + [DigitChar(n % 10)]
  }

  /** `int(s)` for a non-empty string of decimal digits. */
  function ParseDecimal(s: string): nat
    requires |s| >= 1 && AllDigits(s)
  {
    if |s| == 1 then DigitValue(s[0])
    else ParseDecimal(s[..|s| - 1]) * 10 + DigitValue(s[|s| - 1])
  }

  lemma {:induction false} ParseDecimalOfDecimal(n: nat)
    ensures ParseDecimal(Decimal(n)) == n
  {
    if n >= 10 {
      var r := Decimal(n);
      ParseDecimalOfDecimal(n / 10);
      assert r[..|r| - 1] == Decimal(n / 10);
      assert DigitValue(r[|r| - 1]) == n % 10;
    }
  }
}
