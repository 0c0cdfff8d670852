/**
 * `randpass`: prints a random password of printable ASCII characters whose
 * length comes from the first command-line argument.
 *
 * The random generator is a nondeterministic pick in its range; the seed
 * taken from the clock and the tracebacks printed on error are left out.
 */
module PasswordGen {
  import opened Wrappers
  import opened Text

  /** `ord('!')` and `ord('z')`, the bounds of `random.randint`. */
  const Lowest: int := '!' as int
  const Highest: int := 'z' as int

  predicate InAlphabet(c: char) {
    Lowest <= c as int <= Highest
  }

  /** The number of characters `genpass(n)` produces: one per value of `range(1, n)`. */
  function PasswordLength(numChars: int): nat
  {
    if numChars >= 1 then numChars - 1 else 0
  }

  /**
   * `genpass`: starts from the empty password and appends one random
   * character from `!` to `z` per loop iteration. `trace` is the password
   * after each iteration.
   */
  method GenPass(numChars: int) returns (password: string, ghost trace: seq<string>)
    ensures |password| == PasswordLength(numChars)
    ensures forall k :: 0 <= k < |password| ==> InAlphabet(password[k])
    ensures |trace| == |password| + 1 && trace[0] == [] && trace[|password|] == password
    ensures forall k :: 0 <= k < |password| ==> trace[k + 1] == trace[k] + [password[k]]
  {
    password := "";
    trace := [password];
    var i := 1;
    while i < numChars
      invariant numChars >= 1 ==> 1 <= i <= numChars
      invariant numChars < 1 ==> i == 1
      invariant |password| == i - 1
      invariant forall k :: 0 <= k < |password| ==> InAlphabet(password[k])
      invariant |trace| == |password| + 1 && trace[0] == [] && trace[|password|] == password
      invariant forall k :: 0 <= k < |password| ==> trace[k + 1] == trace[k] + [password[k]]
    {
      var code :| Lowest <= code <= Highest;
      var ch := code as char;
      password := password + [ch];
      trace := trace + [password];
      i := i + 1;
    }
  }

  /**
   * `s` is an integer literal as Python 2's `int` reads it, with its pieces
   * cut at `i <= j <= k < l`: blanks before `i`, an optional sign `s[i..j]`,
   * blanks `s[j..k]`, the digits `s[k..l]` and blanks from `l` on.
   */
  predicate LiteralAt(s: string, i: nat, j: nat, k: nat, l: nat) {
    i <= j <= k < l <= |s| &&
    (forall x :: 0 <= x < i ==> IsAsciiSpace(s[x])) &&
    (j == i || (j == i + 1 && (s[i] == '+' || s[i] == '-'))) &&
    (forall x :: j <= x < k ==> IsAsciiSpace(s[x])) &&
    AllDigits(s[k..l]) &&
    (forall x :: l <= x < |s| ==> IsAsciiSpace(s[x]))
  }

  /** The value of such a literal: its digits, negated after a minus sign. */
  function LiteralValue(s: string, i: nat, j: nat, k: nat, l: nat): int
    requires LiteralAt(s, i, j, k, l)
  {
    var n: int := ParseDecimal(s[k..l]);
    if j == i + 1 && s[i] == '-' then -n else n
  }

  /**
   * Python 2 `int(s)` on a string: surrounding whitespace, an optional sign
   * followed by optional whitespace, and at least one decimal digit;
   * anything else is a `ValueError`, here `None`. An accepted text is a
   * literal and yields that literal's value; `ParseIntLiteral` is the
   * converse.
   */
  function ParseInt(s: string): (r: Option<int>)
    ensures r.Some? ==> exists k :: 0 <= k < |s| && IsDigit(s[k])
    ensures r.Some? ==> exists i, j, k, l :: LiteralAt(s, i, j, k, l) && r.value == LiteralValue(s, i, j, k, l)
  {
    var r := ParseSigned(Strip(s, IsAsciiSpace));
    if r.Some? then
      StrippedLiteral(s);
      r
    else r
  }

  /**
   * The sign and digits of an already stripped text. After a sign,
   * `PyOS_strtoul` skips whitespace before the digits.
   */
  function ParseSigned(t: string): Option<int>
  {
    if t == [] then None
    else
      var digits := if t[0] == '-' || t[0] == '+' then StripLeft(t[1..], IsAsciiSpace) else t;
      if digits == [] || !AllDigits(digits) then None
      else
        var n: int := ParseDecimal(digits);
        Some(if t[0] == '-' then -n else n)
  }

  /** The leading whitespace run is fixed by where the first other character stands. */
  lemma LeadLenAt(s: string, n: nat)
    requires n <= |s| && (forall x :: 0 <= x < n ==> IsAsciiSpace(s[x]))
    requires n == |s| || !IsAsciiSpace(s[n])
    ensures StripLeft(s, IsAsciiSpace) == s[n..]
  {
    var m := LeadLen(s, IsAsciiSpace);
    assert m == n;
  }

  /** Stripping keeps exactly the slice between the leading and the trailing whitespace runs. */
  lemma StripBetween(s: string, a: nat, l: nat)
    requires a < l <= |s| && (forall x :: 0 <= x < a ==> IsAsciiSpace(s[x]))
    requires !IsAsciiSpace(s[a]) && !IsAsciiSpace(s[l - 1])
    requires forall x :: l <= x < |s| ==> IsAsciiSpace(s[x])
    ensures Strip(s, IsAsciiSpace) == s[a..l]
  {
    LeadLenAt(s, a);
    var t := Strip(s, IsAsciiSpace);
    var e := a + |t|;
    assert t == s[a..e];
    assert t == [] || t[|t| - 1] == s[e - 1];
    assert e == l;
  }

  /** Text that stripped gives a literal's value is a literal of that value. */
  lemma StrippedLiteral(s: string)
    requires ParseSigned(Strip(s, IsAsciiSpace)).Some?
    ensures exists i, j, k, l ::
      (LiteralAt(s, i, j, k, l) && ParseSigned(Strip(s, IsAsciiSpace)).value == LiteralValue(s, i, j, k, l))
  {
    var t := Strip(s, IsAsciiSpace);
    var a := |s| - |StripLeft(s, IsAsciiSpace)|;
    var l := a + |t|;
    assert s[a..l] == t;
    if t[0] == '-' || t[0] == '+' {
      var d := StripLeft(t[1..], IsAsciiSpace);
      var k := SignedSliced(s, t, a, l, d);
      SignedValue(t, d, LiteralValue(s, a, a + 1, k, l));
    } else {
      UnsignedSliced(s, t, a, l);
    }
  }

  /** A stripped text `t = s[a..l]` with a sign: where its blanks and digits stand in `s`. */
  lemma SignedSliced(s: string, t: string, a: nat, l: nat, d: string) returns (k: nat)
    requires a < l <= |s| && s[a..l] == t && (t[0] == '-' || t[0] == '+')
    requires d == StripLeft(t[1..], IsAsciiSpace) && |d| >= 1 && AllDigits(d)
    requires forall x :: 0 <= x < a ==> IsAsciiSpace(s[x])
    requires forall x :: l <= x < |s| ==> IsAsciiSpace(s[x])
    ensures LiteralAt(s, a, a + 1, k, l)
    ensures LiteralValue(s, a, a + 1, k, l) == if t[0] == '-' then -(ParseDecimal(d) as int) else ParseDecimal(d)
  {
    k := l - |d|;
    SignedSlices(s, t, a, l, d);
    assert t[0] == s[a];
  }

  /** A stripped text `t = s[a..l]` without a sign is all digits, read as they stand. */
  lemma UnsignedSliced(s: string, t: string, a: nat, l: nat)
    requires a <= l <= |s| && s[a..l] == t && ParseSigned(t).Some? && t[0] != '-' && t[0] != '+'
    requires forall x :: 0 <= x < a ==> IsAsciiSpace(s[x])
    requires forall x :: l <= x < |s| ==> IsAsciiSpace(s[x])
    ensures LiteralAt(s, a, a, a, l) && ParseSigned(t).value == LiteralValue(s, a, a, a, l)
  {
  }

  /** Where the blanks and digits after a sign stand in the unstripped text. */
  lemma SignedSlices(s: string, t: string, a: nat, l: nat, d: string)
    requires a < l <= |s| && s[a..l] == t && d == StripLeft(t[1..], IsAsciiSpace)
    ensures l - |d| >= a + 1 && s[l - |d|..l] == d
    ensures forall x :: a + 1 <= x < l - |d| ==> IsAsciiSpace(s[x])
  {
    var u := t[1..];
    assert s[a + 1..l] == u;
    forall x | a + 1 <= x < l - |d|
      ensures IsAsciiSpace(s[x])
    {
      assert s[x] == u[x - a - 1];
    }
  }

  /** `ParseSigned` after a sign reads the digits left once the blanks are skipped. */
  lemma SignedValue(t: string, d: string, v: int)
    requires |t| >= 1 && (t[0] == '-' || t[0] == '+') && d == StripLeft(t[1..], IsAsciiSpace)
    requires |d| >= 1 && AllDigits(d)
    requires v == if t[0] == '-' then -(ParseDecimal(d) as int) else ParseDecimal(d)
    ensures ParseSigned(t) == Some(v)
  {
  }

  /** Every literal is accepted with its value. */
  lemma ParseIntLiteral(s: string, i: nat, j: nat, k: nat, l: nat)
    requires LiteralAt(s, i, j, k, l)
    ensures ParseInt(s) == Some(LiteralValue(s, i, j, k, l))
  {
    assert IsDigit(s[k..l][0]) && IsDigit(s[k..l][l - k - 1]);
    if j == i + 1 {
      StripBetween(s, i, l);
      SignedLiteral(s, i, j, k, l);
    } else {
      StripBetween(s, k, l);
    }
  }

  /** A signed literal, once stripped, is read with its sign. */
  lemma SignedLiteral(s: string, i: nat, j: nat, k: nat, l: nat)
    requires LiteralAt(s, i, j, k, l) && j == i + 1
    ensures ParseSigned(s[i..l]) == Some(LiteralValue(s, i, j, k, l))
  {
    var n: int := ParseDecimal(s[k..l]);
    assert LiteralValue(s, i, j, k, l) == if s[i] == '-' then -n else n;
    var t := s[i..l];
    assert t[0] == s[i] && t[1..] == s[j..l];
    assert IsDigit(s[k..l][0]);
    SkipBlanks(s, j, k, l);
    SignedValue(t, s[k..l], LiteralValue(s, i, j, k, l));
  }

  /** Skipping the blanks of `s[j..k]` leaves the text from `k` on. */
  lemma SkipBlanks(s: string, j: nat, k: nat, l: nat)
    requires j <= k < l <= |s| && (forall x :: j <= x < k ==> IsAsciiSpace(s[x])) && !IsAsciiSpace(s[k])
    ensures StripLeft(s[j..l], IsAsciiSpace) == s[k..l]
  {
    LeadLenAt(s[j..l], k - j);
    assert s[j..l][k - j..] == s[k..l];
  }

  /** `str(n)`: the decimal text of an integer, with a minus sign when negative. */
  function IntText(n: int): string {
    if n < 0 then "-" + Decimal(-n) else Decimal(n)
  }

  lemma StripDecimalText(n: int)
    ensures Strip(IntText(n), IsAsciiSpace) == IntText(n)
  {
    var s := IntText(n);
    assert IsDigit(s[|s| - 1]);
    StripBetween(s, 0, |s|);
  }

  /** `int(str(n)) == n` for every integer. */
  lemma ParseIntText(n: int)
    ensures ParseInt(IntText(n)) == Some(n)
  {
    StripDecimalText(n);
    ParseSignedText(n);
  }

  lemma ParseSignedText(n: int)
    ensures ParseSigned(IntText(n)) == Some(n)
  {
    var s := IntText(n);
    if n < 0 {
      var d := Decimal(-n);
      assert s == ['-'] + d;
      assert s[1..] == d;
      assert IsDigit(d[0]);
      LeadLenAt(d, 0);
      ParseDecimalOfDecimal(-n);
    } else {
      assert IsDigit(s[0]);
      ParseDecimalOfDecimal(n);
    }
  }

  /** What the program prints: a password, or the error message after a failure. */
  datatype Output = Password(text: string) | Oops

  /** The largest `Py_ssize_t` of a 64-bit build, the longest list `range` agrees to build. */
  const MaxListLength: int := 0x7fff_ffff_ffff_ffff

  /**
   * `range(1, n)` in `genpass` builds its whole list before the first
   * character is drawn: a list longer than `MaxListLength` raises
   * `OverflowError`, and one longer than the `room` left in memory raises
   * `MemoryError`.
   */
  predicate RangeFails(numChars: int, room: nat) {
    PasswordLength(numChars) > MaxListLength || PasswordLength(numChars) > room
  }

  /**
   * `main`: reads `argv[1]` as an integer and prints a password of that many
   * characters less one. A missing or non-integer argument, or a count whose
   * `range` cannot be built in `room` list items, is caught by the bare
   * `except`, and the error message is printed instead of a password.
   */
  method Run(argv: seq<string>, room: nat) returns (out: Output)
    ensures out.Oops? <==> |argv| < 2 || ParseInt(argv[1]).None? || RangeFails(ParseInt(argv[1]).value, room)
    ensures out.Password? ==> |out.text| == PasswordLength(ParseInt(argv[1]).value)
    ensures out.Password? ==> |out.text| <= room && |out.text| <= MaxListLength
    ensures out.Password? ==> forall k :: 0 <= k < |out.text| ==> InAlphabet(out.text[k])
  {
    if |argv| < 2 {
      return Oops;
    }
    var numChars := ParseInt(argv[1]);
    if numChars.None? {
      return Oops;
    }
    if RangeFails(numChars.value, room) {
      return Oops;
    }
    var password, _ := GenPass(numChars.value);
    out := Password(password);
  }
}
