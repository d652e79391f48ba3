/**
 * The Python string built-ins the shift parser relies on: `str.split(sep)`
 * with a one-character separator, `str.strip()`, `str.isspace()` (which is
 * also what `\s` matches in a `str` regular expression), `str(n)` for a
 * non-negative integer and `int(s)` for a string of ASCII digits.
 */
module Text {

  /** The characters for which Python's `str.isspace()` holds. */
  predicate IsSpace(c: char) {
    c == ' ' || ('\t' <= c <= '\r') || ('\U{1C}' <= c <= '\U{1F}')
    || c == '\U{85}' || c == '\U{A0}' || c == '\U{1680}'
    || ('\U{2000}' <= c <= '\U{200A}') || c == '\U{2028}' || c == '\U{2029}'
    || c == '\U{202F}' || c == '\U{205F}' || c == '\U{3000}'
  }

  predicate IsDigit(c: char) { '0' <= c <= '9' }

  predicate AllDigits(s: string) {
    forall i | 0 <= i < |s| :: IsDigit(s[i])
  }

  // ---------------------------------------------------------------------
  // str.split(sep)

  /**
   * `s.split(sep)`: the pieces of `s` between occurrences of `sep`. There is
   * always one more piece than there are separators, and no piece holds one.
   */
  function Split(s: string, sep: char): (parts: seq<string>)
    ensures |parts| == multiset(s)[sep] + 1
    ensures forall i | 0 <= i < |parts| :: sep !in parts[i]
    decreases |s|
  {
    if s == [] then [""]
    else
      var rest := Split(s[1..], sep);
      assert s == [s[0]] + s[1..];
      if s[0] == sep then [""] + rest
      else [[s[0]] + rest[0]] + rest[1..]
  }

  /** `sep.join(parts)`, the inverse of `Split`. */
  function Join(parts: seq<string>, sep: char): (s: string)
    requires |parts| >= 1
  {
    if |parts| == 1 then parts[0] else parts[0] + [sep] + Join(parts[1..], sep)
  }

  /** The pieces of `[c] + t`, from the pieces of `t`. */
  function Prepend(c: char, parts: seq<string>, sep: char): seq<string>
    requires |parts| >= 1
  {
    if c == sep then [""] + parts else [[c] + parts[0]] + parts[1..]
  }

  /** Splitting a non-empty string reads its first character, then the rest. */
  lemma SplitFirst(s: string, sep: char)
    requires s != []
    ensures Split(s, sep) == Prepend(s[0], Split(s[1..], sep), sep)
  {
  }

  /** Joining prepended pieces puts the character in front of the joined string. */
  lemma JoinPrepend(c: char, parts: seq<string>, sep: char)
    requires |parts| >= 1
    ensures Join(Prepend(c, parts, sep), sep) == [c] + Join(parts, sep)
  {
    var q := Prepend(c, parts, sep);
    if c == sep {
      assert q[1..] == parts;
    } else if |parts| > 1 {
      assert q[1..] == parts[1..];
    }
  }

  /** Joining the pieces back with the separator restores the string. */
  lemma {:induction false} JoinSplit(s: string, sep: char)
    ensures Join(Split(s, sep), sep) == s
    decreases |s|
  {
    if s != [] {
      JoinSplit(s[1..], sep);
      SplitFirst(s, sep);
      JoinPrepend(s[0], Split(s[1..], sep), sep);
      assert s == [s[0]] + s[1..];
    }
  }

  /** A string free of the separator splits into itself alone. */
  lemma {:induction false} SplitWithoutSeparator(s: string, sep: char)
    requires sep !in s
    ensures Split(s, sep) == [s]
  {
    assert multiset(s)[sep] == 0;
    JoinSplit(s, sep);
  }

  /** Prepending to the first of two lists of pieces leaves the second alone. */
  lemma PrependAppend(c: char, p: seq<string>, q: seq<string>, sep: char)
    requires |p| >= 1
    ensures Prepend(c, p + q, sep) == Prepend(c, p, sep) + q
  {
    assert (p + q)[0] == p[0] && (p + q)[1..] == p[1..] + q;
  }

  /** Splitting at one separator splits the two sides independently. */
  lemma {:induction false} SplitAround(a: string, b: string, sep: char)
    ensures Split(a + [sep] + b, sep) == Split(a, sep) + Split(b, sep)
    decreases |a|
  {
    var s := a + [sep] + b;
    if a == [] {
      assert s[1..] == b;
      SplitFirst(s, sep);
    } else {
      assert s[0] == a[0] && s[1..] == a[1..] + [sep] + b;
      SplitAround(a[1..], b, sep);
      SplitFirst(s, sep);
      SplitFirst(a, sep);
      PrependAppend(a[0], Split(a[1..], sep), Split(b, sep), sep);
    }
  }

  /** Splitting a join of separator-free pieces gives the pieces back. */
  lemma {:induction false} SplitJoin(parts: seq<string>, sep: char)
    requires |parts| >= 1
    requires forall i | 0 <= i < |parts| :: sep !in parts[i]
    ensures Split(Join(parts, sep), sep) == parts
  {
    SplitWithoutSeparator(parts[0], sep);
    if |parts| > 1 {
      SplitJoin(parts[1..], sep);
      SplitAround(parts[0], Join(parts[1..], sep), sep);
      assert parts == [parts[0]] + parts[1..];
    }
  }

  /** Two separator-free pieces joined by one separator split back into those two. */
  lemma SplitTwo(a: string, b: string, sep: char)
    requires sep !in a && sep !in b
    ensures Split(a + [sep] + b, sep) == [a, b]
  {
    SplitAround(a, b, sep);
    SplitWithoutSeparator(a, sep);
    SplitWithoutSeparator(b, sep);
  }

  // ---------------------------------------------------------------------
  // str.strip()

  /** `s.lstrip()`: the whitespace before the first other character goes. */
  function StripStart(s: string): (r: string)
    ensures |r| <= |s| && r == s[|s| - |r|..]
    ensures forall i | 0 <= i < |s| - |r| :: IsSpace(s[i])
    ensures r == [] || !IsSpace(r[0])
    decreases |s|
  {
    if s != [] && IsSpace(s[0]) then StripStart(s[1..]) else s
  }

  /** `s.rstrip()`: the whitespace after the last other character goes. */
  function StripEnd(s: string): (r: string)
    ensures |r| <= |s| && r == s[..|r|]
    ensures forall i | |r| <= i < |s| :: IsSpace(s[i])
    ensures r == [] || !IsSpace(r[|r| - 1])
    decreases |s|
  {
    if s != [] && IsSpace(s[|s| - 1]) then StripEnd(s[..|s| - 1]) else s
  }

  /** `s.strip()`. */
  function Strip(s: string): string {
    StripEnd(StripStart(s))
  }

  /**
   * `s.strip()` is the slice of `s` left once the whitespace at both ends
   * is gone: what is cut is whitespace, and what is left neither starts
   * nor ends with whitespace.
   */
  lemma StripShape(s: string) returns (i: nat, j: nat)
    ensures i <= j <= |s| && Strip(s) == s[i..j]
    ensures forall k | 0 <= k < i :: IsSpace(s[k])
    ensures forall k | j <= k < |s| :: IsSpace(s[k])
    ensures Strip(s) == [] || (!IsSpace(Strip(s)[0]) && !IsSpace(Strip(s)[|Strip(s)| - 1]))
  {
    var t := StripStart(s);
    i := |s| - |t|;
    j := i + |StripEnd(t)|;
    StripParts(s, t, StripEnd(t));
  }

  /** What `lstrip` leaves of `s` (`t`), and what `rstrip` leaves of that (`r`), as a slice of `s`. */
  lemma StripParts(s: string, t: string, r: string)
    requires |t| <= |s| && t == s[|s| - |t|..] && (t == [] || !IsSpace(t[0]))
    requires |r| <= |t| && r == t[..|r|] && (r == [] || !IsSpace(r[|r| - 1]))
    requires forall k | |r| <= k < |t| :: IsSpace(t[k])
    ensures r == s[|s| - |t|..|s| - |t| + |r|]
    ensures forall k | |s| - |t| + |r| <= k < |s| :: IsSpace(s[k])
    ensures r == [] || !IsSpace(r[0])
  {
    var i := |s| - |t|;
    forall k | i + |r| <= k < |s| ensures IsSpace(s[k]) {
      assert s[k] == t[k - i];
    }
    if r != [] {
      assert r[0] == t[0];
    }
  }

  /** A line of whitespace only (or of nothing). */
  predicate IsBlank(line: string) {
    forall i | 0 <= i < |line| :: IsSpace(line[i])
  }

  /** `line.strip() == ''`, the test that skips a line, holds exactly for blank lines. */
  lemma StripEmptyIffBlank(line: string)
    ensures Strip(line) == "" <==> IsBlank(line)
  {
    var t := StripStart(line);
    var k := |line| - |t|;
    if Strip(line) == "" {
      assert t == [];
    }
    assert t != [] ==> t[0] == line[k];
  }

  // ---------------------------------------------------------------------
  // Decimal digits: int(s) and str(n)

  function DigitValue(c: char): int
    requires IsDigit(c)
  {
    c as int - '0' as int
  }

  function DigitChar(d: int): (c: char)
    requires 0 <= d <= 9
    ensures IsDigit(c) && DigitValue(c) == d
  {
    ('0' as int + d) as char
  }

  function Pow10(k: nat): (p: nat)
    ensures p >= 1
  {
    if k == 0 then 1 else 10 * Pow10(k - 1)
  }

  /** `int(s)` for a string of ASCII digits (leading zeros allowed). */
  function DecimalValue(s: string): (n: nat)
    requires AllDigits(s)
    ensures n < Pow10(|s|)
    decreases |s|
  {
    if s == [] then 0
    else
      var high := DecimalValue(s[..|s| - 1]);
      assert high * 10 <= (Pow10(|s| - 1) - 1) * 10;
      high * 10 + DigitValue(s[|s| - 1])
  }

  /** The value of a numeral is its high digits scaled past its low digits. */
  lemma {:induction false} DecimalValueConcat(a: string, b: string)
    requires AllDigits(a) && AllDigits(b)
    ensures AllDigits(a + b)
    ensures DecimalValue(a + b) == DecimalValue(a) * Pow10(|b|) + DecimalValue(b)
    decreases |b|
  {
    var s := a + b;
    assert AllDigits(s) by {
      forall i | 0 <= i < |s| ensures IsDigit(s[i]) {
        if i >= |a| { assert s[i] == b[i - |a|]; }
      }
    }
    if b == [] {
      assert s == a;
    } else {
      var b' := b[..|b| - 1];
      assert s[..|s| - 1] == a + b';
      assert s[|s| - 1] == b[|b| - 1];
      DecimalValueConcat(a, b');
      ShiftDigit(DecimalValue(a), Pow10(|b'|), DecimalValue(b'), DigitValue(b[|b| - 1]));
    }
  }

  lemma ShiftDigit(x: int, p: int, y: int, c: int)
    ensures (x * p + y) * 10 + c == x * (10 * p) + (y * 10 + c)
  {
  }

  /** `str(n)`: the shortest decimal numeral of `n`. */
  function Decimal(n: nat): (s: string)
    ensures |s| >= 1 && AllDigits(s)
    ensures DecimalValue(s) == n
    ensures |s| > 1 ==> s[0] != '0'
  {
    if n < 10 then [DigitChar(n)]
    else
      var s := Decimal(n / 10) + [DigitChar(n % 10)];
      assert s[..|s| - 1] == Decimal(n / 10);
      s
  }

  /** `str(n)` has four digits exactly when `n` has four digits. */
  lemma {:induction false} DecimalLength(n: nat)
    ensures |Decimal(n)| == 4 <==> 1000 <= n <= 9999
  {
    if n >= 10 {
      DecimalLength(n / 10);
      if n >= 100 {
        DecimalLength(n / 100);
      }
    }
    assert n < 10 ==> |Decimal(n)| == 1;
    assert 10 <= n < 100 ==> |Decimal(n / 10)| == 1;
    if 100 <= n < 1000 {
      assert 10 <= n / 10 < 100;
      assert |Decimal(n / 10)| == 2 by {
        assert |Decimal(n / 100)| == 1;
      }
    }
  }

  /** `'%02d' % n`. */
  function Pad2(n: int): (s: string)
    requires 0 <= n < 100
    ensures |s| == 2 && AllDigits(s) && DecimalValue(s) == n
  {
    var s := [DigitChar(n / 10), DigitChar(n % 10)];
    assert s[..1] == [DigitChar(n / 10)] && s[..1][..0] == [];
    assert DecimalValue(s[..1]) == n / 10;
    s
  }

  /** `'%04d' % n`. */
  function Pad4(n: int): (s: string)
    requires 0 <= n < 10000
    ensures |s| == 4 && AllDigits(s) && DecimalValue(s) == n
  {
    var s := Pad2(n / 100) + Pad2(n % 100);
    assert s[..3][..2] == Pad2(n / 100);
    assert s[..2] == Pad2(n / 100);
    s
  }
}
