/** The JavaScript string operations the controller relies on, over
    `seq<char>`: `split` and `join` with a one-character separator,
    `trim`, `includes`, and the decimal rendering of a number in a
    template literal. */
module Strings {
  import opened Wrappers

  /** The code points JavaScript's `String.prototype.trim` removes:
      WhiteSpace (TAB, VT, FF, SPACE, NBSP, ZWNBSP and category Zs) and
      LineTerminator (LF, CR, LS, PS). */
  predicate IsWhitespace(c: char) {
    var n := c as int;
    n == 0x09 || n == 0x0A || n == 0x0B || n == 0x0C || n == 0x0D
    || n == 0x20 || n == 0xA0 || n == 0x1680
    || (0x2000 <= n <= 0x200A)
    || n == 0x2028 || n == 0x2029 || n == 0x202F || n == 0x205F
    || n == 0x3000 || n == 0xFEFF
  }

  /** Neither end of `s` is whitespace. */
  predicate IsTrimmed(s: string) {
    |s| == 0 || (!IsWhitespace(s[0]) && !IsWhitespace(s[|s| - 1]))
  }

  /** No character of `s` is whitespace. */
  predicate NoWhitespace(s: string) {
    forall i :: 0 <= i < |s| ==> !IsWhitespace(s[i])
  }

  /* ---------------------------------------------------------------- */
  /* split / join                                                      */
  /* ---------------------------------------------------------------- */

  /** `a.join(sep)` for a non-empty array. */
  function Join(parts: seq<string>, sep: char): string
    requires |parts| >= 1
    decreases |parts|
  {
    if |parts| == 1 then parts[0] else parts[0] + [sep] + Join(parts[1..], sep)
  }

  /** `s.split(sep)`: the maximal separator-free fields between the
      occurrences of `sep`, always at least one (`"".split(sep)` is
      `[""]`, and a trailing separator yields a trailing empty field). */
  function Split(s: string, sep: char): (parts: seq<string>)
    ensures |parts| >= 1
    ensures forall i :: 0 <= i < |parts| ==> sep !in parts[i]
    ensures Join(parts, sep) == s
    decreases |s|
  {
    if |s| == 0 then [""]
    else
      var rest := Split(s[1..], sep);
      if s[0] == sep then
        assert s == [sep] + Join(rest, sep);
        [""] + rest
      else
        var parts := [[s[0]] + rest[0]] + rest[1..];
        assert parts[1..] == rest[1..];
        assert |rest| > 1 ==> Join(rest, sep) == rest[0] + [sep] + Join(rest[1..], sep);
        parts
  }

  /** `s.split(sep)` has a second field exactly when `sep` occurs in `s`. */
  lemma SplitFieldCount(s: string, sep: char)
    ensures |Split(s, sep)| >= 2 <==> sep in s
  {
    var parts := Split(s, sep);
    if |parts| >= 2 {
      assert s == parts[0] + [sep] + Join(parts[1..], sep);
      assert s[|parts[0]|] == sep;
    }
  }

  /** `s.split(sep)[0]`: the text before the first `sep`, or all of `s`
      when there is none. */
  function FirstField(s: string, sep: char): (f: string)
    ensures sep !in f && f <= s
    ensures |f| == |s| || s[|f|] == sep
  {
    var parts := Split(s, sep);
    assert |parts| >= 2 ==> s == parts[0] + [sep] + Join(parts[1..], sep);
    parts[0]
  }

  /** `s.split(sep)[1]`, `None` playing `undefined`: the text between the
      first `sep` and the next one (or the end). */
  function SecondField(s: string, sep: char): (r: Option<string>)
    ensures r.None? <==> sep !in s
    ensures r.Some? ==> sep !in r.value && FirstField(s, sep) + [sep] + r.value <= s
    ensures r.Some? ==>
      var n := |FirstField(s, sep)| + 1 + |r.value|;
      n == |s| || s[n] == sep
  {
    var parts := Split(s, sep);
    SplitFieldCount(s, sep);
    if |parts| >= 2 then
      var rest := parts[1..];
      assert s == parts[0] + [sep] + Join(rest, sep);
      assert |rest| >= 2 ==> Join(rest, sep) == rest[0] + [sep] + Join(rest[1..], sep);
      Some(parts[1])
    else None
  }

  /** The join of the first `k` parts is a prefix of the join of all of
      them, followed by the separator when parts remain. */
  lemma {:induction false} JoinPrefix(parts: seq<string>, k: nat, sep: char)
    requires 1 <= k <= |parts|
    ensures Join(parts[..k], sep) <= Join(parts, sep)
    ensures k < |parts| ==>
      |Join(parts[..k], sep)| < |Join(parts, sep)| && Join(parts, sep)[|Join(parts[..k], sep)|] == sep
    decreases k
  {
    if |parts| > 1 {
      assert Join(parts, sep) == parts[0] + [sep] + Join(parts[1..], sep);
    }
    if k > 1 {
      JoinPrefix(parts[1..], k - 1, sep);
      assert parts[..k][1..] == parts[1..][..k - 1];
      assert Join(parts[..k], sep) == parts[0] + [sep] + Join(parts[1..][..k - 1], sep);
    } else {
      assert parts[..k] == [parts[0]];
    }
  }

  /** A string without the separator is a single field. */
  lemma {:induction false} SplitWithoutSeparator(s: string, sep: char)
    requires sep !in s
    ensures Split(s, sep) == [s]
    decreases |s|
  {
    if |s| > 0 {
      assert sep !in s[1..] by {
        forall i | 0 <= i < |s[1..]| ensures s[1..][i] != sep {
          assert s[1..][i] == s[i + 1];
        }
      }
      SplitWithoutSeparator(s[1..], sep);
      assert [s[0]] + s[1..] == s;
    }
  }

  /** Splitting distributes over a separator occurrence. */
  lemma {:induction false} SplitAround(a: string, b: string, sep: char)
    ensures Split(a + [sep] + b, sep) == Split(a, sep) + Split(b, sep)
    decreases |a|
  {
    var s := a + [sep] + b;
    if |a| == 0 {
      assert s[1..] == b;
    } else {
      assert s[1..] == a[1..] + [sep] + b;
      SplitAround(a[1..], b, sep);
    }
  }

  /** `join` followed by `split` gives back separator-free fields. */
  lemma {:induction false} SplitJoin(parts: seq<string>, sep: char)
    requires |parts| >= 1
    requires forall i :: 0 <= i < |parts| ==> sep !in parts[i]
    ensures Split(Join(parts, sep), sep) == parts
    decreases |parts|
  {
    if |parts| == 1 {
      SplitWithoutSeparator(parts[0], sep);
    } else {
      SplitWithoutSeparator(parts[0], sep);
      SplitJoin(parts[1..], sep);
      SplitAround(parts[0], Join(parts[1..], sep), sep);
      assert parts == [parts[0]] + parts[1..];
    }
  }

  /** Every character of a join is the separator or a character of a part. */
  lemma {:induction false} JoinCharacters(parts: seq<string>, sep: char, c: char)
    requires |parts| >= 1
    requires c in Join(parts, sep)
    ensures c == sep || exists i :: 0 <= i < |parts| && c in parts[i]
    decreases |parts|
  {
    if |parts| > 1 {
      var rest := Join(parts[1..], sep);
      assert Join(parts, sep) == parts[0] + [sep] + rest;
      if c !in parts[0] && c != sep {
        assert c in rest;
        JoinCharacters(parts[1..], sep, c);
        var i :| 0 <= i < |parts[1..]| && c in parts[1..][i];
        assert c in parts[i + 1];
      }
    }
  }

  /** Every character of a part occurs in the join. */
  lemma {:induction false} JoinContainsParts(parts: seq<string>, sep: char, i: nat, c: char)
    requires i < |parts|
    requires c in parts[i]
    ensures c in Join(parts, sep)
    decreases |parts|
  {
    if |parts| > 1 {
      var rest := Join(parts[1..], sep);
      assert Join(parts, sep) == parts[0] + [sep] + rest;
      if i > 0 {
        assert parts[1..][i - 1] == parts[i];
        JoinContainsParts(parts[1..], sep, i - 1, c);
      }
    }
  }

  /** A character in no part, other than the separator, is not in the
      join. */
  lemma {:induction false} JoinExcludes(parts: seq<string>, sep: char, c: char)
    requires |parts| >= 1
    requires c != sep
    requires forall i :: 0 <= i < |parts| ==> c !in parts[i]
    ensures c !in Join(parts, sep)
    decreases |parts|
  {
    if |parts| > 1 {
      JoinExcludes(parts[1..], sep, c);
      assert Join(parts, sep) == parts[0] + [sep] + Join(parts[1..], sep);
    }
  }

  /* ---------------------------------------------------------------- */
  /* trim                                                              */
  /* ---------------------------------------------------------------- */

  /** The index of the first non-whitespace character of `s` at or
      after `k`, or `|s|` when there is none. */
  function ContentStart(s: string, k: nat): (a: nat)
    requires k <= |s|
    ensures k <= a <= |s|
    ensures forall i :: k <= i < a ==> IsWhitespace(s[i])
    ensures a == |s| || !IsWhitespace(s[a])
    decreases |s| - k
  {
    if k < |s| && IsWhitespace(s[k]) then ContentStart(s, k + 1) else k
  }

  /** The index just past the last non-whitespace character of `s` before
      `k` and not before `lo`, or `lo` when there is none. */
  function ContentEnd(s: string, lo: nat, k: nat): (b: nat)
    requires lo <= k <= |s|
    ensures lo <= b <= k
    ensures forall i :: b <= i < k ==> IsWhitespace(s[i])
    ensures b == lo || !IsWhitespace(s[b - 1])
    decreases k
  {
    if k > lo && IsWhitespace(s[k - 1]) then ContentEnd(s, lo, k - 1) else k
  }

  /** `s.trim()`: the middle of `s` once the whitespace at both ends is
      removed. */
  function Trim(s: string): (r: string)
    ensures IsTrimmed(r)
    ensures |r| <= |s|
  {
    var a := ContentStart(s, 0);
    s[a..ContentEnd(s, a, |s|)]
  }

  /** `line` is `key` starting at index `a`, with only whitespace before
      and after it. */
  predicate PaddedAt(line: string, key: string, a: nat) {
    && a + |key| <= |line| && line[a..a + |key|] == key
    && (forall i :: 0 <= i < a ==> IsWhitespace(line[i]))
    && (forall i :: a + |key| <= i < |line| ==> IsWhitespace(line[i]))
  }

  /** `line` is `key` with only whitespace before and after it. */
  ghost predicate IsPadding(line: string, key: string) {
    exists a: nat :: PaddedAt(line, key, a)
  }

  /** What `trim` removes is whitespace padding. */
  lemma TrimIsPadding(s: string)
    ensures IsPadding(s, Trim(s))
  {
    var a := ContentStart(s, 0);
    var b := ContentEnd(s, a, |s|);
    assert Trim(s) == s[a..b];
    assert PaddedAt(s, Trim(s), a);
  }

  /** A trimmed string padded with whitespace trims back to itself. */
  lemma PaddingTrims(line: string, key: string)
    requires IsTrimmed(key)
    requires IsPadding(line, key)
    ensures Trim(line) == key
  {
    var a: nat :| PaddedAt(line, key, a);
    var start := ContentStart(line, 0);
    if |key| == 0 {
      assert start == |line|;
    } else {
      assert line[a] == key[0];
      assert start == a;
      assert line[a + |key| - 1] == key[|key| - 1];
      assert ContentEnd(line, start, |line|) == a + |key|;
    }
  }

  /* ---------------------------------------------------------------- */
  /* decimal rendering of a number in a template literal               */
  /* ---------------------------------------------------------------- */

  predicate IsDigit(c: char) {
    '0' <= c <= '9'
  }

  predicate AllDigits(s: string) {
    forall i :: 0 <= i < |s| ==> IsDigit(s[i])
  }

  function DigitChar(d: nat): (c: char)
    requires d < 10
    ensures IsDigit(c)
  {
    (48 + d) as char
  }

  function DigitValue(c: char): nat
    requires IsDigit(c)
  {
    c as int - 48
  }

  /** `${n}` for a non-negative integer: its decimal digits, most
      significant first, with no leading zero. */
  function NatToDecimal(n: nat): (s: string)
    ensures |s| >= 1
    ensures AllDigits(s)
    ensures s[0] == '0' ==> n == 0
    decreases n
  {
    if n < 10 then [DigitChar(n)] else NatToDecimal(n / 10) + [DigitChar(n % 10)]
  }

  /** The number a string of decimal digits denotes. */
  function DecimalValue(s: string): nat
    requires AllDigits(s)
    decreases |s|
  {
    if |s| == 0 then 0 else 10 * DecimalValue(s[..|s| - 1]) + DigitValue(s[|s| - 1])
  }

  /** Reading the decimal rendering back gives the number. */
  lemma {:induction false} DecimalRoundTrip(n: nat)
    ensures DecimalValue(NatToDecimal(n)) == n
    decreases n
  {
    if n >= 10 {
      var s := NatToDecimal(n);
      DecimalRoundTrip(n / 10);
      assert s[..|s| - 1] == NatToDecimal(n / 10);
    }
  }

  /** Different numbers render differently. */
  lemma DecimalInjective(m: nat, n: nat)
    requires NatToDecimal(m) == NatToDecimal(n)
    ensures m == n
  {
    DecimalRoundTrip(m);
    DecimalRoundTrip(n);
  }
}
