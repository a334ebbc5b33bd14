/** The string operations of Python 2 that the modelled code relies on:
    substring search, `split`, `join`, `strip`, `rstrip`, `lower`, `re.sub` of
    one character, and the conversions between non-negative integers and
    their decimal text (`str(n)`, `int(digits)`). */
module Text {

  predicate StartsWith(s: string, prefix: string) {
    |prefix| <= |s| && s[..|prefix|] == prefix
  }

  /** `sub in s`; also what `re.search` decides for a pattern with no metacharacters. */
  predicate Contains(s: string, sub: string) {
    exists i :: 0 <= i <= |s| && StartsWith(s[i..], sub)
  }

  /** A string without the first character of `sub` does not contain `sub`. */
  lemma HeadAbsentNotContained(s: string, sub: string)
    requires |sub| > 0 && sub[0] !in s
    ensures !Contains(s, sub)
  {
    forall i | 0 <= i <= |s|
      ensures !StartsWith(s[i..], sub)
    {
      if i < |s| {
        assert s[i..][0] == s[i];
      }
    }
  }

  // ---------------------------------------------------------------- digits

  predicate IsDigit(c: char) {
    '0' <= c <= '9'
  }

  predicate AllDigits(s: string) {
    forall i :: 0 <= i < |s| ==> IsDigit(s[i])
  }

  /** Length of the longest run of decimal digits at the start of `s`
      (how far the greedy `\d+` of a regular expression reaches). */
  function DigitRun(s: string): (n: nat)
    ensures n <= |s|
    ensures AllDigits(s[..n])
    ensures n < |s| ==> !IsDigit(s[n])
  {
    if |s| == 0 || !IsDigit(s[0]) then 0
    else
      var n := 1 + DigitRun(s[1..]);
      assert forall i :: 1 <= i < n ==> s[..n][i] == s[1..][..n - 1][i - 1];
      n
  }

  /** `int(digits)` for a string of decimal digits. */
  function DecimalValue(digits: string): nat
    requires AllDigits(digits)
    decreases |digits|
  {
    if |digits| == 0 then 0
    else 10 * DecimalValue(digits[..|digits| - 1]) + (digits[|digits| - 1] as int - '0' as int)
  }

  function DigitChar(d: nat): (c: char)
    requires d < 10
    ensures IsDigit(c) && c as int - '0' as int == d
  {
    ('0' as int + d) as char
  }

  /** `str(n)` for a non-negative integer: its decimal digits, without leading zeros. */
  function DecimalString(n: nat): (s: string)
    ensures |s| >= 1 && AllDigits(s)
    ensures s[0] == '0' ==> n == 0
    decreases n
  {
    if n < 10 then [DigitChar(n)]
    else DecimalString(n / 10) + [DigitChar(n % 10)]
  }

  /** `int(str(n)) == n`. */
  lemma {:induction false} DecimalRoundTrip(n: nat)
    ensures DecimalValue(DecimalString(n)) == n
    decreases n
  {
    if n >= 10 {
      DecimalRoundTrip(n / 10);
      var s := DecimalString(n);
      assert s[..|s| - 1] == DecimalString(n / 10);
    }
  }

  // ---------------------------------------------------------- split / join

  /** Python's `s.split(sep)` for a non-empty separator: the pieces between the
      leftmost non-overlapping occurrences of `sep`, scanning from the left. */
  function Split(s: string, sep: string): (parts: seq<string>)
    requires |sep| > 0
    ensures |parts| >= 1
    decreases |s|
  {
    if |s| < |sep| then [s]
    else if StartsWith(s, sep) then [[]] + Split(s[|sep|..], sep)
    else
      var rest := Split(s[1..], sep);
      [[s[0]] + rest[0]] + rest[1..]
  }

  /** The first part of a split is a prefix of the string split. */
  lemma {:induction false} SplitHeadPrefix(s: string, sep: string)
    requires |sep| > 0
    ensures StartsWith(s, Split(s, sep)[0])
    decreases |s|
  {
    if |s| >= |sep| && !StartsWith(s, sep) {
      SplitHeadPrefix(s[1..], sep);
      var rest := Split(s[1..], sep);
      assert Split(s, sep)[0] == [s[0]] + rest[0];
      assert s[..1 + |rest[0]|] == [s[0]] + s[1..][..|rest[0]|];
    }
  }

  /** A string contains whatever one of its prefixes contains. */
  lemma PrefixContains(s: string, p: string, sub: string)
    requires StartsWith(s, p)
    ensures Contains(p, sub) ==> Contains(s, sub)
  {
    if Contains(p, sub) {
      var i :| 0 <= i <= |p| && StartsWith(p[i..], sub);
      assert s[i..][..|sub|] == p[i..][..|sub|];
    }
  }

  /** Python's `sep.join(parts)`. */
  function Join(parts: seq<string>, sep: string): string
    decreases |parts|
  {
    if |parts| == 0 then []
    else if |parts| == 1 then parts[0]
    else parts[0] + sep + Join(parts[1..], sep)
  }

  /** `sep.join` of a two-, three- or four-element list written out. */
  lemma JoinSmall(a: string, b: string, c: string, d: string, sep: string)
    ensures Join([a, b], sep) == a + sep + b
    ensures Join([a, b, c], sep) == a + sep + b + sep + c
    ensures Join([a, b, c, d], sep) == a + sep + b + sep + c + sep + d
  {
    assert [a, b][1..] == [b];
    assert [a, b, c][1..] == [b, c];
    assert [a, b, c, d][1..] == [b, c, d];
    assert [b, c, d][1..] == [c, d];
    assert [b, c][1..] == [c];
    assert [c, d][1..] == [d];
    assert Join([b, c], sep) == b + sep + c;
    assert Join([c, d], sep) == c + sep + d;
    assert Join([b, c, d], sep) == b + sep + (c + sep + d);
    assert a + sep + (b + sep + c) == a + sep + b + sep + c;
    assert a + sep + (b + sep + (c + sep + d)) == a + sep + b + sep + c + sep + d;
  }

  lemma JoinConsHead(c: char, parts: seq<string>, sep: string)
    requires |parts| >= 1
    ensures Join([[c] + parts[0]] + parts[1..], sep) == [c] + Join(parts, sep)
  {
    var ps := [[c] + parts[0]] + parts[1..];
    if |parts| > 1 {
      assert ps[1..] == parts[1..];
    }
  }

  /** Joining the pieces of a split with the same separator gives the string back. */
  lemma {:induction false} JoinSplit(s: string, sep: string)
    requires |sep| > 0
    ensures Join(Split(s, sep), sep) == s
    decreases |s|
  {
    if |s| < |sep| {
    } else if StartsWith(s, sep) {
      var rest := Split(s[|sep|..], sep);
      JoinSplit(s[|sep|..], sep);
      assert Split(s, sep) == [[]] + rest;
      assert ([[]] + rest)[1..] == rest;
      assert Join([[]] + rest, sep) == [] + sep + Join(rest, sep);
      assert s == sep + s[|sep|..];
    } else {
      var rest := Split(s[1..], sep);
      JoinSplit(s[1..], sep);
      assert Split(s, sep) == [[s[0]] + rest[0]] + rest[1..];
      JoinConsHead(s[0], rest, sep);
      assert s == [s[0]] + s[1..];
    }
  }

  /** No occurrence of `sep` begins inside `a`, not even one that would run past its end. */
  predicate SeparatorFree(a: string, sep: string) {
    forall i :: 0 <= i < |a| ==> !StartsWith(a[i..] + sep, sep)
  }

  lemma SeparatorFreeTail(a: string, sep: string)
    requires |a| > 0 && SeparatorFree(a, sep)
    ensures SeparatorFree(a[1..], sep)
  {
    forall i | 0 <= i < |a[1..]|
      ensures !StartsWith(a[1..][i..] + sep, sep)
    {
      assert a[1..][i..] == a[i + 1..];
    }
  }

  /** Splitting `a + sep + b` cuts exactly after `a` when `sep` starts nowhere in `a`. */
  lemma {:induction false} SplitAfter(a: string, sep: string, b: string)
    requires |sep| > 0 && SeparatorFree(a, sep)
    ensures Split(a + sep + b, sep) == [a] + Split(b, sep)
    decreases |a|
  {
    var s := a + sep + b;
    if |a| == 0 {
      assert s == sep + b;
      assert StartsWith(s, sep);
      assert s[|sep|..] == b;
    } else {
      assert a[0..] == a;
      assert !StartsWith(a + sep, sep);
      assert s[..|sep|] == (a + sep)[..|sep|];
      SeparatorFreeTail(a, sep);
      SplitAfter(a[1..], sep, b);
      assert s[1..] == a[1..] + sep + b;
      assert [s[0]] + a[1..] == a;
    }
  }

  /** A string in which `sep` never starts is a single piece. */
  lemma {:induction false} SplitWhole(a: string, sep: string)
    requires |sep| > 0 && SeparatorFree(a, sep)
    ensures Split(a, sep) == [a]
    decreases |a|
  {
    if |a| >= |sep| {
      assert a[0..] == a;
      assert !StartsWith(a + sep, sep);
      assert (a + sep)[..|sep|] == a[..|sep|];
      SeparatorFreeTail(a, sep);
      SplitWhole(a[1..], sep);
      assert [a[0]] + a[1..] == a;
    }
  }

  lemma CharSeparatorFree(a: string, c: char)
    requires c !in a
    ensures SeparatorFree(a, [c])
  {
    forall i | 0 <= i < |a|
      ensures !StartsWith(a[i..] + [c], [c])
    {
      assert (a[i..] + [c])[0] == a[i];
    }
  }

  /** For a two-character separator with two different characters, such as
      `", "` or `"; "`, it is enough that the separator does not occur in `a`. */
  lemma PairSeparatorFree(a: string, sep: string)
    requires |sep| == 2 && sep[0] != sep[1] && !Contains(a, sep)
    ensures SeparatorFree(a, sep)
  {
    forall i | 0 <= i < |a|
      ensures !StartsWith(a[i..] + sep, sep)
    {
      if i + 2 <= |a| {
        assert !StartsWith(a[i..], sep);
        assert (a[i..] + sep)[..2] == a[i..][..2];
      } else {
        assert (a[i..] + sep)[1] == sep[0];
      }
    }
  }

  /** Splitting a join gives the pieces back when the separator occurs in none of them. */
  lemma {:induction false} SplitJoin(parts: seq<string>, sep: string)
    requires |sep| == 2 && sep[0] != sep[1]
    requires |parts| >= 1
    requires forall i :: 0 <= i < |parts| ==> !Contains(parts[i], sep)
    ensures Split(Join(parts, sep), sep) == parts
    decreases |parts|
  {
    PairSeparatorFree(parts[0], sep);
    if |parts| == 1 {
      SplitWhole(parts[0], sep);
    } else {
      SplitJoin(parts[1..], sep);
      SplitAfter(parts[0], sep, Join(parts[1..], sep));
    }
  }

  // ------------------------------------------------------ strip and friends

  /** The characters `str.strip()` removes: space, tab, line feed, vertical tab,
      form feed and carriage return. */
  predicate IsSpace(c: char) {
    c == ' ' || '\t' <= c <= '\r'
  }

  function StripLeft(s: string): (r: string)
    ensures |r| <= |s| && r == s[|s| - |r|..]
    ensures forall i :: 0 <= i < |s| - |r| ==> IsSpace(s[i])
    ensures |r| > 0 ==> !IsSpace(r[0])
    decreases |s|
  {
    if |s| > 0 && IsSpace(s[0]) then StripLeft(s[1..]) else s
  }

  function StripRight(s: string): (r: string)
    ensures |r| <= |s| && r == s[..|r|]
    ensures forall i :: |r| <= i < |s| ==> IsSpace(s[i])
    ensures |r| > 0 ==> !IsSpace(r[|r| - 1])
    decreases |s|
  {
    if |s| > 0 && IsSpace(s[|s| - 1]) then StripRight(s[..|s| - 1]) else s
  }

  /** Python's `s.strip()`. */
  function Strip(s: string): string {
    StripLeft(StripRight(s))
  }

  /** Python's `s.rstrip(c)`: drop every trailing `c`. */
  function TrimRight(s: string, c: char): (r: string)
    ensures |r| <= |s| && r == s[..|r|]
    ensures |r| == 0 || r[|r| - 1] != c
    ensures forall i :: |r| <= i < |s| ==> s[i] == c
    decreases |s|
  {
    if |s| > 0 && s[|s| - 1] == c then TrimRight(s[..|s| - 1], c) else s
  }

  function LowerChar(c: char): char {
    if 'A' <= c <= 'Z' then (c as int + 32) as char else c
  }

  /** Python 2's `str.lower()` on a byte string: ASCII letters only. */
  function Lower(s: string): string {
    seq(|s|, i requires 0 <= i < |s| => LowerChar(s[i]))
  }

  /** Every character is ASCII: Python 2's `str` of a unicode string
      succeeds exactly then. */
  predicate Ascii(s: string) {
    forall i :: 0 <= i < |s| ==> s[i] < 128 as char
  }

  /** `re.sub(x, y, s)` for single, non-special characters `x` and `y`. */
  function ReplaceChar(s: string, x: char, y: char): string {
    seq(|s|, i requires 0 <= i < |s| => if s[i] == x then y else s[i])
  }

  /** `y.join(s.split(x))` replaces every `x` by `y`. */
  lemma {:induction false} JoinSplitReplaces(s: string, x: char, y: char)
    ensures Join(Split(s, [x]), [y]) == ReplaceChar(s, x, y)
    decreases |s|
  {
    if |s| == 0 {
    } else if s[0] == x {
      JoinSplitReplaces(s[1..], x, y);
      assert StartsWith(s, [x]);
      assert ReplaceChar(s, x, y) == [y] + ReplaceChar(s[1..], x, y);
    } else {
      JoinSplitReplaces(s[1..], x, y);
      JoinConsHead(s[0], Split(s[1..], [x]), [y]);
      assert ReplaceChar(s, x, y) == [s[0]] + ReplaceChar(s[1..], x, y);
    }
  }
}
