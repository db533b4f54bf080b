/**
 * Character-level helpers with Python semantics: `str.find`/`str.rfind`,
 * `str.split(sep)` and its inverse `sep.join`, the `in` test on strings and
 * bytes, decimal digits for `int(...)` and `str(n)`.
 */
module Text {

  /** `s.find(c)`, except that "not found" is `|s|` instead of -1. */
  function IndexOf(s: string, c: char): (i: nat)
    ensures i <= |s|
    ensures i < |s| ==> s[i] == c
    ensures forall k :: 0 <= k < i ==> s[k] != c
  {
    if |s| == 0 then 0
    else if s[0] == c then 0
    else 1 + IndexOf(s[1..], c)
  }

  /** `s.rfind(c)`: the last index of `c`, or -1. */
  function RFind(s: string, c: char): (i: int)
    ensures -1 <= i < |s|
    ensures 0 <= i ==> s[i] == c
    ensures forall k :: i < k < |s| ==> s[k] != c
  {
    if |s| == 0 then -1
    else if s[|s| - 1] == c then |s| - 1
    else RFind(s[..|s| - 1], c)
  }

  /** `s.split(c)` for a one-character separator. */
  function Split(s: string, c: char): (parts: seq<string>)
    ensures |parts| >= 1
    ensures forall k :: 0 <= k < |parts| ==> c !in parts[k]
    decreases |s|
  {
    var i := IndexOf(s, c);
    if i == |s| then [s] else [s[..i]] + Split(s[i + 1..], c)
  }

  /** `c.join(parts)`. */
  function JoinWith(parts: seq<string>, c: char): string
  {
    if |parts| == 0 then ""
    else if |parts| == 1 then parts[0]
    else parts[0] + [c] + JoinWith(parts[1..], c)
  }

  lemma {:induction false} JoinSplit(s: string, c: char)
    ensures JoinWith(Split(s, c), c) == s
    decreases |s|
  {
    var i := IndexOf(s, c);
    if i < |s| {
      var rest := Split(s[i + 1..], c);
      JoinSplit(s[i + 1..], c);
      assert Split(s, c) == [s[..i]] + rest;
      assert s == s[..i] + [c] + s[i + 1..];
    }
  }

  lemma {:induction false} SplitJoin(parts: seq<string>, c: char)
    requires |parts| >= 1
    requires forall k :: 0 <= k < |parts| ==> c !in parts[k]
    ensures Split(JoinWith(parts, c), c) == parts
  {
    if |parts| > 1 {
      var s := JoinWith(parts, c);
      var tail := JoinWith(parts[1..], c);
      assert s == parts[0] + [c] + tail;
      IndexOfAfterFree(parts[0], c, tail);
      assert s[|parts[0]| + 1..] == tail;
      assert s[..|parts[0]|] == parts[0];
      SplitJoin(parts[1..], c);
    } else {
      assert c !in parts[0];
    }
  }

  lemma IndexOfAfterFree(a: string, c: char, b: string)
    requires c !in a
    ensures IndexOf(a + [c] + b, c) == |a|
  {
    var s := a + [c] + b;
    assert s[|a|] == c;
    forall k | 0 <= k < |a| ensures s[k] != c {
      assert s[k] == a[k];
    }
  }

  /** Python's `$` matches at the end or just before a final newline, so a pattern
      anchored by `^...$` must match the string without one trailing `\n`. */
  function AnchorBody(s: string): string
  {
    if |s| > 0 && s[|s| - 1] == '\n' then s[..|s| - 1] else s
  }

  /** The whitespace of `bytes.strip()`: space, tab, line feed, carriage return,
      vertical tab and form feed. */
  predicate IsBytesSpace(ch: char)
  {
    ch == ' ' || ch == '\t' || ch == '\n' || ch == '\r' || ch == '\U{000B}' || ch == '\U{000C}'
  }

  /** The ASCII whitespace of `str.rstrip()`, which adds the four separators
      0x1c to 0x1f to the whitespace of bytes. */
  predicate IsStrSpace(ch: char)
  {
    IsBytesSpace(ch) || ('\U{001C}' <= ch <= '\U{001F}')
  }

  /** `len(s.strip()) == 0` for bytes. */
  predicate Blank(s: string)
  {
    forall k :: 0 <= k < |s| ==> IsBytesSpace(s[k])
  }

  /** `s.rstrip()` for a string. */
  function RStripSpace(s: string): (r: string)
    ensures r <= s
    ensures r == [] || !IsStrSpace(r[|r| - 1])
    ensures forall k :: |r| <= k < |s| ==> IsStrSpace(s[k])
  {
    if |s| == 0 || !IsStrSpace(s[|s| - 1]) then s else RStripSpace(s[..|s| - 1])
  }

  /** Stripping a string that does not end in whitespace, followed by a line end,
      gives the string back. */
  lemma RStripCrLf(s: string)
    requires s == [] || !IsStrSpace(s[|s| - 1])
    ensures RStripSpace(s + "\r\n") == s
  {
    assert (s + "\r\n")[..|s| + 1] == s + "\r";
    assert (s + "\r")[..|s|] == s;
  }

  /** `needle` occurs in `hay` starting at index `i`. */
  predicate OccursAt(hay: string, needle: string, i: int)
  {
    0 <= i && i + |needle| <= |hay| && hay[i..i + |needle|] == needle
  }

  /** `needle in hay` for strings and bytes; the empty needle is in every string. */
  predicate Contains(hay: string, needle: string)
  {
    exists i | 0 <= i <= |hay| :: OccursAt(hay, needle, i)
  }

  predicate IsDigit(ch: char)
  {
    '0' <= ch <= '9'
  }

  /** The regular expression `\d+` (ASCII digits). */
  predicate IsDigits(s: string)
  {
    |s| > 0 && forall k :: 0 <= k < |s| ==> IsDigit(s[k])
  }

  /** `int(s)` for a string of decimal digits; leading zeros are allowed, as in Python. */
  function DigitsValue(s: string): nat
    requires forall k :: 0 <= k < |s| ==> IsDigit(s[k])
  {
    if |s| == 0 then 0
    else
      assert IsDigit(s[|s| - 1]);
      10 * DigitsValue(s[..|s| - 1]) + (s[|s| - 1] as int - '0' as int)
  }

  function DigitChar(d: nat): (ch: char)
    requires d < 10
    ensures IsDigit(ch)
  {
    ('0' as int + d) as char
  }

  /** `str(n)` for a non-negative integer. */
  function NatToString(n: nat): (s: string)
    ensures IsDigits(s)
  {
    if n < 10 then [DigitChar(n)] else NatToString(n / 10) + [DigitChar(n % 10)]
  }

  /** `int(str(n)) == n`: decimal formatting is undone by parsing. */
  lemma {:induction false} DigitsValueOfNatToString(n: nat)
    ensures DigitsValue(NatToString(n)) == n
  {
    if n >= 10 {
      var s := NatToString(n);
      assert s[..|s| - 1] == NatToString(n / 10);
      DigitsValueOfNatToString(n / 10);
    }
  }

  /** Distinct numbers have distinct decimal spellings. */
  lemma NatToStringInjective(n: nat, m: nat)
    ensures NatToString(n) == NatToString(m) ==> n == m
  {
    DigitsValueOfNatToString(n);
    DigitsValueOfNatToString(m);
  }
}
