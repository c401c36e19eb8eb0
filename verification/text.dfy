/** The handful of Python string operations the pipeline relies on:
    `str.isspace`, `strip`, `split()` word counting, `lower`, prefix and
    substring tests, slicing `s[:n]` and `sep.join(parts)`. Strings are
    sequences of Unicode scalar values, as Python's `str` is. */
module Text {

  /** Python's `str.isspace` on one character: the characters that `strip()`
      removes and `split()` splits on. */
  predicate IsSpace(c: char) {
    var n := c as int;
    (9 <= n <= 13) || (28 <= n <= 32) || n == 0x85 || n == 0xA0 || n == 0x1680
    || (0x2000 <= n <= 0x200A) || n == 0x2028 || n == 0x2029 || n == 0x202F
    || n == 0x205F || n == 0x3000
  }

  predicate AllSpace(s: string) {
    forall k :: 0 <= k < |s| ==> IsSpace(s[k])
  }

  /** The number of leading space characters of `s`. */
  function LeadingSpaces(s: string): (n: nat)
    ensures n <= |s|
    ensures AllSpace(s[..n])
    ensures n < |s| ==> !IsSpace(s[n])
  {
    if |s| == 0 || !IsSpace(s[0]) then 0
    else
      var m := LeadingSpaces(s[1..]);
      assert s[1..][..m] == s[1..m + 1];
      1 + m
  }

  /** The number of trailing space characters of `s`. */
  function TrailingSpaces(s: string): (n: nat)
    ensures n <= |s|
    ensures AllSpace(s[|s| - n..])
    ensures n < |s| ==> !IsSpace(s[|s| - n - 1])
  {
    if |s| == 0 || !IsSpace(s[|s| - 1]) then 0
    else
      var m := TrailingSpaces(s[..|s| - 1]);
      assert s[..|s| - 1][|s| - 1 - m..] == s[|s| - 1 - m..|s| - 1];
      1 + m
  }

  /** Python's `s.strip()`: `s` without its leading and trailing space
      characters. */
  function Strip(s: string): (r: string)
    ensures |r| <= |s|
  {
    var i := LeadingSpaces(s);
    s[i..|s| - TrailingSpaces(s[i..])]
  }

  /** The stripped text is the unique infix of `s` that has only spaces
      around it and does not itself begin or end with a space. */
  lemma StripSpec(s: string)
    ensures var r := Strip(s);
            && (r == [] || (!IsSpace(r[0]) && !IsSpace(r[|r| - 1])))
            && exists j :: 0 <= j <= |s| - |r| && s[j..j + |r|] == r
                           && AllSpace(s[..j]) && AllSpace(s[j + |r|..])
  {
    var i := LeadingSpaces(s);
    var t := s[i..];
    var n := TrailingSpaces(t);
    var r := s[i..|s| - n];
    assert r == Strip(s);
    assert s[i + |t| - n..] == t[|t| - n..];
    if n < |t| {
      assert s[|s| - n - 1] == t[|t| - n - 1];
    }
    assert s[i..i + |r|] == r && AllSpace(s[..i]) && AllSpace(s[i + |r|..]);
  }

  /** `s.strip()` is empty exactly when `s` consists of spaces. */
  lemma StripEmpty(s: string)
    ensures Strip(s) == [] <==> AllSpace(s)
  {
    var i := LeadingSpaces(s);
    if AllSpace(s) {
      assert i == |s|;
      assert s[i..] == [];
    } else {
      StripSpec(s);
      if Strip(s) == [] {
        var j :| 0 <= j <= |s| && AllSpace(s[..j]) && AllSpace(s[j..]);
        forall k | 0 <= k < |s|
          ensures IsSpace(s[k])
        {
          if k < j {
            assert s[..j][k] == s[k];
          } else {
            assert s[j..][k - j] == s[k];
          }
        }
      }
    }
  }

  /** A string with no space at either end is its own `strip()`. */
  lemma StripUntrimmed(s: string)
    requires s != [] && !IsSpace(s[0]) && !IsSpace(s[|s| - 1])
    ensures Strip(s) == s
  {
    assert LeadingSpaces(s) == 0;
    assert TrailingSpaces(s) == 0;
  }

  /** `lower()` on one character, for the ASCII letters. */
  function LowerChar(c: char): char {
    if 'A' <= c <= 'Z' then (c as int + 32) as char else c
  }

  /** `s.lower()`, restricted to ASCII letters. */
  function Lower(s: string): (r: string)
    ensures |r| == |s|
    ensures forall k :: 0 <= k < |s| ==> r[k] == LowerChar(s[k])
  {
    seq(|s|, k requires 0 <= k < |s| => LowerChar(s[k]))
  }

  predicate StartsWith(s: string, p: string) {
    |p| <= |s| && s[..|p|] == p
  }

  predicate EndsWith(s: string, p: string) {
    |p| <= |s| && s[|s| - |p|..] == p
  }

  /** Python's `p in s` for strings. */
  predicate Contains(s: string, p: string)
    decreases |s|
  {
    StartsWith(s, p) || (|s| > 0 && Contains(s[1..], p))
  }

  /** A substring is no longer than the text, and its first character occurs
      in the text. */
  lemma {:induction false} ContainsFirstChar(s: string, p: string)
    requires Contains(s, p)
    ensures |p| <= |s|
    ensures |p| > 0 ==> p[0] in s
    decreases |s|
  {
    if !StartsWith(s, p) {
      ContainsFirstChar(s[1..], p);
    } else if |p| > 0 {
      assert s[..|p|][0] == s[0];
    }
  }

  /** An occurrence at position `i` makes `p` a substring of `s`. */
  lemma {:induction false} ContainsAt(s: string, p: string, i: nat)
    requires i + |p| <= |s| && s[i..i + |p|] == p
    ensures Contains(s, p)
    decreases i
  {
    if i > 0 {
      assert s[1..][i - 1..i - 1 + |p|] == s[i..i + |p|];
      ContainsAt(s[1..], p, i - 1);
    }
  }

  /** A suffix is a substring. */
  lemma EndsWithContains(s: string, p: string)
    requires EndsWith(s, p)
    ensures Contains(s, p)
  {
    ContainsAt(s, p, |s| - |p|);
  }

  /** `re.match('^p$', s, re.IGNORECASE)` for a literal `p` and a string `s`
      without a trailing newline. */
  predicate EqualsIgnoringCase(s: string, p: string) {
    Lower(s) == Lower(p)
  }

  /** `re.match('^p', s, re.IGNORECASE)` for a literal `p`. */
  predicate StartsWithIgnoringCase(s: string, p: string) {
    |p| <= |s| && Lower(s[..|p|]) == Lower(p)
  }

  /** One differing position (after lowering) rules out a case-insensitive
      prefix match. */
  lemma PrefixMismatch(s: string, p: string, i: nat)
    requires i < |p| && i < |s|
    requires LowerChar(s[i]) != LowerChar(p[i])
    ensures !StartsWithIgnoringCase(s, p)
  {
    if |p| <= |s| {
      assert Lower(s[..|p|])[i] != Lower(p)[i];
    }
  }

  /** Python's `s[:n]` for a non-negative `n`. */
  function Take(s: string, n: nat): (r: string)
    ensures |r| == if n <= |s| then n else |s|
    ensures |r| <= n && StartsWith(s, r)
  {
    if n <= |s| then s[..n] else s
  }

  /** The words `split()` finds in `s`, given whether the character before `s`
      was a non-space. */
  function WordsAfter(s: string, inWord: bool): nat
    decreases |s|
  {
    if |s| == 0 then 0
    else if IsSpace(s[0]) then WordsAfter(s[1..], false)
    else (if inWord then 0 else 1) + WordsAfter(s[1..], true)
  }

  /** `len(s.split())`: the number of maximal runs of non-space characters. */
  function WordCount(s: string): nat {
    WordsAfter(s, false)
  }

  /** A word count never exceeds the length of the string. */
  lemma {:induction false} WordsAfterBound(s: string, inWord: bool)
    ensures WordsAfter(s, inWord) <= |s|
  {
    if |s| > 0 {
      WordsAfterBound(s[1..], !IsSpace(s[0]));
    }
  }

  /** `split()` finds no word exactly in strings made of spaces. */
  lemma {:induction false} WordCountZero(s: string)
    ensures WordCount(s) == 0 <==> AllSpace(s)
  {
    if |s| > 0 && IsSpace(s[0]) {
      WordCountZero(s[1..]);
      assert AllSpace(s) <==> AllSpace(s[1..]);
    }
  }

  function SumOfLengths(parts: seq<string>): nat {
    if |parts| == 0 then 0 else |parts[0]| + SumOfLengths(parts[1..])
  }

  /** Python's `sep.join(parts)`. */
  function Join(sep: string, parts: seq<string>): (r: string)
    ensures |parts| == 0 ==> r == []
    ensures |parts| > 0 ==> |r| == SumOfLengths(parts) + |sep| * (|parts| - 1)
    ensures |parts| > 0 ==> StartsWith(r, parts[0])
  {
    if |parts| == 0 then []
    else if |parts| == 1 then parts[0]
    else parts[0] + sep + Join(sep, parts[1..])
  }
}
