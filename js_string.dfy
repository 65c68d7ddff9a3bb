/**
 * String primitives with JavaScript semantics: `String.prototype.startsWith`,
 * `endsWith`, the regular-expression class `\s`, and the anchored runs
 * `^\s*` and `\s*$` that the whitespace helpers match.
 */
module JsString {

  /** The characters of the ECMAScript `\s` class (WhiteSpace and LineTerminator). */
  predicate IsWhitespace(c: char)
  {
    c == '\t' || c == '\n' || c == '\U{000B}' || c == '\U{000C}' || c == '\r' || c == ' '
    || c == '\U{00A0}' || c == '\U{1680}' || ('\U{2000}' <= c <= '\U{200A}')
    || c == '\U{2028}' || c == '\U{2029}' || c == '\U{202F}' || c == '\U{205F}'
    || c == '\U{3000}' || c == '\U{FEFF}'
  }

  predicate AllWhitespace(s: string)
  {
    forall i | 0 <= i < |s| :: IsWhitespace(s[i])
  }

  predicate StartsWith(s: string, p: string)
  {
    |p| <= |s| && s[..|p|] == p
  }

  predicate EndsWith(s: string, p: string)
  {
    |p| <= |s| && s[|s| - |p|..] == p
  }

  /** Whether the text has any character that is not `\s`. */
  predicate HasNonWhitespace(s: string)
  {
    exists i | 0 <= i < |s| :: !IsWhitespace(s[i])
  }

  /** `s.match(/^\s*\/)[0]`: the longest prefix made only of whitespace. */
  function LeadingWhitespace(s: string): (r: string)
    ensures StartsWith(s, r) && AllWhitespace(r)
    ensures r == s || !IsWhitespace(s[|r|])
  {
    if s == [] || !IsWhitespace(s[0]) then []
    else [s[0]] + LeadingWhitespace(s[1..])
  }

  /**
   * `s.match(/\s*$/)[0]`: the leftmost position from which only whitespace
   * follows starts the match, so this is the longest whitespace suffix.
   */
  function TrailingWhitespace(s: string): (r: string)
    ensures EndsWith(s, r) && AllWhitespace(r)
    ensures r == s || !IsWhitespace(s[|s| - |r| - 1])
  {
    if s == [] || !IsWhitespace(s[|s| - 1]) then []
    else TrailingWhitespace(s[..|s| - 1]) + [s[|s| - 1]]
  }

  /** A string made only of whitespace is its own leading and trailing run. */
  lemma {:induction false} AllWhitespaceRuns(s: string)
    requires AllWhitespace(s)
    ensures LeadingWhitespace(s) == s && TrailingWhitespace(s) == s
  {
    if s != [] {
      AllWhitespaceRuns(s[1..]);
      AllWhitespaceRuns(s[..|s| - 1]);
    }
  }

  /** A prefix and the rest of the text put back together give the text. */
  lemma PrefixSplit(s: string, p: string)
    requires StartsWith(s, p)
    ensures p + s[|p|..] == s
  {
    assert s == s[..|p|] + s[|p|..];
  }

  /** A suffix stays a suffix when text is put in front. */
  lemma EndsWithPrefixed(a: string, b: string, x: string)
    requires EndsWith(b, x)
    ensures EndsWith(a + b, x)
  {
    assert (a + b)[|a + b| - |x|..] == b[|b| - |x|..];
  }

  /** A suffix followed by more text is a suffix of the text followed by it. */
  lemma EndsWithAppended(a: string, x: string, c: string)
    requires EndsWith(a, x)
    ensures EndsWith(a + c, x + c)
  {
    assert (a + c)[|a| - |x|..] == a[|a| - |x|..] + c;
  }

  /** The leading whitespace run stops at or before any non-whitespace character. */
  lemma {:induction false} LeadingWhitespaceBefore(s: string, k: int)
    requires 0 <= k < |s| && !IsWhitespace(s[k])
    ensures |LeadingWhitespace(s)| <= k
  {
    if k > 0 && IsWhitespace(s[0]) {
      LeadingWhitespaceBefore(s[1..], k - 1);
    }
  }

  /** The trailing whitespace run starts after any non-whitespace character. */
  lemma {:induction false} TrailingWhitespaceAfter(s: string, k: int)
    requires 0 <= k < |s| && !IsWhitespace(s[k])
    ensures k < |s| - |TrailingWhitespace(s)|
  {
    if k < |s| - 1 && IsWhitespace(s[|s| - 1]) {
      TrailingWhitespaceAfter(s[..|s| - 1], k);
    }
  }

  /** The longest whitespace suffix is empty exactly when the string does not end in whitespace. */
  lemma TrailingWhitespaceEmpty(s: string)
    ensures TrailingWhitespace(s) == [] <==> (s == [] || !IsWhitespace(s[|s| - 1]))
  {
  }

  /** `s.replace(/\\/g, '/')`: every backslash becomes a forward slash. */
  function ReplaceBackslashes(s: string): (r: string)
    ensures |r| == |s|
    ensures forall i | 0 <= i < |s| :: r[i] == (if s[i] == '\\' then '/' else s[i])
  {
    if s == [] then []
    else ReplaceBackslashes(s[..|s| - 1]) + [if s[|s| - 1] == '\\' then '/' else s[|s| - 1]]
  }

  /**
   * `s.replace(/[^\/]+$/, '')` (equally `s.replace(/[^/]*$/, '')`): drops the
   * final run of characters that are not `/`, keeping everything up to and
   * including the last `/`.
   */
  function StripFinalSegment(s: string): (r: string)
    ensures StartsWith(s, r)
    ensures r == [] || r[|r| - 1] == '/'
    ensures forall i | |r| <= i < |s| :: s[i] != '/'
  {
    if s == [] || s[|s| - 1] == '/' then s
    else StripFinalSegment(s[..|s| - 1])
  }

  /** `s.match(/([^\/]*$)/)[0]`: the text after the last `/` (all of `s` if it has none). */
  function LastSegment(s: string): (r: string)
    ensures EndsWith(s, r) && '/' !in r
    ensures r == s || s[|s| - |r| - 1] == '/'
  {
    s[|StripFinalSegment(s)|..]
  }

  /** The two halves put back together give the original text. */
  lemma SegmentSplit(s: string)
    ensures StripFinalSegment(s) + LastSegment(s) == s
  {
  }

  /** The conditions of `StripFinalSegment` single out its result: it is the only such prefix. */
  lemma {:induction false} StripFinalSegmentUnique(s: string, p: string)
    requires StartsWith(s, p)
    requires p == [] || p[|p| - 1] == '/'
    requires forall i | |p| <= i < |s| :: s[i] != '/'
    ensures p == StripFinalSegment(s)
  {
    if s == [] || s[|s| - 1] == '/' {
      assert |p| == |s|;
    } else {
      assert |p| < |s|;
      StripFinalSegmentUnique(s[..|s| - 1], p);
    }
  }

  /**
   * The last segment is a given slash-free text exactly when the string is
   * that text, or ends in a `/` followed by it.
   */
  lemma LastSegmentIs(s: string, q: string)
    requires '/' !in q
    ensures LastSegment(s) == q <==> s == q || EndsWith(s, "/" + q)
  {
    var l := LastSegment(s);
    if l == q && s != q {
      var k := |s| - |q| - 1;
      assert s[k] == '/';
      assert s[k..] == [s[k]] + s[k + 1..];
    }
    if s == q {
      StripFinalSegmentUnique(s, []);
    } else if EndsWith(s, "/" + q) {
      var p := s[..|s| - |q|];
      assert p[|p| - 1] == s[|s| - |q| - 1..][0];
      StripFinalSegmentUnique(s, p);
    }
  }
}
