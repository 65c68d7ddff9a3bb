/**
 * `preserveOriginalWhitespaceBuffer` (src/support/string-utils.ts): re-wraps
 * a rewritten text in the original text's surrounding whitespace.
 */
module StringUtils {
  import opened JsString

  /**
   * The original's leading run (`^\s*`), then `target.replace(/^\s*|\s*$/, '')`,
   * then the original's trailing run (`\s*$`). The replace has no `g` flag and
   * its first alternative always matches at position 0, so only the target's
   * LEADING whitespace is removed.
   */
  function PreserveOriginalWhitespaceBuffer(original: string, target: string): (r: string)
    ensures StartsWith(r, LeadingWhitespace(original))
    ensures EndsWith(r, TrailingWhitespace(original))
  {
    var lead, trail := LeadingWhitespace(original), TrailingWhitespace(original);
    var r := lead + target[|LeadingWhitespace(target)|..] + trail;
    assert r[..|lead|] == lead;
    assert r[|r| - |trail|..] == trail;
    r
  }

  /**
   * Between the original's two runs sits exactly the target without its
   * leading whitespace: nothing else of the target is removed.
   */
  lemma OnlyLeadingWhitespaceStripped(original: string, target: string)
    ensures var r := PreserveOriginalWhitespaceBuffer(original, target);
            var lead, trail := LeadingWhitespace(original), TrailingWhitespace(original);
            |lead| + |trail| <= |r| && LeadingWhitespace(target) + r[|lead|..|r| - |trail|] == target
  {
    var lead, trail := LeadingWhitespace(original), TrailingWhitespace(original);
    var lt := LeadingWhitespace(target);
    var stripped := target[|lt|..];
    PrefixSplit(target, lt);
    var r := lead + stripped + trail;
    assert r[|lead|..|r| - |trail|] == stripped;
  }

  /** When the text has a non-whitespace character, its leading and trailing runs do not overlap. */
  lemma RunsApart(s: string)
    requires HasNonWhitespace(s)
    ensures |LeadingWhitespace(s)| + |TrailingWhitespace(s)| < |s| + 1
  {
    var k :| 0 <= k < |s| && !IsWhitespace(s[k]);
    LeadingWhitespaceBefore(s, k);
    TrailingWhitespaceAfter(s, k);
  }

  /** The target's own trailing whitespace survives, in front of the original's trailing run. */
  lemma KeepsTargetTrailingWhitespace(original: string, target: string)
    requires HasNonWhitespace(target)
    ensures EndsWith(PreserveOriginalWhitespaceBuffer(original, target),
                     TrailingWhitespace(target) + TrailingWhitespace(original))
  {
    RunsApart(target);
    var lt, tt := LeadingWhitespace(target), TrailingWhitespace(target);
    var rest := target[|lt|..];
    assert EndsWith(rest, tt) by {
      assert rest[|rest| - |tt|..] == target[|target| - |tt|..];
    }
    EndsWithPrefixed(LeadingWhitespace(original), rest, tt);
    EndsWithAppended(LeadingWhitespace(original) + rest, tt, TrailingWhitespace(original));
  }

  /** With no surrounding whitespace anywhere, the target comes back as it is. */
  lemma NoSurroundingWhitespace(original: string, target: string)
    requires LeadingWhitespace(original) == [] && TrailingWhitespace(original) == []
    requires LeadingWhitespace(target) == []
    ensures PreserveOriginalWhitespaceBuffer(original, target) == target
  {
    var r := PreserveOriginalWhitespaceBuffer(original, target);
    assert r[0..|r|] == r;
  }

  /** An all-whitespace original is both runs, so it appears on both sides. */
  lemma AllWhitespaceOriginal(original: string, target: string)
    requires AllWhitespace(original)
    ensures PreserveOriginalWhitespaceBuffer(original, target)
            == original + target[|LeadingWhitespace(target)|..] + original
  {
    AllWhitespaceRuns(original);
  }

  /** A trailing newline of both the original and the target ends up doubled. */
  lemma TrailingNewlineDoubled()
    ensures PreserveOriginalWhitespaceBuffer("\n<p>\n", " <q>\n") == "\n<q>\n\n"
  {
    SampleRuns();
    assert " <q>\n"[1..] == "<q>\n";
  }

  /** The whitespace runs of the two sample texts above. */
  lemma SampleRuns()
    ensures LeadingWhitespace("\n<p>\n") == "\n" && TrailingWhitespace("\n<p>\n") == "\n"
    ensures LeadingWhitespace(" <q>\n") == " "
  {
    var p, q := "\n<p>\n", " <q>\n";
    assert IsWhitespace('\n') && IsWhitespace(' ') && !IsWhitespace('<') && !IsWhitespace('>');
    OneCharRuns(p);
    OneCharRuns(q);
  }

  /**
   * When the second and the second-last characters are not whitespace, a
   * whitespace first or last character is a run of its own.
   */
  lemma OneCharRuns(s: string)
    requires |s| >= 2 && !IsWhitespace(s[1]) && !IsWhitespace(s[|s| - 2])
    ensures IsWhitespace(s[0]) ==> LeadingWhitespace(s) == [s[0]]
    ensures IsWhitespace(s[|s| - 1]) ==> TrailingWhitespace(s) == [s[|s| - 1]]
  {
    assert s[1..][0] == s[1];
    assert s[..|s| - 1][|s| - 2] == s[|s| - 2];
  }
}
