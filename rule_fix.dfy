/** Suggested edits: `fixer.replaceTextRange` builds one, and the host applies
    it to the file's text when the user accepts the suggestion. */
module RuleFix {
  import opened TSESTree

  /** A `RuleFix`: replace the text in `range` with `text`. */
  datatype Fix = Fix(range: Range, text: string)

  /** `fixer.replaceTextRange(range, text)`: the fix that replaces `range`
      by `text`. */
  function ReplaceTextRange(range: Range, text: string): (r: Fix)
    ensures r.range == range && r.text == text
  {
    Fix(range, text)
  }

  /** The host's application of one fix to the text it was computed on. */
  function ApplyFix(src: string, fix: Fix): (r: string)
    requires fix.range.start <= fix.range.end <= |src|
    ensures |r| == |src| - (fix.range.end - fix.range.start) + |fix.text|
    ensures r[..fix.range.start] == src[..fix.range.start]
    ensures r[fix.range.start..fix.range.start + |fix.text|] == fix.text
    ensures r[fix.range.start + |fix.text|..] == src[fix.range.end..]
  {
    src[..fix.range.start] + fix.text + src[fix.range.end..]
  }

  /** A fix is determined by what it does to the text: the three pieces the
      contract of ApplyFix names put the result back together. */
  lemma ApplyFixPieces(src: string, fix: Fix, r: string)
    requires fix.range.start <= fix.range.end <= |src|
    requires |r| == |src| - (fix.range.end - fix.range.start) + |fix.text|
    requires r[..fix.range.start] == src[..fix.range.start]
    requires r[fix.range.start..fix.range.start + |fix.text|] == fix.text
    requires r[fix.range.start + |fix.text|..] == src[fix.range.end..]
    ensures r == ApplyFix(src, fix)
  {
    var s := fix.range.start;
    assert r == r[..s] + r[s..s + |fix.text|] + r[s + |fix.text|..];
  }

  /** Applied to any text that holds the range, the fix `replaceTextRange`
      builds puts `text` where the range was and keeps the rest. */
  lemma ReplaceTextRangeReplaces(src: string, range: Range, text: string)
    requires range.start <= range.end <= |src|
    ensures var r := ApplyFix(src, ReplaceTextRange(range, text));
      && r[..range.start] == src[..range.start]
      && r[range.start..range.start + |text|] == text
      && r[range.start + |text|..] == src[range.end..]
  {
  }
}
