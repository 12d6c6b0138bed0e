/**
 * `getMDExcerpt`: the first `length` characters of a note's text once the
 * markdown syntax is stripped, with surrounding whitespace trimmed. The
 * stripping itself (the `remove-markdown` package) is a parameter.
 */
module Excerpt {
  import opened JsStrings

  /** The default `length` of `getMDExcerpt`, and the one `parseFileToObj` passes. */
  const DefaultExcerptLength: int := 500

  /** `getMDExcerpt(markdown, length)` with `removeMd` standing for `remove-markdown`. */
  function GetMDExcerpt(markdown: string, length: int, removeMd: string -> string): (r: string)
    ensures 0 <= length ==> |r| <= length
    ensures |r| <= |removeMd(markdown)|
    ensures r == [] || (!IsJsWhitespace(r[0]) && !IsJsWhitespace(r[|r| - 1]))
    ensures var s := SlicePrefix(removeMd(markdown), length);
            var i := TrimOffset(s);
            && i + |r| <= |s| && s[i..i + |r|] == r
            && (forall k :: 0 <= k < i ==> IsJsWhitespace(s[k]))
            && (forall k :: i + |r| <= k < |s| ==> IsJsWhitespace(s[k]))
  {
    Trim(SlicePrefix(removeMd(markdown), length))
  }

  /** A text without surrounding whitespace is its own trimmed form. */
  lemma TrimOfTrimmed(s: string)
    requires s == [] || (!IsJsWhitespace(s[0]) && !IsJsWhitespace(s[|s| - 1]))
    ensures Trim(s) == s
  {
  }

  /**
   * A stripped text that fits in `length` characters and has no surrounding
   * whitespace is the whole excerpt.
   */
  lemma ShortTextIsItsOwnExcerpt(markdown: string, length: int, removeMd: string -> string)
    requires 0 <= length && |removeMd(markdown)| <= length
    requires var t := removeMd(markdown); t == [] || (!IsJsWhitespace(t[0]) && !IsJsWhitespace(t[|t| - 1]))
    ensures GetMDExcerpt(markdown, length, removeMd) == removeMd(markdown)
  {
    TrimOfTrimmed(removeMd(markdown));
  }
}
