/** Spring's StringUtils.hasText: a string "has text" when it is not null and
    is not blank, i.e. some character of it is not Java whitespace. */
module StringUtils {
  import opened Wrappers

  /** java.lang.Character.isWhitespace: the Unicode space, line and paragraph
      separators except the non-breaking ones (U+00A0, U+2007, U+202F), plus
      the control characters U+0009..U+000D and U+001C..U+001F. */
  predicate IsWhitespace(c: char)
  {
    || ('\U{0009}' <= c <= '\U{000D}')
    || ('\U{001C}' <= c <= '\U{0020}')
    || c == '\U{1680}'
    || ('\U{2000}' <= c <= '\U{2006}')
    || ('\U{2008}' <= c <= '\U{200A}')
    || c == '\U{2028}'
    || c == '\U{2029}'
    || c == '\U{205F}'
    || c == '\U{3000}'
  }

  /** String.isBlank: empty, or made of whitespace only. */
  function IsBlank(s: string): (blank: bool)
    ensures blank <==> forall i :: 0 <= i < |s| ==> IsWhitespace(s[i])
  {
    if s == [] then true else IsWhitespace(s[0]) && IsBlank(s[1..])
  }

  /** StringUtils.hasText on a possibly-null string. */
  function HasText(s: Option<string>): (b: bool)
    ensures b <==> s.Some? && exists i :: 0 <= i < |s.value| && !IsWhitespace(s.value[i])
  {
    s.Some? && !IsBlank(s.value)
  }
}
