/** The character classes that the .NET side of the repository relies on. */
module Text {
  import opened Wrappers

  /** Char.IsWhiteSpace, which is also what \s stands for in a .NET pattern. */
  predicate IsSpace(c: char) {
    || '\t' <= c <= '\r'
    || c == ' '
    || c == '\U{85}'
    || c == '\U{A0}'
    || c == '\U{1680}'
    || '\U{2000}' <= c <= '\U{200A}'
    || c == '\U{2028}'
    || c == '\U{2029}'
    || c == '\U{202F}'
    || c == '\U{205F}'
    || c == '\U{3000}'
  }

  predicate AllSpace(s: string) {
    forall i :: 0 <= i < |s| ==> IsSpace(s[i])
  }

  /** string.IsNullOrWhiteSpace */
  predicate IsBlank(s: Option<string>) {
    s.None? || AllSpace(s.value)
  }
}
