/**
 * Shared vocabulary of the model: identifiers, optional values and the
 * string predicates of Apache commons-lang that the controllers use.
 */
module Common {

  /** Entity identifiers. The source uses random UUIDs; only equality matters here. */
  type Id = nat

  /** A value that may be absent (a Kotlin nullable type). */
  datatype Option<+T> = None | Some(value: T)

  /**
   * java.lang.Character.isWhitespace: the Unicode space, line and paragraph
   * separators except the three no-break spaces (U+00A0, U+2007, U+202F),
   * plus U+0009..U+000D and U+001C..U+001F.
   */
  predicate IsWhitespace(c: char)
  {
    || ('\t' <= c <= '\r')
    || ('\U{1C}' <= c <= '\U{1F}')
    || c == ' '
    || c == '\U{1680}'
    || ('\U{2000}' <= c <= '\U{2006}')
    || ('\U{2008}' <= c <= '\U{200A}')
    || c == '\U{2028}'
    || c == '\U{2029}'
    || c == '\U{205F}'
    || c == '\U{3000}'
  }

  /** StringUtils.isBlank on a non-null string: empty or whitespace only. */
  predicate IsBlank(s: string)
  {
    forall i :: 0 <= i < |s| ==> IsWhitespace(s[i])
  }

  /** StringUtils.isBlank on a nullable string: null counts as blank. */
  predicate IsBlankOrNull(s: Option<string>)
  {
    s.None? || IsBlank(s.value)
  }

  /** The sequence without its element at index k (List.remove of a found element). */
  function RemoveAt<T>(s: seq<T>, k: nat): seq<T>
    requires k < |s|
  {
    s[..k] + s[k + 1..]
  }

  /** String.startsWith */
  predicate StartsWith(s: string, prefix: string)
  {
    |prefix| <= |s| && s[..|prefix|] == prefix
  }
}
