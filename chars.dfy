/**
 * Character classes of JavaScript regular expressions written without the
 * `u` and `s` flags, and of String.prototype.trim. The same whitespace class
 * serves `\s` and `trim`, as in ECMAScript, where both are WhiteSpace together
 * with LineTerminator.
 */
module Chars {
  /** LineTerminator: the characters `.` does not match. */
  predicate IsLineTerminator(c: char) {
    c == '\n' || c == '\r' || c == '\U{2028}' || c == '\U{2029}'
  }

  /** `\s`, and what `trim` removes: WhiteSpace or LineTerminator. */
  predicate IsWhitespace(c: char) {
    || IsLineTerminator(c)
    || c == '\t' || c == '\U{B}' || c == '\U{C}' || c == ' ' || c == '\U{A0}'
    || c == '\U{1680}' || '\U{2000}' <= c <= '\U{200A}'
    || c == '\U{202F}' || c == '\U{205F}' || c == '\U{3000}' || c == '\U{FEFF}'
  }

  /** `\w`: ASCII letters, ASCII digits and the underscore. */
  predicate IsWordChar(c: char) {
    'a' <= c <= 'z' || 'A' <= c <= 'Z' || '0' <= c <= '9' || c == '_'
  }

  /** `[\w.-]`: a character allowed in a key of the line format. */
  predicate IsKeyChar(c: char) {
    IsWordChar(c) || c == '.' || c == '-'
  }

  /** `['"]`: a quote character of either kind. */
  predicate IsQuote(c: char) {
    c == '\'' || c == '"'
  }

  /** `.` */
  predicate NotLineTerminator(c: char) {
    !IsLineTerminator(c)
  }

  predicate NotNewline(c: char) {
    c != '\n'
  }

  /** The classes the line pattern relies on being disjoint are disjoint. */
  lemma ClassesDisjoint(c: char)
    ensures IsLineTerminator(c) ==> IsWhitespace(c)
    ensures IsKeyChar(c) ==> !IsWhitespace(c) && c != ':'
    ensures IsQuote(c) ==> !IsWhitespace(c)
    ensures !IsWhitespace(':')
  {
  }
}
