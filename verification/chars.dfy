/** Character classes used by the scanner's regular expressions and by `str.strip`. */
module Chars {

  /** Python's whitespace: the code points for which `str.isspace` holds, which is also
      the set matched by `\s` in a `str` pattern. */
  predicate IsSpace(c: char) {
    var n := c as int;
    || 0x09 <= n <= 0x0D
    || 0x1C <= n <= 0x20
    || n == 0x85
    || n == 0xA0
    || n == 0x1680
    || 0x2000 <= n <= 0x200A
    || n == 0x2028
    || n == 0x2029
    || n == 0x202F
    || n == 0x205F
    || n == 0x3000
  }

  /** Word characters as matched by `\w` and used by `\b`, restricted to ASCII. */
  predicate IsWord(c: char) {
    || 'a' <= c <= 'z'
    || 'A' <= c <= 'Z'
    || '0' <= c <= '9'
    || c == '_'
  }

  /** The three repeated character classes the patterns use:
      `\s`, `\w`, and `.` (any character except a newline, no DOTALL flag). */
  datatype CharClass = Space | Word | AnyButNewline

  predicate InClass(cls: CharClass, c: char) {
    match cls
    case Space => IsSpace(c)
    case Word => IsWord(c)
    case AnyButNewline => c != '\n'
  }

  lemma SpaceIsNotWord(c: char)
    ensures !(IsSpace(c) && IsWord(c))
  {
  }
}
