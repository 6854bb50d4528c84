/**
 * Character-level vocabulary of the parser: ranges over character offsets,
 * the character classes of the script-mode catch pattern, and the line
 * structure that turns an offset into a (line, column) position.
 *
 * Positions are represented by their character offsets; `positionAt` and
 * `offsetAt` are the identity, except that an offset past the end of the
 * text is clamped to its length, as `offsetAt` clamps a position.
 */
module Text {

  /** A span of character offsets; `new Range(a, b)` of the editor API. */
  datatype Range = Range(start: nat, end: nat)

  /**
   * The editor's `Range` constructor puts the earlier position first, so a
   * range built from a later start and an earlier end is swapped.
   */
  function MkRange(a: nat, b: nat): (r: Range)
    ensures r.start <= r.end
    ensures a <= b ==> r == Range(a, b)
    ensures b < a ==> r == Range(b, a)
  {
    if a <= b then Range(a, b) else Range(b, a)
  }

  /** `offsetAt` never yields an offset past the end of the document. */
  function Clamp(o: nat, n: nat): (r: nat)
    ensures r <= n
    ensures o <= n ==> r == o
    ensures n < o ==> r == n
  {
    if o <= n then o else n
  }

  /** ECMAScript white space and line terminators: what `\s` matches. */
  predicate IsSpace(c: char)
  {
    || c == '\t' || c == '\n' || c == '\U{0B}' || c == '\U{0C}' || c == '\r' || c == ' '
    || c == '\U{A0}' || c == '\U{1680}' || ('\U{2000}' <= c <= '\U{200A}')
    || c == '\U{2028}' || c == '\U{2029}' || c == '\U{202F}' || c == '\U{205F}'
    || c == '\U{3000}' || c == '\U{FEFF}'
  }

  predicate IsAsciiLetter(c: char)
  {
    ('a' <= c <= 'z') || ('A' <= c <= 'Z')
  }

  predicate IsDigit(c: char)
  {
    '0' <= c <= '9'
  }

  /** `[A-Za-z0-9_.$]`: a character of an exception type token. */
  predicate IsTypeChar(c: char)
  {
    IsAsciiLetter(c) || IsDigit(c) || c == '_' || c == '.' || c == '$'
  }

  /** `[_$a-zA-Z]`: the first character of a catch variable. */
  predicate IsNameStart(c: char)
  {
    c == '_' || c == '$' || IsAsciiLetter(c)
  }

  /** `[$\w]`: a later character of a catch variable. */
  predicate IsNameChar(c: char)
  {
    c == '$' || IsAsciiLetter(c) || IsDigit(c) || c == '_'
  }

  /**
   * Lower-cases ASCII letters only. A case-insensitive ECMAScript pattern
   * without the `u` flag never maps a non-ASCII character onto an ASCII one,
   * so this is exactly how the pattern compares letters.
   */
  function AsciiLower(c: char): (r: char)
    ensures 'A' <= c <= 'Z' ==> 'a' <= r <= 'z'
    ensures !('A' <= c <= 'Z') ==> r == c
  {
    if 'A' <= c <= 'Z' then (c as int + 32) as char else c
  }

  /** The editor splits lines at `\r\n`, `\r` and `\n`. */
  predicate IsLineBreak(c: char)
  {
    c == '\n' || c == '\r'
  }

  /** The position of offset `o` has column 0. */
  predicate StartsLine(t: seq<char>, o: nat)
    requires o <= |t|
  {
    o == 0 || IsLineBreak(t[o - 1])
  }
}
