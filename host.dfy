/** The host editor, reduced to what the game reads from it.

    The game never sees the editor itself: it sees, at the moment of a call,
    the character at each visual position, the visible line and column
    ranges, and the size of one character cell in pixels. */
module Host {

  /** A visual position in the editor: a line and a column. */
  datatype Pos = Pos(line: int, column: int)

  /** The integer range `start until end`: every x with start <= x < end.
      It is empty when end <= start. */
  datatype Range = Range(start: int, end: int) {
    predicate Contains(x: int) {
      start <= x < end
    }
  }

  /** One moment of the editor as the game sees it.
      `charAt` gives the character shown at a visual position (a space past
      the end of the document); `lines` and `columns` are the visible ranges;
      `columnWidth` and `lineHeight` are the cell size in pixels. */
  datatype Editor = Editor(
    charAt: Pos -> char,
    lines: Range,
    columns: Range,
    columnWidth: nat,
    lineHeight: nat)
  {
    /** The top-left visible position. */
    function TopLeft(): Pos {
      Pos(lines.start, columns.start)
    }

    predicate InView(p: Pos) {
      lines.Contains(p.line) && columns.Contains(p.column)
    }
  }

  /** Kotlin's `Char.isWhitespace()` on the JVM: Java's `isWhitespace` or
      `isSpaceChar`, that is the control characters 9-13 and 28-31 and every
      space, line or paragraph separator, as of Unicode 6.3 (Java 9 and
      later). On Java 8, whose tables are Unicode 6.2, U+180E is a space
      separator as well. */
  predicate IsWhitespace(c: char) {
    || '\U{0009}' <= c <= '\U{000D}'
    || '\U{001C}' <= c <= '\U{0020}'
    || c == '\U{00A0}'
    || c == '\U{1680}'
    || '\U{2000}' <= c <= '\U{200A}'
    || c == '\U{2028}' || c == '\U{2029}'
    || c == '\U{202F}' || c == '\U{205F}'
    || c == '\U{3000}'
  }
}
