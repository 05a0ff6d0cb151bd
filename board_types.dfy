/**
  The values the board generator works with: cells, boards, coordinates and
  the two errors it raises.
 */
module BoardTypes {

  /** A cell of the board: " " (Blank), a decimal count ("1", "2", ...) or "*" (Mine). */
  datatype Cell = Blank | Count(n: nat) | Mine

  /** A board maps a row label ('A', 'B', ...) to its row of cells; index 0 is column 1. */
  type Board = map<char, seq<Cell>>

  /** The coordinate string `row + col` (for example "C7"), kept as its two parts.
      Writing an integer in decimal is injective, so two coordinates are equal exactly
      when their strings are. */
  datatype Coord = Coord(row: char, col: int)

  /** The failures the generator raises; each keeps the numbers its message reports. */
  datatype Error =
    | WidthTooLarge(width: int)
    | WidthTooSmall(width: int)
    | TooManyMines(width: int, squares: int, mineCount: int)

  datatype Result<T> = Ok(value: T) | Err(error: Error)

  datatype Outcome = Pass | Fail(error: Error)

  datatype Option<T> = None | Some(value: T)

  /** The largest board width whose row labels are still characters here
      (a label is the character with code 64 + row number). */
  const MaxLabelWidth: int := 0xD7FF - 64

  /** True when the characters just before and just after `row` exist, so that
      the labels of the rows above and below can be formed. */
  predicate Shiftable(row: char) {
    0 < row as int < 0xD7FF
  }

  /** The value of the first decimal digit of `n`: what `parseInt` reads from the
      one-character string that destructuring a coordinate string yields. */
  function LeadingDigit(n: int): (d: int)
    requires n >= 0
    ensures 0 <= d <= 9 && d <= n
    ensures n >= 1 ==> d >= 1
    ensures n <= 9 ==> d == n
  {
    if n < 10 then n else LeadingDigit(n / 10)
  }

  /** The array index a coordinate's column string is parsed to: first digit minus one. */
  function ColumnIndex(col: int): int
    requires col >= 0
  {
    LeadingDigit(col) - 1
  }

  /** The cell `addNeighboors` writes over `c`: " " becomes "1", a count goes up by
      one, and "*" (which does not parse as a number) stays as it is. */
  function Bump(c: Cell): Cell {
    match c
    case Blank => Count(1)
    case Count(n) => Count(n + 1)
    case Mine => Mine
  }

  /** The display of `k` neighbouring mines: " " for none, the decimal count otherwise. */
  function Render(k: nat): Cell {
    if k == 0 then Blank else Count(k)
  }

  /** The cell `c` becomes after `k` bumps, in closed form. */
  function Bumped(c: Cell, k: nat): (r: Cell)
    ensures r == Mine <==> c == Mine
  {
    match c
    case Blank => Render(k)
    case Count(n) => Count(n + k)
    case Mine => Mine
  }

  /** The coordinate lies on a board of the given width. */
  predicate InBounds(width: int, c: Coord) {
    65 <= c.row as int < 65 + width && 1 <= c.col <= width
  }

  /** The board has exactly the rows 'A' .. chr(64 + width), each of `width` cells. */
  ghost predicate Shape(b: Board, width: int) {
    && (forall row :: row in b <==> 65 <= row as int < 65 + width)
    && (forall row :: row in b ==> |b[row]| == width)
  }

  /** What `generateBlankBoard` promises for a valid width. */
  ghost predicate IsBlankBoard(b: Board, width: int) {
    && Shape(b, width)
    && forall row, i :: row in b && 0 <= i < |b[row]| ==> b[row][i] == Blank
  }

  predicate NoDuplicates<T(==)>(s: seq<T>) {
    forall i, j :: 0 <= i < j < |s| ==> s[i] != s[j]
  }

  /** What `generateMinePlacement` promises: `mineCount` (none when it is not positive)
      distinct coordinates, all on the board. */
  ghost predicate ValidPlacement(width: int, mineCount: int, mines: seq<Coord>) {
    && |mines| == (if mineCount < 0 then 0 else mineCount)
    && NoDuplicates(mines)
    && forall m :: m in mines ==> InBounds(width, m)
  }
}
