/**
  Neighbour discovery (`getNeighbors`): the eight coordinates around a cell, in a
  fixed order, filtered down to those whose column parses into the board and
  whose row label is a key of the board.
 */
module Neighbors {
  import opened BoardTypes

  /** Two different cells that touch by an edge or a corner. */
  predicate Adjacent(x: Coord, y: Coord) {
    && x != y
    && -1 <= x.row as int - y.row as int <= 1
    && -1 <= x.col - y.col <= 1
  }

  /** The candidates `getNeighbors` lists around (row, column): the row before,
      the row itself and the row after, each with the column before and after
      (and the column itself for the rows around). */
  function Candidates(row: char, column: int): (r: seq<Coord>)
    requires Shiftable(row)
    ensures |r| == 8 && NoDuplicates(r)
    ensures forall x :: x in r <==> Adjacent(x, Coord(row, column))
  {
    var before := (row as int - 1) as char;
    var after := (row as int + 1) as char;
    var r := [Coord(before, column - 1), Coord(before, column), Coord(before, column + 1),
              Coord(row, column - 1), Coord(row, column + 1),
              Coord(after, column - 1), Coord(after, column), Coord(after, column + 1)];
    assert forall x :: Adjacent(x, Coord(row, column)) ==> x in r by {
      forall x | Adjacent(x, Coord(row, column)) ensures x in r {
        var dr := x.row as int - row as int;
        assert x.row == (row as int + dr) as char;
        assert x == Coord((row as int + dr) as char, x.col);
      }
    }
    r
  }

  /** The filter's test: the candidate's column, parsed from its first character,
      lies in [1, length of the centre's row], and its row label is a key. */
  predicate Keep(board: Board, row: char, x: Coord)
    requires row in board && x.col >= 0
  {
    1 <= LeadingDigit(x.col) <= |board[row]| && x.row in board
  }

  /** `r` is `s` with some elements left out, the rest kept in order. */
  ghost predicate SubsequenceOf<T>(r: seq<T>, s: seq<T>)
    decreases |s|
  {
    || r == []
    || (s != [] && ((r[0] == s[0] && SubsequenceOf(r[1..], s[1..])) || SubsequenceOf(r, s[1..])))
  }

  lemma {:induction false} SubsequenceKeepsDistinct<T>(r: seq<T>, s: seq<T>)
    requires SubsequenceOf(r, s) && NoDuplicates(s)
    ensures NoDuplicates(r)
    ensures forall x :: x in r ==> x in s
    decreases |s|
  {
    if r != [] {
      if r[0] == s[0] && SubsequenceOf(r[1..], s[1..]) {
        SubsequenceKeepsDistinct(r[1..], s[1..]);
        forall i, j | 0 <= i < j < |r| ensures r[i] != r[j] {
          assert r[j] == r[1..][j - 1];
          if i == 0 {
            assert r[1..][j - 1] in r[1..];
            assert r[j] in s[1..];
            var k :| 0 <= k < |s[1..]| && s[1..][k] == r[j];
            assert s[k + 1] == r[j];
          } else {
            assert r[i] == r[1..][i - 1];
          }
        }
        forall x | x in r ensures x in s {
          if x != r[0] {
            assert x in r[1..];
          }
        }
      } else {
        SubsequenceKeepsDistinct(r, s[1..]);
      }
    }
  }

  /** `potentialNeighbors.filter(...)`. */
  function Filtered(board: Board, row: char, cands: seq<Coord>): (r: seq<Coord>)
    requires row in board
    requires forall x :: x in cands ==> x.col >= 0
    ensures SubsequenceOf(r, cands)
    ensures forall x :: x in r <==> x in cands && Keep(board, row, x)
  {
    if cands == [] then []
    else if Keep(board, row, cands[0]) then [cands[0]] + Filtered(board, row, cands[1..])
    else Filtered(board, row, cands[1..])
  }

  /** `getNeighbors(board, row, column)`; `column` is the one-digit string the caller
      destructured from a mine's coordinate, here as its value. */
  function GetNeighbors(board: Board, row: char, column: int): (r: seq<Coord>)
    requires row in board && Shiftable(row)
    requires 1 <= column <= 9
    ensures SubsequenceOf(r, Candidates(row, column))
    ensures NoDuplicates(r) && |r| <= 8
    ensures forall x :: x in r <==> Adjacent(x, Coord(row, column)) && Keep(board, row, x)
  {
    var r := Filtered(board, row, Candidates(row, column));
    SubsequenceKeepsDistinct(r, Candidates(row, column));
    SubsequenceNoLonger(r, Candidates(row, column));
    r
  }

  lemma {:induction false} SubsequenceNoLonger<T>(r: seq<T>, s: seq<T>)
    requires SubsequenceOf(r, s)
    ensures |r| <= |s|
    decreases |s|
  {
    if r != [] {
      if r[0] == s[0] && SubsequenceOf(r[1..], s[1..]) {
        SubsequenceNoLonger(r[1..], s[1..]);
      } else {
        SubsequenceNoLonger(r, s[1..]);
      }
    }
  }

  /** On a board of width at most 8, every column the filter sees is a single
      digit, so `getNeighbors` returns exactly the on-board cells adjacent to the
      centre; in particular the centre is never its own neighbour. */
  lemma NeighborsOnSmallBoard(board: Board, width: int, row: char, column: int)
    requires 1 <= width <= 8 && Shape(board, width)
    requires InBounds(width, Coord(row, column))
    ensures row in board && Shiftable(row)
    ensures forall x :: x in GetNeighbors(board, row, column) <==>
      InBounds(width, x) && Adjacent(x, Coord(row, column))
    ensures Coord(row, column) !in GetNeighbors(board, row, column)
  {
  }

  /** How many of c - 1, c and c + 1 lie in [1, width]. */
  function Span(c: int, width: int): int {
    (if 1 <= c - 1 <= width then 1 else 0) + (if 1 <= c <= width then 1 else 0)
      + (if 1 <= c + 1 <= width then 1 else 0)
  }

  lemma {:induction false} FilteredAppend(board: Board, row: char, s: seq<Coord>, t: seq<Coord>)
    requires row in board
    requires forall x :: x in s + t ==> x.col >= 0
    ensures Filtered(board, row, s + t) == Filtered(board, row, s) + Filtered(board, row, t)
    decreases |s|
  {
    if s != [] {
      assert (s + t)[1..] == s[1..] + t;
      FilteredAppend(board, row, s[1..], t);
    } else {
      assert s + t == t;
    }
  }

  /** One row of three candidates keeps as many cells as the columns around allow,
      or none when its label is not a key. */
  lemma RowOfThree(board: Board, width: int, row: char, key: char, column: int)
    requires 1 <= width <= 8 && Shape(board, width) && row in board
    requires 1 <= column <= width
    ensures |Filtered(board, row, [Coord(key, column - 1), Coord(key, column), Coord(key, column + 1)])|
      == if key in board then Span(column, width) else 0
  {
    var s := [Coord(key, column - 1), Coord(key, column), Coord(key, column + 1)];
    assert LeadingDigit(column - 1) == column - 1;
    assert LeadingDigit(column) == column;
    assert LeadingDigit(column + 1) == column + 1;
    assert s[1..][1..][1..] == [];
    var f3 := Filtered(board, row, s[1..][1..]);
    assert |f3| == if Keep(board, row, s[2]) then 1 else 0;
    var f2 := Filtered(board, row, s[1..]);
    assert |f2| == |f3| + if Keep(board, row, s[1]) then 1 else 0;
    assert |Filtered(board, row, s)| == |f2| + if Keep(board, row, s[0]) then 1 else 0;
  }

  /** The centre row keeps its left and right cells when they are on the board. */
  lemma CentreRow(board: Board, width: int, row: char, column: int)
    requires 1 <= width <= 8 && Shape(board, width) && row in board
    requires 1 <= column <= width
    ensures |Filtered(board, row, [Coord(row, column - 1), Coord(row, column + 1)])| == Span(column, width) - 1
  {
  }

  /** The first or the last of 1 .. width. */
  predicate OnBorder(x: int, width: int) {
    x == 1 || x == width
  }

  /** On a board of width at most 8, the number of neighbours is the number of rows
      around times the number of columns around, less the centre. */
  lemma NeighborCount(board: Board, width: int, row: char, column: int)
    requires 1 <= width <= 8 && Shape(board, width)
    requires InBounds(width, Coord(row, column))
    ensures row in board && Shiftable(row)
    ensures |GetNeighbors(board, row, column)| == Span(row as int - 64, width) * Span(column, width) - 1
  {
    var before := (row as int - 1) as char;
    var after := (row as int + 1) as char;
    var above := [Coord(before, column - 1), Coord(before, column), Coord(before, column + 1)];
    var centre := [Coord(row, column - 1), Coord(row, column + 1)];
    var below := [Coord(after, column - 1), Coord(after, column), Coord(after, column + 1)];
    assert Candidates(row, column) == above + centre + below;
    FilteredAppend(board, row, above + centre, below);
    FilteredAppend(board, row, above, centre);
    RowOfThree(board, width, row, before, column);
    CentreRow(board, width, row, column);
    RowOfThree(board, width, row, after, column);
    var cols := Span(column, width);
    var n := |Filtered(board, row, above + centre + below)|;
    assert n == (if before in board then cols else 0) + (cols - 1) + (if after in board then cols else 0);
    assert |GetNeighbors(board, row, column)| == n;
    var rows := Span(row as int - 64, width);
    assert rows == (if before in board then 1 else 0) + 1 + (if after in board then 1 else 0) by {
      assert before in board <==> 1 <= row as int - 64 - 1 <= width;
      assert after in board <==> 1 <= row as int - 64 + 1 <= width;
    }
    assert rows * cols - 1 == n by {
      if before in board && after in board {
        assert rows * cols == 3 * cols;
      } else if before in board || after in board {
        assert rows * cols == 2 * cols;
      } else {
        assert rows * cols == cols;
      }
    }
  }

  /** 3 neighbours at a corner, 5 along an edge and 8 inside, once the board is at
      least 3 wide (and at most 8). */
  lemma NeighborCountByPosition(board: Board, width: int, row: char, column: int)
    requires 3 <= width <= 8 && Shape(board, width)
    requires InBounds(width, Coord(row, column))
    ensures row in board && Shiftable(row)
    ensures OnBorder(row as int - 64, width) && OnBorder(column, width) ==>
      |GetNeighbors(board, row, column)| == 3
    ensures OnBorder(row as int - 64, width) != OnBorder(column, width) ==>
      |GetNeighbors(board, row, column)| == 5
    ensures !OnBorder(row as int - 64, width) && !OnBorder(column, width) ==>
      |GetNeighbors(board, row, column)| == 8
  {
    NeighborCount(board, width, row, column);
  }
}
