/**
  Concrete boards: the generator's documented example, the smallest board, and the
  two ways the one-character column parse goes wrong on boards wider than 8.
 */
module BoardExamples {
  import opened BoardTypes
  import opened Neighbors
  import opened Mutator

  /** With a single mine, a cell shows "*" on the mine, "1" next to it and " " elsewhere. */
  lemma {:induction false} SingleMine(m: Coord, row: char, col: int)
    requires Shiftable(row)
    ensures Expected([m], row, col)
      == if Coord(row, col) == m then Mine else if Adjacent(m, Coord(row, col)) then Count(1) else Blank
  {
    CountPresentAppend(Candidates(row, col), [], m);
    CountPresentNone(Candidates(row, col));
    assert [] + [m] == [m];
  }

  /** The rows of a board of width 3 are exactly 'A', 'B' and 'C'. */
  lemma KeysOfWidthThree(b: Board)
    requires Shape(b, 3)
    ensures b.Keys == {'A', 'B', 'C'}
  {
  }

  /** The board of width 3 with one mine at A1, row by row. */
  function AfterA1(): map<char, seq<Cell>> {
    map['A' := [Mine, Count(1), Blank], 'B' := [Count(1), Count(1), Blank], 'C' := [Blank, Blank, Blank]]
  }

  /** Each cell of the correct width-3 board for a mine at A1 is the cell of `AfterA1`. */
  lemma CellAfterA1(b: Board, row: char, col: int)
    requires Solved(b, 3, [Coord('A', 1)]) && row in b && 1 <= col <= 3
    ensures row in AfterA1() && b[row][col - 1] == AfterA1()[row][col - 1]
  {
    KeysOfWidthThree(b);
    SingleMine(Coord('A', 1), row, col);
  }

  /** Width 3 with one mine at A1 gives
      A: "*", "1", " " / B: "1", "1", " " / C: " ", " ", " ". */
  lemma MineAtA1OnWidthThree(blank: Board)
    requires IsBlankBoard(blank, 3)
    ensures ValidMine(blank, Coord('A', 1))
    ensures MineBoard(blank, [Coord('A', 1)]) == AfterA1()
  {
    var mines := [Coord('A', 1)];
    MinedBoardShowsCounts(blank, 3, mines);
    var b := MineBoard(blank, mines);
    KeysOfWidthThree(b);
    forall row, i | row in b && 0 <= i < 3 ensures b[row][i] == AfterA1()[row][i] {
      CellAfterA1(b, row, i + 1);
    }
    forall row | row in b ensures b[row] == AfterA1()[row] {
      assert |b[row]| == |AfterA1()[row]| == 3;
    }
  }

  /** A 1 x 1 board with its one mine is the single cell "*": there are no neighbours. */
  lemma OneByOne(blank: Board)
    requires IsBlankBoard(blank, 1)
    ensures ValidMine(blank, Coord('A', 1))
    ensures MineBoard(blank, [Coord('A', 1)]) == map['A' := [Mine]]
  {
    MinedBoardShowsCounts(blank, 1, [Coord('A', 1)]);
    var b := MineBoard(blank, [Coord('A', 1)]);
    forall row | row in b ensures row == 'A' {
      assert row == (row as int) as char;
    }
    assert b['A'] == [Mine];
  }

  lemma {:induction false} HitsOfSoleTarget(ns: seq<Coord>, row: char, i: int, x: Coord)
    requires NoDuplicates(ns) && x in ns
    requires forall n :: n in ns && Targets(n, row, i) ==> n == x
    requires Targets(x, row, i)
    ensures Hits(ns, row, i) == 1
  {
    if ns[0] == x {
      HitsOfNone(ns[1..], row, i);
    } else {
      HitsOfSoleTarget(ns[1..], row, i, x);
    }
  }

  lemma {:induction false} HitsOfNone(ns: seq<Coord>, row: char, i: int)
    requires forall n :: n in ns ==> !Targets(n, row, i)
    ensures Hits(ns, row, i) == 0
  {
    if ns != [] {
      HitsOfNone(ns[1..], row, i);
    }
  }

  /** Width 9, a single mine at A9: the candidate "A10" is read as column 1, so A1
      shows "1" although no mine touches it. */
  lemma ColumnTenReadAsOne(blank: Board)
    requires IsBlankBoard(blank, 9)
    ensures ValidMine(blank, Coord('A', 9))
    ensures !Adjacent(Coord('A', 1), Coord('A', 9))
    ensures MineBoard(blank, [Coord('A', 9)])['A'][0] == Count(1)
  {
    var m := Coord('A', 9);
    assert LeadingDigit(9) == 9;
    var ns := GetNeighbors(blank, 'A', 9);
    assert LeadingDigit(10) == 1;
    assert Coord('A', 10) in ns;
    forall n | n in ns && Targets(n, 'A', 0) ensures n == Coord('A', 10) {
      assert 8 <= n.col <= 10;
      assert n.col == 8 || n.col == 9 || n.col == 10;
      assert LeadingDigit(8) == 8;
    }
    HitsOfSoleTarget(ns, 'A', 0, Coord('A', 10));
    assert MineBoard(blank, [m]) == MineBoard(Step(blank, m), []);
  }

  /** Width 10: "A1" and "A10" are different coordinates, but "A10" is read as column 1,
      so both land on A1 and column 10 never shows "*". */
  lemma ColumnTenCollidesWithOne(blank: Board)
    requires IsBlankBoard(blank, 10)
    ensures ValidPlacement(10, 2, [Coord('A', 1), Coord('A', 10)])
    ensures ValidMine(blank, Coord('A', 1)) && ValidMine(blank, Coord('A', 10))
    ensures MineBoard(blank, [Coord('A', 1), Coord('A', 10)])['A'][0] == Mine
    ensures MineBoard(blank, [Coord('A', 1), Coord('A', 10)])['A'][9] != Mine
  {
  }
}
