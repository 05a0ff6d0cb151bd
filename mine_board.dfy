/**
  Count propagation (`addNeighboors` and `mineBoard`): for each mine in turn, bump
  every neighbour the neighbour search returns, then mark the mine's own cell "*".
  Both are folds that build a fresh board at each step, so they are functions here.
 */
module Mutator {
  import opened BoardTypes
  import opened Neighbors

  /** The neighbour `n` names the cell (row, i) once its column string is parsed. */
  predicate Targets(n: Coord, row: char, i: int) {
    n.row == row && n.col >= 0 && ColumnIndex(n.col) == i
  }

  /** How many entries of `ns` name the cell (row, i). */
  function Hits(ns: seq<Coord>, row: char, i: int): nat {
    if ns == [] then 0
    else (if Targets(ns[0], row, i) then 1 else 0) + Hits(ns[1..], row, i)
  }

  /** One step of `addNeighboors`' reduce: the named cell, if its parsed index is
      inside the row, is bumped; an index outside the row reads as `undefined`,
      which is neither " " nor a number, so nothing changes. */
  function BumpCell(board: Board, n: Coord): Board
    requires n.row in board && n.col >= 0
  {
    var i := ColumnIndex(n.col);
    if 0 <= i < |board[n.row]| then board[n.row := board[n.row][i := Bump(board[n.row][i])]]
    else board
  }

  /** `addNeighboors(board, neighbors)`: every cell is bumped once for each entry of
      `neighbors` that names it, and nothing else changes. */
  function AddNeighbors(board: Board, neighbors: seq<Coord>): (r: Board)
    requires forall n :: n in neighbors ==> n.row in board && n.col >= 0
    ensures r.Keys == board.Keys
    ensures forall row :: row in board ==> |r[row]| == |board[row]|
    ensures forall row, i :: row in board && 0 <= i < |board[row]| ==>
      r[row][i] == Bumped(board[row][i], Hits(neighbors, row, i))
    decreases |neighbors|
  {
    if neighbors == [] then board
    else AddNeighbors(BumpCell(board, neighbors[0]), neighbors[1..])
  }

  /** A mine the generator can process: its row is a key whose neighbours' labels
      exist as characters, and its parsed column lies inside that row. */
  predicate ValidMine(board: Board, m: Coord) {
    && m.row in board && Shiftable(m.row)
    && 1 <= m.col && LeadingDigit(m.col) <= |board[m.row]|
  }

  /** The last two lines of `mineBoard`'s step: the mine's cell becomes "*". */
  function MarkMine(board: Board, m: Coord): Board
    requires ValidMine(board, m)
  {
    board[m.row := board[m.row][ColumnIndex(m.col) := Mine]]
  }

  /** One step of `mineBoard`'s reduce: a cell ends "*" exactly when it was "*" or the
      mine's parsed coordinate names it. */
  function Step(board: Board, m: Coord): (r: Board)
    requires ValidMine(board, m)
    ensures r.Keys == board.Keys
    ensures forall row :: row in board ==> |r[row]| == |board[row]|
    ensures forall row, i :: row in board && 0 <= i < |board[row]| ==>
      (r[row][i] == Mine <==> board[row][i] == Mine || Targets(m, row, i))
  {
    var neighbors := GetNeighbors(board, m.row, LeadingDigit(m.col));
    MarkMine(AddNeighbors(board, neighbors), m)
  }

  /** `mineBoard(board, minedSpaces)`. Whatever the width, the rows keep their keys and
      lengths, and a cell ends up "*" exactly when it was "*" already or some mine's
      parsed coordinate names it. */
  function MineBoard(board: Board, mines: seq<Coord>): (r: Board)
    requires forall m :: m in mines ==> ValidMine(board, m)
    ensures r.Keys == board.Keys
    ensures forall row :: row in board ==> |r[row]| == |board[row]|
    ensures forall row, i :: row in board && 0 <= i < |board[row]| ==>
      (r[row][i] == Mine <==> board[row][i] == Mine || exists m :: m in mines && Targets(m, row, i))
    decreases |mines|
  {
    if mines == [] then board
    else
      var next := Step(board, mines[0]);
      assert forall m :: m in mines[1..] ==> ValidMine(next, m) by {
        forall m | m in mines[1..] ensures ValidMine(next, m) {
          assert m in mines && ValidMine(board, m);
          assert m.row in next && |next[m.row]| == |board[m.row]|;
        }
      }
      var r := MineBoard(next, mines[1..]);
      forall row, i | row in board && 0 <= i < |board[row]| {
        SomeTargets(mines, row, i);
      }
      r
  }

  /** Some mine of a non-empty list names a cell exactly when the first does or some
      later one does. */
  lemma SomeTargets(mines: seq<Coord>, row: char, i: int)
    requires mines != []
    ensures (exists m :: m in mines && Targets(m, row, i))
      <==> Targets(mines[0], row, i) || exists m :: m in mines[1..] && Targets(m, row, i)
  {
    if exists m :: m in mines && Targets(m, row, i) {
      var m :| m in mines && Targets(m, row, i);
      if m != mines[0] {
        assert m in mines[1..];
      }
    }
    if exists m :: m in mines[1..] && Targets(m, row, i) {
      var m :| m in mines[1..] && Targets(m, row, i);
      assert m in mines;
    }
  }

  // The board `mineBoard` is meant to produce, stated without the fold.

  /** How many of `cands` are entries of `mines`. */
  function CountPresent(cands: seq<Coord>, mines: seq<Coord>): (k: nat)
    ensures k <= |cands|
  {
    if cands == [] then 0
    else (if cands[0] in mines then 1 else 0) + CountPresent(cands[1..], mines)
  }

  /** How many of the eight cells around (row, col) hold one of `mines`. */
  function MinesAround(mines: seq<Coord>, row: char, col: int): (k: nat)
    requires Shiftable(row)
    ensures k <= 8
  {
    CountPresent(Candidates(row, col), mines)
  }

  /** The cell a correct board shows at (row, col): "*" on a mine, otherwise the
      number of mines around it (" " for none). */
  function Expected(mines: seq<Coord>, row: char, col: int): Cell
    requires Shiftable(row)
  {
    if Coord(row, col) in mines then Mine else Render(MinesAround(mines, row, col))
  }

  /** `b` is the correct minesweeper board of the given width for `mines`. */
  ghost predicate Solved(b: Board, width: int, mines: seq<Coord>) {
    && 1 <= width <= 26
    && Shape(b, width)
    && forall row, i :: row in b && 0 <= i < width ==> b[row][i] == Expected(mines, row, i + 1)
  }

  lemma {:induction false} CountPresentNone(cands: seq<Coord>)
    ensures CountPresent(cands, []) == 0
  {
    if cands != [] {
      CountPresentNone(cands[1..]);
    }
  }

  /** Adding a new mine raises the count by one exactly when it is among the cells counted. */
  lemma {:induction false} CountPresentAppend(cands: seq<Coord>, done: seq<Coord>, m: Coord)
    requires NoDuplicates(cands) && m !in done
    ensures CountPresent(cands, done + [m]) == CountPresent(cands, done) + (if m in cands then 1 else 0)
  {
    if cands != [] {
      assert NoDuplicates(cands[1..]);
      CountPresentAppend(cands[1..], done, m);
      assert m in cands <==> m == cands[0] || m in cands[1..];
    }
  }

  /** The count depends only on which cells are mines, not on the order of the list. */
  lemma {:induction false} CountPresentSameMembers(cands: seq<Coord>, m1: seq<Coord>, m2: seq<Coord>)
    requires forall x :: x in m1 <==> x in m2
    ensures CountPresent(cands, m1) == CountPresent(cands, m2)
  {
    if cands != [] {
      CountPresentSameMembers(cands[1..], m1, m2);
    }
  }

  /** In a list without repeats whose columns are single digits, a cell is named once
      if it is listed and not at all otherwise. */
  lemma {:induction false} HitsOfDistinct(ns: seq<Coord>, row: char, i: int)
    requires NoDuplicates(ns)
    requires forall n :: n in ns ==> 0 <= n.col <= 9
    ensures Hits(ns, row, i) == if Coord(row, i + 1) in ns then 1 else 0
  {
    if ns != [] {
      assert forall n :: n in ns[1..] ==> n in ns;
      HitsOfDistinct(ns[1..], row, i);
      assert Targets(ns[0], row, i) <==> ns[0] == Coord(row, i + 1);
    }
  }

  /** What the neighbour search and `addNeighboors` do to one cell in one step of the
      fold, on a board of width at most 8: it is bumped once if it touches the mine. */
  lemma AddNeighborsCell(acc: Board, width: int, m: Coord, row: char, i: int)
    requires 1 <= width <= 8 && Shape(acc, width)
    requires InBounds(width, m) && row in acc && 0 <= i < width
    ensures ValidMine(acc, m) && Shiftable(row)
    ensures AddNeighbors(acc, GetNeighbors(acc, m.row, LeadingDigit(m.col)))[row][i]
      == Bumped(acc[row][i], if m in Candidates(row, i + 1) then 1 else 0)
  {
    NeighborsOnSmallBoard(acc, width, m.row, m.col);
    var ns := GetNeighbors(acc, m.row, m.col);
    assert forall n :: n in ns ==> 0 <= n.col <= 9;
    HitsOfDistinct(ns, row, i);
    var x := Coord(row, i + 1);
    assert InBounds(width, x);
    assert x in ns <==> m in Candidates(row, i + 1);
  }

  /** Marking a mine with a one-digit column changes that cell alone. */
  lemma MarkMineCell(b: Board, m: Coord, row: char, i: int)
    requires ValidMine(b, m) && m.col <= 9
    requires row in b && 0 <= i < |b[row]|
    ensures MarkMine(b, m)[row][i] == if Coord(row, i + 1) == m then Mine else b[row][i]
  {
    assert LeadingDigit(m.col) == m.col;
  }

  /** Bumping a displayed count `h` more times displays the sum. */
  lemma BumpedRender(k: nat, h: nat)
    ensures Bumped(Render(k), h) == Render(k + h)
  {
  }

  /** The correct cell once one more mine is added: "*" on any mine, otherwise one
      more than before exactly when the new mine is among the cells around. */
  lemma ExpectedAppend(done: seq<Coord>, m: Coord, row: char, col: int)
    requires Shiftable(row) && m !in done
    ensures Expected(done + [m], row, col)
      == if Coord(row, col) == m || Coord(row, col) in done then Mine
         else Render(MinesAround(done, row, col) + if m in Candidates(row, col) then 1 else 0)
  {
    CountPresentAppend(Candidates(row, col), done, m);
  }

  /** One step of the fold on one cell, for width at most 8: the mine's own cell
      becomes "*", every other cell is bumped once if it touches the mine. */
  lemma StepOnCell(acc: Board, width: int, m: Coord, row: char, i: int)
    requires 1 <= width <= 8 && Shape(acc, width)
    requires InBounds(width, m) && row in acc && 0 <= i < width
    ensures ValidMine(acc, m) && Shiftable(row)
    ensures Step(acc, m)[row][i]
      == if Coord(row, i + 1) == m then Mine
         else Bumped(acc[row][i], if m in Candidates(row, i + 1) then 1 else 0)
  {
    AddNeighborsCell(acc, width, m, row, i);
    var added := AddNeighbors(acc, GetNeighbors(acc, m.row, LeadingDigit(m.col)));
    assert Step(acc, m) == MarkMine(added, m);
    MarkMineCell(added, m, row, i);
  }

  /** One cell after one step of the fold (see StepKeepsCounts). */
  lemma StepCell(acc: Board, width: int, done: seq<Coord>, m: Coord, row: char, i: int)
    requires 1 <= width <= 8 && Shape(acc, width)
    requires InBounds(width, m) && m !in done
    requires row in acc && 0 <= i < width && Shiftable(row)
    requires acc[row][i] == Expected(done, row, i + 1)
    ensures ValidMine(acc, m)
    ensures Step(acc, m)[row][i] == Expected(done + [m], row, i + 1)
  {
    StepOnCell(acc, width, m, row, i);
    ExpectedAppend(done, m, row, i + 1);
    var x := Coord(row, i + 1);
    if x != m && x !in done {
      BumpedRender(MinesAround(done, row, i + 1), if m in Candidates(row, i + 1) then 1 else 0);
    }
  }

  /** One step of the fold on a board of width at most 8 turns the correct board for
      `done` into the correct board for `done + [m]`. */
  lemma StepKeepsCounts(acc: Board, width: int, done: seq<Coord>, m: Coord)
    requires 1 <= width <= 8 && Solved(acc, width, done)
    requires InBounds(width, m) && m !in done
    ensures ValidMine(acc, m)
    ensures Solved(Step(acc, m), width, done + [m])
  {
    assert ValidMine(acc, m);
    var r := Step(acc, m);
    forall row, i | row in r && 0 <= i < width
      ensures r[row][i] == Expected(done + [m], row, i + 1)
    {
      StepCell(acc, width, done, m, row, i);
    }
  }

  /** The fold, started from the correct board for `done`, ends at the correct board
      for `done + rest`. */
  lemma {:induction false} FoldKeepsCounts(acc: Board, width: int, done: seq<Coord>, rest: seq<Coord>)
    requires 1 <= width <= 8 && Solved(acc, width, done)
    requires NoDuplicates(done + rest)
    requires forall m :: m in rest ==> InBounds(width, m)
    ensures forall m :: m in rest ==> ValidMine(acc, m)
    ensures Solved(MineBoard(acc, rest), width, done + rest)
    decreases |rest|
  {
    if rest == [] {
      assert done + rest == done;
    } else {
      var m := rest[0];
      assert forall j :: 0 <= j < |done| ==> done[j] == (done + rest)[j] != (done + rest)[|done|] == m;
      StepKeepsCounts(acc, width, done, m);
      assert (done + [m]) + rest[1..] == done + rest;
      FoldKeepsCounts(Step(acc, m), width, done + [m], rest[1..]);
    }
  }

  /** On a board of width 1 .. 8, `mineBoard` applied to a blank board and a list of
      distinct mines on the board yields "*" on every mine and, on every other cell,
      the number of mines among its neighbours (" " for none, never more than 8). */
  lemma MinedBoardShowsCounts(blank: Board, width: int, mines: seq<Coord>)
    requires 1 <= width <= 8 && IsBlankBoard(blank, width)
    requires NoDuplicates(mines) && forall m :: m in mines ==> InBounds(width, m)
    ensures forall m :: m in mines ==> ValidMine(blank, m)
    ensures Solved(MineBoard(blank, mines), width, mines)
  {
    forall row, i | row in blank && 0 <= i < width ensures blank[row][i] == Expected([], row, i + 1) {
      CountPresentNone(Candidates(row, i + 1));
    }
    assert [] + mines == mines;
    FoldKeepsCounts(blank, width, [], mines);
  }

  /** The order in which the mines are listed does not change the board. */
  lemma MineOrderIrrelevant(blank: Board, width: int, mines1: seq<Coord>, mines2: seq<Coord>)
    requires 1 <= width <= 8 && IsBlankBoard(blank, width)
    requires NoDuplicates(mines1) && forall m :: m in mines1 ==> InBounds(width, m)
    requires NoDuplicates(mines2) && forall m :: m in mines2 ==> InBounds(width, m)
    requires forall m :: m in mines1 <==> m in mines2
    ensures forall m :: m in mines1 ==> ValidMine(blank, m)
    ensures forall m :: m in mines2 ==> ValidMine(blank, m)
    ensures MineBoard(blank, mines1) == MineBoard(blank, mines2)
  {
    MinedBoardShowsCounts(blank, width, mines1);
    MinedBoardShowsCounts(blank, width, mines2);
    var b1 := MineBoard(blank, mines1);
    var b2 := MineBoard(blank, mines2);
    forall row | row in b1 ensures b1[row] == b2[row] {
      forall i | 0 <= i < width ensures b1[row][i] == b2[row][i] {
        CountPresentSameMembers(Candidates(row, i + 1), mines1, mines2);
      }
    }
  }
}
