/**
  `BoardService`: the stateful shell (`createBoard`, `getBoard` over the `board`
  field), blank-grid construction and mine selection.
 */
module Service {
  import opened BoardTypes
  import opened Mutator

  /** The random-number helper: some integer in [low, high]. Which one is up to the
      source of randomness, so the model lets it be any. */
  method GetRandomInt(low: int, high: int) returns (x: int)
    requires low <= high
    ensures low <= x <= high
  {
    x :| low <= x <= high;
  }

  // Counting facts behind "a free space remains while fewer than width * width are taken".

  lemma {:induction false} DistinctIntoSet<T>(s: seq<T>, t: set<T>)
    requires NoDuplicates(s)
    requires forall x :: x in s ==> x in t
    ensures |s| <= |t|
  {
    if s != [] {
      assert forall x :: x in s[1..] ==> x in s && x != s[0];
      DistinctIntoSet(s[1..], t - {s[0]});
    }
  }

  lemma {:induction false} ElementsOfSeq<T>(s: seq<T>)
    ensures |set x | x in s| <= |s|
  {
    if s != [] {
      ElementsOfSeq(s[1..]);
      assert (set x | x in s) == {s[0]} + (set x | x in s[1..]);
    }
  }

  /** The coordinates of the first `rows` rows of a board of the given width, row by row. */
  function AllSpaces(width: int, rows: int): (r: seq<Coord>)
    requires 0 <= rows <= width <= MaxLabelWidth
    ensures |r| == rows * width
    ensures NoDuplicates(r)
    ensures forall c :: c in r ==> InBounds(width, c) && c.row as int < 65 + rows
  {
    if rows == 0 then []
    else
      var previous := AllSpaces(width, rows - 1);
      var row := seq(width, j requires 0 <= j < width => Coord((64 + rows) as char, j + 1));
      assert forall c :: c in row ==> c.row as int == 64 + rows;
      assert forall i, j :: 0 <= i < |previous| <= j < |previous| + width ==>
        (previous + row)[i] == previous[i] && (previous + row)[j] == row[j - |previous|];
      previous + row
  }

  /** While fewer than width * width distinct spaces are taken, some space is still free,
      so the rejection loop of the mine selection has something to find. */
  lemma FreeSpaceExists(width: int, chosen: seq<Coord>)
    requires 1 <= width <= MaxLabelWidth
    requires NoDuplicates(chosen) && |chosen| < width * width
    ensures exists c :: InBounds(width, c) && c !in chosen
  {
    if forall c :: InBounds(width, c) ==> c in chosen {
      var all := AllSpaces(width, width);
      DistinctIntoSet(all, set x | x in chosen);
      ElementsOfSeq(chosen);
      assert false;
    }
  }

  class BoardService {
    /** The most recently created board; None until `CreateBoard` succeeds once. */
    var board: Option<Board>

    constructor()
      ensures board == None
    {
      board := None;
    }

    /** `createBoard(boardWidth = 7, mineCount = 10)`: build a blank board, choose the
        mines, propagate the counts and store the result. `mines` is the list the
        selection drew, in order. */
    method CreateBoard(width: int := 7, mineCount: int := 10)
      returns (outcome: Outcome, ghost blank: Board, ghost mines: seq<Coord>)
      modifies this
      ensures width > 26 ==> outcome == Fail(WidthTooLarge(width))
      ensures width < 1 ==> outcome == Fail(WidthTooSmall(width))
      ensures 1 <= width <= 26 && mineCount > width * width ==>
        outcome == Fail(TooManyMines(width, width * width, mineCount))
      ensures outcome.Fail? ==> board == old(board)
      ensures outcome.Pass? <==> 1 <= width <= 26 && mineCount <= width * width
      ensures outcome.Pass? ==>
        && IsBlankBoard(blank, width)
        && ValidPlacement(width, mineCount, mines)
        && (forall m :: m in mines ==> ValidMine(blank, m))
        && board == Some(MineBoard(blank, mines))
      ensures outcome.Pass? && width <= 8 ==> Solved(board.value, width, mines)
    {
      blank, mines := map[], [];
      var blankResult := GenerateBlankBoard(width);
      if blankResult.Err? {
        return Fail(blankResult.error), blank, mines;
      }
      var blankBoard := blankResult.value;
      var minesResult := GenerateMinePlacement(width, mineCount);
      if minesResult.Err? {
        return Fail(minesResult.error), blank, mines;
      }
      var minedSpaces := minesResult.value;
      blank, mines := blankBoard, minedSpaces;
      assert forall m :: m in minedSpaces ==> ValidMine(blankBoard, m);
      board := Some(MineBoard(blankBoard, minedSpaces));
      if width <= 8 {
        MinedBoardShowsCounts(blank, width, mines);
      }
      outcome := Pass;
    }

    /** `getBoard()`: the stored board. */
    method GetBoard() returns (r: Option<Board>)
      ensures r == board
    {
      r := board;
    }

    /** `generateBlankBoard(boardWidth)`: fails when the width is over 26 (checked first)
        or under 1; otherwise rows 'A' .. chr(64 + width), each of `width` blank cells. */
    method GenerateBlankBoard(width: int) returns (r: Result<Board>)
      ensures width > 26 ==> r == Err(WidthTooLarge(width))
      ensures width < 1 ==> r == Err(WidthTooSmall(width))
      ensures r.Ok? <==> 1 <= width <= 26
      ensures r.Ok? ==> IsBlankBoard(r.value, width)
    {
      if width > 26 {
        return Err(WidthTooLarge(width));
      }
      if width < 1 {
        return Err(WidthTooSmall(width));
      }
      var b: Board := map[];
      var blankRow := seq(width, _ => Blank);
      for i := 1 to width + 1
        invariant forall row :: row in b <==> 65 <= row as int < 64 + i
        invariant forall row :: row in b ==> b[row] == blankRow
      {
        var letter := (64 + i) as char;
        b := b[letter := blankRow];
      }
      return Ok(b);
    }

    /** `generateMinePlacement(boardWidth, mineCount)`: fails when more mines are asked
        for than the board has squares; otherwise `mineCount` distinct spaces on the
        board (none when `mineCount` is not positive), in the order they were drawn. */
    method GenerateMinePlacement(width: int, mineCount: int) returns (r: Result<seq<Coord>>)
      requires mineCount <= 0 || mineCount > width * width || 1 <= width <= MaxLabelWidth
      ensures r.Err? <==> mineCount > width * width
      ensures r.Err? ==> r.error == TooManyMines(width, width * width, mineCount)
      ensures r.Ok? ==> ValidPlacement(width, mineCount, r.value)
    {
      if mineCount > width * width {
        return Err(TooManyMines(width, width * width, mineCount));
      }
      var chosen: seq<Coord> := [];
      for i := 1 to (if mineCount < 0 then 0 else mineCount) + 1
        invariant |chosen| == i - 1
        invariant NoDuplicates(chosen)
        invariant forall c :: c in chosen ==> InBounds(width, c)
      {
        var space := GetRandomSpace(width);
        if space in chosen {
          // `getRandomSpace` is called again until the space is free; which free space it ends
          // on is up to the random numbers.
          FreeSpaceExists(width, chosen);
          space :| InBounds(width, space) && space !in chosen;
        }
        chosen := chosen + [space];
      }
      return Ok(chosen);
    }

    /** `getRandomSpace(boardWidth)`: a row label in 'A' .. chr(64 + width) and a column
        in 1 .. width. */
    method GetRandomSpace(width: int) returns (space: Coord)
      requires 1 <= width <= MaxLabelWidth
      ensures InBounds(width, space)
    {
      var code := GetRandomInt(65, 64 + width);
      var column := GetRandomInt(1, width);
      space := Coord(code as char, column);
    }
  }
}
