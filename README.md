# Minesweeper board generator, modelled in Dafny

A model of `BoardService` from `src/services/board.service.ts`. The service builds a
Minesweeper board in three steps and stores it in its `board` field:

1. A blank square grid. Rows are keyed `'A'`, `'B'`, …, and every cell is `" "`.
2. A list of distinct mine coordinates, drawn at random with rejection of repeats.
3. A fold over the mines. For each mine it finds the neighbours, bumps their counts,
   then marks the mine `"*"`.

How the model represents the program:

- A board is a `map<char, seq<Cell>>`. A `Cell` is `Blank` (`" "`), `Count(n)` (`"n"`) or `Mine` (`"*"`).
- A coordinate string such as `"C7"` is `Coord('C', 7)`. Printing an integer in decimal is
  injective, so the service's `Set<string>` of drawn coordinates becomes a duplicate-free
  `seq<Coord>` kept in insertion order.
- Errors are values: `Result`/`Outcome` carrying `WidthTooLarge`, `WidthTooSmall` or `TooManyMines`.
- `createBoard`, `getBoard`, `generateBlankBoard`, `generateMinePlacement` and
  `getRandomSpace` are methods of the class `Service.BoardService`. The first two read or
  write its `board` field. The two generators fill a map or a list in a loop.
- `getNeighbors`, `addNeighboors` and `mineBoard` build fresh objects with `filter`,
  `reduce` and spread copies. They are functions here. Because they work on values, the
  input board is never changed.

The program reads a coordinate string back with `const [row, column] = val`. That keeps
only the first character of the column. The model does the same: `LeadingDigit` is the
value of the first decimal digit. So the model follows the program at every width from 1
to 26.

On boards up to 8 wide every column is a single digit. There the main theorem,
`Mutator.MinedBoardShowsCounts`, holds: every mine shows `"*"`, and every other cell
shows how many of its eight surrounding cells are mines (`" "` for none).

On wider boards the truncation changes the result, and two lemmas show it:

- `BoardExamples.ColumnTenReadAsOne`: at width 9, a mine at A9 makes A1 show `"1"`.
  The neighbour candidate `"A10"` is read as column 1.
- `BoardExamples.ColumnTenCollidesWithOne`: at width 10, the distinct draws `"A1"` and
  `"A10"` both mark A1. Column 10 never shows `"*"`.

## Model

| member | source | states |
|---|---|---|
| `Service.BoardService.constructor` | src/services/board.service.ts:8-12 | No board is stored until the first `createBoard`. |
| `Service.BoardService.CreateBoard` | src/services/board.service.ts:14-19 | Defaults are width 7 and 10 mines. A width over 26 or under 1 fails, and so do more mines than squares; a failure leaves `board` unchanged. On success `board` holds `MineBoard` of a blank board of that width and a valid placement. For width up to 8 it is the correct counted board. |
| `Service.BoardService.GetBoard` | src/services/board.service.ts:21-23 | Returns the board stored most recently. |
| `Service.BoardService.GenerateBlankBoard` | src/services/board.service.ts:92-109 | A width over 26 fails with WidthTooLarge, checked first. A width under 1 fails with WidthTooSmall. Every other width gives exactly the keys `chr(65)..chr(64+width)`, each row `width` cells, all blank. |
| `Service.BoardService.GenerateMinePlacement` | src/services/board.service.ts:111-134 | Fails with TooManyMines (width, width², count) exactly when the count exceeds width². Otherwise it returns `max(count, 0)` coordinates with no repeats, all on the board. |
| `Service.BoardService.GetRandomSpace` | src/services/board.service.ts:136-141 | The drawn row lies in `'A'..chr(64+width)` and the column in `1..width`, given a random helper that stays in its inclusive range. |
| `Service.FreeSpaceExists` | src/services/board.service.ts:123-131 | While fewer than width² distinct spaces are taken, some on-board space is still free, so the rejection loop has a space to end on. |
| `BoardTypes.LeadingDigit` | src/services/board.service.ts:27-28 | Reading the first character of a column string gives a digit 0..9. It is at most the column, positive for a positive column, and equal to the column when that is a single digit. |
| `Neighbors.Candidates` | src/services/board.service.ts:61-75 | The eight candidates are pairwise distinct. A coordinate is among them exactly when it touches the centre by an edge or a corner. |
| `Neighbors.Filtered` | src/services/board.service.ts:77-86 | The filter returns a subsequence of its input that keeps exactly the candidates whose parsed column is in `[1, length of the centre row]` and whose row key exists. |
| `Neighbors.GetNeighbors` | src/services/board.service.ts:60-90 | The result is a subsequence of the candidates in their fixed order, with no repeats and at most 8 entries. It holds exactly the adjacent candidates that pass the filter. |
| `Neighbors.NeighborsOnSmallBoard` | src/services/board.service.ts:77-86 | For width at most 8, the neighbours are exactly the on-board cells adjacent to the centre. The centre is never its own neighbour. |
| `Neighbors.NeighborCount` | src/services/board.service.ts:60-90 | For width at most 8, the number of neighbours is (rows around) × (columns around) − 1. |
| `Neighbors.NeighborCountByPosition` | src/services/board.service.ts:60-90 | For width 3 to 8: a corner has 3 neighbours, an edge cell 5 and an inner cell 8. |
| `Mutator.AddNeighbors` | src/services/board.service.ts:25-42 | Keys and row lengths stay the same. Each cell becomes its old value bumped once per listed neighbour that parses to it: `" "` goes to the count, a count adds, `"*"` stays. Unlisted cells and out-of-row indices are unchanged. |
| `Mutator.Step` | src/services/board.service.ts:45-57 | One step of the fold keeps keys and row lengths. A cell ends `"*"` exactly when it was `"*"` or the mine's parsed coordinate names it. |
| `Mutator.MineBoard` | src/services/board.service.ts:44-58 | At any width, keys and row lengths stay the same. A cell ends `"*"` exactly when it was `"*"` or a mine's parsed coordinate names it. |
| `Mutator.MinesAround` | src/services/board.service.ts:44-57 | The number of mines around a cell never exceeds 8. |
| `Mutator.CountPresentAppend` | src/services/board.service.ts:49-51 | Adding a new mine raises a cell's count by one exactly when the mine is one of its eight surrounding cells. |
| `Mutator.CountPresentSameMembers` | src/services/board.service.ts:45 | A cell's mine count depends only on which cells are mines. |
| `Mutator.HitsOfDistinct` | src/services/board.service.ts:26-36 | In a repeat-free neighbour list of single-digit columns, each cell is bumped once if listed and otherwise not at all. |
| `Mutator.AddNeighborsCell` | src/services/board.service.ts:49-51 | For width up to 8, one mine's neighbour pass bumps a cell once exactly when the cell touches the mine. |
| `Mutator.ExpectedAppend` | src/services/board.service.ts:45-57 | Adding one new mine makes its own cell `"*"`, keeps every mine `"*"`, and raises any other cell's count by one exactly when the mine touches it. |
| `Mutator.StepOnCell` | src/services/board.service.ts:45-57 | For width up to 8, one step of the fold makes the mine's cell `"*"` and bumps every other cell once exactly when it touches the mine. |
| `Mutator.StepCell` | src/services/board.service.ts:45-57 | One step of the fold keeps a single cell correct for the mines processed so far. |
| `Mutator.StepKeepsCounts` | src/services/board.service.ts:45-57 | One step of the fold turns the correct board for the mines so far into the correct board with the next mine added. |
| `Mutator.FoldKeepsCounts` | src/services/board.service.ts:45-57 | The whole fold, started from a correct board, stays correct for every mine it processes. |
| `Mutator.MinedBoardShowsCounts` | src/services/board.service.ts:44-57 | For width 1..8 with distinct on-board mines, every mine shows `"*"`. Every other cell shows its number of neighbouring mines, `" "` for 0 and never above 8. |
| `Mutator.MineOrderIrrelevant` | src/services/board.service.ts:44-57 | For width 1..8, two lists holding the same mines in any order give the same board. |
| `BoardExamples.SingleMine` | src/services/board.service.ts:44-57 | With one mine, a cell is `"*"` on it, `"1"` if it touches it and `" "` otherwise. |
| `BoardExamples.MineAtA1OnWidthThree` | src/services/board.service.ts:44-57 | Width 3 with a mine at A1 gives `{A: ["*","1"," "], B: ["1","1"," "], C: [" "," "," "]}`. |
| `BoardExamples.OneByOne` | src/services/board.service.ts:44-57 | A 1×1 board with its one mine is `{A: ["*"]}`. |
| `BoardExamples.ColumnTenReadAsOne` | src/services/board.service.ts:78-81 | At width 9, a lone mine at A9 leaves A1 showing `"1"` although A1 does not touch A9. |
| `BoardExamples.ColumnTenCollidesWithOne` | src/services/board.service.ts:46-54 | At width 10, the valid placement `["A1", "A10"]` puts `"*"` on A1 and none on A10. |

## Left out

- `getRandomInt` comes from `../helpers/random.helper`, which is not part of this model. `Service.GetRandomInt` stands for it and returns any integer in `[low, high]`.
- Uniformity and independence of the random draws are left out. Nothing probabilistic is stated.
- The rejection loop `while (chosenSpaces.has(space))` ends only if the random helper eventually hits a free space. The model replaces its redraws with one choice of some free on-board space. `Service.FreeSpaceExists` proves such a space exists. Termination and the number of redraws are not modelled.
- Service.BoardService.GenerateMinePlacement: widths above `BoardTypes.MaxLabelWidth` are excluded when mines are drawn. There, `String.fromCharCode(64 + width)` would not be a character the model can hold. The service itself stops at width 26.
- Neighbors.GetNeighbors: the column parameter is the one-character string its caller takes from a mine. It is modelled by its value and required to be a digit 1..9. A generated mine's first column digit always is.
- Mutator.MineBoard: mines must have a row that is a key of the board and a parsed column inside that row. Generated placements always do. The program would throw on a missing row. An out-of-row index would make JavaScript grow the array instead.
- JavaScript `NaN` handling is not modelled. A column string starting with `-` reads as `NaN` and passes the filter's comparisons, but no generated coordinate has one.
- Error messages are modelled by which error occurs and the numbers they report, not by their text.
- Before the first `createBoard`, `board` is `undefined`. Here it is `None`, and nothing else about that state is modelled.
- Non-integer widths and mine counts, which JavaScript numbers allow, are not modelled.
