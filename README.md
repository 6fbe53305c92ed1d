# 2048 board engine in Dafny

This project models the `Board` class of a 2048 game (`src/game/Board.java`).
The board is a 4x4 grid of Java `int` cells that the class changes in place.
The class also keeps a cached list of open spots, the empty cells found by the
last `updateOpenSpaces`. Its five in-place primitives are `swipeLeft`,
`mergeLeft`, `transpose`, `flipRows` and `rotateBoard`. `makeMove` builds the
four directions from them. `addRandomTile` spawns a tile, `isGameLost` asks
whether any open spot is left, and `showScore` adds up the cells.

The model has four modules:

- `JavaInt`: Java's 32-bit `int` as the subset type `Int32`. Java's
  wrapping `+` is `Add`. `Wrap` gives the `int` that a running Java sum ends
  at.
- `Rows`: the value-level meaning of one row.
  - `SwipeRow` packs the tiles to the left.
  - `MergeRow` is the single left-to-right pass of `mergeLeft`.
  - `SlideRow` is swipe, merge, swipe.
  - `PairUp` is the textbook rule: equal neighbouring tiles, taken from the
    left, pair up.
- `Grids`: the board as a value (`Grid`, four `Row`s). It holds the board-wide
  transformations (`Transpose`, `Flip`, `Rotate`, `Swipe`, `Merge`, `Move`),
  the score `GridSum` and the row-major list of empty cells `OpenCells`.
- `Game`: class `Board` with the fields `gameBoard: array2<Int32>` and
  `openSpaces: seq<Spot>`. Its methods keep the loops of the Java code.
  - Each method is proved against the `Grids` function it carries out, via the
    ghost view `Cells()` of the array.
  - The lemmas of `Rows` and `Grids` prove what those functions promise.

The invariant `Valid()` says the array is exactly 4x4 and every recorded spot
lies on the board. `swipeLeft`, `transpose` and `flipRows` hard-code the width
4 (Board.java lines 91, 99, 145, 168), so the model fixes the shape rather than
modelling index errors on other shapes.

The doc comment of `mergeLeft` (Board.java line 108) says that `2 2 2 2`
becomes `2 0 2 0`. The code on lines 113-122 writes the sum `4` into the left
cell of each pair, so the row becomes `4 0 4 0`. The model follows the code:
see `Rows.MergeRowFourEqual`.

## Model

| member | source | states |
|---|---|---|
| Game.Board.constructor | src/game/Board.java:21-24 | a fresh board is 4x4, every cell is empty, and the open-spot list is empty |
| Game.Board.FromArray | src/game/Board.java:31-39 | the new board holds a cell-by-cell copy of the given array in a fresh array, and the open-spot list is empty |
| Game.Board.UpdateOpenSpaces | src/game/Board.java:49-59 | afterwards the open-spot list is `OpenCells` of the current board; the cells are unchanged |
| Grids.OpenCellsExact | src/game/Board.java:49-59 | a spot is in `OpenCells(g)` exactly when it lies on the board and its cell is 0, and the list is strictly increasing in row-major scan order, so each spot occurs once |
| Grids.OpenCellsEmptyIffFull | src/game/Board.java:49-59 | the open-cell list is empty exactly when every cell holds a tile |
| Game.Board.AddRandomTile | src/game/Board.java:71-80 | with a nonempty list, the cell at the drawn spot `openSpaces[pick]` becomes 4 or 2 and no other cell changes; with an empty list the index draw fails and the board is unchanged |
| Grids.SetCell | src/game/Board.java:76-78 | the written cell holds the new value; every other cell keeps its value |
| Grids.SpawnShrinksOpenCells | src/game/Board.java:71-80 | spawning on an open cell removes exactly that spot from the open cells, so the list shrinks by one |
| Game.Board.SwipeLeft | src/game/Board.java:88-105 | every row of the new board is `SwipeRow` of the old row |
| Game.Board.SwipeRowLeft | src/game/Board.java:93-103 | one pass of the row loop: the row becomes its swiped form, the other rows are unchanged, and the scratch array is all zero again |
| Game.Board.GatherTiles | src/game/Board.java:93-98 | the first inner loop leaves the swiped row in the scratch array: the tiles in order, then zeros |
| Rows.SwipeRowFacts | src/game/Board.java:82-105 | a swiped row has the same tiles in the same order, no empty cell before a tile, and the same sum |
| Rows.SwipeRowIdempotent | src/game/Board.java:82-105 | swiping an already swiped row changes nothing |
| Rows.SwipeRowExample | src/game/Board.java:86 | `0 4 0 4` swipes to `4 4 0 0` |
| Game.Board.MergeLeft | src/game/Board.java:111-123 | every row of the new board is `MergeRow` of the old row |
| Game.Board.MergeRowLeft | src/game/Board.java:114-121 | one pass over one row: the row becomes `MergeRow` of the old row and the other rows are unchanged |
| Rows.MergeAt | src/game/Board.java:115-120 | one step at `col`: equal neighbours become their Java sum and 0; unequal neighbours and all other cells are untouched |
| Rows.MergeRowSum | src/game/Board.java:111-123 | the pass keeps the row's sum modulo 2^32 |
| Rows.MergeRowFourEqual | src/game/Board.java:108-123 | four equal cells `v v v v` become `Add(v, v) 0 Add(v, v) 0`, where `Add` is Java's wrapping sum; the pass does not cascade |
| Rows.MergeFromCompact | src/game/Board.java:113-121 | on a row whose unvisited part is compact, the pass leaves the tiles already passed followed by the pair-up of the tiles still ahead |
| Rows.SlideRowIsPairUp | src/game/Board.java:206-210 | swipe, merge, swipe of a row is the textbook rule: the tiles paired up from the left, packed left, padded with zeros |
| Rows.SlideRowSumAndCompact | src/game/Board.java:206-210 | a slide keeps the row's sum modulo 2^32 and leaves the row compact |
| Rows.PairUpNoMerge | src/game/Board.java:206-210 | tiles with no two equal neighbours pair up into themselves |
| Rows.SlideRowNoMerge | src/game/Board.java:206-210 | when no two tiles of a row are equal neighbours, a move left only swipes the row |
| Rows.NonZerosReverse | src/game/Board.java:211-219 | the tiles of a reversed row are the row's tiles in reverse order |
| Grids.LeftThenRightKeepsTiles | src/game/Board.java:206-219 | after 'L' and then 'R', a row whose tiles have no equal neighbours keeps the same tiles in the same order, so also their count |
| Rows.SlideRowExampleFourTwos | src/game/Board.java:206-210 | a move left turns `2 2 2 2` into `4 4 0 0` |
| Rows.SlideRowExampleGap | src/game/Board.java:206-210 | a move left turns `0 4 0 4` into `8 0 0 0`: the tiles close up, then merge |
| Rows.SlideRowExampleLoneTile | src/game/Board.java:206-210 | a move left carries a lone tile from the last cell to the first: `0 0 0 2` becomes `2 0 0 0` |
| Rows.SlideRowExampleEmpty | src/game/Board.java:206-210 | a move left leaves an empty row empty |
| Game.Board.RotateBoard | src/game/Board.java:130-133 | the new board is the old one turned a quarter turn clockwise: new `[r][c]` is old `[3-c][r]` |
| Grids.RotateFourTimes | src/game/Board.java:130-133 | four quarter turns give back the original board |
| Grids.RotateSum | src/game/Board.java:130-133 | a rotation keeps the sum of all cells |
| Game.Board.Transpose | src/game/Board.java:143-156 | the new board is the transpose of the old one: new `[r][c]` is old `[c][r]` |
| Grids.TransposeTwice | src/game/Board.java:143-156 | transposing twice gives back the original board |
| Game.Board.FlipRows | src/game/Board.java:164-177 | every row is reversed in place: new `[r][c]` is old `[r][3-c]`, and no row moves |
| Grids.FlipTwice | src/game/Board.java:164-177 | flipping twice gives back the original board |
| Game.Board.MakeMove | src/game/Board.java:186-220 | the new board is `Move(old, letter)`, and the Java score (wrapped cell sum) is unchanged |
| Grids.MoveDirections | src/game/Board.java:186-220 | 'L' slides every row to the left, 'R' every row to the right, 'U' every column up, 'D' every column down; any other letter leaves the board unchanged |
| Grids.MoveRightRows | src/game/Board.java:211-219 | after 'R' each row is the reverse of the slide of the reversed row |
| Grids.MoveUpColumns | src/game/Board.java:188-196 | after 'U' each column is the slide of the old column |
| Grids.MoveDownColumns | src/game/Board.java:197-205 | after 'D' each column is the reverse of the slide of the reversed column |
| Grids.MoveDownExample | src/game/Board.java:197-205 | on a board whose only tile is a 2 in the top-left corner, 'D' leaves the first column `0 0 0 2` (the tile ends in the bottom-left corner) and the other columns empty |
| Grids.MoveSum | src/game/Board.java:186-220 | a move keeps the sum of all cells modulo 2^32 |
| Grids.MoveKeepsScore | src/game/Board.java:186-243 | a move leaves the value `showScore` returns unchanged |
| Game.Board.IsGameLost | src/game/Board.java:228-230 | the game is lost exactly when no open spot is recorded; right after `UpdateOpenSpaces` that is exactly when every cell holds a tile |
| Game.Board.ShowScore | src/game/Board.java:235-243 | the score is the sum of all cells, wrapped to 32 bits as Java's `+=` leaves it |
| JavaInt.AddAccumulates | src/game/Board.java:239 | adding a cell to the wrapped running total with Java's `+` gives the wrapped mathematical total |

## Left out

- `print` and `printOpenSpaces` (Board.java lines 248-279): console output only.
- The seed constructor `Board(long)` (lines 286-289): it only seeds the random
  generator. The two random draws of `addRandomTile` are parameters of
  `AddRandomTile`. `pick` is the drawn index. `isFour` says whether the drawn
  double fell below 0.1. The floating-point draw itself is not modelled.
- `getOpenSpaces` and `getBoard` (lines 296-307): they hand out the internal
  list and array. Outside code can then change them, and the model does not
  cover that aliasing. The fields can be read directly instead.
- `BoardSpot` is not part of this model. A spot is the datatype
  `Spot(row, col)`.
- Game.Board.FromArray: requires a 4x4 array. The Java constructor copies any
  rectangular `int[][]`, but the other operations hard-code 4x4.
- Jagged `int[][]` arrays: the board is an `array2`, so all rows have the same
  length.
- Game.Board.AddRandomTile: an empty open-spot list makes Java's index draw
  throw. The model returns `ok == false` and leaves the board unchanged.
- Game.Board.SwipeRowLeft, Game.Board.GatherTiles and Game.Board.MergeRowLeft
  are the bodies of the Java row loops, split out as methods. `swipeLeft`
  declares `num` outside the row loop and resets it after each row; in
  `GatherTiles` it is a local that starts at 0 for each row.
- Rows.MergeRowSum: the row sum is kept modulo 2^32 rather than exactly. A
  merge of two equal tiles at or above 2^30 overflows Java's `int`.
