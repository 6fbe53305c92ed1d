/** The 4x4 board as a value, and the board-wide transformations that the
    `Board` class carries out in place: transpose, row flip, clockwise
    rotation, swipe, merge, the four moves, the score and the open cells. */
module Grids {
  import opened JavaInt
  import opened Rows

  const EmptyRow: Row := [0, 0, 0, 0]

  /** The board: 4 rows, the height `transpose` hard-codes. */
  type Grid = g: seq<Row> | |g| == 4 witness [EmptyRow, EmptyRow, EmptyRow, EmptyRow]

  /** The board of a fresh game: every cell empty. */
  const EmptyGrid: Grid := [EmptyRow, EmptyRow, EmptyRow, EmptyRow]

  /** A cell coordinate, as `BoardSpot` holds it. */
  datatype Spot = Spot(row: int, col: int)

  predicate InBounds(s: Spot) {
    0 <= s.row < 4 && 0 <= s.col < 4
  }

  /** Position of a spot in the row-major scan of the board. */
  function ScanIndex(s: Spot): int {
    s.row * 4 + s.col
  }

  function Cell(g: Grid, s: Spot): Int32
    requires InBounds(s)
  {
    g[s.row][s.col]
  }

  /** Column `c` of the board, top to bottom. */
  function Column(g: Grid, c: nat): (col: Row)
    requires c < 4
    ensures forall r :: 0 <= r < 4 ==> col[r] == g[r][c]
  {
    seq(4, r requires 0 <= r < 4 => g[r][c])
  }

  // ---------------------------------------------------------------------------
  // Permutations of the cells
  // ---------------------------------------------------------------------------

  /** The board mirrored along its main diagonal. */
  function Transpose(g: Grid): (t: Grid)
    ensures forall r, c :: 0 <= r < 4 && 0 <= c < 4 ==> t[r][c] == g[c][r]
  {
    seq(4, r requires 0 <= r < 4 => seq(4, c requires 0 <= c < 4 => g[c][r]))
  }

  /** Every row reversed; rows stay where they are. */
  function Flip(g: Grid): (t: Grid)
    ensures forall r, c :: 0 <= r < 4 && 0 <= c < 4 ==> t[r][c] == g[r][3 - c]
  {
    seq(4, r requires 0 <= r < 4 => Reverse(g[r]))
  }

  /** `rotateBoard`: transpose, then flip the rows. The result is the board
      turned a quarter turn clockwise. */
  function Rotate(g: Grid): (t: Grid)
    ensures forall r, c :: 0 <= r < 4 && 0 <= c < 4 ==> t[r][c] == g[3 - c][r]
  {
    Flip(Transpose(g))
  }

  /** Equal boards are equal cell by cell. */
  lemma GridExt(a: Grid, b: Grid)
    requires forall r, c :: 0 <= r < 4 && 0 <= c < 4 ==> a[r][c] == b[r][c]
    ensures a == b
  {
    forall r | 0 <= r < 4 ensures a[r] == b[r] {
      assert forall c :: 0 <= c < 4 ==> a[r][c] == b[r][c];
    }
  }

  lemma TransposeTwice(g: Grid)
    ensures Transpose(Transpose(g)) == g
  {
    GridExt(Transpose(Transpose(g)), g);
  }

  lemma FlipTwice(g: Grid)
    ensures Flip(Flip(g)) == g
  {
    GridExt(Flip(Flip(g)), g);
  }

  /** Three quarter turns clockwise are one quarter turn anticlockwise. */
  lemma RotateThrice(g: Grid)
    ensures forall r, c :: 0 <= r < 4 && 0 <= c < 4 ==> Rotate(Rotate(Rotate(g)))[r][c] == g[c][3 - r]
  {
  }

  /** Rotation has order 4. */
  lemma RotateFourTimes(g: Grid)
    ensures Rotate(Rotate(Rotate(Rotate(g)))) == g
  {
    RotateThrice(g);
    GridExt(Rotate(Rotate(Rotate(Rotate(g)))), g);
  }

  // ---------------------------------------------------------------------------
  // Swipe, merge and the four moves
  // ---------------------------------------------------------------------------

  /** `swipeLeft` on every row. */
  function Swipe(g: Grid): (t: Grid)
    ensures forall r :: 0 <= r < 4 ==> t[r] == SwipeRow(g[r])
  {
    seq(4, r requires 0 <= r < 4 => SwipeRow(g[r]))
  }

  /** `mergeLeft` on every row. */
  function Merge(g: Grid): (t: Grid)
    ensures forall r :: 0 <= r < 4 ==> t[r] == MergeRow(g[r])
  {
    seq(4, r requires 0 <= r < 4 => MergeRow(g[r]))
  }

  /** A move to the left: swipe, merge, swipe. */
  function Slide(g: Grid): (t: Grid)
    ensures forall r :: 0 <= r < 4 ==> t[r] == SlideRow(g[r])
  {
    Swipe(Merge(Swipe(g)))
  }

  /** `makeMove(letter)`: each direction rotates the board so that it points
      left, slides, and rotates back; any other letter leaves the board alone. */
  function Move(g: Grid, letter: char): Grid {
    if letter == 'U' then Rotate(Slide(Rotate(Rotate(Rotate(g)))))
    else if letter == 'D' then Rotate(Rotate(Rotate(Slide(Rotate(g)))))
    else if letter == 'L' then Slide(g)
    else if letter == 'R' then Rotate(Rotate(Slide(Rotate(Rotate(g)))))
    else g
  }

  predicate IsDirection(letter: char) {
    letter == 'U' || letter == 'D' || letter == 'L' || letter == 'R'
  }

  /** Row `r` of the quarter-turned board is column `r` read bottom to top. */
  lemma RotateRow(g: Grid, r: nat)
    requires r < 4
    ensures Rotate(g)[r] == Reverse(Column(g, r))
  {
    forall c | 0 <= c < 4 ensures Rotate(g)[r][c] == Reverse(Column(g, r))[c] {
    }
  }

  /** Column `c` of the quarter-turned board is row `3 - c`. */
  lemma RotateColumn(g: Grid, c: nat)
    requires c < 4
    ensures Column(Rotate(g), c) == g[3 - c]
  {
    forall r | 0 <= r < 4 ensures Column(Rotate(g), c)[r] == g[3 - c][r] {
    }
  }

  /** Row `r` of the half-turned board is row `3 - r` reversed. */
  lemma RotateTwiceRow(g: Grid, r: nat)
    requires r < 4
    ensures Rotate(Rotate(g))[r] == Reverse(g[3 - r])
  {
    RotateRow(Rotate(g), r);
    RotateColumn(g, r);
  }

  /** Row `r` of the board turned three quarters is column `3 - r`. */
  lemma RotateThriceRow(g: Grid, r: nat)
    requires r < 4
    ensures Rotate(Rotate(Rotate(g)))[r] == Column(g, 3 - r)
  {
    RotateThrice(g);
    forall c | 0 <= c < 4 ensures Rotate(Rotate(Rotate(g)))[r][c] == Column(g, 3 - r)[c] {
    }
  }

  /** Column `c` of the board turned three quarters is row `c` reversed. */
  lemma RotateThriceColumn(g: Grid, c: nat)
    requires c < 4
    ensures Column(Rotate(Rotate(Rotate(g))), c) == Reverse(g[c])
  {
    RotateColumn(Rotate(Rotate(g)), c);
    RotateTwiceRow(g, 3 - c);
  }

  lemma MoveRightRow(g: Grid, r: nat)
    requires r < 4
    ensures Move(g, 'R')[r] == Reverse(SlideRow(Reverse(g[r])))
  {
    var h := Rotate(Rotate(g));
    var t := Slide(h);
    assert Move(g, 'R') == Rotate(Rotate(t));
    RotateTwiceRow(t, r);
    RotateTwiceRow(g, 3 - r);
  }

  /** 'R' slides every row to the right. */
  lemma MoveRightRows(g: Grid)
    ensures forall r :: 0 <= r < 4 ==> Move(g, 'R')[r] == Reverse(SlideRow(Reverse(g[r])))
  {
    forall r | 0 <= r < 4 ensures Move(g, 'R')[r] == Reverse(SlideRow(Reverse(g[r]))) {
      MoveRightRow(g, r);
    }
  }

  lemma MoveUpColumn(g: Grid, c: nat)
    requires c < 4
    ensures Column(Move(g, 'U'), c) == SlideRow(Column(g, c))
  {
    var t := Slide(Rotate(Rotate(Rotate(g))));
    assert Move(g, 'U') == Rotate(t);
    RotateColumn(t, c);
    RotateThriceRow(g, 3 - c);
  }

  /** 'U' slides every column up. */
  lemma MoveUpColumns(g: Grid)
    ensures forall c :: 0 <= c < 4 ==> Column(Move(g, 'U'), c) == SlideRow(Column(g, c))
  {
    forall c | 0 <= c < 4 ensures Column(Move(g, 'U'), c) == SlideRow(Column(g, c)) {
      MoveUpColumn(g, c);
    }
  }

  lemma MoveDownColumn(g: Grid, c: nat)
    requires c < 4
    ensures Column(Move(g, 'D'), c) == Reverse(SlideRow(Reverse(Column(g, c))))
  {
    var t := Slide(Rotate(g));
    assert Move(g, 'D') == Rotate(Rotate(Rotate(t)));
    RotateThriceColumn(t, c);
    RotateRow(g, c);
  }

  /** 'D' slides every column down. */
  lemma MoveDownColumns(g: Grid)
    ensures forall c :: 0 <= c < 4 ==>
      Column(Move(g, 'D'), c) == Reverse(SlideRow(Reverse(Column(g, c))))
  {
    forall c | 0 <= c < 4 ensures Column(Move(g, 'D'), c) == Reverse(SlideRow(Reverse(Column(g, c)))) {
      MoveDownColumn(g, c);
    }
  }

  /** What each move does, stated without rotations: 'L' slides every row to
      the left, 'R' every row to the right, 'U' every column up and 'D' every
      column down; any other letter changes nothing. */
  lemma MoveDirections(g: Grid, letter: char)
    ensures letter == 'L' ==> forall r :: 0 <= r < 4 ==> Move(g, letter)[r] == SlideRow(g[r])
    ensures letter == 'R' ==> forall r :: 0 <= r < 4 ==>
      Move(g, letter)[r] == Reverse(SlideRow(Reverse(g[r])))
    ensures letter == 'U' ==> forall c :: 0 <= c < 4 ==>
      Column(Move(g, letter), c) == SlideRow(Column(g, c))
    ensures letter == 'D' ==> forall c :: 0 <= c < 4 ==>
      Column(Move(g, letter), c) == Reverse(SlideRow(Reverse(Column(g, c))))
    ensures !IsDirection(letter) ==> Move(g, letter) == g
  {
    MoveRightRows(g);
    MoveUpColumns(g);
    MoveDownColumns(g);
  }

  /** A move left and then a move right keep the tiles of a row, in order,
      when no two of them are equal neighbours: nothing merges, so the count
      of tiles and their values stay as they were. */
  lemma LeftThenRightKeepsTiles(g: Grid, r: nat)
    requires r < 4 && NoEqualNeighbours(NonZeros(g[r]))
    ensures NonZeros(Move(Move(g, 'L'), 'R')[r]) == NonZeros(g[r])
  {
    var tiles := NonZeros(g[r]);
    var h := Move(g, 'L');
    assert h[r] == SwipeRow(g[r]) by {
      MoveDirections(g, 'L');
      SlideRowNoMerge(g[r]);
    }
    SwipeRowFacts(g[r]);
    var u := Reverse(h[r]);
    assert NonZeros(u) == Reverse(tiles) by {
      NonZerosReverse(h[r]);
    }
    NoEqualNeighboursReverse(tiles);
    SlideRowNoMerge(u);
    SwipeRowFacts(u);
    calc {
      NonZeros(Move(h, 'R')[r]);
      { MoveRightRow(h, r); }
      NonZeros(Reverse(SwipeRow(u)));
      { NonZerosReverse(SwipeRow(u)); }
      Reverse(Reverse(tiles));
      { ReverseTwice(tiles); }
      tiles;
    }
  }

  /** A move down carries a lone tile in the top-left corner to the
      bottom-left corner: the first column becomes `0 0 0 2` and the other
      columns stay empty. */
  lemma MoveDownExample(g: Grid)
    requires g == SetCell(EmptyGrid, Spot(0, 0), 2)
    ensures Column(Move(g, 'D'), 0) == [0, 0, 0, 2]
    ensures forall c :: 1 <= c < 4 ==> Column(Move(g, 'D'), c) == EmptyRow
  {
    MoveDirections(g, 'D');
    CornerTileDown(g);
  }

  /** The columns of a board whose only tile is a 2 in the top-left corner,
      each slid towards the bottom. */
  lemma CornerTileDown(g: Grid)
    requires g == SetCell(EmptyGrid, Spot(0, 0), 2)
    ensures Reverse(SlideRow(Reverse(Column(g, 0)))) == [0, 0, 0, 2]
    ensures forall c :: 1 <= c < 4 ==> Reverse(SlideRow(Reverse(Column(g, c)))) == EmptyRow
  {
    CornerTileColumns(g);
    SlideRowExampleLoneTile(Reverse(Column(g, 0)));
    forall c | 1 <= c < 4 ensures Reverse(SlideRow(Reverse(Column(g, c)))) == EmptyRow {
      SlideRowExampleEmpty(Reverse(Column(g, c)));
    }
  }

  /** The columns of a board whose only tile is a 2 in the top-left corner,
      read bottom to top. */
  lemma CornerTileColumns(g: Grid)
    requires g == SetCell(EmptyGrid, Spot(0, 0), 2)
    ensures Reverse(Column(g, 0)) == [0, 0, 0, 2]
    ensures forall c :: 1 <= c < 4 ==> Reverse(Column(g, c)) == EmptyRow
  {
  }

  // ---------------------------------------------------------------------------
  // The score
  // ---------------------------------------------------------------------------

  /** The sum of the first `k` rows, as a mathematical integer. */
  function SumRows(g: Grid, k: nat): int
    requires k <= 4
  {
    if k == 0 then 0 else SumRows(g, k - 1) + RowSum(g[k - 1])
  }

  /** The sum of all cells, as a mathematical integer; `showScore` returns it
      wrapped to a Java `int`. */
  function GridSum(g: Grid): int {
    SumRows(g, 4)
  }

  lemma GridSumCells(g: Grid)
    ensures GridSum(g) == RowSum(g[0]) + RowSum(g[1]) + RowSum(g[2]) + RowSum(g[3])
  {
    assert SumRows(g, 1) == RowSum(g[0]);
    assert SumRows(g, 2) == RowSum(g[0]) + RowSum(g[1]);
    assert SumRows(g, 3) == RowSum(g[0]) + RowSum(g[1]) + RowSum(g[2]);
  }

  /** Rotation only moves cells around, so the sum is unchanged. */
  lemma RotateSum(g: Grid)
    ensures GridSum(Rotate(g)) == GridSum(g)
  {
    var t := Rotate(g);
    GridSumCells(g);
    GridSumCells(t);
    RowSum4(g[0]); RowSum4(g[1]); RowSum4(g[2]); RowSum4(g[3]);
    RowSum4(t[0]); RowSum4(t[1]); RowSum4(t[2]); RowSum4(t[3]);
  }

  /** A slide keeps the sum, as Java's `int` sees it. */
  lemma SlideSum(g: Grid)
    ensures Congruent(GridSum(Slide(g)), GridSum(g))
  {
    var t := Slide(g);
    GridSumCells(g);
    GridSumCells(t);
    forall r | 0 <= r < 4 ensures Congruent(RowSum(t[r]), RowSum(g[r])) {
      SlideRowSumAndCompact(g[r]);
    }
    CongruentSum4(GridSum(t), GridSum(g),
                  RowSum(t[0]), RowSum(t[1]), RowSum(t[2]), RowSum(t[3]),
                  RowSum(g[0]), RowSum(g[1]), RowSum(g[2]), RowSum(g[3]));
  }

  /** Every move keeps the sum of the cells, as Java's `int` sees it. */
  lemma MoveSum(g: Grid, letter: char)
    ensures Congruent(GridSum(Move(g, letter)), GridSum(g))
  {
    if letter == 'U' {
      var h := Rotate(Rotate(Rotate(g)));
      RotateSum(g);
      RotateSum(Rotate(g));
      RotateSum(Rotate(Rotate(g)));
      SlideSum(h);
      RotateSum(Slide(h));
    } else if letter == 'D' {
      var h := Rotate(g);
      RotateSum(g);
      SlideSum(h);
      RotateSum(Slide(h));
      RotateSum(Rotate(Slide(h)));
      RotateSum(Rotate(Rotate(Slide(h))));
    } else if letter == 'L' {
      SlideSum(g);
    } else if letter == 'R' {
      var h := Rotate(Rotate(g));
      RotateSum(g);
      RotateSum(Rotate(g));
      SlideSum(h);
      RotateSum(Slide(h));
      RotateSum(Rotate(Slide(h)));
    }
  }

  /** Every move keeps the score that `showScore` reports. */
  lemma MoveKeepsScore(g: Grid, letter: char)
    ensures Wrap(GridSum(Move(g, letter))) == Wrap(GridSum(g))
  {
    MoveSum(g, letter);
    WrapCongruent(GridSum(Move(g, letter)), GridSum(g));
  }

  // ---------------------------------------------------------------------------
  // Open cells
  // ---------------------------------------------------------------------------

  /** The empty cells among the first `col` cells of row `row`, left to right. */
  function OpenInRow(g: Grid, row: nat, col: nat): seq<Spot>
    requires row < 4 && col <= 4
  {
    if col == 0 then []
    else OpenInRow(g, row, col - 1) + (if g[row][col - 1] == 0 then [Spot(row, col - 1)] else [])
  }

  /** The empty cells of the first `row` rows, row by row. */
  function OpenInRows(g: Grid, row: nat): seq<Spot>
    requires row <= 4
  {
    if row == 0 then [] else OpenInRows(g, row - 1) + OpenInRow(g, row - 1, 4)
  }

  /** `updateOpenSpaces`: the empty cells of the board in row-major order. */
  function OpenCells(g: Grid): seq<Spot> {
    OpenInRows(g, 4)
  }

  /** Strictly increasing in the row-major scan, hence without repetitions. */
  predicate ScanOrdered(spots: seq<Spot>) {
    forall i, j :: 0 <= i < j < |spots| ==> ScanIndex(spots[i]) < ScanIndex(spots[j])
  }

  lemma ScanOrderedAppend(a: seq<Spot>, b: seq<Spot>, bound: int)
    requires ScanOrdered(a) && ScanOrdered(b)
    requires forall s :: s in a ==> ScanIndex(s) < bound
    requires forall s :: s in b ==> bound <= ScanIndex(s)
    ensures ScanOrdered(a + b)
  {
    forall i, j | 0 <= i < j < |a + b| ensures ScanIndex((a + b)[i]) < ScanIndex((a + b)[j]) {
      if j < |a| {
        assert (a + b)[i] == a[i] && (a + b)[j] == a[j];
      } else if i < |a| {
        assert (a + b)[i] == a[i] && a[i] in a;
        assert (a + b)[j] == b[j - |a|] && b[j - |a|] in b;
      } else {
        assert (a + b)[i] == b[i - |a|] && (a + b)[j] == b[j - |a|];
      }
    }
  }

  lemma {:induction false} OpenInRowExact(g: Grid, row: nat, col: nat)
    requires row < 4 && col <= 4
    ensures forall s :: s in OpenInRow(g, row, col) <==> s.row == row && 0 <= s.col < col && g[row][s.col] == 0
    ensures ScanOrdered(OpenInRow(g, row, col))
  {
    if col > 0 {
      OpenInRowExact(g, row, col - 1);
      var cell: seq<Spot> := if g[row][col - 1] == 0 then [Spot(row, col - 1)] else [];
      ScanOrderedAppend(OpenInRow(g, row, col - 1), cell, row * 4 + col - 1);
    }
  }

  lemma {:induction false} OpenInRowsExact(g: Grid, row: nat)
    requires row <= 4
    ensures forall s :: s in OpenInRows(g, row) <==> InBounds(s) && s.row < row && Cell(g, s) == 0
    ensures ScanOrdered(OpenInRows(g, row))
  {
    if row > 0 {
      OpenInRowsExact(g, row - 1);
      OpenInRowExact(g, row - 1, 4);
      ScanOrderedAppend(OpenInRows(g, row - 1), OpenInRow(g, row - 1, 4), (row - 1) * 4);
    }
  }

  /** The open cells are exactly the empty cells, each listed once, in
      row-major scan order. */
  lemma OpenCellsExact(g: Grid)
    ensures forall s :: s in OpenCells(g) <==> InBounds(s) && Cell(g, s) == 0
    ensures ScanOrdered(OpenCells(g))
  {
    OpenInRowsExact(g, 4);
  }

  /** A full board has no open cells, and only a full board. */
  lemma OpenCellsEmptyIffFull(g: Grid)
    ensures OpenCells(g) == [] <==> forall r, c :: 0 <= r < 4 && 0 <= c < 4 ==> g[r][c] != 0
  {
    OpenCellsExact(g);
    if OpenCells(g) != [] {
      var s := OpenCells(g)[0];
      assert s in OpenCells(g);
      assert g[s.row][s.col] == 0;
    } else {
      forall r, c | 0 <= r < 4 && 0 <= c < 4 ensures g[r][c] != 0 {
        assert Spot(r, c) !in OpenCells(g);
      }
    }
  }

  /** The board with one cell overwritten. */
  function SetCell(g: Grid, s: Spot, v: Int32): (t: Grid)
    requires InBounds(s)
    ensures Cell(t, s) == v
    ensures forall p :: InBounds(p) && p != s ==> Cell(t, p) == Cell(g, p)
  {
    g[s.row := g[s.row][s.col := v]]
  }

  lemma {:induction false} SetCellOpenInRow(g: Grid, s: Spot, v: Int32, row: nat, col: nat)
    requires InBounds(s) && Cell(g, s) == 0 && v != 0 && row < 4 && col <= 4
    ensures |OpenInRow(SetCell(g, s, v), row, col)|
         == |OpenInRow(g, row, col)| - (if s.row == row && s.col < col then 1 else 0)
  {
    if col > 0 {
      SetCellOpenInRow(g, s, v, row, col - 1);
      if Spot(row, col - 1) != s {
        assert Cell(SetCell(g, s, v), Spot(row, col - 1)) == Cell(g, Spot(row, col - 1));
      }
    }
  }

  lemma {:induction false} SetCellOpenInRows(g: Grid, s: Spot, v: Int32, row: nat)
    requires InBounds(s) && Cell(g, s) == 0 && v != 0 && row <= 4
    ensures |OpenInRows(SetCell(g, s, v), row)| == |OpenInRows(g, row)| - (if s.row < row then 1 else 0)
  {
    if row > 0 {
      SetCellOpenInRows(g, s, v, row - 1);
      SetCellOpenInRow(g, s, v, row - 1, 4);
    }
  }

  /** Placing a tile on an open cell removes exactly that cell from the open cells. */
  lemma SpawnShrinksOpenCells(g: Grid, s: Spot, v: Int32)
    requires s in OpenCells(g) && v != 0
    ensures InBounds(s) && Cell(g, s) == 0
    ensures |OpenCells(SetCell(g, s, v))| == |OpenCells(g)| - 1
    ensures forall p :: p in OpenCells(SetCell(g, s, v)) <==> p in OpenCells(g) && p != s
  {
    OpenCellsExact(g);
    OpenCellsExact(SetCell(g, s, v));
    SetCellOpenInRows(g, s, v, 4);
  }
}
