/** The `Board` class of the game: a 4x4 array of Java `int`s that its
    methods change in place, and the list of open spots that the last
    `updateOpenSpaces` recorded. Every method is proved against the board
    transformation of module `Grids` that it carries out. */
module Game {
  import opened JavaInt
  import opened Rows
  import opened Grids

  /** The cells of a 4x4 array as a board value. */
  ghost function GridOf(a: array2<Int32>): (g: Grid)
    reads a
    requires a.Length0 == 4 && a.Length1 == 4
    ensures forall r, c :: 0 <= r < 4 && 0 <= c < 4 ==> g[r][c] == a[r, c]
  {
    seq(4, r requires 0 <= r < 4 reads a => seq(4, c requires 0 <= c < 4 reads a => a[r, c]))
  }

  /** An array that agrees with a board value cell by cell holds that board. */
  lemma GridOfIs(a: array2<Int32>, h: Grid)
    requires a.Length0 == 4 && a.Length1 == 4
    requires forall r, c :: 0 <= r < 4 && 0 <= c < 4 ==> a[r, c] == h[r][c]
    ensures GridOf(a) == h
  {
    GridExt(GridOf(a), h);
  }

  /** An array row that agrees with a row value cell by cell holds that row. */
  lemma GridOfRow(a: array2<Int32>, r: nat, h: Row)
    requires a.Length0 == 4 && a.Length1 == 4 && r < 4
    requires forall c :: 0 <= c < 4 ==> a[r, c] == h[c]
    ensures GridOf(a)[r] == h
  {
  }

  class Board {
    /** The game board, indexed `[row, col]`. */
    var gameBoard: array2<Int32>
    /** The open spots found by the last `UpdateOpenSpaces`. */
    var openSpaces: seq<Spot>

    /** The board is 4x4 and every recorded open spot lies on it. */
    ghost predicate Valid()
      reads this
    {
      gameBoard.Length0 == 4 && gameBoard.Length1 == 4 &&
      forall s :: s in openSpaces ==> InBounds(s)
    }

    /** The current cells. */
    ghost function Cells(): Grid
      reads this, gameBoard
      requires Valid()
    {
      GridOf(gameBoard)
    }

    /** A fresh 4x4 board with every cell empty and no open spot recorded. */
    constructor ()
      ensures Valid() && fresh(gameBoard)
      ensures Cells() == EmptyGrid && openSpaces == []
    {
      gameBoard := new Int32[4, 4]((r, c) => 0);
      openSpaces := [];
      new;
      GridOfIs(gameBoard, EmptyGrid);
    }

    /** A board holding a copy of the cells of `board`. */
    constructor FromArray(board: array2<Int32>)
      requires board.Length0 == 4 && board.Length1 == 4
      ensures Valid() && fresh(gameBoard)
      ensures Cells() == GridOf(board) && openSpaces == []
    {
      var a := new Int32[board.Length0, board.Length1]((r, c) => 0);
      var r := 0;
      while r < a.Length0
        invariant 0 <= r <= 4
        invariant forall i, j :: 0 <= i < r && 0 <= j < 4 ==> a[i, j] == board[i, j]
      {
        var c := 0;
        while c < a.Length1
          invariant 0 <= c <= 4
          invariant forall i, j :: 0 <= i < r && 0 <= j < 4 ==> a[i, j] == board[i, j]
          invariant forall j :: 0 <= j < c ==> a[r, j] == board[r, j]
        {
          a[r, c] := board[r, c];
          c := c + 1;
        }
        r := r + 1;
      }
      gameBoard := a;
      openSpaces := [];
      new;
      GridOfIs(gameBoard, GridOf(board));
    }

    /** Records the empty cells of the board, row by row from the top and
        left to right within a row. */
    method UpdateOpenSpaces()
      requires Valid()
      modifies this`openSpaces
      ensures Valid()
      ensures openSpaces == OpenCells(Cells())
    {
      ghost var g := Cells();
      openSpaces := [];
      var row := 0;
      while row < gameBoard.Length0
        invariant 0 <= row <= 4
        invariant openSpaces == OpenInRows(g, row)
      {
        var col := 0;
        while col < gameBoard.Length1
          invariant 0 <= col <= 4
          invariant openSpaces == OpenInRows(g, row) + OpenInRow(g, row, col)
        {
          if gameBoard[row, col] == 0 {
            openSpaces := openSpaces + [Spot(row, col)];
          }
          col := col + 1;
        }
        row := row + 1;
      }
      OpenCellsExact(g);
    }

    /** Puts a new tile on one of the recorded open spots. The random draws
        are parameters: `pick` is the index drawn from `[0, |openSpaces|)` and
        `isFour` says whether the drawn double fell below 0.1. With no open
        spot recorded the draw of the index fails (`ok` is false) and the
        board is left as it was. */
    method AddRandomTile(pick: nat, isFour: bool) returns (ok: bool)
      requires Valid()
      requires openSpaces != [] ==> pick < |openSpaces|
      modifies gameBoard
      ensures Valid()
      ensures ok <==> openSpaces != []
      ensures !ok ==> Cells() == old(Cells())
      ensures ok ==> Cells() == SetCell(old(Cells()), openSpaces[pick], if isFour then 4 else 2)
    {
      if |openSpaces| == 0 {
        return false;
      }
      ghost var g := Cells();
      var tileT := openSpaces[pick];
      assert tileT in openSpaces;
      var v: Int32 := if isFour then 4 else 2;
      gameBoard[tileT.row, tileT.col] := v;
      GridOfIs(gameBoard, SetCell(g, tileT, v));
      ok := true;
    }

    /** Moves the tiles of every row as far left as they go, keeping their
        order. */
    method SwipeLeft()
      requires Valid()
      modifies gameBoard
      ensures Valid()
      ensures Cells() == Swipe(old(Cells()))
    {
      ghost var want := Swipe(old(Cells()));
      var anArr := new Int32[4](_ => 0);
      var row := 0;
      while row < gameBoard.Length0
        modifies gameBoard, anArr
        invariant 0 <= row <= 4
        invariant forall k :: 0 <= k < 4 ==> anArr[k] == 0
        invariant forall r, c :: 0 <= r < row && 0 <= c < 4 ==> gameBoard[r, c] == want[r][c]
        invariant forall r, c :: row <= r < 4 && 0 <= c < 4 ==> gameBoard[r, c] == old(gameBoard[r, c])
      {
        GridOfRow(gameBoard, row, old(Cells())[row]);
        SwipeRowLeft(row, anArr);
        row := row + 1;
      }
      GridOfIs(gameBoard, want);
    }

    /** The body of the row loop of `SwipeLeft`: gathers the tiles of row
        `row` at the front of the scratch array `anArr` (all empty on entry),
        copies the scratch array back over the row and empties it again. */
    method SwipeRowLeft(row: nat, anArr: array<Int32>)
      requires Valid() && row < 4 && anArr.Length == 4
      requires forall k :: 0 <= k < 4 ==> anArr[k] == 0
      modifies gameBoard, anArr
      ensures forall k :: 0 <= k < 4 ==> anArr[k] == 0
      ensures forall c :: 0 <= c < 4 ==> gameBoard[row, c] == SwipeRow(old(Cells())[row])[c]
      ensures forall r, c :: 0 <= r < 4 && r != row && 0 <= c < 4 ==> gameBoard[r, c] == old(gameBoard[r, c])
    {
      ghost var want := SwipeRow(Cells()[row]);
      GatherTiles(row, anArr);
      var a := 0;
      while a < 4
        modifies gameBoard, anArr
        invariant 0 <= a <= 4
        invariant forall k :: 0 <= k < a ==> gameBoard[row, k] == want[k] && anArr[k] == 0
        invariant forall k :: a <= k < 4 ==> anArr[k] == want[k]
        invariant forall r, c :: 0 <= r < 4 && r != row && 0 <= c < 4 ==> gameBoard[r, c] == old(gameBoard[r, c])
      {
        gameBoard[row, a] := anArr[a];
        anArr[a] := 0;
        a := a + 1;
      }
    }

    /** The first inner loop of `SwipeLeft`: copies the tiles of row `row`,
        in order, to the front of the empty scratch array `anArr`, which
        then holds the swiped row. */
    method GatherTiles(row: nat, anArr: array<Int32>)
      requires Valid() && row < 4 && anArr.Length == 4
      requires forall k :: 0 <= k < 4 ==> anArr[k] == 0
      modifies anArr
      ensures forall k :: 0 <= k < 4 ==> anArr[k] == SwipeRow(Cells()[row])[k]
    {
      ghost var s := Cells()[row];
      var num := 0;
      var col := 0;
      while col < gameBoard.Length1
        modifies anArr
        invariant 0 <= col <= 4
        invariant num == |NonZeros(s[..col])| && anArr[..num] == NonZeros(s[..col])
        invariant forall k :: num <= k < 4 ==> anArr[k] == 0
      {
        NonZerosSnoc(s, col);
        if gameBoard[row, col] != 0 {
          anArr[num] := gameBoard[row, col];
          num := num + 1;
        }
        col := col + 1;
      }
      assert s[..4] == s;
      forall k | 0 <= k < 4 ensures anArr[k] == SwipeRow(s)[k] {
        if k < num {
          assert anArr[k] == anArr[..num][k];
        }
      }
    }

    /** One left-to-right pass over every row: a cell equal to its right
        neighbour becomes their sum and the neighbour becomes empty. */
    method MergeLeft()
      requires Valid()
      modifies gameBoard
      ensures Valid()
      ensures Cells() == Merge(old(Cells()))
    {
      ghost var want := Merge(old(Cells()));
      var row := 0;
      while row < gameBoard.Length0
        invariant 0 <= row <= 4
        invariant forall r, c :: 0 <= r < row && 0 <= c < 4 ==> gameBoard[r, c] == want[r][c]
        invariant forall r, c :: row <= r < 4 && 0 <= c < 4 ==> gameBoard[r, c] == old(gameBoard[r, c])
      {
        GridOfRow(gameBoard, row, old(Cells())[row]);
        MergeRowLeft(row);
        row := row + 1;
      }
      GridOfIs(gameBoard, want);
    }

    /** The body of the row loop of `MergeLeft`: the pass over row `row`. */
    method MergeRowLeft(row: nat)
      requires Valid() && row < 4
      modifies gameBoard
      ensures forall c :: 0 <= c < 4 ==> gameBoard[row, c] == MergeRow(old(Cells())[row])[c]
      ensures forall r, c :: 0 <= r < 4 && r != row && 0 <= c < 4 ==> gameBoard[r, c] == old(gameBoard[r, c])
    {
      ghost var cur: seq<Int32> := Cells()[row];
      ghost var want := MergeRow(cur);
      var col := 0;
      while col < gameBoard.Length1 - 1
        invariant 0 <= col <= 3
        invariant |cur| == 4 && MergeFrom(cur, col) == want
        invariant forall c :: 0 <= c < 4 ==> gameBoard[row, c] == cur[c]
        invariant forall r, c :: 0 <= r < 4 && r != row && 0 <= c < 4 ==> gameBoard[r, c] == old(gameBoard[r, c])
      {
        var oldValue := gameBoard[row, col];
        var newValue := gameBoard[row, col + 1];
        if oldValue == newValue {
          gameBoard[row, col] := Add(oldValue, newValue);
          gameBoard[row, col + 1] := 0;
        }
        cur := MergeAt(cur, col);
        col := col + 1;
      }
    }

    /** A quarter turn clockwise: transpose, then flip the rows. */
    method RotateBoard()
      requires Valid()
      modifies gameBoard
      ensures Valid()
      ensures Cells() == Rotate(old(Cells()))
    {
      Transpose();
      FlipRows();
    }

    /** Mirrors the board along its main diagonal, through a scratch array. */
    method Transpose()
      requires Valid()
      modifies gameBoard
      ensures Valid()
      ensures Cells() == Grids.Transpose(old(Cells()))
    {
      var anotherArr := new Int32[4, 4]((r, c) => 0);
      var row := 0;
      while row < gameBoard.Length0
        modifies anotherArr
        invariant 0 <= row <= 4
        invariant forall r, c :: 0 <= r < row && 0 <= c < 4 ==> anotherArr[r, c] == old(gameBoard[c, r])
      {
        var col := 0;
        while col < gameBoard.Length1
          modifies anotherArr
          invariant 0 <= col <= 4
          invariant forall r, c :: 0 <= r < row && 0 <= c < 4 ==> anotherArr[r, c] == old(gameBoard[c, r])
          invariant forall c :: 0 <= c < col ==> anotherArr[row, c] == old(gameBoard[c, row])
        {
          anotherArr[row, col] := gameBoard[col, row];
          col := col + 1;
        }
        row := row + 1;
      }
      row := 0;
      while row < gameBoard.Length0
        modifies gameBoard
        invariant 0 <= row <= 4
        invariant forall r, c :: 0 <= r < row && 0 <= c < 4 ==> gameBoard[r, c] == anotherArr[r, c]
      {
        var col := 0;
        while col < gameBoard.Length1
          modifies gameBoard
          invariant 0 <= col <= 4
          invariant forall r, c :: 0 <= r < row && 0 <= c < 4 ==> gameBoard[r, c] == anotherArr[r, c]
          invariant forall c :: 0 <= c < col ==> gameBoard[row, c] == anotherArr[row, c]
        {
          gameBoard[row, col] := anotherArr[row, col];
          col := col + 1;
        }
        row := row + 1;
      }
      GridOfIs(gameBoard, Grids.Transpose(old(Cells())));
    }

    /** Reverses every row in place by swapping from both ends inwards. */
    method FlipRows()
      requires Valid()
      modifies gameBoard
      ensures Valid()
      ensures Cells() == Flip(old(Cells()))
    {
      var row := 0;
      while row < gameBoard.Length0
        invariant 0 <= row <= 4
        invariant forall r, c :: 0 <= r < row && 0 <= c < 4 ==> gameBoard[r, c] == old(gameBoard[r, 3 - c])
        invariant forall r, c :: row <= r < 4 && 0 <= c < 4 ==> gameBoard[r, c] == old(gameBoard[r, c])
      {
        var begIndex := 0;
        var endIndex := 3;
        while endIndex > begIndex
          invariant 0 <= begIndex <= 2 && endIndex == 3 - begIndex
          invariant forall c :: 0 <= c < begIndex ==> gameBoard[row, c] == old(gameBoard[row, 3 - c])
          invariant forall c :: endIndex < c < 4 ==> gameBoard[row, c] == old(gameBoard[row, 3 - c])
          invariant forall c :: begIndex <= c <= endIndex ==> gameBoard[row, c] == old(gameBoard[row, c])
          invariant forall r, c :: 0 <= r < row && 0 <= c < 4 ==> gameBoard[r, c] == old(gameBoard[r, 3 - c])
          invariant forall r, c :: row < r < 4 && 0 <= c < 4 ==> gameBoard[r, c] == old(gameBoard[r, c])
        {
          var value := gameBoard[row, begIndex];
          gameBoard[row, begIndex] := gameBoard[row, endIndex];
          gameBoard[row, endIndex] := value;
          begIndex := begIndex + 1;
          endIndex := endIndex - 1;
        }
        row := row + 1;
      }
      GridOfIs(gameBoard, Flip(old(Cells())));
    }

    /** One move in the direction `letter` ('U', 'D', 'L' or 'R'): rotate
        the board so that the direction points left, swipe, merge, swipe,
        and rotate back. Any other letter leaves the board alone. */
    method MakeMove(letter: char)
      requires Valid()
      modifies gameBoard
      ensures Valid()
      ensures Cells() == Move(old(Cells()), letter)
      ensures Wrap(GridSum(Cells())) == Wrap(GridSum(old(Cells())))
    {
      MoveKeepsScore(Cells(), letter);
      if letter == 'U' {
        RotateBoard();
        RotateBoard();
        RotateBoard();
        SwipeLeft();
        MergeLeft();
        SwipeLeft();
        RotateBoard();
      }
      if letter == 'D' {
        RotateBoard();
        SwipeLeft();
        MergeLeft();
        SwipeLeft();
        RotateBoard();
        RotateBoard();
        RotateBoard();
      }
      if letter == 'L' {
        SwipeLeft();
        MergeLeft();
        SwipeLeft();
      }
      if letter == 'R' {
        RotateBoard();
        RotateBoard();
        SwipeLeft();
        MergeLeft();
        SwipeLeft();
        RotateBoard();
        RotateBoard();
      }
    }

    /** The game is lost when no open spot is recorded; right after
        `UpdateOpenSpaces` that is exactly when every cell holds a tile. */
    function IsGameLost(): (lost: bool)
      reads this, gameBoard
      requires Valid()
      ensures lost <==> openSpaces == []
      ensures openSpaces == OpenCells(Cells()) ==>
        (lost <==> forall r, c :: 0 <= r < 4 && 0 <= c < 4 ==> gameBoard[r, c] != 0)
    {
      OpenCellsEmptyIffFull(Cells());
      |openSpaces| == 0
    }

    /** The score: the sum of all cells, added up with Java's `int` addition
        row by row. */
    method ShowScore() returns (score: Int32)
      requires Valid()
      ensures score == Wrap(GridSum(Cells()))
    {
      ghost var g := Cells();
      score := 0;
      var r := 0;
      while r < gameBoard.Length0
        invariant 0 <= r <= 4
        invariant score == Wrap(SumRows(g, r))
      {
        var c := 0;
        while c < gameBoard.Length1
          invariant 0 <= c <= 4
          invariant score == Wrap(SumRows(g, r) + RowSum(g[r][..c]))
        {
          AddAccumulates(SumRows(g, r) + RowSum(g[r][..c]), gameBoard[r, c]);
          RowSumSnoc(g[r], c);
          score := Add(score, gameBoard[r, c]);
          c := c + 1;
        }
        assert g[r][..4] == g[r];
        r := r + 1;
      }
    }
  }
}
