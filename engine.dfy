/**
 * The puzzle engine as the program runs it: a 9×9 int array and a dimension
 * fixed for the game, updated in place by init() and move() and read by
 * won(). Each method is proved against the functions of Initial, Moves and
 * Winning.
 */
module Engine {
  import opened Board
  import opened Initial
  import opened Winning
  import Moves

  class Game {
    /** The dimension of the game, checked by the caller to lie in [DimMin, DimMax]. */
    const d: int
    /** The backing array, sized for the largest dimension. */
    const board: array2<int>

    ghost predicate Valid() {
      ValidDim(d) && board.Length0 == DimMax && board.Length1 == DimMax
    }

    /** The array's contents as a grid. */
    ghost function Cells(): (g: Grid)
      reads board
      requires Valid()
      ensures forall p :: InBacking(p) ==> At(g, p) == board[p.row, p.col]
    {
      seq(DimMax, r requires 0 <= r < DimMax reads board =>
        seq(DimMax, c requires 0 <= c < DimMax reads board => board[r, c]))
    }

    constructor (dim: int)
      requires ValidDim(dim)
      ensures Valid() && d == dim && fresh(board)
    {
      d := dim;
      board := new int[DimMax, DimMax];
    }

    /** init(): lays out the starting board, which satisfies the invariant and is not yet won. */
    method Init()
      requires Valid()
      modifies board
      ensures Cells() == InitGrid(d)
      ensures Wellformed(Cells(), d) && !Solved(Cells(), d)
    {
      // every backing cell starts as the sentinel
      for row := 0 to DimMax
        invariant forall r, c :: 0 <= r < row && 0 <= c < DimMax ==> board[r, c] == Inactive
      {
        for column := 0 to DimMax
          invariant forall r, c :: 0 <= r < row && 0 <= c < DimMax ==> board[r, c] == Inactive
          invariant forall c :: 0 <= c < column ==> board[row, c] == Inactive
        {
          board[row, column] := Inactive;
        }
      }
      // the region, row-major, gets d*d-1 down to 0
      var maxVal := d * d - 1;
      for row := 0 to d
        invariant maxVal == d * d - 1 - row * d
        invariant forall r, c :: 0 <= r < DimMax && 0 <= c < DimMax ==>
          board[r, c] == if r < row && c < d then d * d - 1 - Index(d, Pos(r, c)) else Inactive
      {
        for column := 0 to d
          invariant maxVal == d * d - 1 - (row * d + column)
          invariant forall r, c :: 0 <= r < DimMax && 0 <= c < DimMax ==>
            board[r, c] ==
              if (r < row && c < d) || (r == row && c < column) then d * d - 1 - Index(d, Pos(r, c))
              else Inactive
        {
          board[row, column] := maxVal;
          maxVal := maxVal - 1;
        }
      }
      GridExt(Cells(), Descending(d));
      if d % 2 == 0 {
        Put(Pos(d - 1, d - 2), 2);
        Put(Pos(d - 1, d - 3), 1);
      }
      InitWellformed(d);
      InitNotSolved(d);
    }

    /** Writes one cell of the backing array. */
    method Put(p: Pos, v: int)
      requires Valid() && InBacking(p)
      modifies board
      ensures Cells() == Set(old(Cells()), p, v)
    {
      ghost var g := Cells();
      board[p.row, p.col] := v;
      GridExt(Cells(), Set(g, p, v));
    }

    /**
     * The body of move()'s scan at one cell: if the cell holds the tile, test
     * its left, right, lower and upper neighbours in that order and slide the
     * tile into the first that holds the blank.
     */
    method SlideAt(here: Pos, tile: int) returns (moved: bool)
      requires Valid() && Active(d, here)
      modifies board
      ensures moved == (At(old(Cells()), here) == tile && Moves.Neighbour(old(Cells()), here).Some?)
      ensures Cells() ==
        if moved then Set(Set(old(Cells()), here, Blank), Moves.Neighbour(old(Cells()), here).value, tile)
        else old(Cells())
    {
      ghost var g := Cells();
      var row, column := here.row, here.col;
      if tile == board[row, column] {
        assert Moves.BlankToward(g, here, Moves.Left) == (column - 1 >= 0 && board[row, column - 1] == Blank);
        assert Moves.BlankToward(g, here, Moves.Right) ==
          (column + 1 <= Moves.LastIndex && board[row, column + 1] == Blank);
        assert Moves.BlankToward(g, here, Moves.Down) ==
          (row + 1 <= Moves.LastIndex && board[row + 1, column] == Blank);
        assert Moves.BlankToward(g, here, Moves.Up) == (row - 1 >= 0 && board[row - 1, column] == Blank);
        if column - 1 >= 0 && board[row, column - 1] == Blank {
          Put(here, Blank);
          Put(Pos(row, column - 1), tile);
          return true;
        }
        if column + 1 <= Moves.LastIndex && board[row, column + 1] == Blank {
          Put(here, Blank);
          Put(Pos(row, column + 1), tile);
          return true;
        }
        if row + 1 <= Moves.LastIndex && board[row + 1, column] == Blank {
          Put(here, Blank);
          Put(Pos(row + 1, column), tile);
          return true;
        }
        if row - 1 >= 0 && board[row - 1, column] == Blank {
          Put(here, Blank);
          Put(Pos(row - 1, column), tile);
          return true;
        }
      }
      return false;
    }

    /**
     * move(tile): the outcome and board Moves.Move describes (whose behaviour
     * under the invariant Moves.MoveKeepsWellformed, Moves.MoveSlides and
     * Moves.MoveRefuses state).
     */
    method Move(tile: int) returns (moved: bool)
      requires Valid()
      modifies board
      ensures Moves.Outcome(moved, Cells()) == Moves.Move(old(Cells()), d, tile)
    {
      ghost var g := Cells();
      var row := 0;
      while row < d
        invariant 0 <= row <= d
        invariant Cells() == g
        invariant Moves.Scan(g, d, tile, 0, 0) == Moves.Scan(g, d, tile, row, 0)
      {
        var column := 0;
        while column < d
          invariant 0 <= column <= d
          invariant Cells() == g
          invariant Moves.Scan(g, d, tile, 0, 0) == Moves.Scan(g, d, tile, row, column)
        {
          moved := SlideAt(Pos(row, column), tile);
          if moved {
            return;
          }
          column := column + 1;
        }
        row := row + 1;
      }
      return false;
    }

    /**
     * move(tile) in a game in progress: it succeeds exactly when the tile can
     * slide into the blank, and the board keeps the invariant.
     */
    method MoveKeepingInvariant(tile: int) returns (moved: bool)
      requires Valid() && Wellformed(Cells(), d)
      modifies board
      ensures moved <==> Moves.CanSlide(old(Cells()), d, tile)
      ensures Wellformed(Cells(), d)
      ensures Moves.Outcome(moved, Cells()) == Moves.Move(old(Cells()), d, tile)
    {
      Moves.MoveKeepsWellformed(Cells(), d, tile);
      moved := Move(tile);
    }

    /** won(): whether the region reads 1, 2, ..., d²-1 and then the blank. */
    method Won() returns (won: bool)
      requires Valid()
      ensures won == Solved(Cells(), d)
    {
      var corner := Pos(d - 1, d - 1);
      var num := 0;
      for i := 0 to d
        invariant num == i * d
        invariant forall r, c :: 0 <= r < i && 0 <= c < d && Pos(r, c) != corner ==>
          board[r, c] == Goal(d, Pos(r, c))
        invariant i == d ==> board[d - 1, d - 1] != Blank
      {
        for j := 0 to d
          invariant num == i * d + j
          invariant forall r, c :: 0 <= r < i && 0 <= c < d && Pos(r, c) != corner ==>
            board[r, c] == Goal(d, Pos(r, c))
          invariant forall c :: 0 <= c < j && Pos(i, c) != corner ==> board[i, c] == Goal(d, Pos(i, c))
          invariant i == d - 1 && j == d ==> board[d - 1, d - 1] != Blank
        {
          num := num + 1;
          if i == d - 1 && j == d - 1 {
            if board[i, j] == Blank {
              return true;
            }
          } else {
            if board[i, j] != num {
              assert At(Cells(), Pos(i, j)) != Goal(d, Pos(i, j));
              return false;
            }
          }
        }
      }
      assert At(Cells(), corner) != Goal(d, corner);
      return false;
    }
  }
}
