/**
 * move()'s neighbour tests as the C code evaluates them: the neighbour is
 * read first and its bound tested second. The read goes through the flat
 * row-major layout of the 9×9 int array, so board[r][-1] designates
 * board[r-1][8], and near the array's edges the read falls outside the array
 * altogether (undefined behaviour, modelled as None).
 */
module AsWritten {
  import opened Board
  import opened Moves
  import opened Initial

  /** Position, in ints from the array's first element, that board[r][c] designates. */
  function Offset(p: Pos): int {
    p.row * DimMax + p.col
  }

  /** The int at an offset: a backing cell when the offset lies inside the array, None otherwise. */
  function Load(g: Grid, off: int): Option<int> {
    if 0 <= off < DimMax * DimMax then Some(At(g, Pos(off / DimMax, off % DimMax))) else None
  }

  /** One neighbour test as written: read, then compare with the blank, then test the bound. */
  function ReadFirstTest(g: Grid, p: Pos, dir: Dir): Option<bool> {
    match Load(g, Offset(Toward(p, dir)))
    case None => None
    case Some(v) => Some(v == Blank && WithinBound(p, dir))
  }

  /**
   * Wherever its read stays inside the array, the test as written decides as
   * the bound-first test does, also where the read lands on a cell of the
   * neighbouring row (the bound then fails either way).
   */
  lemma ReadFirstAgrees(g: Grid, p: Pos, dir: Dir)
    requires InBacking(p) && ReadFirstTest(g, p, dir).Some?
    ensures ReadFirstTest(g, p, dir) == Some(BlankToward(g, p, dir))
  {
    if WithinBound(p, dir) {
      var t := Toward(p, dir);
      assert Offset(t) / DimMax == t.row && Offset(t) % DimMax == t.col;
    }
  }

  /** The read leaves the array exactly in these four situations. */
  lemma ReadFirstUndefined(g: Grid, p: Pos, dir: Dir)
    requires InBacking(p)
    ensures ReadFirstTest(g, p, dir).None? <==>
      (dir == Left && p == Pos(0, 0)) ||
      (dir == Right && p == Pos(LastIndex, LastIndex)) ||
      (dir == Down && p.row == LastIndex) ||
      (dir == Up && p.row == 0)
  {
  }

  /**
   * In each of the four situations where the read leaves the array, the
   * bound test that follows it fails, so the test as written would reject
   * the neighbour whatever value the read returned.
   */
  lemma UndefinedReadFailsBound(p: Pos, dir: Dir, v: int)
    requires InBacking(p)
    requires (dir == Left && p == Pos(0, 0)) ||
      (dir == Right && p == Pos(LastIndex, LastIndex)) ||
      (dir == Down && p.row == LastIndex) ||
      (dir == Up && p.row == 0)
    ensures !(v == Blank && WithinBound(p, dir))
  {
  }

  /** The left read of a cell in column 0 lands on the last cell of the row above. */
  lemma LeftReadWraps(g: Grid, r: int)
    requires 0 < r < DimMax
    ensures Load(g, Offset(Toward(Pos(r, 0), Left))) == Some(At(g, Pos(r - 1, LastIndex)))
  {
    assert Offset(Toward(Pos(r, 0), Left)) == (r - 1) * DimMax + LastIndex;
  }

  /**
   * On a fresh 3×3 board the first cell scanned holds 8, so move(8) runs the
   * left test at (0, 0), whose read lies before the array.
   */
  lemma FreshBoardCornerRead()
    ensures At(InitGrid(3), Pos(0, 0)) == 8
    ensures ReadFirstTest(InitGrid(3), Pos(0, 0), Left) == None
  {
    InitCells(3, Pos(0, 0));
    CornerLeftReadOutside(InitGrid(3));
  }

  lemma CornerLeftReadOutside(g: Grid)
    ensures ReadFirstTest(g, Pos(0, 0), Left) == None
  {
    assert Offset(Toward(Pos(0, 0), Left)) == -1;
  }
}
