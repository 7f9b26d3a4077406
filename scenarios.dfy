/**
 * Sequences of engine calls as the game loop in main() makes them: init(),
 * then move() once per tile the player names.
 */
module Scenarios {
  import opened Board
  import opened Initial
  import opened Moves
  import opened Winning

  /** Every board the game loop shows satisfies the invariant, whatever tiles the player names. */
  lemma GameKeepsInvariant(d: int, tiles: seq<int>)
    requires ValidDim(d)
    ensures Wellformed(Play(InitGrid(d), d, tiles), d)
  {
    InitWellformed(d);
    PlayKeepsWellformed(InitGrid(d), d, tiles);
  }

  /**
   * On a fresh 3×3 board (rows 8 7 6 / 5 4 3 / 2 1 0) naming 1 slides it
   * right: the last row becomes 2, 0, 1 and the board is still not won.
   */
  lemma ThreeByThreeOpening()
    ensures Move(InitGrid(3), 3, 1).moved
    ensures var g := Move(InitGrid(3), 3, 1).grid;
      At(g, Pos(2, 0)) == 2 && At(g, Pos(2, 1)) == Blank && At(g, Pos(2, 2)) == 1 && !Solved(g, 3)
  {
    InitWellformed(3);
    InitCells(3, Pos(2, 0));
    InitCells(3, Pos(2, 1));
    InitCells(3, Pos(2, 2));
    SlideOneRight(InitGrid(3));
  }

  lemma SlideOneRight(g: Grid)
    requires Wellformed(g, 3) && At(g, Pos(2, 0)) == 2 && At(g, Pos(2, 1)) == 1 && At(g, Pos(2, 2)) == Blank
    ensures Move(g, 3, 1).moved
    ensures var h := Move(g, 3, 1).grid;
      At(h, Pos(2, 0)) == 2 && At(h, Pos(2, 1)) == Blank && At(h, Pos(2, 2)) == 1 && !Solved(h, 3)
  {
    MoveSlides(g, 3, 1, Pos(2, 1), Pos(2, 2));
    var h := Move(g, 3, 1).grid;
    assert At(h, Pos(2, 2)) != Goal(3, Pos(2, 2));
  }
}
