/**
 * The winning configuration that won() looks for: the region, read in
 * row-major order, is 1, 2, ..., d²-1 followed by the blank.
 */
module Winning {
  import opened Board
  import opened Initial

  /** The value the cell p holds in the solved configuration. */
  function Goal(d: int, p: Pos): int {
    if p == Pos(d - 1, d - 1) then Blank else Index(d, p) + 1
  }

  ghost predicate Solved(g: Grid, d: int)
    requires ValidDim(d)
  {
    forall p :: Active(d, p) ==> At(g, p) == Goal(d, p)
  }

  /** Different cells of the region have different goal values. */
  lemma GoalUnique(d: int, p: Pos, q: Pos)
    requires ValidDim(d) && Active(d, p) && Active(d, q) && Goal(d, p) == Goal(d, q)
    ensures p == q
  {
    IndexBounds(d, p);
    IndexBounds(d, q);
    if p != Pos(d - 1, d - 1) && q != Pos(d - 1, d - 1) {
      IndexUnique(d, p, q);
    }
  }

  /**
   * Solved, restated over row-major indices: every index k < d²-1 holds k+1
   * and the last cell holds the blank.
   */
  lemma {:induction false} SolvedInRowMajor(g: Grid, d: int)
    requires ValidDim(d)
    ensures Solved(g, d) <==>
      (forall k :: 0 <= k < d * d - 1 ==> At(g, Cell(d, k)) == k + 1) &&
      At(g, Pos(d - 1, d - 1)) == Blank
  {
    var corner := Pos(d - 1, d - 1);
    CornerIndex(d);
    if Solved(g, d) {
      forall k | 0 <= k < d * d - 1
        ensures At(g, Cell(d, k)) == k + 1
      {
        var p := Cell(d, k);
        assert p != corner;
      }
    }
    if (forall k :: 0 <= k < d * d - 1 ==> At(g, Cell(d, k)) == k + 1) && At(g, corner) == Blank {
      forall p | Active(d, p)
        ensures At(g, p) == Goal(d, p)
      {
        if p != corner {
          IndexBounds(d, p);
          var k := Index(d, p);
          if k == d * d - 1 {
            IndexUnique(d, p, corner);
          }
          IndexUnique(d, p, Cell(d, k));
        }
      }
    }
  }

  /** The solved configuration, with the sentinel outside, satisfies the game invariant. */
  lemma SolvedWellformed(g: Grid, d: int)
    requires ValidDim(d) && Sentinel(g, d) && Solved(g, d)
    ensures Wellformed(g, d)
  {
    SolvedInRange(g, d);
    forall p, q | Active(d, p) && Active(d, q) && At(g, p) == At(g, q)
      ensures p == q
    {
      GoalUnique(d, p, q);
    }
    SolvedCovers(g, d);
  }

  lemma SolvedInRange(g: Grid, d: int)
    requires ValidDim(d) && Solved(g, d)
    ensures InRange(g, d)
  {
    forall p | Active(d, p)
      ensures 0 <= At(g, p) < d * d
    {
      IndexBounds(d, p);
    }
  }

  lemma SolvedCovers(g: Grid, d: int)
    requires ValidDim(d) && Solved(g, d)
    ensures Covers(g, d)
  {
    CornerIndex(d);
    forall v | 0 <= v < d * d
      ensures Occurs(g, d, v)
    {
      var p := if v == 0 then Pos(d - 1, d - 1) else Cell(d, v - 1);
      assert At(g, p) == v;
    }
  }

  /** Exchanging any two distinct cells of a solved board unsolves it. */
  lemma SwapUnsolves(g: Grid, d: int, p: Pos, q: Pos)
    requires ValidDim(d) && Solved(g, d) && Active(d, p) && Active(d, q) && p != q
    ensures !Solved(Swap(g, p, q), d)
  {
    if Goal(d, p) == Goal(d, q) {
      GoalUnique(d, p, q);
    }
    assert At(Swap(g, p, q), p) != Goal(d, p);
  }

  /** A fresh board is never already won: (0,0) holds d²-1, not 1. */
  lemma InitNotSolved(d: int)
    requires ValidDim(d)
    ensures !Solved(InitGrid(d), d)
  {
    InitCells(d, Pos(0, 0));
    MulMono(3, d, d);
    assert At(InitGrid(d), Pos(0, 0)) != Goal(d, Pos(0, 0));
  }
}
