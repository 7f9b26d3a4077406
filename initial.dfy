/**
 * The starting layout that init() writes: sentinel everywhere, the d×d
 * region filled in row-major order with d²-1 down to 0, and for even d the
 * cells holding 1 and 2 exchanged.
 */
module Initial {
  import opened Board

  /** The layout after init()'s two filling loops and before the even-d fix-up. */
  function Descending(d: int): (g: Grid)
    requires ValidDim(d)
    ensures forall p :: InBacking(p) ==>
      At(g, p) == if Active(d, p) then d * d - 1 - Index(d, p) else Inactive
  {
    seq(DimMax, r => seq(DimMax, c => if r < d && c < d then d * d - 1 - Index(d, Pos(r, c)) else Inactive))
  }

  /** The board init() leaves: for even d it then writes 2 at (d-1, d-2) and 1 at (d-1, d-3). */
  function InitGrid(d: int): Grid
    requires ValidDim(d)
  {
    if d % 2 == 0 then Set(Set(Descending(d), Pos(d - 1, d - 2), 2), Pos(d - 1, d - 3), 1)
    else Descending(d)
  }

  /**
   * Cell by cell: the sentinel outside the region; inside it the value d²-1-k
   * at row-major index k, except that for even d the cell (d-1, d-3) holds 1
   * and (d-1, d-2) holds 2.
   */
  lemma InitCells(d: int, p: Pos)
    requires ValidDim(d) && InBacking(p)
    ensures !Active(d, p) ==> At(InitGrid(d), p) == Inactive
    ensures Active(d, p) && d % 2 == 1 ==> At(InitGrid(d), p) == d * d - 1 - Index(d, p)
    ensures Active(d, p) && d % 2 == 0 ==>
      At(InitGrid(d), p) ==
        if p == Pos(d - 1, d - 3) then 1
        else if p == Pos(d - 1, d - 2) then 2
        else d * d - 1 - Index(d, p)
  {
  }

  /** The descending fill ends its last row with 2, 1, 0. */
  lemma DescendingLastRow(d: int)
    requires ValidDim(d)
    ensures At(Descending(d), Pos(d - 1, d - 3)) == 2
    ensures At(Descending(d), Pos(d - 1, d - 2)) == 1
    ensures At(Descending(d), Pos(d - 1, d - 1)) == Blank
  {
    CornerIndex(d);
  }

  /** The last row ends 2, 1, 0 for odd d and 1, 2, 0 for even d. */
  lemma InitLastRow(d: int)
    requires ValidDim(d)
    ensures At(InitGrid(d), Pos(d - 1, d - 1)) == Blank
    ensures d % 2 == 1 ==> At(InitGrid(d), Pos(d - 1, d - 3)) == 2 && At(InitGrid(d), Pos(d - 1, d - 2)) == 1
    ensures d % 2 == 0 ==> At(InitGrid(d), Pos(d - 1, d - 3)) == 1 && At(InitGrid(d), Pos(d - 1, d - 2)) == 2
  {
    DescendingLastRow(d);
  }

  /** For even d, init()'s two extra writes exchange the cells holding 1 and 2 in the descending fill. */
  lemma InitIsTransposition(d: int)
    requires ValidDim(d) && d % 2 == 0
    ensures InitGrid(d) == Swap(Descending(d), Pos(d - 1, d - 3), Pos(d - 1, d - 2))
  {
    DescendingLastRow(d);
    GridExt(InitGrid(d), Swap(Descending(d), Pos(d - 1, d - 3), Pos(d - 1, d - 2)));
  }

  /** The descending fill holds each of 0 .. d²-1 exactly once. */
  lemma DescendingWellformed(d: int)
    requires ValidDim(d)
    ensures Wellformed(Descending(d), d)
  {
    var g := Descending(d);
    forall p | Active(d, p)
      ensures 0 <= At(g, p) < d * d
    {
      IndexBounds(d, p);
    }
    forall p, q | Active(d, p) && Active(d, q) && At(g, p) == At(g, q)
      ensures p == q
    {
      IndexUnique(d, p, q);
    }
    DescendingCovers(d);
  }

  lemma DescendingCovers(d: int)
    requires ValidDim(d)
    ensures Covers(Descending(d), d)
  {
    forall v | 0 <= v < d * d
      ensures Occurs(Descending(d), d, v)
    {
      var p := Cell(d, d * d - 1 - v);
      assert At(Descending(d), p) == v;
    }
  }

  /**
   * init() establishes the invariant: the region holds each of 0 .. d²-1
   * exactly once, its only blank at (d-1, d-1), the sentinel elsewhere.
   */
  lemma InitWellformed(d: int)
    requires ValidDim(d)
    ensures Wellformed(InitGrid(d), d)
    ensures forall p :: Active(d, p) ==> (At(InitGrid(d), p) == Blank <==> p == Pos(d - 1, d - 1))
  {
    DescendingWellformed(d);
    if d % 2 == 0 {
      InitIsTransposition(d);
      SwapWellformed(Descending(d), d, Pos(d - 1, d - 3), Pos(d - 1, d - 2));
    }
    InitLastRow(d);
    OnlyBlank(InitGrid(d), d, Pos(d - 1, d - 1));
  }
}
