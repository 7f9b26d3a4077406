/**
 * The board of the Game of Fifteen: a 9×9 backing array of which only the
 * top-left d×d region is in play. Every other cell holds the sentinel -1.
 * This module holds the board's shape, its invariant and the row-major
 * arithmetic the other modules share.
 */
module Board {
  /** Smallest and largest supported dimension. */
  const DimMin: int := 3
  const DimMax: int := 9
  /** Value of every backing cell that is not part of the d×d board. */
  const Inactive: int := -1
  /** Value of the blank cell. */
  const Blank: int := 0

  datatype Option<T> = None | Some(value: T)

  datatype Pos = Pos(row: int, col: int)

  predicate IsGrid(g: seq<seq<int>>) {
    |g| == DimMax && forall r :: 0 <= r < DimMax ==> |g[r]| == DimMax
  }

  /** The whole 9×9 backing array, as rows. */
  type Grid = g: seq<seq<int>> | IsGrid(g) witness seq(DimMax, r => seq(DimMax, c => Inactive))

  predicate ValidDim(d: int) {
    DimMin <= d <= DimMax
  }

  /** A cell of the backing array. */
  predicate InBacking(p: Pos) {
    0 <= p.row < DimMax && 0 <= p.col < DimMax
  }

  /** A cell of the d×d region in play. */
  predicate Active(d: int, p: Pos) {
    0 <= p.row < d && 0 <= p.col < d
  }

  function At(g: Grid, p: Pos): int
    requires InBacking(p)
  {
    g[p.row][p.col]
  }

  /** The grid with one cell overwritten. */
  function Set(g: Grid, p: Pos, v: int): (h: Grid)
    requires InBacking(p)
    ensures forall q :: InBacking(q) ==> At(h, q) == if q == p then v else At(g, q)
  {
    g[p.row := g[p.row][p.col := v]]
  }

  /** The grid with the contents of two cells exchanged. */
  function Swap(g: Grid, p: Pos, q: Pos): (h: Grid)
    requires InBacking(p) && InBacking(q)
    ensures forall x :: InBacking(x) ==>
      At(h, x) == if x == q then At(g, p) else if x == p then At(g, q) else At(g, x)
  {
    Set(Set(g, p, At(g, q)), q, At(g, p))
  }

  /** Orthogonal neighbours: one step left, right, up or down. */
  predicate Adjacent(p: Pos, q: Pos) {
    (p.row == q.row && (p.col - q.col == 1 || q.col - p.col == 1)) ||
    (p.col == q.col && (p.row - q.row == 1 || q.row - p.row == 1))
  }

  /** Row-major index of a cell of a d×d board. */
  function Index(d: int, p: Pos): int {
    p.row * d + p.col
  }

  // ---------------------------------------------------------------------
  // The board invariant

  /** Every backing cell outside the d×d region holds the sentinel. */
  ghost predicate Sentinel(g: Grid, d: int)
    requires ValidDim(d)
  {
    forall p :: InBacking(p) && !Active(d, p) ==> At(g, p) == Inactive
  }

  /** Every cell in play holds one of 0 .. d²-1. */
  ghost predicate InRange(g: Grid, d: int)
    requires ValidDim(d)
  {
    forall p :: Active(d, p) ==> 0 <= At(g, p) < d * d
  }

  /** No value is held by two cells in play. */
  ghost predicate Distinct(g: Grid, d: int)
    requires ValidDim(d)
  {
    forall p, q :: Active(d, p) && Active(d, q) && At(g, p) == At(g, q) ==> p == q
  }

  ghost predicate Occurs(g: Grid, d: int, v: int)
    requires ValidDim(d)
  {
    exists p :: Active(d, p) && At(g, p) == v
  }

  /** Every one of 0 .. d²-1 is held by some cell in play. */
  ghost predicate Covers(g: Grid, d: int)
    requires ValidDim(d)
  {
    forall v :: 0 <= v < d * d ==> Occurs(g, d, v)
  }

  /**
   * The invariant of a game in progress: the dimension is supported, cells
   * outside the region hold the sentinel, and the region holds each of
   * 0 .. d²-1 exactly once (so exactly one blank).
   */
  ghost predicate Wellformed(g: Grid, d: int) {
    ValidDim(d) && Sentinel(g, d) && InRange(g, d) && Distinct(g, d) && Covers(g, d)
  }

  /** Exchanging two cells in play keeps the invariant. */
  lemma SwapWellformed(g: Grid, d: int, p: Pos, q: Pos)
    requires Wellformed(g, d) && Active(d, p) && Active(d, q)
    ensures Wellformed(Swap(g, p, q), d)
  {
    var h := Swap(g, p, q);
    forall x, y | Active(d, x) && Active(d, y) && At(h, x) == At(h, y)
      ensures x == y
    {
      var x' := if x == q then p else if x == p then q else x;
      var y' := if y == q then p else if y == p then q else y;
      assert At(g, x') == At(g, y');
    }
    forall v | 0 <= v < d * d
      ensures Occurs(h, d, v)
    {
      assert Occurs(g, d, v);
      var x :| Active(d, x) && At(g, x) == v;
      var x' := if x == q then p else if x == p then q else x;
      assert At(h, x') == v;
    }
  }

  /** Under the invariant, a cell holding the blank is the only one. */
  lemma OnlyBlank(g: Grid, d: int, x: Pos)
    requires Wellformed(g, d) && Active(d, x) && At(g, x) == Blank
    ensures forall p :: Active(d, p) ==> (At(g, p) == Blank <==> p == x)
  {
  }

  /** Two grids that agree on every cell are equal. */
  lemma GridExt(g: Grid, h: Grid)
    requires forall p :: InBacking(p) ==> At(g, p) == At(h, p)
    ensures g == h
  {
    forall r | 0 <= r < DimMax
      ensures g[r] == h[r]
    {
      forall c | 0 <= c < DimMax
        ensures g[r][c] == h[r][c]
      {
        assert At(g, Pos(r, c)) == At(h, Pos(r, c));
      }
    }
  }

  // ---------------------------------------------------------------------
  // Row-major arithmetic

  lemma MulMono(a: int, b: int, k: int)
    requires a <= b && 0 <= k
    ensures a * k <= b * k
  {
    assert (b - a) * k >= 0;
  }

  lemma IndexBounds(d: int, p: Pos)
    requires Active(d, p)
    ensures 0 <= Index(d, p) <= d * d - 1
  {
    MulMono(p.row, d - 1, d);
    MulMono(0, p.row, d);
  }

  lemma MulSucc(a: int, k: int)
    ensures (a + 1) * k == a * k + k
  {
  }

  /** Distinct cells of a d×d board have distinct row-major indices. */
  lemma IndexUnique(d: int, p: Pos, q: Pos)
    requires Active(d, p) && Active(d, q) && Index(d, p) == Index(d, q)
    ensures p == q
  {
    if p.row != q.row {
      var lo, hi := if p.row < q.row then p else q, if p.row < q.row then q else p;
      MulMono(lo.row + 1, hi.row, d);
      MulSucc(lo.row, d);
    }
  }

  /** The last cell of the region has the last row-major index. */
  lemma CornerIndex(d: int)
    ensures Index(d, Pos(d - 1, d - 1)) == d * d - 1
  {
    MulSucc(d - 1, d);
  }

  /** The cell with row-major index k on a d×d board. */
  function Cell(d: int, k: int): (p: Pos)
    requires 0 < d && 0 <= k < d * d
    ensures Active(d, p) && Index(d, p) == k
  {
    assert k / d < d by {
      if k / d >= d {
        MulMono(d, k / d, d);
      }
    }
    Pos(k / d, k % d)
  }
}
