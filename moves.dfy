/**
 * move(tile): scan the region in row-major order for the tile; at a cell
 * holding it, test the left, right, lower and upper neighbours for the blank
 * and, at the first hit, write the blank where the tile was and the tile
 * where the blank was. The right and lower tests bound the neighbour by the
 * backing array's last index, not by d - 1; here every test checks its bound
 * before it reads.
 */
module Moves {
  import opened Board

  /** The four neighbours move() tests, in the order it tests them. */
  datatype Dir = Left | Right | Down | Up

  function Toward(p: Pos, dir: Dir): (q: Pos)
    ensures Adjacent(p, q)
  {
    match dir
    case Left => Pos(p.row, p.col - 1)
    case Right => Pos(p.row, p.col + 1)
    case Down => Pos(p.row + 1, p.col)
    case Up => Pos(p.row - 1, p.col)
  }

  /** The backing array's last index: the bound of the right and lower tests. */
  const LastIndex: int := DimMax - 1

  /** The bound move() pairs with each neighbour test. */
  predicate WithinBound(p: Pos, dir: Dir) {
    match dir
    case Left => p.col - 1 >= 0
    case Right => p.col + 1 <= LastIndex
    case Down => p.row + 1 <= LastIndex
    case Up => p.row - 1 >= 0
  }

  /** One neighbour test of move(), with the bound tested before the read. */
  predicate BlankToward(g: Grid, p: Pos, dir: Dir)
    requires InBacking(p)
  {
    WithinBound(p, dir) && At(g, Toward(p, dir)) == Blank
  }

  /** The first neighbour, in move()'s order, whose test finds the blank. */
  function Neighbour(g: Grid, p: Pos): (n: Option<Pos>)
    requires InBacking(p)
    ensures n.Some? ==> InBacking(n.value) && Adjacent(p, n.value) && At(g, n.value) == Blank
    ensures n.None? <==> forall dir :: !BlankToward(g, p, dir)
  {
    if BlankToward(g, p, Left) then Some(Toward(p, Left))
    else if BlankToward(g, p, Right) then Some(Toward(p, Right))
    else if BlankToward(g, p, Down) then Some(Toward(p, Down))
    else if BlankToward(g, p, Up) then Some(Toward(p, Up))
    else None
  }

  /** A tile's cell and the blank cell it slides into. */
  datatype Slide = Slide(from: Pos, to: Pos)

  /**
   * move()'s nested scan from (r, c) on: the first cell in row-major order that
   * holds the tile and has a blank neighbour. A cell that holds the tile but
   * has no blank neighbour does not stop the scan.
   */
  function Scan(g: Grid, d: int, tile: int, r: int, c: int): (s: Option<Slide>)
    requires ValidDim(d) && 0 <= r <= d && 0 <= c <= d
    ensures s.Some? ==>
      Active(d, s.value.from) && At(g, s.value.from) == tile &&
      InBacking(s.value.to) && Adjacent(s.value.from, s.value.to) && At(g, s.value.to) == Blank
    decreases d - r, d - c
  {
    if r == d then None
    else if c == d then Scan(g, d, tile, r + 1, 0)
    else if At(g, Pos(r, c)) == tile && Neighbour(g, Pos(r, c)).Some? then
      Some(Slide(Pos(r, c), Neighbour(g, Pos(r, c)).value))
    else Scan(g, d, tile, r, c + 1)
  }

  /** What move() returns and the board it leaves. */
  datatype Outcome = Outcome(moved: bool, grid: Grid)

  function Move(g: Grid, d: int, tile: int): Outcome
    requires ValidDim(d)
  {
    match Scan(g, d, tile, 0, 0)
    case None => Outcome(false, g)
    case Some(s) => Outcome(true, Set(Set(g, s.from, Blank), s.to, tile))
  }

  /** Some cell in play holding the tile has a neighbour in play holding the blank. */
  ghost predicate CanSlide(g: Grid, d: int, tile: int)
    requires ValidDim(d)
  {
    exists p, q :: Active(d, p) && Active(d, q) && Adjacent(p, q) && At(g, p) == tile && At(g, q) == Blank
  }

  // ---------------------------------------------------------------------
  // The loose bounds are safe under the sentinel

  /**
   * For a cell in play, a neighbour test with the loose bounds finds the blank
   * exactly when the neighbour is itself in play and holds the blank: beyond
   * column or row d - 1 every backing cell holds the sentinel, never the blank.
   */
  lemma LooseBoundIsActiveBound(g: Grid, d: int, p: Pos, dir: Dir)
    requires ValidDim(d) && Sentinel(g, d) && Active(d, p)
    ensures BlankToward(g, p, dir) <==> Active(d, Toward(p, dir)) && At(g, Toward(p, dir)) == Blank
  {
  }

  /** Under the invariant, the neighbour move() picks is the one blank, whenever that blank is adjacent. */
  lemma NeighbourIsTheBlank(g: Grid, d: int, p: Pos, q: Pos)
    requires Wellformed(g, d) && Active(d, p) && Active(d, q) && Adjacent(p, q) && At(g, q) == Blank
    ensures Neighbour(g, p) == Some(q)
  {
    var dir :=
      if q == Toward(p, Left) then Left
      else if q == Toward(p, Right) then Right
      else if q == Toward(p, Down) then Down
      else Up;
    LooseBoundIsActiveBound(g, d, p, dir);
    var n := Neighbour(g, p).value;
    assert Active(d, n);
  }

  /** Under the sentinel, a cell with no blank neighbour in play gets no hit from any of the four tests. */
  lemma NoNeighbour(g: Grid, d: int, tile: int, p: Pos)
    requires Wellformed(g, d) && !CanSlide(g, d, tile) && Active(d, p) && At(g, p) == tile
    ensures Neighbour(g, p) == None
  {
    forall dir
      ensures !BlankToward(g, p, dir)
    {
      LooseBoundIsActiveBound(g, d, p, dir);
      var t := Toward(p, dir);
      if Active(d, t) {
        assert !(Active(d, p) && Active(d, t) && Adjacent(p, t) && At(g, p) == tile && At(g, t) == Blank);
      }
    }
  }

  lemma {:induction false} ScanFindsNothing(g: Grid, d: int, tile: int, r: int, c: int)
    requires Wellformed(g, d) && !CanSlide(g, d, tile) && 0 <= r <= d && 0 <= c <= d
    ensures Scan(g, d, tile, r, c) == None
    decreases d - r, d - c
  {
    if r == d {
    } else if c == d {
      ScanFindsNothing(g, d, tile, r + 1, 0);
    } else {
      if At(g, Pos(r, c)) == tile {
        NoNeighbour(g, d, tile, Pos(r, c));
      }
      ScanFindsNothing(g, d, tile, r, c + 1);
    }
  }

  /** Under the invariant no cell before the tile's own holds the tile, so the scan reaches it. */
  lemma {:induction false} ScanSkipsTo(g: Grid, d: int, tile: int, p: Pos, r: int, c: int)
    requires Wellformed(g, d) && Active(d, p) && At(g, p) == tile
    requires 0 <= r <= d && 0 <= c <= d && (r < p.row || (r == p.row && c <= p.col))
    ensures Scan(g, d, tile, r, c) == Scan(g, d, tile, p.row, p.col)
    decreases d - r, d - c
  {
    if r == p.row && c == p.col {
    } else if c == d {
      ScanSkipsTo(g, d, tile, p, r + 1, 0);
    } else {
      assert At(g, Pos(r, c)) != tile;
      ScanSkipsTo(g, d, tile, p, r, c + 1);
    }
  }

  // ---------------------------------------------------------------------
  // What move() does

  /**
   * A tile in play next to the blank in play slides: move() reports success,
   * the blank's cell now holds the tile, the tile's cell the blank, and every
   * other cell of the backing array is as before.
   */
  lemma MoveSlides(g: Grid, d: int, tile: int, p: Pos, q: Pos)
    requires Wellformed(g, d) && Active(d, p) && Active(d, q) && Adjacent(p, q)
    requires At(g, p) == tile && At(g, q) == Blank
    ensures Move(g, d, tile) == Outcome(true, Swap(g, p, q))
    ensures forall x :: InBacking(x) ==>
      At(Move(g, d, tile).grid, x) == if x == q then tile else if x == p then Blank else At(g, x)
  {
    ScanSkipsTo(g, d, tile, p, 0, 0);
    NeighbourIsTheBlank(g, d, p, q);
  }

  /** Otherwise move() reports failure and the board is untouched. */
  lemma MoveRefuses(g: Grid, d: int, tile: int)
    requires Wellformed(g, d) && !CanSlide(g, d, tile)
    ensures Move(g, d, tile) == Outcome(false, g)
  {
    ScanFindsNothing(g, d, tile, 0, 0);
  }

  /** move() succeeds exactly when the tile can slide, and it keeps the invariant either way. */
  lemma MoveKeepsWellformed(g: Grid, d: int, tile: int)
    requires Wellformed(g, d)
    ensures Move(g, d, tile).moved <==> CanSlide(g, d, tile)
    ensures Wellformed(Move(g, d, tile).grid, d)
  {
    if CanSlide(g, d, tile) {
      var p, q :| Active(d, p) && Active(d, q) && Adjacent(p, q) && At(g, p) == tile && At(g, q) == Blank;
      MoveSlides(g, d, tile, p, q);
      SwapWellformed(g, d, p, q);
    } else {
      MoveRefuses(g, d, tile);
    }
  }

  /** Naming the blank itself never moves anything: the blank has no blank neighbour. */
  lemma MoveBlankRefused(g: Grid, d: int)
    requires Wellformed(g, d)
    ensures Move(g, d, Blank) == Outcome(false, g)
  {
    forall p, q | Active(d, p) && Active(d, q) && Adjacent(p, q) && At(g, p) == Blank
      ensures At(g, q) != Blank
    {
      assert p != q;
    }
    MoveRefuses(g, d, Blank);
  }

  /** A number that is not a value of the region (such as 99 or -1) never moves anything. */
  lemma MoveAbsentRefused(g: Grid, d: int, tile: int)
    requires Wellformed(g, d) && (tile < 0 || tile >= d * d)
    ensures Move(g, d, tile) == Outcome(false, g)
  {
    MoveRefuses(g, d, tile);
  }

  // ---------------------------------------------------------------------
  // A game is a sequence of moves

  /** The board after the game loop has asked move() for each of the tiles in turn. */
  function Play(g: Grid, d: int, tiles: seq<int>): Grid
    requires ValidDim(d)
    decreases |tiles|
  {
    if tiles == [] then g else Play(Move(g, d, tiles[0]).grid, d, tiles[1..])
  }

  lemma {:induction false} PlayKeepsWellformed(g: Grid, d: int, tiles: seq<int>)
    requires Wellformed(g, d)
    ensures Wellformed(Play(g, d, tiles), d)
    decreases |tiles|
  {
    if tiles != [] {
      MoveKeepsWellformed(g, d, tiles[0]);
      PlayKeepsWellformed(Move(g, d, tiles[0]).grid, d, tiles[1..]);
    }
  }
}
