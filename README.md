# Game of Fifteen engine, modelled in Dafny

This project models the puzzle engine of `fifteen.c`, the d×d Game of Fifteen.
The state is a 9×9 `int` array `board` together with a dimension `d` that the
caller keeps in [3, 9]. Only the top-left d×d region is in play. Every other
cell holds the sentinel -1. The engine has three operations:

- `init()` marks all 81 cells -1. It then fills the region in row-major order
  with d²-1 down to 0. For even d it writes 2 at (d-1, d-2) and 1 at
  (d-1, d-3), so the last row ends 1, 2, 0.
- `move(tile)` scans the region row-major for the tile. At a cell holding it,
  it tests the left, right, lower and upper neighbours for the blank 0. At the
  first hit it writes 0 where the tile was and the tile where the blank was,
  then returns true. Otherwise it returns false. The right and lower tests
  compare against 8, the array's last index, not against d-1.
- `won()` walks the region with a counter. It returns true exactly when the
  region reads 1, 2, …, d²-1 and then 0.

Modules, one file each:

- `Board` (board.dfy): the grid, cell positions and row-major arithmetic. It
  also holds the game invariant `Wellformed`: the sentinel outside the region,
  and inside it each of 0 … d²-1 exactly once (so there is exactly one blank).
- `Initial` (initial.dfy): `InitGrid(d)`, the layout `init()` writes, and its
  properties.
- `Moves` (moves.dfy): `Move(g, d, tile)`, the outcome and board of `move()`.
  It is built on `Scan`, the row-major scan, and `Neighbour`, the four tests in
  the code's order, each test checking its bound before it reads. The
  lemmas here describe what `move()` does on any board that satisfies the
  invariant.
- `Winning` (winning.dfy): `Solved(g, d)`, the configuration `won()` checks
  for, and its properties.
- `Engine` (engine.dfy): the class `Game`, holding `const d` and
  `const board: array2<int>` of size 9×9. Its methods `Init`, `Move` and `Won`
  run the source's nested loops on the array. Each is proved equal to the
  function above that describes it.
- `AsWritten` (as_written.dfy): the neighbour tests as the C code evaluates
  them, read first and bound second, over the array's flat row-major layout
  (see Findings).
- `Scenarios` (scenarios.dfy): call sequences as `main()` makes them.

Three facts about the code that a reader might not expect, each proved:

- For even d, `init()` writes 1 at (d-1, d-3) and 2 at (d-1, d-2), so the last
  row ends 1, 2, 0. That is the descending fill's 2, 1 with the two cells
  exchanged (`Initial.InitIsTransposition`).
- The right and lower tests of `move()` bound by 8, the array's last index,
  not by d-1. Under the sentinel they accept exactly a neighbour inside the
  region that holds the blank (`Moves.LooseBoundIsActiveBound`).
- A fresh board is never already won, for odd d as well as even: cell (0, 0)
  holds d²-1, not 1 (`Winning.InitNotSolved`).

## Model

| member | source | states |
|---|---|---|
| Initial.Descending | fifteen.c:162-177 | after the two filling loops, a cell outside the region holds -1, and region cell p holds d²-1 minus its row-major index |
| Initial.InitCells | fifteen.c:160-182 | after init, every cell outside the region is -1. A region cell holds d²-1-(r·d+c), except that for even d the cell (d-1, d-3) holds 1 and (d-1, d-2) holds 2 |
| Initial.DescendingLastRow | fifteen.c:169-177 | the descending fill ends its last row with 2, 1, 0 |
| Initial.InitLastRow | fifteen.c:169-182 | the last cell holds the blank. The last row ends 2, 1, 0 for odd d and 1, 2, 0 for even d |
| Initial.InitIsTransposition | fifteen.c:178-182 | for even d, the two extra writes exchange the cells holding 1 and 2 in the descending fill |
| Initial.DescendingWellformed | fifteen.c:162-177 | the descending fill holds each of 0 … d²-1 exactly once in the region, with the sentinel everywhere else |
| Initial.InitWellformed | fifteen.c:158-184 | init establishes the invariant, and the region's only blank is at (d-1, d-1) |
| Board.SwapWellformed | fifteen.c:224-247 | exchanging two region cells keeps each of 0 … d²-1 exactly once and leaves every sentinel untouched |
| Moves.Neighbour | fifteen.c:224-247 | a neighbour the four tests pick is in the array, adjacent, and holds the blank. None is picked exactly when all four tests fail |
| Moves.Scan | fifteen.c:218-250 | a slide the scan finds starts at a region cell holding the tile and ends at an adjacent blank |
| Moves.LooseBoundIsActiveBound | fifteen.c:230-241 | under the sentinel, each test finds the blank exactly when the neighbour is inside the region and holds the blank. This holds even though the right and lower bounds are 8, not d-1 |
| Moves.NeighbourIsTheBlank | fifteen.c:224-247 | under the invariant, a cell next to the region's blank gets exactly that blank from the tests |
| Moves.NoNeighbour | fifteen.c:224-247 | under the invariant, a tile cell with no blank neighbour in the region passes none of the four tests |
| Moves.ScanFindsNothing | fifteen.c:218-251 | when no region cell holding the tile is next to the blank, the scan ends without a slide |
| Moves.ScanSkipsTo | fifteen.c:218-222 | under the invariant, the scan passes every cell before the tile's own cell, since none of them holds the tile |
| Moves.MoveSlides | fifteen.c:218-247 | a tile next to the blank in the region slides: move returns true, the blank's cell holds the tile, the tile's cell holds 0, and every other cell of the 9×9 array is unchanged |
| Moves.MoveRefuses | fifteen.c:218-251 | when no region cell holding the tile is next to the blank, move returns false and the board is unchanged |
| Moves.MoveKeepsWellformed | fifteen.c:213-252 | move returns true exactly when the tile can slide, and it keeps the invariant: each value once, one blank, and no -1 cell ever written |
| Moves.MoveBlankRefused | fifteen.c:222-251 | under the invariant, move(0) returns false and changes nothing |
| Moves.MoveAbsentRefused | fifteen.c:218-251 | under the invariant, move returns false and changes nothing for a number outside 0 … d²-1, such as 99 or -1 |
| Moves.PlayKeepsWellformed | fifteen.c:97-126 | any sequence of moves keeps the invariant |
| Winning.SolvedInRowMajor | fifteen.c:261-283 | a board is won exactly when every row-major index k < d²-1 holds k+1 and the last cell holds 0 |
| Winning.SolvedWellformed | fifteen.c:261-283 | the winning configuration, with the sentinel outside the region, satisfies the invariant |
| Winning.SwapUnsolves | fifteen.c:264-280 | exchanging any two distinct region cells of a won board makes it not won |
| Winning.InitNotSolved | fifteen.c:169-177 | for every d in [3, 9], the board init leaves is not won, because (0, 0) holds d²-1 and not 1 |
| Engine.Game.constructor | fifteen.c:24-31 | a game has a fixed dimension in [3, 9] and a fresh 9×9 array |
| Engine.Game.Init | fifteen.c:158-184 | the nested loops and the even-d writes leave exactly InitGrid(d). That board satisfies the invariant and is not won |
| Engine.Game.SlideAt | fifteen.c:222-248 | at one scanned cell: it slides exactly when the cell holds the tile and one of the four tests finds the blank. It then writes 0 at the cell and the tile at that neighbour, and otherwise changes nothing |
| Engine.Game.Move | fifteen.c:213-252 | the nested scan on the array returns and leaves exactly what Moves.Move gives for the old board |
| Engine.Game.MoveKeepingInvariant | fifteen.c:213-252 | on a board that satisfies the invariant, move returns true exactly when the tile can slide into the blank, and the array still satisfies the invariant afterwards |
| Engine.Game.Won | fifteen.c:258-284 | the counter loop returns true exactly when the array's region is solved. It reads the board and never writes it |
| AsWritten.ReadFirstAgrees | fifteen.c:224-242 | wherever a read-first test stays inside the array, it decides as the bound-first test does. This includes reads that land on the next or previous row |
| AsWritten.ReadFirstUndefined | fifteen.c:224-242 | a read-first test reads outside the array exactly for left at (0,0), right at (8,8), down in row 8, and up in row 0 |
| AsWritten.UndefinedReadFailsBound | fifteen.c:224-242 | in each of the four situations where the read leaves the array, the bound test after it fails, so the test would reject the neighbour whatever the read returned |
| AsWritten.LeftReadWraps | fifteen.c:224 | the left read of a cell in column 0 lands on the last cell of the row above |
| AsWritten.FreshBoardCornerRead | fifteen.c:218-224 | on a fresh 3×3 board, move(8) finds 8 at (0,0) and its left test reads before the array |
| Scenarios.GameKeepsInvariant | fifteen.c:70-126 | every board the game loop shows, after init and any tiles the player names, satisfies the invariant |
| Scenarios.ThreeByThreeOpening | fifteen.c:213-247 | on a fresh 3×3 board, move(1) succeeds, the last row becomes 2, 0, 1, and the board is not won |

## Left out

- Log-file output (`fopen`, `fprintf`, `fflush`, `fclose` in `main`): I/O with no engine logic.
- Terminal output (`clear`, `greet`, `draw`) and the `usleep` delays: presentation only.
- Reading a tile with `get_int` and parsing `argv` with `atoi`. Their only effect on the engine is the range check 3 ≤ d ≤ 9, which is the constructor's precondition. The tiles the player names are a parameter of `Moves.Play`.
- The interactive loop of `main` is modelled only as a sequence of moves (`Moves.Play`, `Scenarios.GameKeepsInvariant`). The stop on a win or on tile 0 is not modelled, because stopping early does not change which boards satisfy the invariant.
- Engine.Game.Move: its postcondition ties the array to `Moves.Move` only. Stating the invariant and the "succeeds exactly when the tile can slide" property on this method exceeds the verifier's resource limit. `Engine.Game.MoveKeepingInvariant` states both for a game in progress, by calling `Move` after `Moves.MoveKeepsWellformed`.
- Out-of-array reads of the C code are undefined behaviour. `AsWritten` models them only as "outside the array" (None), not as whatever memory they would return.
- 32-bit `int` overflow: none can occur. No arithmetic is done on `tile`, which `get_int` may return as any `int` (99, say) and which is only compared with cells. Every value the engine computes lies in -1 … 81: cell values in -1 … 80, neighbour indices `row - 1` and `column - 1` down to -1, `row + 1` and `column + 1` up to 9, and the counter of `won()` up to 81.
- The zero-initialisation of the global array is not modelled. The Dafny constructor's array starts with unspecified contents, and `Init` overwrites all 81 cells as the C `init()` does.

## Findings

| source | as written | input that shows it | evidently intended | confidence | as-written member | corrected member |
|---|---|---|---|---|---|---|
| fifteen.c:224-242 | every neighbour test reads the neighbour, e.g. `board[row][column - 1]`, before the bound test that the comments call "within boundary" | d = 3, first move 8: 8 is at (0,0), so the left test reads `board[0][-1]`, one int before the array | test the bound before the read; the decision is the same wherever the read is defined | high (not executed) | AsWritten.FreshBoardCornerRead | Moves.Neighbour |
