# 2048 grid engine in Dafny

A model of the grid logic of the `Game2048` class in `two_zero_four_eight.py`:
the four moves, the spawn of a new tile after a move that changed the board,
and the end-of-game test. The board is a 4 x 4 `seq<seq<nat>>` in which 0 marks
an empty cell.

The model has four modules:

- `Line` (`lines.dfy`) covers one row or column. `Compact` drops the empty
  cells, `Merge` does the single left-to-right merge sweep, and `Pad` refills
  with empty cells. `Collapse` is the whole pipeline. `MergeSweep` and
  `CollapseLine` are the loops as written (index walking forward, in-place
  doubling, `pop`), and they are proved equal to the functions. A `Measure`
  (tile values, tile count, empty-cell count) names what `Total` adds up.
- `Board` (`board.dfy`) covers the grid. It has columns (`grid[:, j]`), the
  mirrored and transposed board, and board totals. `EmptyCells` is the
  row-major list the source builds, and `AddNewTile` is the spawn. `GameOver`
  is the clean rule: no empty cell and no equal orthogonal neighbours.
  `IsGameOver` is the source's loop with its `grid[j][i]` indexing.
- `Moves` (`moves.dfy`) covers a slide in each `Direction`. `Slide(g, d)`
  reads the board's lines in the order the move traverses them, collapses
  each, and puts them back. Those lines are rows for LEFT, reversed rows for
  RIGHT, columns for UP and reversed columns for DOWN. `SlideRows` and
  `SlideColumns` are the two loops of `move`.
- `Game` (`game.dfy`) covers the move as the event loop calls it. A direction
  is given by name, and an unknown name slides nothing. A tile spawns exactly
  when the board changed. `NewGame` is the starting board.

The random choices of `add_new_tile` are parameters. `pick` is an index into
the row-major list of empty cells, and it stands in for `random.choice`. An
index past the end picks the last empty cell, so every natural number is a
valid choice. Every empty cell is the choice of some `pick`. `value` is the
tile written and must be 2 or 4.

The end-of-game loop compares `grid[i][j]` with `grid[i][j+1]` and, with the
indices swapped, `grid[j][i]` with `grid[j+1][i]`. On a square board this
visits every horizontal and every vertical pair. `Board.IsGameOver` proves
the loop equal to the clean all-pairs rule, so there is no finding.

## Model

| member | source | states |
|---|---|---|
| Line.Reverse | two_zero_four_eight.py:72-73 | `row[::-1]`: same length, and cell i of the result is cell n-1-i of the input |
| Line.ReverseNoEqualNeighbours | two_zero_four_eight.py:72-73 | reversing a line neither creates nor removes a pair of equal neighbours |
| Line.Compact | two_zero_four_eight.py:76 | the result has no empty cell; its length is the number of tiles; it keeps the value total and the multiset of tiles |
| Line.CompactConcat | two_zero_four_eight.py:76 | compaction keeps the order of tiles: it distributes over concatenation |
| Line.CompactReverse | two_zero_four_eight.py:72-76 | compacting a reversed line gives the reversed compaction, which is why RIGHT is LEFT in a mirror |
| Line.CompactFixed | two_zero_four_eight.py:76 | compaction leaves a line unchanged exactly when it has no empty cell |
| Line.Merge | two_zero_four_eight.py:79-84 | one sweep keeps the value total; the result is no longer than the line and at least half as long; it keeps lines free of empty cells and of non-powers of two |
| Line.MergeFixed | two_zero_four_eight.py:79-84 | the sweep changes a line, and equally shortens it, exactly when two neighbours are equal |
| Line.MergeSweep | two_zero_four_eight.py:79-84 | the while loop with in-place doubling and `pop(j + 1)` computes the sweep; each pop shortens the line by one |
| Line.Pad | two_zero_four_eight.py:87 | `extend([0] * (GRID_SIZE - len(row)))`: a short line is padded to the board width with empty cells and a long one is left alone |
| Line.Collapse | two_zero_four_eight.py:75-87 | a collapsed line has the board width, holds its tiles before its empty cells, keeps the value total, has no more tiles than before, and keeps powers of two |
| Line.CollapseFixed | two_zero_four_eight.py:75-87 | collapsing leaves a full-width line unchanged exactly when it is packed and no two neighbouring tiles are equal |
| Line.CollapseChangedLeavesBlank | two_zero_four_eight.py:75-87 | a line that a collapse changes ends up with at least one empty cell |
| Line.CollapseLine | two_zero_four_eight.py:76-87 | compact, merge loop and extend compute `Collapse`, and the tile count drops by exactly the number of merges |
| Line.CollapseExampleTriple | two_zero_four_eight.py:79-84 | [2,2,2,0] becomes [4,2,0,0]: only the first pair merges |
| Line.CollapseExampleQuad | two_zero_four_eight.py:80-83 | [2,2,2,2] becomes [4,4,0,0], not a single 8 |
| Line.CollapseExampleGap | two_zero_four_eight.py:76-84 | [0,2,0,2] becomes [4,0,0,0]: tiles separated by empty cells merge |
| Line.CollapseExampleNoCascade | two_zero_four_eight.py:81-84 | [2,0,2,4] becomes [4,4,0,0]: a doubled tile is skipped and does not merge again |
| Board.Column | two_zero_four_eight.py:96 | `grid[:, j]`: cell i of column j is `grid[i][j]` |
| Board.SetRow | two_zero_four_eight.py:92 | `grid[i] = row` replaces row i and no other row |
| Board.SetColumn | two_zero_four_eight.py:117 | `grid[:, j] = col` makes column j equal to `col` and leaves every other column as it was |
| Board.EmptyCells | two_zero_four_eight.py:43 | the list holds exactly the empty cells of the board, in row-major order, and is non-empty exactly when some cell is 0 |
| Board.AddNewTile | two_zero_four_eight.py:42-46 | a full board is left as is; otherwise one fewer empty cell, one more tile, value total up by the new tile, and powers of two kept |
| Board.AddNewTileCell | two_zero_four_eight.py:43-46 | the spawn writes the value into the chosen empty cell, which was 0, and leaves every other cell unchanged |
| Board.AddNewTileReaches | two_zero_four_eight.py:43-45 | every empty cell is filled by some choice of `pick`, as every element of the list is a possible result of `random.choice` |
| Board.IsGameOver | two_zero_four_eight.py:122-132 | the loop with its `grid[j][i]` indexing returns exactly the clean rule: no empty cell and no equal horizontal or vertical neighbours; any empty cell means not over |
| Moves.Slide | two_zero_four_eight.py:69-117 | a slide keeps the value total, never adds a tile, and keeps every cell 0 or a power of two |
| Moves.SlideLine | two_zero_four_eight.py:69-117 | after LEFT row k is `Collapse(row k)`; after RIGHT it is `Reverse(Collapse(Reverse(row k)))`; UP and DOWN are the same on column k |
| Moves.SlideSymmetries | two_zero_four_eight.py:72-98 | RIGHT is LEFT on the mirrored board mirrored back; UP and DOWN are LEFT and RIGHT on the transposed board |
| Moves.SlideLinesIndependent | two_zero_four_eight.py:70-117 | line k after a move depends only on line k before it, so no row or column affects another |
| Moves.CollapseAllFixed | two_zero_four_eight.py:70-117 | collapsing every line changes nothing exactly when every line is settled |
| Moves.SlideFixed | two_zero_four_eight.py:119 | a move leaves the board equal to the original exactly when every traversed line is settled |
| Moves.SlideChangedLeavesRoom | two_zero_four_eight.py:119-120 | a move that changed the board leaves an empty cell, so the spawn that follows always writes a tile |
| Moves.GameOverStuck | two_zero_four_eight.py:122-132 | when the game is over, no direction changes the board |
| Moves.StuckGameOver | two_zero_four_eight.py:127-132 | a full board that neither LEFT nor UP changes is a finished game |
| Moves.GameOverIffStuck | two_zero_four_eight.py:124-132 | on a full board, the game is over exactly when every direction leaves the board unchanged |
| Moves.SlideRows | two_zero_four_eight.py:69-92 | the LEFT/RIGHT loop (reverse, compact, merge, extend, reverse back, store row) computes the LEFT or RIGHT slide |
| Moves.SlideColumns | two_zero_four_eight.py:94-117 | the UP/DOWN loop over columns computes the UP or DOWN slide |
| Game.ParseDirection | two_zero_four_eight.py:69-72 | a recognised name is the name of the direction returned, and each of the four names is recognised as its direction |
| Game.SlideNamedLeavesRoom | two_zero_four_eight.py:119-120 | a named move that changed the board leaves room for the spawn |
| Game.Move | two_zero_four_eight.py:66-120 | an unknown name leaves the board alone; the result differs from the board exactly when the slide did; a spawn then takes one empty cell and adds its value to the total; powers of two are kept |
| Game.ApplyMove | two_zero_four_eight.py:66-120 | the method as written (string tests, copy, loops, `array_equal`, spawn) computes `Move` and reports whether the board changed |
| Game.FirstSpawn | two_zero_four_eight.py:39 | one spawn on an empty board leaves one tile of the spawned value and room for another |
| Game.TwoSpawns | two_zero_four_eight.py:39-40 | two spawns on an empty board leave exactly two tiles whose values add up to the two spawned values |
| Game.NewGame | two_zero_four_eight.py:37-40 | a new game has exactly two tiles, their values add up to the two spawned values, and every cell is 0 or a power of two |

## Left out

- Drawing, fonts, colours, the window constants and the pygame event loop (`draw`, `main`, the display set-up in `__init__`) are rendering and I/O. The mapping from arrow keys to the four names is covered only in that `Game.Move` takes the name.
- `random.choice` and `random.random() < 0.9` are randomness and floating point. The cell index and the value (2 or 4) are parameters, so the 90/10 split between 2 and 4 is not modelled.
- numpy's fixed-width `int` is not modelled: cells are unbounded `nat`, so a doubling can never wrap around. `np.array_equal` is sequence equality, and the copy taken before the move is an immutable value.
- The board size is fixed at 4 (`GRID_SIZE`), as in the source. The equivalence of `IsGameOver` with the all-pairs rule relies on the board being square.
- Game.Move: the chosen cell, its previous emptiness and the fact that no other cell changes are not in `Move`'s own contract. `Board.AddNewTileCell` states them for the slid board.
