/**
 The board of the 2048 game: a square grid of cells, the ways of reading it
 (rows, columns, mirrored rows), totals over it, the spawning of a new tile
 into an empty cell, and the end-of-game test.
 */
module Board {
  import opened Line

  predicate IsGrid(g: seq<seq<nat>>)
  {
    |g| == GRID_SIZE && forall i :: 0 <= i < |g| ==> |g[i]| == GRID_SIZE
  }

  /** A GRID_SIZE x GRID_SIZE board, indexed row first; 0 marks an empty cell. */
  type Grid = g: seq<seq<nat>> | IsGrid(g)
    witness [[0, 0, 0, 0], [0, 0, 0, 0], [0, 0, 0, 0], [0, 0, 0, 0]]

  predicate InGrid(i: int, j: int)
  {
    0 <= i < GRID_SIZE && 0 <= j < GRID_SIZE
  }

  function EmptyGrid(): (g: Grid)
    ensures forall i, j :: InGrid(i, j) ==> g[i][j] == 0
  {
    seq(GRID_SIZE, _ => Zeros(GRID_SIZE))
  }

  predicate HasEmpty(g: Grid)
  {
    exists i, j :: 0 <= i < GRID_SIZE && 0 <= j < GRID_SIZE && g[i][j] == 0
  }

  /** Every cell is empty or holds a power of two. */
  predicate ValidGrid(g: Grid)
  {
    forall i, j :: 0 <= i < GRID_SIZE && 0 <= j < GRID_SIZE ==> ValidTile(g[i][j])
  }

  // ---------------------------------------------------------------------------
  // Reading the board by columns and mirrored rows

  /** The source's grid[:, j]. */
  function Column(g: Grid, j: nat): (c: seq<nat>)
    requires j < GRID_SIZE
    ensures |c| == GRID_SIZE
    ensures forall i :: 0 <= i < GRID_SIZE ==> c[i] == g[i][j]
  {
    seq(GRID_SIZE, i requires 0 <= i < GRID_SIZE => g[i][j])
  }

  /** The source's grid[i] = row. */
  function SetRow(g: Grid, i: nat, row: seq<nat>): (r: Grid)
    requires i < GRID_SIZE && |row| == GRID_SIZE
    ensures r[i] == row
    ensures forall k :: 0 <= k < GRID_SIZE && k != i ==> r[k] == g[k]
  {
    g[i := row]
  }

  /** The source's grid[:, j] = col. */
  function SetColumn(g: Grid, j: nat, col: seq<nat>): (r: Grid)
    requires j < GRID_SIZE && |col| == GRID_SIZE
    ensures Column(r, j) == col
    ensures forall k :: 0 <= k < GRID_SIZE && k != j ==> Column(r, k) == Column(g, k)
  {
    seq(GRID_SIZE, i requires 0 <= i < GRID_SIZE => g[i][j := col[i]])
  }

  /** Two boards with the same columns are the same board. */
  lemma ColumnsDetermine(g: Grid, h: Grid)
    requires forall k :: 0 <= k < GRID_SIZE ==> Column(g, k) == Column(h, k)
    ensures g == h
  {
    forall i | 0 <= i < GRID_SIZE
      ensures g[i] == h[i]
    {
      forall j | 0 <= j < GRID_SIZE
        ensures g[i][j] == h[i][j]
      {
        assert Column(g, j)[i] == Column(h, j)[i];
      }
    }
  }

  function Transpose(g: Grid): (t: Grid)
    ensures forall i, j :: InGrid(i, j) ==> t[i][j] == g[j][i]
  {
    seq(GRID_SIZE, j requires 0 <= j < GRID_SIZE => Column(g, j))
  }

  lemma TransposeTranspose(g: Grid)
    ensures Transpose(Transpose(g)) == g
  {
    var t := Transpose(Transpose(g));
    forall i | 0 <= i < GRID_SIZE
      ensures t[i] == g[i]
    {
      assert forall j :: 0 <= j < GRID_SIZE ==> t[i][j] == g[i][j];
    }
  }

  /** Every row reversed: the board seen from the right. */
  function Mirror(g: Grid): (m: Grid)
    ensures forall i, j :: InGrid(i, j) ==> m[i][j] == g[i][GRID_SIZE - 1 - j]
  {
    seq(GRID_SIZE, i requires 0 <= i < GRID_SIZE => Reverse(g[i]))
  }

  lemma MirrorMirror(g: Grid)
    ensures Mirror(Mirror(g)) == g
  {
    forall i | 0 <= i < GRID_SIZE
      ensures Mirror(Mirror(g))[i] == g[i]
    {
      ReverseReverse(g[i]);
    }
  }

  lemma ValidMirror(g: Grid)
    ensures ValidGrid(Mirror(g)) <==> ValidGrid(g)
  {
    if ValidGrid(Mirror(g)) {
      forall i, j | 0 <= i < GRID_SIZE && 0 <= j < GRID_SIZE
        ensures ValidTile(g[i][j])
      {
        assert g[i][j] == Mirror(g)[i][GRID_SIZE - 1 - j];
      }
    }
  }

  lemma ValidTranspose(g: Grid)
    ensures ValidGrid(Transpose(g)) <==> ValidGrid(g)
  {
    if ValidGrid(Transpose(g)) {
      forall i, j | 0 <= i < GRID_SIZE && 0 <= j < GRID_SIZE
        ensures ValidTile(g[i][j])
      {
        assert g[i][j] == Transpose(g)[j][i];
      }
    }
  }

  // ---------------------------------------------------------------------------
  // Totals over the board

  function GridTotal(g: seq<seq<nat>>, m: Measure): nat
  {
    if |g| == 0 then 0 else Total(g[0], m) + GridTotal(g[1..], m)
  }

  /** The board with cell (i, j) replaced by v. */
  function SetCell(g: seq<seq<nat>>, i: nat, j: nat, v: nat): (r: seq<seq<nat>>)
    requires i < |g| && j < |g[i]|
  {
    var row: seq<nat> := g[i][j := v];
    g[i := row]
  }

  /** Replacing one cell changes a board total by the difference of the two weights. */
  lemma {:induction false} GridTotalUpdate(g: seq<seq<nat>>, i: nat, j: nat, v: nat, m: Measure)
    requires i < |g| && j < |g[i]|
    ensures GridTotal(SetCell(g, i, j, v), m) + Weight(m, g[i][j]) == GridTotal(g, m) + Weight(m, v)
    decreases |g|
  {
    var h := SetCell(g, i, j, v);
    if i == 0 {
      assert h[1..] == g[1..];
      TotalUpdate(g[0], j, v, m);
    } else {
      assert h[1..] == SetCell(g[1..], i - 1, j, v);
      GridTotalUpdate(g[1..], i - 1, j, v, m);
    }
  }

  /** Row by row no larger totals give a no larger board total; equal ones an equal total. */
  lemma {:induction false} GridTotalRowwise(g: seq<seq<nat>>, h: seq<seq<nat>>, m: Measure)
    requires |g| == |h|
    requires forall i :: 0 <= i < |g| ==> Total(h[i], m) <= Total(g[i], m)
    ensures GridTotal(h, m) <= GridTotal(g, m)
    ensures (forall i :: 0 <= i < |g| ==> Total(h[i], m) == Total(g[i], m)) ==> GridTotal(h, m) == GridTotal(g, m)
    decreases |g|
  {
    if |g| > 0 {
      GridTotalRowwise(g[1..], h[1..], m);
    }
  }

  lemma {:induction false} GridTotalEmptyRows(x: seq<seq<nat>>, m: Measure)
    requires forall i :: 0 <= i < |x| ==> x[i] == []
    ensures GridTotal(x, m) == 0
    decreases |x|
  {
    if |x| > 0 {
      GridTotalEmptyRows(x[1..], m);
    }
  }

  /** The columns of a matrix with c columns. */
  function Columns(x: seq<seq<nat>>, c: nat): (t: seq<seq<nat>>)
    requires forall i :: 0 <= i < |x| ==> |x[i]| == c
    ensures |t| == c
    ensures forall j :: 0 <= j < c ==> |t[j]| == |x|
  {
    seq(c, j requires 0 <= j < c => seq(|x|, i requires 0 <= i < |x| => x[i][j]))
  }

  /** Putting a new first cell in front of every line adds that column's total. */
  lemma {:induction false} GridTotalConsColumn(a: seq<nat>, x: seq<seq<nat>>, m: Measure)
    requires |a| == |x|
    ensures GridTotal(seq(|a|, j requires 0 <= j < |a| => [a[j]] + x[j]), m) == Total(a, m) + GridTotal(x, m)
    decreases |a|
  {
    var y := seq(|a|, j requires 0 <= j < |a| => [a[j]] + x[j]);
    if |a| > 0 {
      var y' := seq(|a[1..]|, j requires 0 <= j < |a[1..]| => [a[1..][j]] + x[1..][j]);
      assert y[1..] == y';
      assert y[0][1..] == x[0];
      GridTotalConsColumn(a[1..], x[1..], m);
    }
  }

  /** Reading a matrix by columns does not change its totals. */
  lemma {:induction false} GridTotalColumns(x: seq<seq<nat>>, c: nat, m: Measure)
    requires forall i :: 0 <= i < |x| ==> |x[i]| == c
    ensures GridTotal(Columns(x, c), m) == GridTotal(x, m)
    decreases |x|
  {
    if |x| == 0 {
      GridTotalEmptyRows(Columns(x, c), m);
    } else {
      var rest := Columns(x[1..], c);
      var cons := seq(|x[0]|, j requires 0 <= j < |x[0]| => [x[0][j]] + rest[j]);
      forall j | 0 <= j < c
        ensures Columns(x, c)[j] == cons[j]
      {
        assert forall i :: 0 <= i < |x| ==> Columns(x, c)[j][i] == cons[j][i];
      }
      assert Columns(x, c) == cons;
      GridTotalConsColumn(x[0], rest, m);
      GridTotalColumns(x[1..], c, m);
    }
  }

  lemma GridTotalTranspose(g: Grid, m: Measure)
    ensures GridTotal(Transpose(g), m) == GridTotal(g, m)
  {
    assert Transpose(g) == Columns(g, GRID_SIZE);
    GridTotalColumns(g, GRID_SIZE, m);
  }

  lemma GridTotalMirror(g: Grid, m: Measure)
    ensures GridTotal(Mirror(g), m) == GridTotal(g, m)
  {
    forall i | 0 <= i < GRID_SIZE
      ensures Total(Mirror(g)[i], m) == Total(g[i], m)
    {
      TotalReverse(g[i], m);
    }
    GridTotalRowwise(g, Mirror(g), m);
  }

  /** A board has an empty cell exactly when its count of empty cells is positive. */
  lemma {:induction false} BlanksPositiveRows(g: seq<seq<nat>>)
    ensures GridTotal(g, Blanks) > 0 <==> exists i, j :: 0 <= i < |g| && 0 <= j < |g[i]| && g[i][j] == 0
    decreases |g|
  {
    if |g| > 0 {
      BlanksPositive(g[0]);
      BlanksPositiveRows(g[1..]);
      if GridTotal(g[1..], Blanks) > 0 {
        var i, j :| 0 <= i < |g[1..]| && 0 <= j < |g[1..][i]| && g[1..][i][j] == 0;
        assert g[i + 1][j] == 0;
      }
      if exists i, j :: 0 <= i < |g| && 0 <= j < |g[i]| && g[i][j] == 0 {
        var i, j :| 0 <= i < |g| && 0 <= j < |g[i]| && g[i][j] == 0;
        if i > 0 {
          assert g[1..][i - 1][j] == 0;
        }
      }
    }
  }

  lemma HasEmptyIffBlanks(g: Grid)
    ensures HasEmpty(g) <==> GridTotal(g, Blanks) > 0
  {
    BlanksPositiveRows(g);
  }

  lemma {:induction false} EmptyRowsTotals(x: seq<seq<nat>>, m: Measure)
    requires forall i :: 0 <= i < |x| ==> x[i] == Zeros(GRID_SIZE)
    ensures GridTotal(x, m) == if m == Blanks then GRID_SIZE * |x| else 0
    decreases |x|
  {
    if |x| > 0 {
      TotalZeros(GRID_SIZE, m);
      EmptyRowsTotals(x[1..], m);
    }
  }

  /** A board without tiles: nothing counted but its empty cells. */
  lemma NoTilesTotals(g: Grid)
    requires forall i, j :: InGrid(i, j) ==> g[i][j] == 0
    ensures HasEmpty(g)
    ensures GridTotal(g, Tiles) == 0 && GridTotal(g, Value) == 0
    ensures GridTotal(g, Blanks) == GRID_SIZE * GRID_SIZE
    ensures ValidGrid(g)
  {
    assert g[0][0] == 0;
    forall i | 0 <= i < GRID_SIZE
      ensures g[i] == Zeros(GRID_SIZE)
    {
      assert forall j :: 0 <= j < GRID_SIZE ==> g[i][j] == Zeros(GRID_SIZE)[j];
    }
    EmptyRowsTotals(g, Blanks);
    EmptyRowsTotals(g, Tiles);
    EmptyRowsTotals(g, Value);
  }

  // ---------------------------------------------------------------------------
  // Spawning a tile

  /** A cell address (row, column). */
  datatype Cell = Cell(row: nat, col: nat)

  /** Row-major order of cells. */
  predicate Before(a: Cell, b: Cell)
  {
    a.row < b.row || (a.row == b.row && a.col < b.col)
  }

  /** The empty cells at or after (i, j) in row-major order. */
  function EmptyCellsFrom(g: Grid, i: nat, j: nat): (cells: seq<Cell>)
    requires i <= GRID_SIZE && j <= GRID_SIZE
    ensures forall c {:trigger c in cells} :: c in cells <==>
      && InGrid(c.row, c.col)
      && (c.row > i || (c.row == i && c.col >= j))
      && g[c.row][c.col] == 0
    ensures forall a, b :: 0 <= a < b < |cells| ==> Before(cells[a], cells[b])
    decreases GRID_SIZE - i, GRID_SIZE - j
  {
    if i == GRID_SIZE then []
    else if j == GRID_SIZE then EmptyCellsFrom(g, i + 1, 0)
    else
      var rest := EmptyCellsFrom(g, i, j + 1);
      assert forall b :: 0 <= b < |rest| ==> rest[b] in rest;
      (if g[i][j] == 0 then [Cell(i, j)] else []) + rest
  }

  /** The list of empty cells the spawn chooses from, in row-major order. */
  function EmptyCells(g: Grid): (cells: seq<Cell>)
    ensures forall c {:trigger c in cells} :: c in cells <==> InGrid(c.row, c.col) && g[c.row][c.col] == 0
    ensures forall a, b :: 0 <= a < b < |cells| ==> Before(cells[a], cells[b])
    ensures |cells| > 0 <==> HasEmpty(g)
  {
    var cells := EmptyCellsFrom(g, 0, 0);
    EmptyCellsExist(g, cells);
    cells
  }

  lemma EmptyCellsExist(g: Grid, cells: seq<Cell>)
    requires forall c {:trigger c in cells} :: c in cells <==> InGrid(c.row, c.col) && g[c.row][c.col] == 0
    ensures |cells| > 0 <==> HasEmpty(g)
  {
    if HasEmpty(g) {
      var i, j :| 0 <= i < GRID_SIZE && 0 <= j < GRID_SIZE && g[i][j] == 0;
      assert Cell(i, j) in cells;
    }
    if |cells| > 0 {
      assert cells[0] in cells;
    }
  }

  /** The index a spawn uses among n empty cells. */
  function PickIndex(n: nat, pick: nat): (k: nat)
    requires n > 0
    ensures k < n
    ensures pick < n ==> k == pick
  {
    if pick < n then pick else n - 1
  }

  /**
   Writes `value` (2 or 4) into the `pick`-th empty cell in row-major order,
   or into the last one when `pick` is past the end. Every empty cell is some
   pick's choice, so `pick` stands for the random choice among them. With no
   empty cell the board is left as it is.
   */
  function AddNewTile(g: Grid, pick: nat, value: nat): (r: Grid)
    requires value == 2 || value == 4
    ensures !HasEmpty(g) ==> r == g
    ensures HasEmpty(g) ==> GridTotal(r, Blanks) + 1 == GridTotal(g, Blanks)
    ensures HasEmpty(g) ==> GridTotal(r, Tiles) == GridTotal(g, Tiles) + 1
    ensures GridTotal(r, Value) == GridTotal(g, Value) + (if HasEmpty(g) then value else 0)
    ensures ValidGrid(g) ==> ValidGrid(r)
  {
    var cells := EmptyCells(g);
    if |cells| == 0 then g
    else
      var c := cells[PickIndex(|cells|, pick)];
      assert c in cells;
      FillCell(g, c, value);
      SetCell(g, c.row, c.col, value)
  }

  /**
   The spawn writes the value into its chosen cell, which was empty, and
   leaves every other cell as it was.
   */
  lemma AddNewTileCell(g: Grid, pick: nat, value: nat)
    requires value == 2 || value == 4
    requires HasEmpty(g)
    ensures var cells := EmptyCells(g);
      var c := cells[PickIndex(|cells|, pick)];
      && InGrid(c.row, c.col)
      && g[c.row][c.col] == 0
      && AddNewTile(g, pick, value)[c.row][c.col] == value
      && forall i, j :: InGrid(i, j) && (i != c.row || j != c.col) ==> AddNewTile(g, pick, value)[i][j] == g[i][j]
  {
    var cells := EmptyCells(g);
    var c := cells[PickIndex(|cells|, pick)];
    assert c in cells;
    FillCell(g, c, value);
  }

  /** Every empty cell is the one some pick fills. */
  lemma AddNewTileReaches(g: Grid, i: nat, j: nat, value: nat)
    requires value == 2 || value == 4
    requires InGrid(i, j) && g[i][j] == 0
    ensures exists pick: nat :: AddNewTile(g, pick, value)[i][j] == value
  {
    var cells := EmptyCells(g);
    assert Cell(i, j) in cells;
    var k :| 0 <= k < |cells| && cells[k] == Cell(i, j);
    AddNewTileCell(g, k, value);
  }

  /** What writing a new tile into an empty cell does to the board. */
  lemma FillCell(g: Grid, c: Cell, value: nat)
    requires InGrid(c.row, c.col) && g[c.row][c.col] == 0
    requires value == 2 || value == 4
    ensures IsGrid(SetCell(g, c.row, c.col, value))
    ensures SetCell(g, c.row, c.col, value)[c.row][c.col] == value
    ensures forall i, j :: InGrid(i, j) && (i != c.row || j != c.col) ==> SetCell(g, c.row, c.col, value)[i][j] == g[i][j]
    ensures GridTotal(SetCell(g, c.row, c.col, value), Blanks) + 1 == GridTotal(g, Blanks)
    ensures GridTotal(SetCell(g, c.row, c.col, value), Tiles) == GridTotal(g, Tiles) + 1
    ensures GridTotal(SetCell(g, c.row, c.col, value), Value) == GridTotal(g, Value) + value
    ensures ValidGrid(g) ==> ValidGrid(SetCell(g, c.row, c.col, value))
  {
    GridTotalUpdate(g, c.row, c.col, value, Blanks);
    GridTotalUpdate(g, c.row, c.col, value, Value);
    GridTotalUpdate(g, c.row, c.col, value, Tiles);
    assert IsPowerOfTwo(2) && IsPowerOfTwo(4);
  }

  // ---------------------------------------------------------------------------
  // End of game

  /**
   The game is over when no cell is empty and no two orthogonally adjacent
   cells hold equal values.
   */
  predicate GameOver(g: Grid)
  {
    && !HasEmpty(g)
    && (forall i, j {:trigger g[i][j + 1]} :: 0 <= i < GRID_SIZE && 0 <= j < GRID_SIZE - 1 ==> g[i][j] != g[i][j + 1])
    && (forall i, j {:trigger g[i + 1][j]} :: 0 <= i < GRID_SIZE - 1 && 0 <= j < GRID_SIZE ==> g[i][j] != g[i + 1][j])
  }

  /**
   The end-of-game test as written: one loop pair compares g[i][j] with its
   right neighbour and, with the indices swapped, g[j][i] with the cell below.
   On a square board this covers every orthogonal pair.
   */
  method IsGameOver(g: Grid) returns (over: bool)
    ensures over == GameOver(g)
    ensures HasEmpty(g) ==> !over
  {
    if HasEmpty(g) {
      return false;
    }
    for i := 0 to GRID_SIZE
      invariant forall r, c {:trigger g[r][c + 1]} :: 0 <= r < i && 0 <= c < GRID_SIZE - 1 ==> g[r][c] != g[r][c + 1]
      invariant forall r, c {:trigger g[r + 1][c]} :: 0 <= r < GRID_SIZE - 1 && 0 <= c < i ==> g[r][c] != g[r + 1][c]
    {
      for j := 0 to GRID_SIZE - 1
        invariant forall r, c {:trigger g[r][c + 1]} :: 0 <= r < i && 0 <= c < GRID_SIZE - 1 ==> g[r][c] != g[r][c + 1]
        invariant forall r, c {:trigger g[r + 1][c]} :: 0 <= r < GRID_SIZE - 1 && 0 <= c < i ==> g[r][c] != g[r + 1][c]
        invariant forall c :: 0 <= c < j ==> g[i][c] != g[i][c + 1]
        invariant forall r {:trigger g[r + 1][i]} :: 0 <= r < j ==> g[r][i] != g[r + 1][i]
      {
        if g[i][j] == g[i][j + 1] || g[j][i] == g[j + 1][i] {
          return false;
        }
      }
    }
    return true;
  }
}
