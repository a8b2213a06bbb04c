/**
 A move slides every line of the board towards one edge. Each line is read
 in the order the move traverses it, collapsed, and written back; the lines
 never interact.
 */
module Moves {
  import opened Line
  import opened Board

  datatype Direction = Left | Right | Up | Down

  /**
   The board's lines in the order a move traverses them: line k is row k
   (Left), row k read from the right (Right), column k (Up) or column k read
   from the bottom (Down).
   */
  function LinesOf(g: Grid, d: Direction): Grid
  {
    match d
    case Left => g
    case Right => Mirror(g)
    case Up => Transpose(g)
    case Down => Mirror(Transpose(g))
  }

  /** Puts lines given in traversal order back where they belong on the board. */
  function FromLines(d: Direction, h: Grid): Grid
  {
    match d
    case Left => h
    case Right => Mirror(h)
    case Up => Transpose(h)
    case Down => Transpose(Mirror(h))
  }

  lemma LinesRoundTrip(g: Grid, d: Direction)
    ensures FromLines(d, LinesOf(g, d)) == g
    ensures LinesOf(FromLines(d, g), d) == g
  {
    MirrorMirror(g);
    TransposeTranspose(g);
    match d
    case Down =>
      MirrorMirror(Transpose(g));
      TransposeTranspose(Mirror(g));
    case _ =>
  }

  /** Line k of the traversal, written with rows and columns. */
  lemma LineOf(g: Grid, d: Direction, k: nat)
    requires k < GRID_SIZE
    ensures d == Left ==> LinesOf(g, d)[k] == g[k]
    ensures d == Right ==> LinesOf(g, d)[k] == Reverse(g[k])
    ensures d == Up ==> LinesOf(g, d)[k] == Column(g, k)
    ensures d == Down ==> LinesOf(g, d)[k] == Reverse(Column(g, k))
  {
  }

  function CollapseAll(h: Grid): Grid
  {
    seq(GRID_SIZE, k requires 0 <= k < GRID_SIZE => Collapse(h[k]))
  }

  lemma GridTotalLines(g: Grid, d: Direction, m: Measure)
    ensures GridTotal(LinesOf(g, d), m) == GridTotal(g, m)
    ensures GridTotal(FromLines(d, g), m) == GridTotal(g, m)
  {
    GridTotalMirror(g, m);
    GridTotalTranspose(g, m);
    GridTotalMirror(Transpose(g), m);
    GridTotalTranspose(Mirror(g), m);
  }

  lemma ValidLines(g: Grid, d: Direction)
    ensures ValidGrid(LinesOf(g, d)) <==> ValidGrid(g)
    ensures ValidGrid(FromLines(d, g)) <==> ValidGrid(g)
  {
    ValidMirror(g);
    ValidTranspose(g);
    ValidMirror(Transpose(g));
    ValidTranspose(Mirror(g));
  }

  lemma CollapseAllKeeps(h: Grid)
    ensures GridTotal(CollapseAll(h), Value) == GridTotal(h, Value)
    ensures GridTotal(CollapseAll(h), Tiles) <= GridTotal(h, Tiles)
    ensures ValidGrid(h) ==> ValidGrid(CollapseAll(h))
  {
    GridTotalRowwise(h, CollapseAll(h), Value);
    GridTotalRowwise(h, CollapseAll(h), Tiles);
    if ValidGrid(h) {
      forall k | 0 <= k < GRID_SIZE
        ensures ValidLine(CollapseAll(h)[k])
      {
        assert ValidLine(h[k]);
      }
    }
  }

  /**
   The board after sliding towards d, before any tile spawns: every line,
   taken in traversal order, collapsed.
   */
  function Slide(g: Grid, d: Direction): (r: Grid)
    ensures GridTotal(r, Value) == GridTotal(g, Value)
    ensures GridTotal(r, Tiles) <= GridTotal(g, Tiles)
    ensures ValidGrid(g) ==> ValidGrid(r)
  {
    SlideKeeps(g, d);
    FromLines(d, CollapseAll(LinesOf(g, d)))
  }

  lemma SlideKeeps(g: Grid, d: Direction)
    ensures GridTotal(FromLines(d, CollapseAll(LinesOf(g, d))), Value) == GridTotal(g, Value)
    ensures GridTotal(FromLines(d, CollapseAll(LinesOf(g, d))), Tiles) <= GridTotal(g, Tiles)
    ensures ValidGrid(g) ==> ValidGrid(FromLines(d, CollapseAll(LinesOf(g, d))))
  {
    var lines := LinesOf(g, d);
    GridTotalLines(g, d, Value);
    GridTotalLines(g, d, Tiles);
    GridTotalLines(CollapseAll(lines), d, Value);
    GridTotalLines(CollapseAll(lines), d, Tiles);
    CollapseAllKeeps(lines);
    ValidLines(g, d);
    ValidLines(CollapseAll(lines), d);
  }

  /** Read in traversal order, the slid board is the collapse of each line of the old one. */
  lemma SlideByLines(g: Grid, d: Direction)
    ensures LinesOf(Slide(g, d), d) == CollapseAll(LinesOf(g, d))
  {
    LinesRoundTrip(CollapseAll(LinesOf(g, d)), d);
  }

  /** Line k after a move depends on line k before it and on nothing else. */
  lemma SlideLinesIndependent(g: Grid, h: Grid, d: Direction, k: nat)
    requires k < GRID_SIZE
    requires LinesOf(g, d)[k] == LinesOf(h, d)[k]
    ensures LinesOf(Slide(g, d), d)[k] == LinesOf(Slide(h, d), d)[k]
  {
    SlideByLines(g, d);
    SlideByLines(h, d);
  }

  /**
   Row k after LEFT is the collapsed row; after RIGHT it is the reversed,
   collapsed, reversed row; columns likewise for UP and DOWN.
   */
  lemma SlideLine(g: Grid, d: Direction, k: nat)
    requires k < GRID_SIZE
    ensures d == Left ==> Slide(g, d)[k] == Collapse(g[k])
    ensures d == Right ==> Slide(g, d)[k] == Reverse(Collapse(Reverse(g[k])))
    ensures d == Up ==> Column(Slide(g, d), k) == Collapse(Column(g, k))
    ensures d == Down ==> Column(Slide(g, d), k) == Reverse(Collapse(Reverse(Column(g, k))))
  {
    match d
    case Left =>
    case Right => SlideRight(g, k);
    case Up => SlideUp(g, k);
    case Down => SlideDown(g, k);
  }

  lemma SlideRight(g: Grid, k: nat)
    requires k < GRID_SIZE
    ensures Slide(g, Right)[k] == Reverse(Collapse(Reverse(g[k])))
  {
    var c := CollapseAll(Mirror(g));
    assert c[k] == Collapse(Mirror(g)[k]);
    assert Mirror(c)[k] == Reverse(c[k]);
  }

  lemma SlideUp(g: Grid, k: nat)
    requires k < GRID_SIZE
    ensures Column(Slide(g, Up), k) == Collapse(Column(g, k))
  {
    var c := CollapseAll(Transpose(g));
    assert c[k] == Collapse(Transpose(g)[k]);
    assert Column(Transpose(c), k) == c[k];
  }

  lemma SlideDown(g: Grid, k: nat)
    requires k < GRID_SIZE
    ensures Column(Slide(g, Down), k) == Reverse(Collapse(Reverse(Column(g, k))))
  {
    var c := CollapseAll(Mirror(Transpose(g)));
    assert Mirror(Transpose(g))[k] == Reverse(Transpose(g)[k]);
    assert c[k] == Collapse(Mirror(Transpose(g))[k]);
    assert Column(Transpose(Mirror(c)), k) == Mirror(c)[k];
    assert Mirror(c)[k] == Reverse(c[k]);
  }

  /** RIGHT is LEFT on the mirrored board; UP and DOWN are LEFT and RIGHT on the transposed board. */
  lemma SlideSymmetries(g: Grid)
    ensures Slide(g, Right) == Mirror(Slide(Mirror(g), Left))
    ensures Slide(g, Up) == Transpose(Slide(Transpose(g), Left))
    ensures Slide(g, Down) == Transpose(Slide(Transpose(g), Right))
  {
  }

  /** Collapsing every line changes nothing exactly when every line is settled. */
  lemma CollapseAllFixed(h: Grid)
    ensures CollapseAll(h) == h <==> forall k :: 0 <= k < GRID_SIZE ==> Settled(h[k])
  {
    if CollapseAll(h) == h {
      forall k | 0 <= k < GRID_SIZE
        ensures Settled(h[k])
      {
        assert CollapseAll(h)[k] == h[k];
        CollapseFixed(h[k]);
      }
    }
    if forall k :: 0 <= k < GRID_SIZE ==> Settled(h[k]) {
      forall k | 0 <= k < GRID_SIZE
        ensures CollapseAll(h)[k] == h[k]
      {
        CollapseFixed(h[k]);
      }
    }
  }

  /** A move leaves the board as it is exactly when every traversed line is settled. */
  lemma SlideFixed(g: Grid, d: Direction)
    ensures Slide(g, d) == g <==> forall k :: 0 <= k < GRID_SIZE ==> Settled(LinesOf(g, d)[k])
  {
    var lines := LinesOf(g, d);
    var c := CollapseAll(lines);
    assert Slide(g, d) == FromLines(d, c);
    LinesRoundTrip(g, d);
    LinesRoundTrip(c, d);
    CollapseAllFixed(lines);
  }

  /** A move that changes the board leaves at least one empty cell, so a spawn always has room. */
  lemma SlideChangedLeavesRoom(g: Grid, d: Direction)
    requires Slide(g, d) != g
    ensures HasEmpty(Slide(g, d))
  {
    var lines := LinesOf(g, d);
    var c := CollapseAll(lines);
    LinesRoundTrip(g, d);
    assert c != lines;
    var k :| 0 <= k < GRID_SIZE && c[k] != lines[k];
    CollapseChangedLeavesBlank(lines[k]);
    var p :| 0 <= p < GRID_SIZE && c[k][p] == 0;
    BlanksPositiveRows(c);
    GridTotalLines(c, d, Blanks);
    HasEmptyIffBlanks(Slide(g, d));
  }

  /** On a full board, a traversed line is settled exactly when no two neighbours are equal. */
  lemma FullLineSettled(g: Grid, d: Direction, k: nat)
    requires !HasEmpty(g) && k < GRID_SIZE
    ensures Settled(LinesOf(g, d)[k]) <==> NoEqualNeighbours(LinesOf(g, d)[k])
  {
    LineOf(g, d, k);
    SettledNoZero(LinesOf(g, d)[k]);
  }

  /** In a finished game no row and no column holds two equal neighbours. */
  lemma GameOverLines(g: Grid, k: nat)
    requires GameOver(g) && k < GRID_SIZE
    ensures NoEqualNeighbours(g[k])
    ensures NoEqualNeighbours(Column(g, k))
  {
    forall j | 0 <= j < GRID_SIZE - 1
      ensures g[k][j] != g[k][j + 1]
    {
    }
    forall i | 0 <= i < GRID_SIZE - 1
      ensures Column(g, k)[i] != Column(g, k)[i + 1]
    {
      assert g[i][k] != g[i + 1][k];
    }
  }

  /** When the game is over, no move changes the board. */
  lemma GameOverStuck(g: Grid, d: Direction)
    requires GameOver(g)
    ensures Slide(g, d) == g
  {
    forall k | 0 <= k < GRID_SIZE
      ensures Settled(LinesOf(g, d)[k])
    {
      GameOverLines(g, k);
      FullLineSettled(g, d, k);
      LineOf(g, d, k);
      match d
      case Left =>
      case Up =>
      case Right =>
        ReverseNoEqualNeighbours(g[k]);
      case Down =>
        ReverseNoEqualNeighbours(Column(g, k));
    }
    SlideFixed(g, d);
  }

  /** A full board that neither LEFT nor UP changes is a finished game. */
  lemma StuckGameOver(g: Grid)
    requires !HasEmpty(g)
    requires Slide(g, Left) == g && Slide(g, Up) == g
    ensures GameOver(g)
  {
    SlideFixed(g, Left);
    SlideFixed(g, Up);
    forall k | 0 <= k < GRID_SIZE
      ensures NoEqualNeighbours(g[k]) && NoEqualNeighbours(Column(g, k))
    {
      FullLineSettled(g, Left, k);
      FullLineSettled(g, Up, k);
    }
    forall i, j {:trigger g[i + 1][j]} | 0 <= i < GRID_SIZE - 1 && 0 <= j < GRID_SIZE
      ensures g[i][j] != g[i + 1][j]
    {
      assert Column(g, j)[i] != Column(g, j)[i + 1];
    }
  }

  /**
   On a full board the game is over exactly when no direction changes the
   board.
   */
  lemma GameOverIffStuck(g: Grid)
    requires !HasEmpty(g)
    ensures GameOver(g) <==> forall d :: Slide(g, d) == g
  {
    if GameOver(g) {
      forall d
        ensures Slide(g, d) == g
      {
        GameOverStuck(g, d);
      }
    }
    if forall d :: Slide(g, d) == g {
      assert Slide(g, Left) == g && Slide(g, Up) == g;
      StuckGameOver(g);
    }
  }

  // ---------------------------------------------------------------------------
  // The loops of the move as written

  /**
   The LEFT/RIGHT branch: each row, reversed first and last for RIGHT, is
   compacted, merged and padded, then written back as row i.
   */
  method SlideRows(g: Grid, right: bool) returns (r: Grid)
    ensures r == Slide(g, if right then Right else Left)
  {
    var d := if right then Right else Left;
    ghost var slid := Slide(g, d);
    r := g;
    for i := 0 to GRID_SIZE
      invariant forall k :: 0 <= k < i ==> r[k] == slid[k]
      invariant forall k :: i <= k < GRID_SIZE ==> r[k] == g[k]
    {
      var row := r[i];
      if right {
        row := Reverse(row);
      }
      var merges;
      row, merges := CollapseLine(row);
      if right {
        row := Reverse(row);
      }
      SlideLine(g, d, i);
      assert row == slid[i];
      r := SetRow(r, i, row);
    }
  }

  /**
   The UP/DOWN branch: each column, reversed first and last for DOWN, is
   compacted, merged and padded, then written back as column j.
   */
  method SlideColumns(g: Grid, down: bool) returns (r: Grid)
    ensures r == Slide(g, if down then Down else Up)
  {
    var d := if down then Down else Up;
    ghost var slid := Slide(g, d);
    r := g;
    for j := 0 to GRID_SIZE
      invariant forall k :: 0 <= k < j ==> Column(r, k) == Column(slid, k)
      invariant forall k :: j <= k < GRID_SIZE ==> Column(r, k) == Column(g, k)
    {
      var col := Column(r, j);
      if down {
        col := Reverse(col);
      }
      var merges;
      col, merges := CollapseLine(col);
      if down {
        col := Reverse(col);
      }
      SlideLine(g, d, j);
      r := SetColumn(r, j, col);
    }
    ColumnsDetermine(r, slid);
  }
}
