/**
 One turn of the game as the event loop drives it: a direction given by
 name, the slide, and a spawn exactly when the slide changed the board; and
 the board a new game starts from. The spawn's random choices (which empty
 cell, and whether 2 or 4) are parameters.
 */
module Game {
  import opened Line
  import opened Board
  import opened Moves

  datatype Option<T> = None | Some(value: T)

  /** The names the event loop passes for the four arrow keys. */
  function DirectionName(d: Direction): string
  {
    match d
    case Left => "LEFT"
    case Right => "RIGHT"
    case Up => "UP"
    case Down => "DOWN"
  }

  /** Recognises the four direction names; any other string names no direction. */
  function ParseDirection(name: string): (r: Option<Direction>)
    ensures r.Some? ==> DirectionName(r.value) == name
    ensures forall d :: name == DirectionName(d) ==> r == Some(d)
  {
    if name == "LEFT" then Some(Left)
    else if name == "RIGHT" then Some(Right)
    else if name == "UP" then Some(Up)
    else if name == "DOWN" then Some(Down)
    else None
  }

  /** The board after the sliding part of a move; a name that is no direction slides nothing. */
  function SlideNamed(g: Grid, name: string): Grid
  {
    match ParseDirection(name)
    case None => g
    case Some(d) => Slide(g, d)
  }

  /** A named move that changes the board leaves room for the spawn. */
  lemma SlideNamedLeavesRoom(g: Grid, name: string)
    ensures SlideNamed(g, name) != g ==> HasEmpty(SlideNamed(g, name))
  {
    if SlideNamed(g, name) != g {
      SlideChangedLeavesRoom(g, ParseDirection(name).value);
    }
  }

  /**
   One move: slide, then spawn `value` into the empty cell `pick` chooses,
   exactly when the slide changed the board.
   */
  function Move(g: Grid, name: string, pick: nat, value: nat): (r: Grid)
    requires value == 2 || value == 4
    ensures ParseDirection(name).None? ==> r == g
    ensures r != g <==> SlideNamed(g, name) != g
    ensures SlideNamed(g, name) != g ==> HasEmpty(SlideNamed(g, name))
    ensures SlideNamed(g, name) != g ==> GridTotal(r, Blanks) + 1 == GridTotal(SlideNamed(g, name), Blanks)
    ensures GridTotal(r, Value) == GridTotal(g, Value) + (if SlideNamed(g, name) != g then value else 0)
    ensures GridTotal(r, Tiles) <= GridTotal(g, Tiles) + 1
    ensures ValidGrid(g) ==> ValidGrid(r)
  {
    var slid := SlideNamed(g, name);
    SlideNamedLeavesRoom(g, name);
    if slid != g then AddNewTile(slid, pick, value) else g
  }

  /**
   The move as written: the LEFT/RIGHT row loop or the UP/DOWN column loop,
   a comparison with the copy taken first, and a spawn when they differ.
   */
  method ApplyMove(g: Grid, name: string, pick: nat, value: nat) returns (r: Grid, changed: bool)
    requires value == 2 || value == 4
    ensures r == Move(g, name, pick, value)
    ensures changed <==> r != g
  {
    var original := g;
    r := g;
    if name == "LEFT" || name == "RIGHT" {
      r := SlideRows(r, name == "RIGHT");
    } else if name == "UP" || name == "DOWN" {
      r := SlideColumns(r, name == "DOWN");
    }
    assert r == SlideNamed(g, name);
    changed := r != original;
    if changed {
      r := AddNewTile(r, pick, value);
    }
  }

  /** A new game: two spawns on the empty board. */
  function NewGame(pick1: nat, value1: nat, pick2: nat, value2: nat): (g: Grid)
    requires value1 == 2 || value1 == 4
    requires value2 == 2 || value2 == 4
    ensures GridTotal(g, Tiles) == 2
    ensures GridTotal(g, Value) == value1 + value2
    ensures ValidGrid(g)
  {
    TwoSpawns(EmptyGrid(), pick1, value1, pick2, value2);
    AddNewTile(AddNewTile(EmptyGrid(), pick1, value1), pick2, value2)
  }

  /** One spawn on a board with no tiles leaves one tile and room for another. */
  lemma FirstSpawn(empty: Grid, pick: nat, value: nat)
    requires forall i, j :: InGrid(i, j) ==> empty[i][j] == 0
    requires value == 2 || value == 4
    ensures GridTotal(AddNewTile(empty, pick, value), Tiles) == 1
    ensures GridTotal(AddNewTile(empty, pick, value), Value) == value
    ensures HasEmpty(AddNewTile(empty, pick, value))
    ensures ValidGrid(AddNewTile(empty, pick, value))
  {
    NoTilesTotals(empty);
    var first := AddNewTile(empty, pick, value);
    assert GridTotal(first, Blanks) > 0;
    HasEmptyIffBlanks(first);
  }

  /** Two spawns on a board with no tiles leave exactly the two spawned tiles. */
  lemma TwoSpawns(empty: Grid, pick1: nat, value1: nat, pick2: nat, value2: nat)
    requires forall i, j :: InGrid(i, j) ==> empty[i][j] == 0
    requires value1 == 2 || value1 == 4
    requires value2 == 2 || value2 == 4
    ensures GridTotal(AddNewTile(AddNewTile(empty, pick1, value1), pick2, value2), Tiles) == 2
    ensures GridTotal(AddNewTile(AddNewTile(empty, pick1, value1), pick2, value2), Value) == value1 + value2
    ensures ValidGrid(AddNewTile(AddNewTile(empty, pick1, value1), pick2, value2))
  {
    FirstSpawn(empty, pick1, value1);
  }
}
