/**
 * The Puzzle object: a fixed array of tile records updated in place, and the
 * reference to the empty tile's record, kept as its index in the array.
 */
module Game {
  import opened Wrappers
  import opened Grid
  import opened Moves
  import opened Shuffle
  import opened Input

  class Puzzle {
    const columns: int
    const rows: int
    const tiles: array<Tile>
    var emptyTile: Option<nat>

    /** The board this object holds. */
    ghost function Model(): Board
      reads this, tiles
    {
      Board(columns, rows, tiles[..], emptyTile)
    }

    ghost predicate Valid()
      reads this, tiles
    {
      Grid.Valid(Model())
    }

    /**
     * Builds the tiles in scan order, id y * columns + x standing on (x, y) and
     * showing image cell (x, y), and takes the record on (emptyX, emptyY) as the
     * empty tile.
     */
    constructor (columns: int, rows: int, emptyX: int, emptyY: int)
      requires InBounds(columns, rows, emptyX, emptyY)
      ensures Valid() && Model() == Solved(columns, rows, emptyX, emptyY)
      ensures fresh(tiles)
    {
      var a, e := BuildTiles(columns, rows, emptyX, emptyY);
      this.columns := columns;
      this.rows := rows;
      tiles := a;
      emptyTile := e;
      new;
      assert Model() == Solved(columns, rows, emptyX, emptyY);
    }

    /** The two loops of the constructor: push the tiles row by row and note the one on (emptyX, emptyY). */
    static method BuildTiles(columns: int, rows: int, emptyX: int, emptyY: int) returns (a: array<Tile>, e: Option<nat>)
      requires InBounds(columns, rows, emptyX, emptyY)
      ensures fresh(a)
      ensures a[..] == SolvedTiles(columns, rows) && e == Some(Cell(columns, emptyX, emptyY))
    {
      AreaIsProduct(columns, rows);
      a := new Tile[columns * rows];
      e := None;
      var y := 0;
      while y < rows
        invariant 0 <= y <= rows && Cell(columns, 0, y) <= a.Length
        invariant forall i :: 0 <= i < Cell(columns, 0, y) ==> a[i] == SolvedTile(columns, i)
        invariant e == if emptyY < y then Some(Cell(columns, emptyX, emptyY)) else None
      {
        Bound(columns, rows, columns - 1, y);
        NextRow(columns, y);
        e := BuildRow(a, columns, rows, emptyX, emptyY, y, e);
        y := y + 1;
      }
      assert a[..] == SolvedTiles(columns, rows);
    }

    /** The inner loop of the constructor: push the tiles of row y. */
    static method BuildRow(a: array<Tile>, columns: int, rows: int, emptyX: int, emptyY: int, y: int, e0: Option<nat>)
      returns (e: Option<nat>)
      requires InBounds(columns, rows, emptyX, emptyY) && 0 <= y < rows && Cell(columns, 0, y + 1) <= a.Length
      requires forall i :: 0 <= i < Cell(columns, 0, y) ==> a[i] == SolvedTile(columns, i)
      requires e0 == if emptyY < y then Some(Cell(columns, emptyX, emptyY)) else None
      modifies a
      ensures forall i :: 0 <= i < Cell(columns, 0, y + 1) ==> a[i] == SolvedTile(columns, i)
      ensures e == if emptyY < y + 1 then Some(Cell(columns, emptyX, emptyY)) else None
    {
      NextRow(columns, y);
      e := e0;
      var x := 0;
      while x < columns
        invariant 0 <= x <= columns
        invariant forall i :: 0 <= i < Cell(columns, x, y) ==> a[i] == SolvedTile(columns, i)
        invariant e == if emptyY < y || (emptyY == y && emptyX < x) then Some(Cell(columns, emptyX, emptyY)) else None
      {
        Decode(columns, x, y);
        var k := y * columns + x;
        if x == emptyX && y == emptyY {
          e := Some(k);
        }
        a[k] := Tile(k, x, y, x, y);
        x := x + 1;
      }
    }

    /**
     * switchTiles: finds the tile on (x, y); if (x, y) is orthogonally adjacent
     * to the empty tile, that tile takes the empty tile's cell and the empty tile
     * takes (x, y). A passing target must hold a tile, as the source dereferences it.
     */
    method SwitchTiles(x: int, y: int) returns (moved: bool)
      requires Valid() && emptyTile.Some?
      requires Movable(Model(), x, y) ==> Find(tiles[..], x, y).Some?
      modifies tiles
      ensures Valid()
      ensures moved == Movable(old(Model()), x, y)
      ensures Model() == Switch(old(Model()), x, y)
    {
      ghost var before := Model();
      var selected := Find(tiles[..], x, y);
      var e := emptyTile.value;
      var distanceX := Abs(x - tiles[e].x);
      var distanceY := Abs(y - tiles[e].y);
      if (distanceX == 1 && y == tiles[e].y) || (distanceY == 1 && x == tiles[e].x) {
        var s := selected.value;
        ghost var empty := tiles[e];
        tiles[s] := tiles[s].(x := tiles[e].x, y := tiles[e].y);
        tiles[e] := tiles[e].(x := x, y := y);
        assert tiles[..] == before.tiles[s := before.tiles[s].(x := empty.x, y := empty.y)][e := empty.(x := x, y := y)];
        moved := true;
      } else {
        moved := false;
      }
      assert Model() == Switch(before, x, y);
    }

    /** checkIsComplete: every tile stands on the cell its id names. */
    method CheckIsComplete() returns (complete: bool)
      ensures complete == IsComplete(Model())
    {
      var i := 0;
      while i < tiles.Length
        invariant 0 <= i <= tiles.Length
        invariant forall k :: 0 <= k < i ==> tiles[k].id == Cell(columns, tiles[k].x, tiles[k].y)
      {
        var tile := tiles[i];
        if tile.id != tile.y * columns + tile.x {
          return false;
        }
        i := i + 1;
      }
      return true;
    }

    /** winGame: the empty-tile reference is cleared, which freezes the board. */
    method WinGame()
      requires Valid()
      modifies this
      ensures Valid() && Model() == old(Model()).(empty := None)
    {
      emptyTile := None;
    }

    /**
     * makeMove: ignores targets off the board and a won board; otherwise
     * switches, and wins when the switch moved a tile and left the board complete.
     */
    method MakeMove(x: int, y: int)
      requires Valid()
      modifies this, tiles
      ensures Valid() && Model() == Moves.MakeMove(old(Model()), x, y)
    {
      if x < 0 || x >= columns || y < 0 || y >= rows {
        return;
      }
      if emptyTile.Some? {
        EveryCellHoldsOneTile(Model(), x, y);
        var moved := SwitchTiles(x, y);
        if moved {
          var complete := CheckIsComplete();
          if complete {
            WinGame();
          }
        }
      }
    }

    /** onClick, given the cell the pointer is over. */
    method OnClick(x: int, y: int)
      requires Valid()
      modifies this, tiles
      ensures Valid() && Model() == Moves.MakeMove(old(Model()), x, y)
    {
      if emptyTile.None? {
        return;
      }
      MakeMove(x, y);
    }

    /** onKeyDown: shifts the empty cell by the key's inverted direction and moves there. */
    method OnKeyDown(keyCode: int)
      requires Valid()
      modifies this, tiles
      ensures Valid()
      ensures old(emptyTile).None? ==> Model() == old(Model())
      ensures old(emptyTile).Some? ==>
        var t := KeyTarget(keyCode, old(EmptyTile(Model())).x, old(EmptyTile(Model())).y);
        Model() == Moves.MakeMove(old(Model()), t.0, t.1)
    {
      if emptyTile.None? {
        return;
      }
      var x, y := tiles[emptyTile.value].x, tiles[emptyTile.value].y;
      if keyCode == 37 || keyCode == 65 {
        x := x + 1;
      } else if keyCode == 39 || keyCode == 68 {
        x := x - 1;
      } else if keyCode == 38 || keyCode == 87 {
        y := y + 1;
      } else if keyCode == 40 || keyCode == 83 {
        y := y - 1;
      }
      assert (x, y) == KeyTarget(keyCode, tiles[emptyTile.value].x, tiles[emptyTile.value].y);
      MakeMove(x, y);
    }

    /** onTouchEnd: classifies the swipe from (startX, startY) to (endX, endY) and moves in its inverted direction. */
    method OnTouchEnd(startX: int, startY: int, endX: int, endY: int)
      requires Valid()
      modifies this, tiles
      ensures Valid()
      ensures old(emptyTile).None? ==> Model() == old(Model())
      ensures old(emptyTile).Some? ==>
        var t := Target(SwipeDirection(startX, startY, endX, endY), old(EmptyTile(Model())).x, old(EmptyTile(Model())).y);
        Model() == Moves.MakeMove(old(Model()), t.0, t.1)
    {
      if emptyTile.None? {
        return;
      }
      var ex, ey := tiles[emptyTile.value].x, tiles[emptyTile.value].y;
      var diffX := Abs(endX - startX);
      var diffY := Abs(endY - startY);
      ghost var t := Target(SwipeDirection(startX, startY, endX, endY), ex, ey);
      if diffX > diffY {
        if endX < startX {
          assert t == (ex + 1, ey);
          MakeMove(ex + 1, ey);
        } else {
          assert t == (ex - 1, ey);
          MakeMove(ex - 1, ey);
        }
      } else {
        if endY < startY {
          assert t == (ex, ey + 1);
          MakeMove(ex, ey + 1);
        } else {
          assert t == (ex, ey - 1);
          MakeMove(ex, ey - 1);
        }
      }
    }

    /** randomlyPlay: columns * rows * 100 iterations, each trying the guarded switch its draw selects. */
    method RandomlyPlay(draws: seq<int>)
      requires Valid() && emptyTile.Some? && |draws| == columns * rows * 100
      modifies tiles
      ensures Valid() && Model() == Walk(old(Model()), draws)
    {
      ghost var goal := Walk(Model(), draws);
      var count := columns * rows * 100;
      var i := 0;
      while i < count
        invariant 0 <= i <= |draws| == count
        invariant Valid() && emptyTile == old(emptyTile)
        invariant Walk(Model(), draws[i..]) == goal
      {
        RandomMove(draws[i]);
        assert draws[i..][1..] == draws[i + 1..];
        i := i + 1;
      }
    }

    /** One iteration of randomlyPlay: draw c picks a neighbour of the empty tile, switched only if it is on the board. */
    method RandomMove(c: int)
      requires Valid() && emptyTile.Some?
      modifies tiles
      ensures Valid() && emptyTile == old(emptyTile) && Model() == Step(old(Model()), c)
    {
      ghost var before := Model();
      var empty := tiles[emptyTile.value];
      assert empty == EmptyTile(before) && before.columns == columns && before.rows == rows;
      match c {
        case 0 =>
          if empty.x > 0 {
            Slide(0, empty.x - 1, empty.y);
          }
        case 1 =>
          if empty.x < columns - 1 {
            Slide(1, empty.x + 1, empty.y);
          }
        case 2 =>
          if empty.y > 0 {
            Slide(2, empty.x, empty.y - 1);
          }
        case 3 =>
          if empty.y < rows - 1 {
            Slide(3, empty.x, empty.y + 1);
          }
        case _ =>
      }
    }

    /** The switchTiles call of one randomlyPlay case, once its guard has held. */
    method Slide(ghost c: int, x: int, y: int)
      requires Valid() && emptyTile.Some? && WalkTarget(Model(), c) == Some((x, y))
      modifies tiles
      ensures Valid() && emptyTile == old(emptyTile) && Model() == Step(old(Model()), c)
    {
      EveryCellHoldsOneTile(Model(), x, y);
      var _ := SwitchTiles(x, y);
    }

    /** startGame: the live shuffle is the random walk (drawing is not modelled). */
    method StartGame(draws: seq<int>)
      requires Valid() && emptyTile.Some? && |draws| == columns * rows * 100
      modifies tiles
      ensures Valid() && Model() == Walk(old(Model()), draws)
    {
      RandomlyPlay(draws);
    }

    /** checkIsSolvable: counts the inversions of the ids in array order and applies the parity rule. */
    method CheckIsSolvable() returns (solvable: bool)
      requires Valid() && CanCheckSolvable(Model())
      ensures solvable == Solvable(Model())
    {
      var inversions := 0;
      var i := 0;
      while i < tiles.Length - 1
        invariant 0 <= i <= tiles.Length - 1
        invariant inversions + PairsFrom(tiles[..], i) == Inversions(tiles[..])
      {
        var j := i + 1;
        while j < tiles.Length
          invariant i + 1 <= j <= tiles.Length
          invariant inversions + Greater(tiles[..], i, j) + PairsFrom(tiles[..], i + 1) == Inversions(tiles[..])
        {
          if tiles[i].id > tiles[j].id {
            inversions := inversions + 1;
          }
          j := j + 1;
        }
        i := i + 1;
      }
      if columns % 2 == 1 {
        return inversions % 2 == 0;
      } else {
        if (rows - tiles[emptyTile.value].y) % 2 == 0 {
          return inversions % 2 == 1;
        } else {
          return inversions % 2 == 0;
        }
      }
    }

    /** The Fisher-Yates loop of randomiseTiles; the empty-tile reference follows its record. */
    method ShuffleTiles(draws: seq<int>)
      requires 0 < tiles.Length && Draws(tiles.Length - 1, draws)
      modifies this, tiles
      ensures Model() == FisherYates(old(Model()), tiles.Length - 1, draws)
      ensures old(Valid()) ==> Valid()
    {
      ghost var start := Model();
      ghost var goal := FisherYates(Model(), tiles.Length - 1, draws);
      var i := tiles.Length - 1;
      while i > 0
        invariant 0 <= i <= |draws| == tiles.Length - 1
        invariant FisherYates(Model(), i, draws) == goal
        decreases i
      {
        ghost var before := Model();
        var j := draws[tiles.Length - 1 - i];
        FisherYatesStep(before, i, draws);
        Swap(i, j);
        assert Model() == SwapTiles(before, i, draws[|draws| - i]);
        i := i - 1;
      }
      FisherYatesPermutes(start, tiles.Length - 1, draws);
    }

    /** One exchange of the Fisher-Yates loop: `[tiles[i], tiles[j]] = [tiles[j], tiles[i]]`. */
    method Swap(i: nat, j: nat)
      requires i < tiles.Length && j < tiles.Length
      modifies this, tiles
      ensures Model() == SwapTiles(old(Model()), i, j)
      ensures old(Valid()) ==> Valid()
    {
      ghost var before := Model();
      SwapTilesPermutes(before, i, j);
      var tile := tiles[i];
      tiles[i] := tiles[j];
      tiles[j] := tile;
      emptyTile := Follow(emptyTile, i, j);
      assert Model() == SwapTiles(before, i, j);
    }

    /** The placement loop of randomiseTiles: tiles[y * columns + x] goes to (x, y). */
    method PlaceTiles()
      requires 0 < columns && 0 < rows && tiles.Length == Area(columns, rows)
      modifies tiles
      ensures Model() == Place(old(Model()))
      ensures old(Valid()) ==> Valid()
    {
      ghost var orig := tiles[..];
      ghost var placed := seq(tiles.Length, k requires 0 <= k < tiles.Length => orig[k].(x := k % columns, y := k / columns));
      ghost var start := 0;
      var y := 0;
      while y < rows
        invariant 0 <= y <= rows && start == Cell(columns, 0, y) && start <= tiles.Length == |orig|
        invariant forall k :: 0 <= k < start ==> tiles[k] == placed[k]
        invariant forall k :: start <= k < tiles.Length ==> tiles[k] == orig[k]
      {
        Bound(columns, rows, columns - 1, y);
        NextRow(columns, y);
        PlaceRow(y, start, placed);
        start := start + columns;
        y := y + 1;
      }
      LastRow(columns, rows);
      assert tiles[..] == placed;
      assert Model() == Place(old(Model()));
    }

    /** The inner placement loop: the tiles of row y, from index start on, go to their cells in that row. */
    method PlaceRow(y: int, ghost start: int, ghost goal: seq<Tile>)
      requires 0 < columns && 0 <= y && start == Cell(columns, 0, y) && 0 <= start
      requires start + columns <= tiles.Length == |goal|
      requires forall k :: start <= k < start + columns ==> goal[k] == tiles[k].(x := k % columns, y := k / columns)
      modifies tiles
      ensures forall k :: start <= k < start + columns ==> tiles[k] == goal[k]
      ensures forall k :: 0 <= k < tiles.Length && !(start <= k < start + columns) ==> tiles[k] == old(tiles[k])
    {
      var x := 0;
      while x < columns
        invariant 0 <= x <= columns
        invariant forall k :: start <= k < start + x ==> tiles[k] == goal[k]
        invariant forall k :: 0 <= k < tiles.Length && !(start <= k < start + x) ==> tiles[k] == old(tiles[k])
      {
        Decode(columns, x, y);
        var tile := tiles[y * columns + x];
        tiles[y * columns + x] := tile.(x := x, y := y);
        x := x + 1;
      }
    }

    /** One pass of the do-while loop of randomiseTiles: shuffle, place, then check solvability. */
    method RunTrial(draws: seq<int>) returns (solvable: bool)
      requires Valid() && CanCheckSolvable(Model()) && Draws(tiles.Length - 1, draws)
      modifies this, tiles
      ensures Valid() && CanCheckSolvable(Model()) && Model() == Trial(old(Model()), draws)
      ensures solvable == Solvable(Model())
    {
      ghost var start := Model();
      ShuffleTiles(draws);
      ghost var shuffled := Model();
      FisherYatesPermutes(start, tiles.Length - 1, draws);
      PlaceTiles();
      assert Model() == Place(shuffled);
      solvable := CheckIsSolvable();
    }

    /**
     * randomiseTiles: shuffle and place until checkIsSolvable accepts, one trial
     * per element of trials; the result says whether the last trial was accepted.
     */
    method RandomiseTiles(trials: seq<seq<int>>) returns (solvable: bool)
      requires Valid() && CanCheckSolvable(Model()) && |trials| > 0 && TrialDraws(tiles.Length, trials)
      modifies this, tiles
      ensures Valid() && Model() == Randomise(old(Model()), trials)
      ensures solvable == Solvable(Model())
    {
      ghost var goal := Randomise(Model(), trials);
      solvable := RunTrial(trials[0]);
      TrialDrawsSuffix(tiles.Length, trials, 1);
      var t := 1;
      while !solvable && t < |trials|
        invariant 1 <= t <= |trials|
        invariant Valid() && CanCheckSolvable(Model())
        invariant solvable == Solvable(Model())
        invariant TrialDraws(tiles.Length, trials[t..])
        invariant Retry(Model(), trials[t..]) == goal
      {
        RetryStep(Model(), trials, t);
        solvable := RunTrial(trials[t]);
        t := t + 1;
      }
    }

    /** newGame once the image has loaded: build the solved board, then start the game. */
    static method NewGame(columns: int, rows: int, emptyX: int, emptyY: int, draws: seq<int>) returns (p: Puzzle)
      requires InBounds(columns, rows, emptyX, emptyY) && |draws| == columns * rows * 100
      ensures fresh(p) && fresh(p.tiles)
      ensures p.Valid() && p.Model() == Walk(Solved(columns, rows, emptyX, emptyY), draws)
    {
      p := new Puzzle(columns, rows, emptyX, emptyY);
      p.StartGame(draws);
    }
  }
}
