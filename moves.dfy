/**
 * The move engine: switchTiles, makeMove and the win that freezes the board.
 */
module Moves {
  import opened Wrappers
  import opened Grid

  function Abs(n: int): nat {
    if n < 0 then -n else n
  }

  /** The test of switchTiles: (x, y) is in the empty cell's row at x-distance 1, or in its column at y-distance 1. */
  predicate Adjacent(ex: int, ey: int, x: int, y: int) {
    (Abs(x - ex) == 1 && y == ey) || (Abs(y - ey) == 1 && x == ex)
  }

  /** The board has an empty tile and (x, y) passes the switchTiles test against it. */
  predicate Movable(b: Board, x: int, y: int) {
    b.empty.Some? && b.empty.value < |b.tiles| && Adjacent(EmptyTile(b).x, EmptyTile(b).y, x, y)
  }

  /** The switchTiles test is exactly "Manhattan distance one"; in particular the empty cell itself never passes. */
  lemma AdjacentIsUnitStep(ex: int, ey: int, x: int, y: int)
    ensures Adjacent(ex, ey, x, y) <==> Abs(x - ex) + Abs(y - ey) == 1
    ensures !Adjacent(ex, ey, ex, ey)
  {
  }

  /**
   * switchTiles: when (x, y) passes the test, the tile found there takes the empty
   * tile's cell and the empty tile takes (x, y); otherwise nothing changes. The
   * source dereferences the found tile, so a passing target must hold one.
   */
  function Switch(b: Board, x: int, y: int): (r: Board)
    requires b.empty.Some? && b.empty.value < |b.tiles|
    requires Movable(b, x, y) ==> Find(b.tiles, x, y).Some?
    ensures r.columns == b.columns && r.rows == b.rows && r.empty == b.empty && |r.tiles| == |b.tiles|
    ensures r != b <==> Movable(b, x, y)
    ensures Movable(b, x, y) ==> At(EmptyTile(r), x, y)
    ensures Valid(b) ==> Valid(r)
  {
    var e := b.empty.value;
    var empty := b.tiles[e];
    if Adjacent(empty.x, empty.y, x, y) then
      var s := Find(b.tiles, x, y).value;
      var r := b.(tiles := b.tiles[s := b.tiles[s].(x := empty.x, y := empty.y)][e := empty.(x := x, y := y)]);
      assert r.tiles == Exchange(b.tiles, s, e);
      ExchangeKeepsValid(b, s, e);
      r
    else b
  }

  /** The records s and e trade cells; nothing else changes. */
  function Exchange(ts: seq<Tile>, s: nat, e: nat): (r: seq<Tile>)
    requires s < |ts| && e < |ts|
  {
    ts[s := ts[s].(x := ts[e].x, y := ts[e].y)][e := ts[e].(x := ts[s].x, y := ts[s].y)]
  }

  lemma ExchangeKeepsValid(b: Board, s: nat, e: nat)
    requires s < |b.tiles| && e < |b.tiles| && s != e
    ensures Valid(b) ==> Valid(b.(tiles := Exchange(b.tiles, s, e)))
  {
    var ts := b.tiles;
    var r := Exchange(ts, s, e);
    if Valid(b) {
      forall i | 0 <= i < |r|
        ensures r[i].id == ts[i].id
        ensures exists k :: 0 <= k < |ts| && At(r[i], ts[k].x, ts[k].y) && (k == s <==> i == e) && (k == e <==> i == s) && (i != s && i != e ==> k == i)
      {
        var k := if i == s then e else if i == e then s else i;
        assert At(r[i], ts[k].x, ts[k].y);
      }
      forall i | 0 <= i < |r|
        ensures InBounds(b.columns, b.rows, r[i].x, r[i].y)
      {
        var k := if i == s then e else if i == e then s else i;
        assert At(r[i], ts[k].x, ts[k].y);
      }
      forall i, j | 0 <= i < |r| && 0 <= j < |r| && i != j
        ensures !At(r[i], r[j].x, r[j].y)
      {
        var ki := if i == s then e else if i == e then s else i;
        var kj := if j == s then e else if j == e then s else j;
        assert At(r[i], ts[ki].x, ts[ki].y);
        assert At(r[j], ts[kj].x, ts[kj].y);
        assert ki != kj;
      }
    }
  }

  /**
   * The effect of a passing switchTiles: the tile that stood on (x, y) now stands
   * on the empty tile's old cell, the empty tile stands on (x, y), every other
   * record is untouched, and no record's id or image cell changes.
   */
  lemma SwitchEffect(b: Board, x: int, y: int)
    requires Valid(b) && InBounds(b.columns, b.rows, x, y) && Movable(b, x, y)
    ensures Find(b.tiles, x, y).Some? && Find(b.tiles, x, y).value != b.empty.value
    ensures var r, s, e := Switch(b, x, y), Find(b.tiles, x, y).value, b.empty.value;
      && At(r.tiles[s], b.tiles[e].x, b.tiles[e].y)
      && At(r.tiles[e], x, y)
      && (forall i :: 0 <= i < |b.tiles| && i != s && i != e ==> r.tiles[i] == b.tiles[i])
      && (forall i :: 0 <= i < |b.tiles| ==>
            r.tiles[i].id == b.tiles[i].id && r.tiles[i].imgX == b.tiles[i].imgX && r.tiles[i].imgY == b.tiles[i].imgY)
  {
    EveryCellHoldsOneTile(b, x, y);
  }

  /**
   * Reversibility: after a passing switch, switching at the cell the empty tile
   * left (the moved tile's new cell) passes again and restores the board exactly.
   */
  lemma SwitchBack(b: Board, x: int, y: int)
    requires Valid(b) && InBounds(b.columns, b.rows, x, y) && Movable(b, x, y)
    ensures Find(b.tiles, x, y).Some?
    ensures var r, e := Switch(b, x, y), EmptyTile(b);
      && Movable(r, e.x, e.y)
      && Find(r.tiles, e.x, e.y).Some?
      && Switch(r, e.x, e.y) == b
  {
    EveryCellHoldsOneTile(b, x, y);
    var r, e := Switch(b, x, y), EmptyTile(b);
    var s, ei := Find(b.tiles, x, y).value, b.empty.value;
    assert s != ei;
    assert r.tiles == Exchange(b.tiles, s, ei);
    EveryCellHoldsOneTile(r, e.x, e.y);
    assert At(r.tiles[s], e.x, e.y);
    assert Find(r.tiles, e.x, e.y) == Some(s);
    assert Switch(r, e.x, e.y).tiles == Exchange(r.tiles, s, ei);
    ExchangeTwice(b.tiles, s, ei);
  }

  /** Trading the cells of the same two records twice restores them. */
  lemma ExchangeTwice(ts: seq<Tile>, s: nat, e: nat)
    requires s < |ts| && e < |ts| && s != e
    ensures Exchange(Exchange(ts, s, e), s, e) == ts
  {
    var r := Exchange(Exchange(ts, s, e), s, e);
    forall i | 0 <= i < |ts|
      ensures r[i] == ts[i]
    {
    }
  }

  /** A move makeMove carries out: the target is on the board, the game is not won, and the target passes the switchTiles test. */
  predicate Applied(b: Board, x: int, y: int) {
    InBounds(b.columns, b.rows, x, y) && Movable(b, x, y)
  }

  /**
   * makeMove: out-of-bounds targets and a won board (no empty tile) are ignored;
   * otherwise switchTiles runs and, when it moved a tile and the board is now
   * complete, winGame clears the empty tile.
   */
  function MakeMove(b: Board, x: int, y: int): (r: Board)
    requires Valid(b)
    ensures Valid(r)
    ensures r.columns == b.columns && r.rows == b.rows
  {
    if !InBounds(b.columns, b.rows, x, y) || b.empty.None? then b
    else
      EveryCellHoldsOneTile(b, x, y);
      var moved := Switch(b, x, y);
      if Movable(b, x, y) && IsComplete(moved) then moved.(empty := None) else moved
  }

  /** makeMove changes the board exactly when the move is applied; out-of-bounds, non-adjacent or post-win targets leave it as it was. */
  lemma MakeMoveChangesIffApplied(b: Board, x: int, y: int)
    requires Valid(b)
    ensures MakeMove(b, x, y) != b <==> Applied(b, x, y)
    ensures !Applied(b, x, y) ==> MakeMove(b, x, y) == b
  {
  }

  /**
   * An applied move wins exactly when it leaves the board complete: winGame then
   * clears the empty tile and every later move is a no-op.
   */
  lemma WinFreezes(b: Board, x: int, y: int)
    requires Valid(b) && Applied(b, x, y)
    ensures MakeMove(b, x, y).empty.None? <==> IsComplete(MakeMove(b, x, y))
    ensures MakeMove(b, x, y).empty.Some? ==> MakeMove(b, x, y).empty == b.empty
    ensures IsComplete(MakeMove(b, x, y)) ==>
      forall x', y' :: MakeMove(MakeMove(b, x, y), x', y') == MakeMove(b, x, y)
  {
  }

  /**
   * Moving back: when an applied move does not win and the board before it was
   * not complete, moving at the empty tile's old cell restores the board.
   */
  lemma MakeMoveBack(b: Board, x: int, y: int)
    requires Valid(b) && Applied(b, x, y)
    requires !IsComplete(b) && !IsComplete(MakeMove(b, x, y))
    ensures MakeMove(MakeMove(b, x, y), EmptyTile(b).x, EmptyTile(b).y) == b
  {
    SwitchBack(b, x, y);
    var r, e := MakeMove(b, x, y), EmptyTile(b);
    assert r == Switch(b, x, y);
    assert InBounds(r.columns, r.rows, e.x, e.y);
    assert r.empty.Some? && Movable(r, e.x, e.y);
  }

  /** A sequence of moves, each through makeMove. */
  function Play(b: Board, moves: seq<(int, int)>): (r: Board)
    requires Valid(b)
    ensures Valid(r)
    ensures r.columns == b.columns && r.rows == b.rows
    ensures b.empty.None? ==> r == b
    decreases |moves|
  {
    if |moves| == 0 then b else Play(MakeMove(b, moves[0].0, moves[0].1), moves[1..])
  }
}
