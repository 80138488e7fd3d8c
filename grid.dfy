/**
 * The grid model of the sliding-tile puzzle: tile records, the board that holds
 * them, the arrangement invariant, the solved board and the completion test.
 */
module Grid {
  import opened Wrappers

  /** A tile record: its solved-position index, its current cell and the image cell it shows. */
  datatype Tile = Tile(id: int, x: int, y: int, imgX: int, imgY: int)

  /**
   * A board: its dimensions, the tile records in array order and the index of the
   * record that is the empty tile (None once the game has been won).
   */
  datatype Board = Board(columns: int, rows: int, tiles: seq<Tile>, empty: Option<nat>)

  predicate InBounds(columns: int, rows: int, x: int, y: int) {
    0 <= x < columns && 0 <= y < rows
  }

  predicate At(t: Tile, x: int, y: int) {
    t.x == x && t.y == y
  }

  /** The scan-order index of cell (x, y). */
  function Cell(columns: int, x: int, y: int): int {
    y * columns + x
  }

  /** The index of the first tile standing on (x, y), as `tiles.find` finds it. */
  function Find(ts: seq<Tile>, x: int, y: int): (r: Option<nat>)
    ensures r.Some? ==> r.value < |ts| && At(ts[r.value], x, y)
    ensures r.Some? ==> forall i :: 0 <= i < r.value ==> !At(ts[i], x, y)
    ensures r.None? <==> forall i :: 0 <= i < |ts| ==> !At(ts[i], x, y)
  {
    if |ts| == 0 then None
    else if At(ts[0], x, y) then Some(0)
    else match Find(ts[1..], x, y)
         case None => None
         case Some(i) => Some(i + 1)
  }

  /** The number of cells of a columns x rows grid: one row of columns cells per row (AreaIsProduct: columns * rows). */
  function Area(columns: int, rows: int): (n: int)
    ensures 0 <= columns ==> 0 <= n
    ensures 0 < columns && 0 < rows ==> columns <= n
    decreases rows
  {
    if rows <= 0 then 0 else Area(columns, rows - 1) + columns
  }

  lemma {:induction false} AreaIsProduct(columns: int, rows: int)
    requires 0 <= rows
    ensures Area(columns, rows) == columns * rows
    decreases rows
  {
    if rows > 0 {
      AreaIsProduct(columns, rows - 1);
    }
  }

  /** Every tile stands inside the grid and no two tiles share a cell. */
  ghost predicate Arranged(columns: int, rows: int, ts: seq<Tile>) {
    && |ts| == Area(columns, rows)
    && (forall i :: 0 <= i < |ts| ==> InBounds(columns, rows, ts[i].x, ts[i].y))
    && (forall i, j :: 0 <= i < |ts| && 0 <= j < |ts| && i != j ==> !At(ts[i], ts[j].x, ts[j].y))
  }

  /** The ids lie in [0, n) and are pairwise distinct. */
  ghost predicate Labelled(ts: seq<Tile>) {
    && (forall i :: 0 <= i < |ts| ==> 0 <= ts[i].id < |ts|)
    && (forall i, j :: 0 <= i < |ts| && 0 <= j < |ts| && i != j ==> ts[i].id != ts[j].id)
  }

  /** The board invariant every operation of the game keeps. */
  ghost predicate Valid(b: Board) {
    && 0 < b.columns && 0 < b.rows
    && Arranged(b.columns, b.rows, b.tiles)
    && Labelled(b.tiles)
    && (b.empty.Some? ==> b.empty.value < |b.tiles|)
  }

  /** The record the empty-tile reference points at. */
  function EmptyTile(b: Board): Tile
    requires b.empty.Some? && b.empty.value < |b.tiles|
  {
    b.tiles[b.empty.value]
  }

  /** Every tile stands on the cell its id names. */
  predicate IsComplete(b: Board) {
    forall i :: 0 <= i < |b.tiles| ==> b.tiles[i].id == Cell(b.columns, b.tiles[i].x, b.tiles[i].y)
  }

  /** The tile pushed at scan index k when the board is built. */
  function SolvedTile(columns: int, k: int): Tile
    requires 0 < columns
  {
    Tile(k, k % columns, k / columns, k % columns, k / columns)
  }

  /** The records the constructor pushes, in scan order. */
  function SolvedTiles(columns: int, rows: int): (ts: seq<Tile>)
    requires 0 < columns
    ensures |ts| == Area(columns, rows) && forall k :: 0 <= k < |ts| ==> ts[k] == SolvedTile(columns, k)
  {
    seq(Area(columns, rows), k => SolvedTile(columns, k))
  }

  /** The freshly built board, with the record at (emptyX, emptyY) as the empty tile. */
  function Solved(columns: int, rows: int, emptyX: int, emptyY: int): (b: Board)
    requires InBounds(columns, rows, emptyX, emptyY)
    ensures b.columns == columns && b.rows == rows
    ensures Valid(b) && b.empty.Some?
  {
    Bound(columns, rows, emptyX, emptyY);
    var ts := SolvedTiles(columns, rows);
    SolvedTilesValid(columns, rows, ts);
    Board(columns, rows, ts, Some(Cell(columns, emptyX, emptyY)))
  }

  lemma SolvedTilesValid(columns: int, rows: int, ts: seq<Tile>)
    requires 0 < columns && 0 < rows
    requires |ts| == Area(columns, rows) && forall k :: 0 <= k < |ts| ==> ts[k] == SolvedTile(columns, k)
    ensures Arranged(columns, rows, ts) && Labelled(ts)
    ensures IsComplete(Board(columns, rows, ts, None))
  {
    var n := Area(columns, rows);
    forall i | 0 <= i < n
      ensures InBounds(columns, rows, ts[i].x, ts[i].y)
      ensures ts[i].id == Cell(columns, ts[i].x, ts[i].y)
    {
      SolvedTileCell(columns, rows, i);
    }
    forall i, j | 0 <= i < n && 0 <= j < n && i != j
      ensures !At(ts[i], ts[j].x, ts[j].y)
    {
      SolvedTileCell(columns, rows, i);
      SolvedTileCell(columns, rows, j);
    }
  }

  /**
   * The built board satisfies the invariant and is complete; the tile at cell
   * (x, y) has id y * columns + x, stands on (x, y) and shows image cell (x, y);
   * and the empty tile is the one on (emptyX, emptyY).
   */
  lemma SolvedIsValid(columns: int, rows: int, emptyX: int, emptyY: int)
    requires InBounds(columns, rows, emptyX, emptyY)
    ensures IsComplete(Solved(columns, rows, emptyX, emptyY))
    ensures forall x, y :: InBounds(columns, rows, x, y) ==>
      && 0 <= Cell(columns, x, y) < |Solved(columns, rows, emptyX, emptyY).tiles|
      && Solved(columns, rows, emptyX, emptyY).tiles[Cell(columns, x, y)] == Tile(Cell(columns, x, y), x, y, x, y)
    ensures At(EmptyTile(Solved(columns, rows, emptyX, emptyY)), emptyX, emptyY)
  {
    var b := Solved(columns, rows, emptyX, emptyY);
    var n := Area(columns, rows);
    SolvedTilesValid(columns, rows, b.tiles);
    forall x, y | InBounds(columns, rows, x, y)
      ensures 0 <= Cell(columns, x, y) < n && b.tiles[Cell(columns, x, y)] == Tile(Cell(columns, x, y), x, y, x, y)
    {
      Bound(columns, rows, x, y);
      Decode(columns, x, y);
    }
    Decode(columns, emptyX, emptyY);
  }

  /** The tile pushed at scan index k stands on a cell of the grid whose index is k. */
  lemma SolvedTileCell(columns: int, rows: int, k: int)
    requires 0 < columns && 0 <= k < Area(columns, rows)
    ensures InBounds(columns, rows, SolvedTile(columns, k).x, SolvedTile(columns, k).y)
    ensures Cell(columns, SolvedTile(columns, k).x, SolvedTile(columns, k).y) == k
  {
    DivBound(columns, rows, k);
    assert k == (k / columns) * columns + k % columns;
  }

  /**
   * Under the invariant every cell of the grid holds exactly one tile, so the
   * search of switchTiles always finds one for an in-bounds target.
   */
  lemma EveryCellHoldsOneTile(b: Board, x: int, y: int)
    requires Valid(b) && InBounds(b.columns, b.rows, x, y)
    ensures Find(b.tiles, x, y).Some?
    ensures forall i :: 0 <= i < |b.tiles| && At(b.tiles[i], x, y) ==> i == Find(b.tiles, x, y).value
  {
    var n := |b.tiles|;
    var cells := seq(n, i requires 0 <= i < n => Cell(b.columns, b.tiles[i].x, b.tiles[i].y));
    forall i | 0 <= i < n
      ensures 0 <= cells[i] < n
    {
      Bound(b.columns, b.rows, b.tiles[i].x, b.tiles[i].y);
    }
    forall i, j | 0 <= i < n && 0 <= j < n && i != j
      ensures cells[i] != cells[j]
    {
      Decode(b.columns, b.tiles[i].x, b.tiles[i].y);
      Decode(b.columns, b.tiles[j].x, b.tiles[j].y);
      assert !At(b.tiles[i], b.tiles[j].x, b.tiles[j].y);
    }
    Bound(b.columns, b.rows, x, y);
    Pigeonhole(cells, Cell(b.columns, x, y));
    var i :| 0 <= i < n && cells[i] == Cell(b.columns, x, y);
    Decode(b.columns, x, y);
    Decode(b.columns, b.tiles[i].x, b.tiles[i].y);
    assert At(b.tiles[i], x, y);
  }

  /**
   * Completion read cell by cell: the board is complete exactly when the tile
   * on every cell (x, y) has id y * columns + x.
   */
  lemma CompleteIffEveryCellHoldsItsTile(b: Board)
    requires Valid(b)
    ensures IsComplete(b) <==>
      forall x, y :: InBounds(b.columns, b.rows, x, y) ==>
        Find(b.tiles, x, y).Some? && b.tiles[Find(b.tiles, x, y).value].id == Cell(b.columns, x, y)
  {
    if IsComplete(b) {
      forall x, y | InBounds(b.columns, b.rows, x, y)
        ensures Find(b.tiles, x, y).Some? && b.tiles[Find(b.tiles, x, y).value].id == Cell(b.columns, x, y)
      {
        EveryCellHoldsOneTile(b, x, y);
      }
    }
    if forall x, y :: InBounds(b.columns, b.rows, x, y) ==>
         Find(b.tiles, x, y).Some? && b.tiles[Find(b.tiles, x, y).value].id == Cell(b.columns, x, y)
    {
      forall i | 0 <= i < |b.tiles|
        ensures b.tiles[i].id == Cell(b.columns, b.tiles[i].x, b.tiles[i].y)
      {
        EveryCellHoldsOneTile(b, b.tiles[i].x, b.tiles[i].y);
      }
    }
  }

  // Arithmetic of scan-order cell indices.

  /** Multiplying by a positive factor keeps the order, in both directions. */
  lemma MulMono(a: int, b: int, c: int)
    requires 0 < c
    ensures a <= b <==> a * c <= b * c
  {
    assert b * c - a * c == (b - a) * c;
  }

  /** A cell index y * columns + x decodes back to (x, y). */
  lemma Decode(columns: int, x: int, y: int)
    requires 0 <= x < columns && 0 <= y
    ensures Cell(columns, x, y) / columns == y && Cell(columns, x, y) % columns == x
  {
    var k := Cell(columns, x, y);
    var q := k / columns;
    assert k == q * columns + k % columns;
    MulMono(y + 1, q, columns);
    assert (y + 1) * columns == y * columns + columns;
    MulMono(q + 1, y, columns);
    assert (q + 1) * columns == q * columns + columns;
  }

  /** The cell just past the end of row y is the first cell of row y + 1. */
  lemma NextRow(columns: int, y: int)
    ensures Cell(columns, columns, y) == Cell(columns, 0, y + 1)
  {
    assert (y + 1) * columns == y * columns + columns;
  }

  /** The first cell past the last row is the cell count. */
  lemma LastRow(columns: int, rows: int)
    requires 0 <= rows
    ensures Cell(columns, 0, rows) == Area(columns, rows)
  {
    AreaIsProduct(columns, rows);
  }

  /** The index of an in-bounds cell lies in [0, columns * rows). */
  lemma Bound(columns: int, rows: int, x: int, y: int)
    requires InBounds(columns, rows, x, y)
    ensures 0 <= Cell(columns, x, y) < Area(columns, rows)
  {
    AreaIsProduct(columns, rows);
    MulMono(0, y, columns);
    MulMono(y + 1, rows, columns);
    assert (y + 1) * columns == y * columns + columns;
  }

  /** An index in [0, columns * rows) names an in-bounds cell. */
  lemma DivBound(columns: int, rows: int, k: int)
    requires 0 < columns && 0 <= k < Area(columns, rows)
    ensures InBounds(columns, rows, k % columns, k / columns)
  {
    assert 0 < rows;
    AreaIsProduct(columns, rows);
    var q := k / columns;
    assert k == q * columns + k % columns;
    MulMono(q, -1, columns);
    MulMono(rows, q, columns);
  }

  // Counting: n distinct values drawn from [0, n) take every value in [0, n).

  function Iota(n: nat): (s: seq<int>)
    ensures |s| == n && forall i :: 0 <= i < n ==> s[i] == i
  {
    if n == 0 then [] else Iota(n - 1) + [n - 1]
  }

  lemma {:induction false} DistinctCard(s: seq<int>)
    requires forall i, j :: 0 <= i < |s| && 0 <= j < |s| && i != j ==> s[i] != s[j]
    ensures |set v | v in s| == |s|
  {
    if |s| > 0 {
      DistinctCard(s[1..]);
      assert (set v | v in s) == (set v | v in s[1..]) + {s[0]};
      forall k | 0 <= k < |s| - 1
        ensures s[1..][k] != s[0]
      {
        assert s[1..][k] == s[k + 1];
      }
    }
  }

  lemma Pigeonhole(s: seq<int>, v: int)
    requires forall i :: 0 <= i < |s| ==> 0 <= s[i] < |s|
    requires forall i, j :: 0 <= i < |s| && 0 <= j < |s| && i != j ==> s[i] != s[j]
    requires 0 <= v < |s|
    ensures v in s
  {
    var image := set u | u in s;
    var range := set u | u in Iota(|s|);
    DistinctCard(s);
    DistinctCard(Iota(|s|));
    assert image <= range by {
      forall u | u in image ensures u in range {
        var i :| 0 <= i < |s| && s[i] == u;
        assert Iota(|s|)[u] == u;
      }
    }
    assert image * range == image;
    assert |range - image| == 0;
    assert Iota(|s|)[v] == v;
    assert v in range;
  }
}
