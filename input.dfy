/**
 * The input adapter: keyboard codes and swipe gestures become a direction, and
 * a direction becomes the cell handed to makeMove. The mapping is inverted:
 * "Left" names the way the tile slides, so it targets the cell to the right of
 * the empty cell.
 */
module Input {
  import opened Wrappers
  import opened Grid
  import opened Moves

  datatype Direction = Left | Right | Up | Down

  /** The cell a direction targets, from the empty cell (ex, ey). */
  function Target(d: Direction, ex: int, ey: int): (r: (int, int))
    ensures Adjacent(ex, ey, r.0, r.1)
  {
    match d
    case Left => (ex + 1, ey)
    case Right => (ex - 1, ey)
    case Up => (ex, ey + 1)
    case Down => (ex, ey - 1)
  }

  function Opposite(d: Direction): Direction {
    match d
    case Left => Right
    case Right => Left
    case Up => Down
    case Down => Up
  }

  /** The step a tile takes when it slides in direction d. */
  function Delta(d: Direction): (int, int) {
    match d
    case Left => (-1, 0)
    case Right => (1, 0)
    case Up => (0, -1)
    case Down => (0, 1)
  }

  /** Arrow keys and W/A/S/D: 37 or 65 Left, 39 or 68 Right, 38 or 87 Up, 40 or 83 Down. */
  function KeyDirection(keyCode: int): (r: Option<Direction>)
    ensures r.Some? <==> keyCode in {37, 38, 39, 40, 65, 68, 83, 87}
  {
    if keyCode == 37 || keyCode == 65 then Some(Left)
    else if keyCode == 39 || keyCode == 68 then Some(Right)
    else if keyCode == 38 || keyCode == 87 then Some(Up)
    else if keyCode == 40 || keyCode == 83 then Some(Down)
    else None
  }

  /** The cell onKeyDown hands to makeMove: the empty cell, shifted when the key is mapped. */
  function KeyTarget(keyCode: int, ex: int, ey: int): (r: (int, int))
    ensures r == (ex, ey) <==> KeyDirection(keyCode).None?
    ensures KeyDirection(keyCode).Some? ==> Adjacent(ex, ey, r.0, r.1)
  {
    match KeyDirection(keyCode)
    case None => (ex, ey)
    case Some(d) => Target(d, ex, ey)
  }

  /**
   * The direction of a swipe from (startX, startY) to (endX, endY): horizontal
   * when the x-distance is strictly larger, vertical otherwise (ties included).
   * The tile then slides the way the finger moved along the dominant axis; a
   * tap, which does not move, counts as a swipe down.
   */
  function SwipeDirection(startX: int, startY: int, endX: int, endY: int): (r: Direction)
    ensures (r == Left || r == Right) <==> Abs(endX - startX) > Abs(endY - startY)
    ensures Delta(r).0 * (endX - startX) >= 0 && Delta(r).1 * (endY - startY) >= 0
    ensures endX == startX && endY == startY ==> r == Down
  {
    if Abs(endX - startX) > Abs(endY - startY) then
      (if endX < startX then Left else Right)
    else
      (if endY < startY then Up else Down)
  }

  /**
   * Every direction targets a neighbour of the empty cell, and the tile that
   * slides from that cell into the empty one travels by Delta(d): "Left" slides
   * a tile to the left, which is why it targets the cell at ex + 1. From the
   * target, the opposite direction targets the empty cell again.
   */
  lemma TargetIsNeighbour(d: Direction, ex: int, ey: int)
    ensures Adjacent(ex, ey, Target(d, ex, ey).0, Target(d, ex, ey).1)
    ensures (Target(d, ex, ey).0 + Delta(d).0, Target(d, ex, ey).1 + Delta(d).1) == (ex, ey)
    ensures Target(Opposite(d), Target(d, ex, ey).0, Target(d, ex, ey).1) == (ex, ey)
  {
  }

  /** A key that is not mapped targets the empty cell itself, which makeMove then ignores. */
  lemma UnmappedKeyIsIgnored(b: Board, keyCode: int)
    requires Valid(b) && b.empty.Some? && KeyDirection(keyCode).None?
    ensures var t := KeyTarget(keyCode, EmptyTile(b).x, EmptyTile(b).y);
      MakeMove(b, t.0, t.1) == b
  {
  }

  /** Swiping back along the same path gives the opposite direction, for any swipe that moves at all. */
  lemma SwipeBackIsOpposite(startX: int, startY: int, endX: int, endY: int)
    requires (startX, startY) != (endX, endY)
    ensures SwipeDirection(endX, endY, startX, startY) == Opposite(SwipeDirection(startX, startY, endX, endY))
  {
  }

  /**
   * A direction that moves a tile slides the tile standing on Target(d) by
   * Delta(d), into the empty cell, and leaves the empty tile on Target(d).
   */
  lemma DirectionSlidesTile(b: Board, d: Direction)
    requires Valid(b) && b.empty.Some?
    requires Applied(b, Target(d, EmptyTile(b).x, EmptyTile(b).y).0, Target(d, EmptyTile(b).x, EmptyTile(b).y).1)
    ensures var t := Target(d, EmptyTile(b).x, EmptyTile(b).y);
      && Find(b.tiles, t.0, t.1).Some?
      && var s := Find(b.tiles, t.0, t.1).value;
      && At(MakeMove(b, t.0, t.1).tiles[s], t.0 + Delta(d).0, t.1 + Delta(d).1)
      && At(MakeMove(b, t.0, t.1).tiles[b.empty.value], t.0, t.1)
  {
    var t := Target(d, EmptyTile(b).x, EmptyTile(b).y);
    SwitchEffect(b, t.0, t.1);
  }

  /**
   * The opposite key undoes a move: after a direction moved a tile without
   * winning, from a board that was not complete, the opposite direction
   * (computed from the new empty cell) restores the board.
   */
  lemma OppositeUndoes(b: Board, d: Direction)
    requires Valid(b) && b.empty.Some?
    requires Applied(b, Target(d, EmptyTile(b).x, EmptyTile(b).y).0, Target(d, EmptyTile(b).x, EmptyTile(b).y).1)
    requires !IsComplete(b)
    requires !IsComplete(MakeMove(b, Target(d, EmptyTile(b).x, EmptyTile(b).y).0, Target(d, EmptyTile(b).x, EmptyTile(b).y).1))
    ensures var t := Target(d, EmptyTile(b).x, EmptyTile(b).y);
      var m := MakeMove(b, t.0, t.1);
      && m.empty.Some? && m.empty.value < |m.tiles|
      && var u := Target(Opposite(d), EmptyTile(m).x, EmptyTile(m).y);
      && MakeMove(m, u.0, u.1) == b
  {
    var e := EmptyTile(b);
    var t := Target(d, e.x, e.y);
    MakeMoveBack(b, t.0, t.1);
    WinFreezes(b, t.0, t.1);
    var m := MakeMove(b, t.0, t.1);
    assert m.empty == b.empty;
    SwitchEffect(b, t.0, t.1);
    assert At(EmptyTile(m), t.0, t.1);
    TargetIsNeighbour(d, e.x, e.y);
    assert Target(Opposite(d), EmptyTile(m).x, EmptyTile(m).y) == (e.x, e.y);
  }
}
