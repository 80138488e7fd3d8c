/**
 * The two shufflers: the random walk of randomlyPlay, and the Fisher-Yates
 * shuffle of randomiseTiles filtered by the inversion-parity test of
 * checkIsSolvable. Random numbers are an injected sequence of draws.
 */
module Shuffle {
  import opened Wrappers
  import opened Grid
  import opened Moves

  // ---------------------------------------------------------------- random walk

  /** The cell a walk draw c asks to slide into the empty cell, when the guard of its case lets it. */
  function WalkTarget(b: Board, c: int): (r: Option<(int, int)>)
    requires b.empty.Some? && b.empty.value < |b.tiles|
    ensures r.Some? ==> Movable(b, r.value.0, r.value.1)
    ensures Valid(b) && r.Some? ==> InBounds(b.columns, b.rows, r.value.0, r.value.1)
    ensures c == 0 && EmptyTile(b).x > 0 ==> r == Some((EmptyTile(b).x - 1, EmptyTile(b).y))
    ensures c == 1 && EmptyTile(b).x < b.columns - 1 ==> r == Some((EmptyTile(b).x + 1, EmptyTile(b).y))
    ensures c == 2 && EmptyTile(b).y > 0 ==> r == Some((EmptyTile(b).x, EmptyTile(b).y - 1))
    ensures c == 3 && EmptyTile(b).y < b.rows - 1 ==> r == Some((EmptyTile(b).x, EmptyTile(b).y + 1))
    ensures !(0 <= c <= 3) ==> r.None?
  {
    var e := EmptyTile(b);
    if c == 0 then (if e.x > 0 then Some((e.x - 1, e.y)) else None)
    else if c == 1 then (if e.x < b.columns - 1 then Some((e.x + 1, e.y)) else None)
    else if c == 2 then (if e.y > 0 then Some((e.x, e.y - 1)) else None)
    else if c == 3 then (if e.y < b.rows - 1 then Some((e.x, e.y + 1)) else None)
    else None
  }

  /** One iteration of randomlyPlay: the switch its draw selects, or nothing. */
  function Step(b: Board, c: int): (r: Board)
    requires Valid(b) && b.empty.Some?
    ensures Valid(r) && r.empty == b.empty
    ensures r.columns == b.columns && r.rows == b.rows
    ensures forall i :: 0 <= i < |b.tiles| ==> r.tiles[i].id == b.tiles[i].id
  {
    match WalkTarget(b, c)
    case None => b
    case Some(t) =>
      EveryCellHoldsOneTile(b, t.0, t.1);
      SwitchEffect(b, t.0, t.1);
      Switch(b, t.0, t.1)
  }

  /** randomlyPlay: one step per draw. */
  function Walk(b: Board, draws: seq<int>): (r: Board)
    requires Valid(b) && b.empty.Some?
    ensures r.columns == b.columns && r.rows == b.rows && r.empty == b.empty && |r.tiles| == |b.tiles|
    decreases |draws|
  {
    if |draws| == 0 then b else Walk(Step(b, draws[0]), draws[1..])
  }

  /**
   * Each step of the walk either does nothing or is the legal switch of a tile
   * into the empty cell: the target it switched is the empty tile's new cell,
   * one orthogonal step from its old one, and the result is exactly that switch.
   */
  lemma StepIsOneSlide(b: Board, c: int)
    requires Valid(b) && b.empty.Some?
    ensures var r := Step(b, c);
      var t := (EmptyTile(r).x, EmptyTile(r).y);
      || r == b
      || (&& Applied(b, t.0, t.1)
          && Find(b.tiles, t.0, t.1).Some?
          && r == Switch(b, t.0, t.1)
          && Abs(t.0 - EmptyTile(b).x) + Abs(t.1 - EmptyTile(b).y) == 1)
  {
    match WalkTarget(b, c)
    case None =>
    case Some(t) =>
      EveryCellHoldsOneTile(b, t.0, t.1);
      AdjacentIsUnitStep(EmptyTile(b).x, EmptyTile(b).y, t.0, t.1);
  }

  /**
   * path is a sequence of legal switches leading from b to r: each target is on
   * the board, passes the switchTiles test, and the next board is that switch.
   */
  predicate Slides(b: Board, path: seq<(int, int)>, r: Board)
    requires Valid(b) && b.empty.Some?
    decreases |path|
  {
    if |path| == 0 then r == b
    else
      && Applied(b, path[0].0, path[0].1)
      && (EveryCellHoldsOneTile(b, path[0].0, path[0].1);
          Slides(Switch(b, path[0].0, path[0].1), path[1..], r))
  }

  /** The whole walk is reachable from its start by at most one legal switch per draw. */
  lemma WalkIsSlides(b: Board, draws: seq<int>)
    requires Valid(b) && b.empty.Some?
    ensures exists path :: |path| <= |draws| && Slides(b, path, Walk(b, draws))
  {
    WalkPathSlides(b, draws);
  }

  /** The targets the walk actually switched, in order. */
  function WalkPath(b: Board, draws: seq<int>): seq<(int, int)>
    requires Valid(b) && b.empty.Some?
    decreases |draws|
  {
    if |draws| == 0 then []
    else
      var s := Step(b, draws[0]);
      if s == b then WalkPath(s, draws[1..])
      else [(EmptyTile(s).x, EmptyTile(s).y)] + WalkPath(s, draws[1..])
  }

  lemma {:induction false} WalkPathSlides(b: Board, draws: seq<int>)
    requires Valid(b) && b.empty.Some?
    ensures |WalkPath(b, draws)| <= |draws| && Slides(b, WalkPath(b, draws), Walk(b, draws))
    decreases |draws|
  {
    if |draws| > 0 {
      var s := Step(b, draws[0]);
      WalkPathSlides(s, draws[1..]);
      if s != b {
        StepIsOneSlide(b, draws[0]);
        SlidesCons(b, (EmptyTile(s).x, EmptyTile(s).y), WalkPath(s, draws[1..]), Walk(s, draws[1..]));
      }
    }
  }

  /** One legal switch in front of a path of legal switches. */
  lemma SlidesCons(b: Board, t: (int, int), rest: seq<(int, int)>, r: Board)
    requires Valid(b) && b.empty.Some? && Applied(b, t.0, t.1) && Find(b.tiles, t.0, t.1).Some?
    requires Slides(Switch(b, t.0, t.1), rest, r)
    ensures Slides(b, [t] + rest, r)
  {
    assert ([t] + rest)[0] == t && ([t] + rest)[1..] == rest;
  }

  /**
   * The walk keeps the invariant, keeps the empty-tile reference on the same
   * record (which therefore stays inside the grid) and never reorders the array:
   * the record at every index keeps its id.
   */
  lemma {:induction false} WalkKeepsArrangement(b: Board, draws: seq<int>)
    requires Valid(b) && b.empty.Some?
    ensures var r := Walk(b, draws);
      && Valid(r) && r.empty == b.empty
      && r.columns == b.columns && r.rows == b.rows
      && InBounds(r.columns, r.rows, EmptyTile(r).x, EmptyTile(r).y)
      && forall i :: 0 <= i < |b.tiles| ==> r.tiles[i].id == b.tiles[i].id
    decreases |draws|
  {
    if |draws| > 0 {
      WalkKeepsArrangement(Step(b, draws[0]), draws[1..]);
    }
  }

  // ---------------------------------------------------------- Fisher-Yates shuffle

  /** What a tile record carries besides its cell: the identity a shuffle must keep. */
  function Label(t: Tile): (int, int, int) {
    (t.id, t.imgX, t.imgY)
  }

  function Labels(ts: seq<Tile>): (r: seq<(int, int, int)>)
    ensures |r| == |ts| && forall k :: 0 <= k < |ts| ==> r[k] == Label(ts[k])
  {
    seq(|ts|, k requires 0 <= k < |ts| => Label(ts[k]))
  }

  /** Where the empty-tile reference points after records i and j trade places in the array. */
  function Follow(e: Option<nat>, i: nat, j: nat): Option<nat> {
    if e == Some(i) then Some(j) else if e == Some(j) then Some(i) else e
  }

  /** `[tiles[i], tiles[j]] = [tiles[j], tiles[i]]`, with the empty-tile reference following its record. */
  function SwapTiles(b: Board, i: nat, j: nat): (r: Board)
    requires i < |b.tiles| && j < |b.tiles|
    ensures r.columns == b.columns && r.rows == b.rows && |r.tiles| == |b.tiles|
    ensures r.empty.Some? <==> b.empty.Some?
    ensures b.empty.Some? && b.empty.value < |b.tiles| ==>
      r.empty.value < |r.tiles| && EmptyTile(r) == EmptyTile(b)
  {
    b.(tiles := b.tiles[i := b.tiles[j]][j := b.tiles[i]], empty := Follow(b.empty, i, j))
  }

  /** An exchange keeps the invariant and the multiset of records (ids and image cells). */
  lemma SwapTilesPermutes(b: Board, i: nat, j: nat)
    requires i < |b.tiles| && j < |b.tiles|
    ensures Valid(b) ==> Valid(SwapTiles(b, i, j))
    ensures multiset(Labels(SwapTiles(b, i, j).tiles)) == multiset(Labels(b.tiles))
  {
    var r := SwapTiles(b, i, j);
    assert Labels(r.tiles) == Labels(b.tiles)[i := Label(b.tiles[j])][j := Label(b.tiles[i])];
    if Valid(b) {
      SwappedArranged(b.columns, b.rows, b.tiles, i, j);
      SwappedLabelled(b.tiles, i, j);
    }
  }

  lemma SwappedArranged(columns: int, rows: int, ts: seq<Tile>, i: nat, j: nat)
    requires i < |ts| && j < |ts| && Arranged(columns, rows, ts)
    ensures Arranged(columns, rows, ts[i := ts[j]][j := ts[i]])
  {
    var r := ts[i := ts[j]][j := ts[i]];
    forall k | 0 <= k < |r|
      ensures r[k] == ts[Follow(Some(k), i, j).value]
    {
    }
  }

  lemma SwappedLabelled(ts: seq<Tile>, i: nat, j: nat)
    requires i < |ts| && j < |ts| && Labelled(ts)
    ensures Labelled(ts[i := ts[j]][j := ts[i]])
  {
    var r := ts[i := ts[j]][j := ts[i]];
    forall k | 0 <= k < |r|
      ensures r[k] == ts[Follow(Some(k), i, j).value]
    {
    }
  }

  /** Draws for the loop from index i down to 1: the k-th draw lies in [0, i - k], as `floor(random() * (i + 1))` does. */
  predicate Draws(i: nat, draws: seq<int>) {
    |draws| == i && forall k :: 0 <= k < i ==> 0 <= draws[k] <= i - k
  }

  /**
   * The Fisher-Yates loop of randomiseTiles from index i down to 1; the turn at
   * index i exchanges it with the draw draws[|draws| - i].
   */
  function FisherYates(b: Board, i: nat, draws: seq<int>): (r: Board)
    requires i <= |draws| < |b.tiles| && Draws(|draws|, draws)
    ensures r.columns == b.columns && r.rows == b.rows && |r.tiles| == |b.tiles|
    ensures r.empty.Some? <==> b.empty.Some?
    decreases i
  {
    if i == 0 then b else FisherYates(SwapTiles(b, i, draws[|draws| - i]), i - 1, draws)
  }

  /**
   * The loop keeps the invariant, permutes the records (ids and image cells) and
   * leaves the empty-tile reference on the record it started on.
   */
  lemma {:induction false} FisherYatesPermutes(b: Board, i: nat, draws: seq<int>)
    requires i <= |draws| < |b.tiles| && Draws(|draws|, draws)
    ensures Valid(b) ==> Valid(FisherYates(b, i, draws))
    ensures multiset(Labels(FisherYates(b, i, draws).tiles)) == multiset(Labels(b.tiles))
    ensures b.empty.Some? && b.empty.value < |b.tiles| ==>
      var r := FisherYates(b, i, draws);
      r.empty.value < |r.tiles| && EmptyTile(r) == EmptyTile(b)
    decreases i
  {
    if i > 0 {
      var c := SwapTiles(b, i, draws[|draws| - i]);
      SwapTilesPermutes(b, i, draws[|draws| - i]);
      FisherYatesPermutes(c, i - 1, draws);
    }
  }

  /** The first turn of the loop from index i: exchange index i with draws[|draws| - i], then run the loop from i - 1. */
  lemma FisherYatesStep(b: Board, i: nat, draws: seq<int>)
    requires 0 < i <= |draws| < |b.tiles| && Draws(|draws|, draws)
    ensures 0 <= draws[|draws| - i] <= i
    ensures FisherYates(b, i, draws) == FisherYates(SwapTiles(b, i, draws[|draws| - i]), i - 1, draws)
  {
  }

  /** The placement loop of randomiseTiles: the record at scan index k goes to cell (k % columns, k / columns). */
  function Place(b: Board): (r: Board)
    requires 0 < b.columns
    ensures r.columns == b.columns && r.rows == b.rows && r.empty == b.empty && |r.tiles| == |b.tiles|
    ensures Labels(r.tiles) == Labels(b.tiles)
    ensures forall k :: 0 <= k < |r.tiles| ==> At(r.tiles[k], k % b.columns, k / b.columns)
    ensures Valid(b) ==> Valid(r)
  {
    var r := b.(tiles := seq(|b.tiles|, k requires 0 <= k < |b.tiles| => b.tiles[k].(x := k % b.columns, y := k / b.columns)));
    PlaceKeepsValid(b, r);
    r
  }

  lemma PlaceKeepsValid(b: Board, r: Board)
    requires 0 < b.columns && r.columns == b.columns && r.rows == b.rows && r.empty == b.empty
    requires |r.tiles| == |b.tiles|
    requires forall k :: 0 <= k < |r.tiles| ==> r.tiles[k] == b.tiles[k].(x := k % b.columns, y := k / b.columns)
    ensures Valid(b) ==> Valid(r)
  {
    if Valid(b) {
      forall k | 0 <= k < |r.tiles|
        ensures InBounds(r.columns, r.rows, r.tiles[k].x, r.tiles[k].y)
        ensures Cell(r.columns, r.tiles[k].x, r.tiles[k].y) == k
      {
        SolvedTileCell(b.columns, b.rows, k);
      }
    }
  }

  /** Record k of the array stands on cell k of the scan order. */
  predicate ScanOrdered(b: Board)
    requires 0 < b.columns
  {
    forall k :: 0 <= k < |b.tiles| ==> At(b.tiles[k], k % b.columns, k / b.columns)
  }

  /** One trial of the do-while body: shuffle, then place in scan order. */
  function Trial(b: Board, draws: seq<int>): (r: Board)
    requires Valid(b) && Draws(|b.tiles| - 1, draws)
    ensures Valid(r) && r.columns == b.columns && r.rows == b.rows && |r.tiles| == |b.tiles|
    ensures r.empty.Some? <==> b.empty.Some?
  {
    FisherYatesPermutes(b, |draws|, draws);
    Place(FisherYates(b, |draws|, draws))
  }

  /**
   * A trial permutes the records, keeping every id and image cell, leaves the
   * empty-tile reference on the same record, and stands record k on cell
   * (k % columns, k / columns).
   */
  lemma TrialPermutesRecords(b: Board, draws: seq<int>)
    requires Valid(b) && Draws(|b.tiles| - 1, draws)
    ensures var r := Trial(b, draws);
      && ScanOrdered(r)
      && multiset(Labels(r.tiles)) == multiset(Labels(b.tiles))
      && (b.empty.Some? ==> Label(EmptyTile(r)) == Label(EmptyTile(b)))
  {
    FisherYatesPermutes(b, |draws|, draws);
  }

  // ------------------------------------------------------------- solvability test

  /** The number of j in [j, |ts|) with ts[i].id > ts[j].id: the inner loop of checkIsSolvable. */
  function Greater(ts: seq<Tile>, i: nat, j: nat): nat
    requires i < |ts| && j <= |ts|
    decreases |ts| - j
  {
    if j == |ts| then 0 else (if ts[i].id > ts[j].id then 1 else 0) + Greater(ts, i, j + 1)
  }

  /** The inversions among pairs whose first index is at least i. */
  function PairsFrom(ts: seq<Tile>, i: nat): nat
    requires i <= |ts|
    decreases |ts| - i
  {
    if i == |ts| then 0 else Greater(ts, i, i + 1) + PairsFrom(ts, i + 1)
  }

  /** The number of pairs i < j with ts[i].id > ts[j].id. */
  function Inversions(ts: seq<Tile>): nat {
    PairsFrom(ts, 0)
  }

  lemma {:induction false} GreaterZeroIff(ts: seq<Tile>, i: nat, j: nat)
    requires i < |ts| && j <= |ts|
    ensures Greater(ts, i, j) == 0 <==> forall k :: j <= k < |ts| ==> ts[i].id <= ts[k].id
    decreases |ts| - j
  {
    if j < |ts| {
      GreaterZeroIff(ts, i, j + 1);
    }
  }

  lemma {:induction false} PairsFromZeroIff(ts: seq<Tile>, i: nat)
    requires i <= |ts|
    ensures PairsFrom(ts, i) == 0 <==> forall a, c :: i <= a < c < |ts| ==> ts[a].id <= ts[c].id
    decreases |ts| - i
  {
    if i < |ts| {
      PairsFromZeroIff(ts, i + 1);
      GreaterZeroIff(ts, i, i + 1);
    }
  }

  /** The inversion count is zero exactly when the ids are in non-decreasing array order. */
  lemma InversionsZeroIffSorted(ts: seq<Tile>)
    ensures Inversions(ts) == 0 <==> forall a, c :: 0 <= a < c < |ts| ==> ts[a].id <= ts[c].id
  {
    PairsFromZeroIff(ts, 0);
  }

  /** The pairs (i, k), k in [j, |ts|), whose ids are in the wrong order. */
  function GreaterPairs(ts: seq<Tile>, i: nat, j: nat): set<(nat, nat)>
    requires i < |ts|
  {
    set k: nat | j <= k < |ts| && ts[i].id > ts[k].id :: (i, k)
  }

  /** The pairs (a, c), i <= a < c, whose ids are in the wrong order. */
  function InversionPairs(ts: seq<Tile>, i: nat): set<(nat, nat)> {
    set a: nat, c: nat | i <= a < c < |ts| && ts[a].id > ts[c].id :: (a, c)
  }

  lemma {:induction false} GreaterIsCard(ts: seq<Tile>, i: nat, j: nat)
    requires i < |ts| && j <= |ts|
    ensures Greater(ts, i, j) == |GreaterPairs(ts, i, j)|
    decreases |ts| - j
  {
    if j < |ts| {
      GreaterIsCard(ts, i, j + 1);
      var here: set<(nat, nat)> := if ts[i].id > ts[j].id then {(i, j)} else {};
      assert GreaterPairs(ts, i, j) == here + GreaterPairs(ts, i, j + 1);
      assert here !! GreaterPairs(ts, i, j + 1);
    } else {
      assert GreaterPairs(ts, i, j) == {};
    }
  }

  lemma {:induction false} PairsFromIsCard(ts: seq<Tile>, i: nat)
    requires i <= |ts|
    ensures PairsFrom(ts, i) == |InversionPairs(ts, i)|
    decreases |ts| - i
  {
    if i < |ts| {
      PairsFromIsCard(ts, i + 1);
      GreaterIsCard(ts, i, i + 1);
      assert InversionPairs(ts, i) == GreaterPairs(ts, i, i + 1) + InversionPairs(ts, i + 1);
      assert GreaterPairs(ts, i, i + 1) !! InversionPairs(ts, i + 1);
    } else {
      assert InversionPairs(ts, i) == {};
    }
  }

  /** The inversion count is the number of pairs i < j whose ids are in the wrong order. */
  lemma InversionsIsCard(ts: seq<Tile>)
    ensures Inversions(ts) == |set i: nat, j: nat | i < j < |ts| && ts[i].id > ts[j].id :: (i, j)|
  {
    PairsFromIsCard(ts, 0);
    assert InversionPairs(ts, 0) == set i: nat, j: nat | i < j < |ts| && ts[i].id > ts[j].id :: (i, j);
  }

  /** checkIsSolvable reads the empty tile's row only when the column count is even. */
  predicate CanCheckSolvable(b: Board) {
    b.columns % 2 != 1 ==> b.empty.Some? && b.empty.value < |b.tiles|
  }

  /** checkIsSolvable, as written. */
  function Solvable(b: Board): bool
    requires CanCheckSolvable(b)
  {
    var inversions := Inversions(b.tiles);
    if b.columns % 2 == 1 then inversions % 2 == 0
    else if (b.rows - EmptyTile(b).y) % 2 == 0 then inversions % 2 == 1
    else inversions % 2 == 0
  }

  /**
   * The rule in parity form: with an odd column count the inversions must be
   * even; with an even one, the inversions and the empty tile's row counted from
   * the bottom (rows - y) must have different parities.
   */
  lemma SolvableParity(b: Board)
    requires CanCheckSolvable(b) && 0 < b.columns
    ensures Solvable(b) <==>
      if b.columns % 2 == 1 then Inversions(b.tiles) % 2 == 0
      else (Inversions(b.tiles) + (b.rows - EmptyTile(b).y)) % 2 == 1
  {
  }

  /**
   * The built board has no inversions, so checkIsSolvable accepts it exactly when
   * the column count is odd or the empty tile's row counted from the bottom is odd.
   */
  lemma SolvedBoardParity(columns: int, rows: int, emptyX: int, emptyY: int)
    requires InBounds(columns, rows, emptyX, emptyY)
    ensures Inversions(Solved(columns, rows, emptyX, emptyY).tiles) == 0
    ensures CanCheckSolvable(Solved(columns, rows, emptyX, emptyY))
    ensures Solvable(Solved(columns, rows, emptyX, emptyY)) <==> columns % 2 == 1 || (rows - emptyY) % 2 == 1
  {
    var b := Solved(columns, rows, emptyX, emptyY);
    assert Inversions(b.tiles) == 0 by {
      assert forall k :: 0 <= k < |b.tiles| ==> b.tiles[k].id == k;
      InversionsZeroIffSorted(b.tiles);
    }
    assert EmptyTile(b).y == emptyY by {
      Decode(columns, emptyX, emptyY);
      assert EmptyTile(b) == SolvedTile(columns, Cell(columns, emptyX, emptyY));
    }
  }

  // -------------------------------------------------------------- randomiseTiles

  /** Every trial supplies the draws one Fisher-Yates pass over n records needs. */
  predicate TrialDraws(n: nat, trials: seq<seq<int>>) {
    0 < n && forall t :: 0 <= t < |trials| ==> Draws(n - 1, trials[t])
  }

  /** The trials left once the first t are spent still supply full Fisher-Yates passes. */
  lemma TrialDrawsSuffix(n: nat, trials: seq<seq<int>>, t: nat)
    requires TrialDraws(n, trials) && t <= |trials|
    ensures TrialDraws(n, trials[t..])
  {
    forall k | 0 <= k < |trials| - t
      ensures Draws(n - 1, trials[t..][k])
    {
      assert trials[t..][k] == trials[t + k];
    }
  }

  /** The do-while loop after a trial produced b: stop if b passes the test, otherwise try again while trials remain. */
  function Retry(b: Board, rest: seq<seq<int>>): (r: Board)
    requires Valid(b) && CanCheckSolvable(b) && TrialDraws(|b.tiles|, rest)
    ensures Valid(r) && CanCheckSolvable(r) && r.columns == b.columns && r.rows == b.rows
    decreases |rest|
  {
    if Solvable(b) || |rest| == 0 then b
    else Retry(Trial(b, rest[0]), rest[1..])
  }

  /**
   * Whatever trial the loop stops on, the records are a permutation of the
   * records it started from, the empty-tile reference follows its record, and
   * the records stand in scan order.
   */
  lemma {:induction false} RetryPermutesRecords(b: Board, rest: seq<seq<int>>)
    requires Valid(b) && CanCheckSolvable(b) && TrialDraws(|b.tiles|, rest) && ScanOrdered(b)
    ensures var r := Retry(b, rest);
      && ScanOrdered(r)
      && |r.tiles| == |b.tiles|
      && multiset(Labels(r.tiles)) == multiset(Labels(b.tiles))
      && (r.empty.Some? <==> b.empty.Some?)
      && (b.empty.Some? ==> Label(EmptyTile(r)) == Label(EmptyTile(b)))
    decreases |rest|
  {
    if !Solvable(b) && |rest| > 0 {
      TrialPermutesRecords(b, rest[0]);
      RetryPermutesRecords(Trial(b, rest[0]), rest[1..]);
    }
  }

  /**
   * randomiseTiles keeps the records (ids and image cells) as a permutation of
   * the old ones, keeps the empty-tile reference on the same record, places
   * record k on cell (k % columns, k / columns), and the result passes
   * checkIsSolvable unless it is the board after every trial.
   */
  lemma RandomiseOutcome(b: Board, trials: seq<seq<int>>)
    requires Valid(b) && CanCheckSolvable(b) && |trials| > 0 && TrialDraws(|b.tiles|, trials)
    ensures var r := Randomise(b, trials);
      && ScanOrdered(r)
      && multiset(Labels(r.tiles)) == multiset(Labels(b.tiles))
      && (r.empty.Some? <==> b.empty.Some?)
      && (b.empty.Some? ==> Label(EmptyTile(r)) == Label(EmptyTile(b)))
    ensures Solvable(Randomise(b, trials)) || Randomise(b, trials) == Passes(b, trials, |trials|)
  {
    TrialPermutesRecords(b, trials[0]);
    RetryPermutesRecords(Trial(b, trials[0]), trials[1..]);
    if !Solvable(Randomise(b, trials)) {
      RejectedMeansAllRejected(Trial(b, trials[0]), trials[1..]);
      PassesStep(b, trials, |trials| - 1);
    }
  }

  /** The board after the next k trials of rest, run one after the other with no test in between. */
  function Passes(b: Board, rest: seq<seq<int>>, k: nat): (r: Board)
    requires Valid(b) && CanCheckSolvable(b) && TrialDraws(|b.tiles|, rest) && k <= |rest|
    ensures Valid(r) && CanCheckSolvable(r) && r.columns == b.columns && r.rows == b.rows && |r.tiles| == |b.tiles|
    decreases k
  {
    if k == 0 then b else Passes(Trial(b, rest[0]), rest[1..], k - 1)
  }

  /** The k-th of the remaining boards is the first that passes, or the last one if none does. */
  predicate FirstPass(b: Board, rest: seq<seq<int>>, k: nat)
    requires Valid(b) && CanCheckSolvable(b) && TrialDraws(|b.tiles|, rest) && k <= |rest|
  {
    && (Solvable(Passes(b, rest, k)) || k == |rest|)
    && forall j :: 0 <= j < k ==> !Solvable(Passes(b, rest, j))
  }

  /** The loop stops at the first trial that passes: its result is the board after the first passing trial, or after all of them. */
  lemma {:induction false} RetryStopsAtFirstPass(b: Board, rest: seq<seq<int>>)
    requires Valid(b) && CanCheckSolvable(b) && TrialDraws(|b.tiles|, rest)
    ensures exists k :: 0 <= k <= |rest| && FirstPass(b, rest, k) && Retry(b, rest) == Passes(b, rest, k)
    decreases |rest|
  {
    if Solvable(b) || |rest| == 0 {
      assert FirstPass(b, rest, 0) && Retry(b, rest) == Passes(b, rest, 0);
    } else {
      var next := Trial(b, rest[0]);
      RetryStopsAtFirstPass(next, rest[1..]);
      var k :| 0 <= k <= |rest[1..]| && FirstPass(next, rest[1..], k) && Retry(next, rest[1..]) == Passes(next, rest[1..], k);
      PassesStep(b, rest, k);
      forall j | 0 <= j < k + 1
        ensures !Solvable(Passes(b, rest, j))
      {
        if j > 0 {
          PassesStep(b, rest, j - 1);
        }
      }
      assert FirstPass(b, rest, k + 1);
    }
  }

  /** One more pass, taken from the front of the remaining trials. */
  lemma PassesStep(b: Board, rest: seq<seq<int>>, k: nat)
    requires Valid(b) && CanCheckSolvable(b) && TrialDraws(|b.tiles|, rest) && k < |rest|
    ensures TrialDraws(|b.tiles|, rest[1..])
    ensures Passes(b, rest, k + 1) == Passes(Trial(b, rest[0]), rest[1..], k)
  {
    TrialDrawsSuffix(|b.tiles|, rest, 1);
  }

  /** A rejected result means the trials ran out: it is the board after all of them, and each of them was rejected. */
  lemma RejectedMeansAllRejected(b: Board, rest: seq<seq<int>>)
    requires Valid(b) && CanCheckSolvable(b) && TrialDraws(|b.tiles|, rest)
    requires !Solvable(Retry(b, rest))
    ensures Retry(b, rest) == Passes(b, rest, |rest|)
    ensures forall j :: 0 <= j <= |rest| ==> !Solvable(Passes(b, rest, j))
  {
    RetryStopsAtFirstPass(b, rest);
  }

  /** One more turn of the do-while loop, on trial t, after b was rejected. */
  lemma RetryStep(b: Board, trials: seq<seq<int>>, t: nat)
    requires Valid(b) && CanCheckSolvable(b) && TrialDraws(|b.tiles|, trials) && t < |trials| && !Solvable(b)
    ensures Draws(|b.tiles| - 1, trials[t])
    ensures TrialDraws(|b.tiles|, trials[t..]) && TrialDraws(|b.tiles|, trials[t + 1..])
    ensures Retry(b, trials[t..]) == Retry(Trial(b, trials[t]), trials[t + 1..])
  {
    TrialDrawsSuffix(|b.tiles|, trials, t);
    TrialDrawsSuffix(|b.tiles|, trials, t + 1);
    assert trials[t..][0] == trials[t];
    assert trials[t..][1..] == trials[t + 1..];
  }

  /** randomiseTiles with one trial per element of trials (at least the one the do-while always runs). */
  function Randomise(b: Board, trials: seq<seq<int>>): (r: Board)
    requires Valid(b) && CanCheckSolvable(b) && |trials| > 0 && TrialDraws(|b.tiles|, trials)
    ensures Valid(r) && CanCheckSolvable(r)
  {
    Retry(Trial(b, trials[0]), trials[1..])
  }
}
