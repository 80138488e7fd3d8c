# Sliding-tile puzzle: a verified model of the `Puzzle` state machine

This project models the core of the `Puzzle` class in `main.js`, a sliding-tile
("15-puzzle") game. The model covers:

- building the solved board;
- the move engine: `switchTiles`, `makeMove`, `checkIsComplete` and `winGame`;
- the three input handlers, which map a key code, a swipe or a clicked cell to
  the cell handed to `makeMove`. The key and swipe mapping is inverted: "Left"
  targets the cell to the right of the empty tile;
- the two shufflers: the random walk of `randomlyPlay` (the one `startGame`
  uses), and `randomiseTiles`, a Fisher-Yates shuffle with scan-order placement,
  repeated until `checkIsSolvable` accepts.

The project has two layers:

- `Grid`, `Moves`, `Shuffle` and `Input` hold pure values. A `Board` has the
  dimensions, the tile records in array order, and the index of the record the
  empty-tile reference points at (`None` once the game is won). Each operation
  of the class is defined there as a function, and the lemmas prove what the
  game promises about it.
- `Game.Puzzle` is the object itself. Its fields are `columns`, `rows`, an
  array of tile records updated in place, and `emptyTile`. Every method that
  changes the object is proved to leave `Model()` (the board the object holds)
  equal to the pure function applied to the old board, and to keep the board
  invariant `Valid`. There are two kinds of exception:
  - `Swap`, `ShuffleTiles` and `PlaceTiles` do not require the invariant. They
    keep it whenever it held before.
  - `BuildRow` and `PlaceRow` are the inner-loop helpers of the constructor and
    of `PlaceTiles`. Their contracts are row-wise: the slots of one row take
    their new records, and every other slot is unchanged. They say nothing about
    `Valid`, which a half-placed array need not satisfy.

`Valid` states four things:

- every tile stands inside the grid;
- no two tiles share a cell;
- the ids are distinct and lie in `[0, columns * rows)`;
- the empty-tile reference indexes a record.

`EveryCellHoldsOneTile` proves, by a counting (pigeonhole) argument, that every
cell then holds exactly one tile. So the search in `switchTiles` never fails on
an in-bounds target.

Some definitions are written as the code computes them: `Adjacent`,
`IsComplete`, `Inversions` and `Solvable`. A lemma listed beside each one below
states its meaning. For example, `InversionsIsCard` proves that `Inversions` is
the number of pairs i < j whose ids are in the wrong order. Randomness is an
injected sequence of draws. A draw `c` of `randomlyPlay` stands for
`Math.floor(Math.random() * 4)`. The `k`-th draw of a Fisher-Yates pass stands
for `Math.floor(Math.random() * (i + 1))`, so it lies in `[0, i]`.

`SolvedBoardParity` states what the parity rule does on the freshly built
board. The rule counts the empty tile's id among the inversions and measures
its row from the bottom, so it accepts the solved board exactly when the column
count is odd or `rows - emptyY` is odd. For the 4 x 4 preset (`emptyX = 3`,
`emptyY = 0`) the rule therefore rejects the solved board itself. The model
follows the code here.

## Model

| member | source | states |
|---|---|---|
| Grid.Find | main.js:182 | the search of `tiles.find`: a found index is the first record standing on (x, y); nothing is found exactly when no record stands there |
| Grid.SolvedTiles | main.js:35-40 | the loops push columns * rows records, and record k is the solved tile of cell k in scan order |
| Grid.IsComplete | main.js:195-201 | the completion test: every record's id is y * columns + x of its cell (meaning proved by CompleteIffEveryCellHoldsItsTile) |
| Grid.Solved | main.js:34-41 | the built board has the given dimensions, satisfies the board invariant and has an empty tile |
| Grid.SolvedIsValid | main.js:35-38 | the built board is complete; the record at index y * columns + x has that id, stands on (x, y) and shows image cell (x, y); the empty tile is the record on (emptyX, emptyY) |
| Grid.EveryCellHoldsOneTile | main.js:182 | under the invariant, the search finds a tile on every in-bounds cell, and no other record stands there |
| Grid.CompleteIffEveryCellHoldsItsTile | main.js:195-201 | the completion test over the array is equivalent to "the tile on every cell (x, y) has id y * columns + x" |
| Moves.AdjacentIsUnitStep | main.js:183-186 | the switchTiles test holds exactly when the Manhattan distance to the empty cell is one; the empty cell itself never passes |
| Moves.Adjacent | main.js:183-186 | the switchTiles test as written (meaning proved by AdjacentIsUnitStep) |
| Moves.Switch | main.js:181-193 | switchTiles changes the board exactly when the target passes the test; the empty tile then stands on the target; dimensions and the empty-tile reference stay; the invariant is kept |
| Moves.SwitchEffect | main.js:186-190 | a passing switch puts the found tile on the empty tile's old cell and the empty tile on (x, y), and leaves every other record and every id and image cell unchanged |
| Moves.SwitchBack | main.js:181-193 | after a passing switch, switching at the empty tile's old cell passes again and restores the board exactly |
| Moves.MakeMove | main.js:172-179 | makeMove keeps the invariant and the dimensions |
| Moves.MakeMoveChangesIffApplied | main.js:172-179 | makeMove changes the board exactly when the target is on the board, the game is not won and the target passes the switch test; otherwise the board is returned unchanged |
| Moves.WinFreezes | main.js:175-176 | after an applied move the empty tile is cleared exactly when the board is complete; otherwise the reference is unchanged; once won, every further move is a no-op |
| Moves.MakeMoveBack | main.js:172-193 | an applied move that neither starts nor ends on a complete board is undone by a move at the empty tile's old cell |
| Moves.Play | main.js:172-179 | a sequence of moves keeps the invariant and the dimensions, and does nothing to a won board |
| Shuffle.WalkTarget | main.js:155-168 | the cell a walk draw selects passes the switch test and lies inside the grid; each draw 0..3 whose guard holds selects exactly its neighbour (left, right, up, down of the empty tile); any other draw selects nothing |
| Shuffle.Step | main.js:155-168 | one walk iteration keeps the invariant, the dimensions, the empty-tile reference and the id at every array index |
| Shuffle.Walk | main.js:153-170 | randomlyPlay, one step per draw: keeps the dimensions, the length and the empty-tile reference |
| Shuffle.StepIsOneSlide | main.js:155-168 | a walk iteration either does nothing or is exactly the switch at the empty tile's new cell, which was on the board, passed the switch test, held a tile and lies one orthogonal step from the old empty cell |
| Shuffle.WalkKeepsArrangement | main.js:153-170 | the whole walk keeps the invariant, keeps the empty-tile reference on its record, which stays inside the grid, and never reorders the array |
| Shuffle.WalkIsSlides | main.js:153-170 | the whole walk is reached from its start by a sequence of at most one legal switch per draw |
| Shuffle.SwapTiles | main.js:116 | an exchange of two array slots keeps the dimensions and the length, and the empty-tile reference follows its record |
| Shuffle.SwapTilesPermutes | main.js:116 | an exchange keeps the invariant and the multiset of records (id and image cell) |
| Shuffle.FisherYates | main.js:114-117 | the shuffle loop keeps the dimensions, the length and the presence of an empty tile |
| Shuffle.FisherYatesPermutes | main.js:114-117 | the shuffle loop keeps the invariant, permutes the records and leaves the empty-tile reference on its record |
| Shuffle.Place | main.js:118-124 | placement keeps every record's id and image cell, stands record k on cell (k % columns, k / columns), and keeps the invariant |
| Shuffle.Trial | main.js:114-124 | one shuffle-and-place pass keeps the invariant, the dimensions, the length and the presence of an empty tile |
| Shuffle.TrialPermutesRecords | main.js:114-124 | a pass leaves the records in scan order, permutes them, and keeps the empty-tile reference on its record |
| Shuffle.Inversions | main.js:130-135 | the nested count of pairs i < j with ids in the wrong order (its meaning is proved by InversionsIsCard) |
| Shuffle.InversionsIsCard | main.js:130-135 | the inversion count equals the size of the set of pairs i < j with ts[i].id > ts[j].id |
| Shuffle.InversionsZeroIffSorted | main.js:130-135 | the inversion count is zero exactly when the ids are in non-decreasing array order |
| Shuffle.Solvable | main.js:137-150 | the parity rule as written (restated in parity form by SolvableParity) |
| Shuffle.SolvableParity | main.js:137-150 | the solvability rule in parity form: odd widths need even inversions; even widths need inversions + (rows - y of the empty tile) to be odd |
| Shuffle.SolvedBoardParity | main.js:129-151 | the built board has no inversions, and the rule accepts it exactly when the width is odd or rows - emptyY is odd |
| Shuffle.Retry | main.js:113-126 | the do-while loop keeps the invariant, the dimensions and the precondition of the solvability test |
| Shuffle.Passes | main.js:113-124 | k do-while bodies run back to back keep the invariant, the dimensions and the length |
| Shuffle.RetryPermutesRecords | main.js:113-126 | whatever pass the loop stops on, the records are a permutation in scan order and the empty-tile reference is on its record |
| Shuffle.RetryStopsAtFirstPass | main.js:113-126 | the loop's result is the board after k of the remaining passes, where every earlier board was rejected and the k-th is accepted unless the passes ran out |
| Shuffle.RejectedMeansAllRejected | main.js:125-126 | a rejected result is the board after every pass, and every board along the way was rejected |
| Shuffle.Randomise | main.js:112-127 | randomiseTiles keeps the invariant and the precondition of the solvability test |
| Shuffle.RandomiseOutcome | main.js:112-127 | randomiseTiles permutes the records, keeps the empty-tile reference on its record and leaves the records in scan order; its result passes checkIsSolvable unless it is the board after every pass |
| Input.Target | main.js:71-90 | the cell a direction hands to makeMove is a neighbour of the empty cell |
| Input.KeyDirection | main.js:96-99 | a key is mapped exactly when it is one of the codes 37, 38, 39, 40, 65, 68, 83, 87 |
| Input.KeyTarget | main.js:95-99 | an unmapped key leaves the target on the empty cell; a mapped key targets a neighbour of it, and only then does the target move |
| Input.SwipeDirection | main.js:68-90 | the swipe is horizontal exactly when its x-distance is strictly larger; the tile slides the way the finger moved along that axis; a tap counts as a swipe down |
| Input.TargetIsNeighbour | main.js:95-99 | every direction targets a neighbour of the empty cell; the tile there slides by the direction's own step into the empty cell; the opposite direction from the target comes back |
| Input.UnmappedKeyIsIgnored | main.js:95-101 | a key outside the eight mapped codes targets the empty cell itself, and the move leaves the board unchanged |
| Input.SwipeBackIsOpposite | main.js:67-90 | swiping back along the same path gives the opposite direction |
| Input.DirectionSlidesTile | main.js:95-101 | a direction that moves a tile slides the target tile by the direction's step into the empty cell, and the empty tile takes the target cell |
| Input.OppositeUndoes | main.js:92-101 | after a non-winning keyed move from a board that was not complete, the opposite key restores the board |
| Game.Puzzle.constructor | main.js:34-41 | the object holds the built board and satisfies the invariant |
| Game.Puzzle.BuildTiles | main.js:35-41 | the nested loops push the solved records in scan order and note the index of the record on (emptyX, emptyY) |
| Game.Puzzle.BuildRow | main.js:36-40 | the inner loop pushes the solved records of row y after those of the earlier rows, and notes the empty record once its cell is passed |
| Game.Puzzle.SwitchTiles | main.js:181-193 | the result says whether the target passed the test; the new board is the pure switch of the old one; the invariant is kept |
| Game.Puzzle.CheckIsComplete | main.js:195-201 | the loop with its early exit returns exactly the completion test |
| Game.Puzzle.WinGame | main.js:203-206 | only the empty-tile reference changes, to none; the invariant is kept |
| Game.Puzzle.MakeMove | main.js:172-179 | the new board is the pure makeMove of the old one; the invariant is kept |
| Game.Puzzle.OnClick | main.js:48-55 | a click on a cell is makeMove at that cell |
| Game.Puzzle.OnKeyDown | main.js:92-102 | a won board is left alone; otherwise the board becomes makeMove at the key's target from the empty cell |
| Game.Puzzle.OnTouchEnd | main.js:64-91 | a won board is left alone; otherwise the board becomes makeMove at the target of the swipe's direction |
| Game.Puzzle.RandomlyPlay | main.js:153-170 | the loop of columns * rows * 100 iterations leaves the pure walk of the draws; the invariant and the empty-tile reference are kept |
| Game.Puzzle.RandomMove | main.js:155-168 | one loop iteration is one pure walk step |
| Game.Puzzle.Slide | main.js:157-166 | the switchTiles call of a case whose guard held is one pure walk step; the empty-tile reference and the invariant are kept |
| Game.Puzzle.StartGame | main.js:104-110 | starting the game runs the random walk |
| Game.Puzzle.CheckIsSolvable | main.js:129-151 | the nested loops count exactly the inversions, and the result is the parity rule |
| Game.Puzzle.ShuffleTiles | main.js:114-117 | the array after the loop is the pure Fisher-Yates shuffle of the draws, with the empty-tile reference following its record; the invariant is kept when it held |
| Game.Puzzle.Swap | main.js:116 | the destructuring exchange is the pure exchange of two slots, and keeps the invariant when it held |
| Game.Puzzle.PlaceTiles | main.js:118-124 | the placement loops give the pure placement, and keep the invariant when it held |
| Game.Puzzle.PlaceRow | main.js:119-123 | the inner placement loop stands the records of row y on their cells of that row and leaves every other slot unchanged |
| Game.Puzzle.RunTrial | main.js:113-126 | one body of the do-while is one pure pass, followed by the solvability test |
| Game.Puzzle.RandomiseTiles | main.js:112-127 | the board after the do-while is the pure randomise of the trials; the result is the last test's verdict |
| Game.Puzzle.NewGame | main.js:20-44 | a new game is the built board followed by the random walk |

## Left out

- Drawing (`draw`, `main.js:208-217`), canvas set-up and the image cells' pixel geometry are not modelled; the model keeps `imgX` and `imgY` as plain record fields.
- Event wiring (`main.js:6-13`), `preventDefault` and the context-menu handler are not modelled; the handlers are methods called directly.
- Game.Puzzle.OnClick: takes the cell under the pointer; the pixel-to-cell floating-point division of `main.js:51-53` is not modelled.
- onTouchStart (`main.js:57-63`) is not modelled as a method: the recorded start point is passed to Game.Puzzle.OnTouchEnd as `startX`/`startY`, and touch coordinates are integers.
- Game.Puzzle.NewGame: image loading is asynchronous in the source; the model runs the `onload` body at once. Its requires asks that `emptyX`/`emptyY` be inside the grid. Otherwise the loop of `main.js:37-38` never sets `emptyTile`. On the first game it stays undefined, and after a win it stays null; in both cases `randomlyPlay` throws. A game started from the menu during a live game (`main.js:243`, `main.js:248-250`) keeps the previous game's record instead. `randomlyPlay` then switches tiles of the new array against a record that is not in it. The model does not capture this stale reference.
- `Math.random` is replaced by injected draws. Game.Puzzle.RandomlyPlay and Game.Puzzle.StartGame take one draw per iteration; the shuffle takes one draw per Fisher-Yates turn, already in `[0, i]`.
- Game.Puzzle.RandomiseTiles: the source loop may run forever; the model bounds it by the list of trials and reports whether the last one was accepted.
- `console.log` in `winGame` is not modelled.
- Game.Puzzle.NewGame: the default arguments of `newGame` (`main.js:20`: a 4 x 4 grid, empty cell (0, 0), image `blank.jpg`) are not modelled; every argument is given explicitly.
- Game.Puzzle.NewGame: the source re-initialises the same `Puzzle` object (`main.js:20-44`, called again from the menu at `main.js:248-250`); the model returns a fresh object, because its dimensions and array are fixed fields. Aliasing of the old object by other references is not captured.
- The menu buttons, the confirmation dialog and the three preset configurations (`main.js:220-253`) are not modelled.
- Whether `checkIsSolvable` matches reachability by legal moves is not proved; the model states exactly what the code computes (`Shuffle.SolvableParity`, `Shuffle.SolvedBoardParity`).
- Object identity of `emptyTile` is modelled as an index into the array that moves with its record when slots are exchanged; aliasing beyond that is not modelled.
- JavaScript `%` truncates toward zero and Dafny's `%` is Euclidean; they agree on every operand the code produces, which are all non-negative.
- Game.Puzzle.CheckIsSolvable: requires the board invariant, which guarantees at least one tile; the source loop runs on an empty array too.
