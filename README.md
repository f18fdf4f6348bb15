# 2048 with automated players, modelled in Dafny

This project models the engine of a single-page 2048 game and its four
automated players. The board is a 4×4 grid of tiles, with 0 for an empty
cell. A move slides every row or column towards one side. Along the way
it merges equal neighbours once per pass and adds the doubled values to
the score. When such a move changes the board, one new tile (a 2 or a 4)
appears on an empty cell, and the loss check runs. The automated players
(random, corner, greedy and lookahead) pick a direction from the list of
moves that a simulation reports as valid.

The project has four modules, one file each:

- `rows.dfy` (`Rows`) holds the row primitive `slideAndMergeRow`.
  - It is a method with the source's loops: the splicing merge pass and the zero-padding loop.
  - Its specification is a set of recursive functions (`Compact`, `Merged`, `MergeGain`, `Padded`, `SlideRow`, `RowGain`).
  - The row properties are proved about those functions.
- `grid.dfy` (`Grid`) holds the board geometry.
  - `Transpose` and `Reverse` are the source's matrix rewrites.
  - `Shifted(b, d)` is an independent, cell-by-cell reference for a move: it slides each line of `b` read in the direction of motion.
  - Lemmas prove that the source's transpose/reverse compositions compute exactly `Shifted`, for each direction.
  - The module also has the empty-cell list, the loss predicate `Stuck`, and conservation of the board's sum.
- `strategies.dfy` (`Strategies`) holds `simulateMove`, `getValidMoves` and the four strategies.
  - Greedy and lookahead are methods whose running-maximum loops are proved to return the first maximum of a score sequence.
- `game.dfy` (`Game`) holds the game state.
  - It is a class with the fields `board`, `score`, `highScore` and `isGameOver`.
  - Its methods are `startGame`, `getEmptyTiles`, `spawnTile`, `move`, `checkGameOver` and `checkForWin`, plus one tick of the automated player.

The randomness of `Math.random()` is a parameter: a real draw in [0, 1).
A draw `u` picks index `floor(u * n)` among `n` candidates, and gives a new tile of 2 when `u < 0.9` and 4 otherwise, as in the source.
Lemmas show that every index and both tile values can be reached by some draw.

Two behaviours of the source are reproduced, not corrected:

- `simulateMove`'s down branch applies `reverse` before `transpose`, unlike `move`.
  - So it computes the up result, and `getValidMoves` lists down exactly when up changes the board (`Strategies.ValidMovesSpec`).
  - The consequences are proved on concrete boards.
    - A new game can start with a 4 and a 2 in the two right-hand cells of the bottom row (`Game.CornerBoardIsStartBoard`).
    - On that board the corner player proposes down, and down does nothing (`Strategies.CornerProposesNoOp`).
    - So every later tick of the corner player proposes down again, reports the game as running, and leaves the board, the score, the high score and the loss flag untouched. `Game.CornerPlayerStalls` derives this from the contract of one tick, for any number of ticks.
    - On another board, only a real down move changes the board, yet every strategy returns no move (`Strategies.StrategiesMissOnlyDown`).
  - Greedy and lookahead inherit the same substitution for down: they score the up result.
- `checkForWin` is modelled as written, but nothing calls it, so no win state is reachable through `move`.

## Model

| member | source | states |
|---|---|---|
| Rows.SlideAndMergeRow | script.js:93-107 | the returned row is `SlideRow(row)` and the score is `RowGain(row)`: compact, one merging pass, pad to 4 |
| Rows.MergePass | script.js:96-102 | the splicing loop computes exactly one left-to-right merging pass `Merged` and its score `MergeGain` |
| Rows.PadRow | script.js:103-105 | the push loop pads the row with zeros to length 4 and keeps its prefix |
| Rows.Compact | script.js:94 | the filtered row holds no zero and only values of the row; every nonzero value of the row survives; a zero-free row is unchanged |
| Rows.CompactConcat | script.js:94 | filtering distributes over concatenation, so the kept values stay in their original order |
| Rows.MergedStep | script.js:97-101 | unfolding helper: `Merged` and `MergeGain` at index i, for an equal and for an unequal pair |
| Rows.MergeStepSplice | script.js:97-100 | doubling cell i and splicing out cell i + 1 keeps the remaining pass and score consistent |
| Rows.MergeStepKeep | script.js:97 | skipping an unequal pair keeps the remaining pass and score consistent |
| Rows.CompactSum | script.js:94 | dropping zeros preserves the row sum |
| Rows.MergedSum | script.js:98-100 | the merging pass preserves the row sum |
| Rows.SlideRowShape | script.js:93-107 | a row of length 4 slides to length 4, every zero comes after every nonzero value, and the sum is unchanged |
| Rows.MergedLengthBounds | script.js:96-101 | a pass at most halves the number of tiles, so each output cell absorbs at most two input cells |
| Rows.MergedUnchangedIff | script.js:96-101 | the pass changes a row iff the row has two equal neighbours; a changing pass shortens the row |
| Rows.MergeGainSign | script.js:99 | on positive tiles the score is non-negative, and zero iff nothing merged |
| Rows.MergedNonzero | script.js:98 | merging nonzero tiles produces no zero |
| Rows.MergeGainNonnegative | script.js:99 | on non-negative tiles the merge score is non-negative |
| Rows.RowGainNonnegative | script.js:93-107 | on non-negative tiles the row score is non-negative |
| Rows.MergedRun | script.js:96-101 | non-chaining: a run of k equal tiles becomes k/2 doubled tiles plus one original when k is odd |
| Rows.MergeGainRun | script.js:99 | a run of k equal tiles v scores (k/2)·2v |
| Rows.SlideRowExampleRun | script.js:93-107 | [2,2,2,2] slides to [4,4,0,0] with score 8 |
| Rows.SlideRowExampleOnce | script.js:93-107 | [2,2,4,0] slides to [4,4,0,0] with score 4: the new 4 does not merge again |
| Rows.SlideRowExampleGap | script.js:93-107 | [0,0,2,2] slides to [4,0,0,0] with score 4 |
| Rows.DoubleTile | script.js:98 | doubling a power-of-two tile gives a power-of-two tile |
| Rows.MergedCells | script.js:98 | merging power-of-two tiles gives power-of-two tiles |
| Rows.SlideRowCells | script.js:93-107 | a row of empty or power-of-two cells slides to such a row |
| Rows.SlideRowNonnegative | script.js:93-107 | a non-negative row slides to a non-negative row |
| Rows.MergedNonnegative | script.js:98 | merging non-negative tiles stays non-negative |
| Rows.SlideRowChangedHasZero | script.js:93-107 | a row of 4 that the slide changes ends with an empty cell |
| Rows.CompactDropsZero | script.js:94 | a row holding a zero gets strictly shorter when compacted |
| Grid.Transpose | script.js:109-111 | the transpose of a rectangular matrix has one row per column of the input; when that is non-empty the result is rectangular, with one entry per input row (`TransposeTwice` proves it an involution) |
| Grid.Reverse | script.js:113-115 | reversing every row keeps the number of rows and, on a rectangular matrix, keeps it rectangular with the same row length (`ReverseTwice` proves it an involution) |
| Grid.BoardIsMatrix | script.js:109-115 | transposing or reversing a 4×4 board gives a 4×4 board |
| Grid.TransposeTwice | script.js:109-111 | transpose is an involution on rectangular matrices |
| Grid.ReverseTwice | script.js:113-115 | reversing every row is an involution |
| Grid.GeometryInvolutions | script.js:109-115 | both rewrites are involutions on a 4×4 board |
| Grid.PickIndex | script.js:86 | `floor(u * n)` for a draw u in [0, 1) is a valid index below n |
| Grid.PickIndexReaches | script.js:86 | every index k < n is picked by the draw k/n |
| Grid.LineAt | script.js:124-156 | every cell of the board lies on exactly one line, at a known place |
| Grid.BoardExt | script.js:158 | two boards are equal when all 16 cells are equal (the JSON comparison) |
| Grid.SlideEachRow | script.js:126-130 | the per-row loop slides every row and sums the row scores |
| Grid.ShiftedLines | script.js:124-156 | each line of the moved board is the slide of the original line |
| Grid.SlideLeftIsShift | script.js:142-147 | left slides each row: its board and score are those of the reference move |
| Grid.SlideRightIsShift | script.js:148-155 | reverse, slide, reverse is the reference right move, with the same score |
| Grid.SlideUpIsShift | script.js:124-131 | transpose, slide, transpose is the reference up move, with the same score |
| Grid.SlideDownIsShift | script.js:132-141 | transpose, reverse, slide, reverse, transpose is the reference down move, with the same score |
| Grid.EmptyUpToSpec | script.js:71-81 | the first n cells scanned row by row contribute exactly their empty cells, in scan order |
| Grid.EmptyCellsSpec | script.js:71-81 | the empty-cell list holds exactly the empty cells, strictly in row-major order |
| Grid.EmptyCellsIffHasEmpty | script.js:71-81 | the list is non-empty iff the board has an empty cell |
| Grid.NoAdjacentInLine | script.js:175-184 | on a stuck board no line has an empty cell or two equal neighbours |
| Grid.SlideRowFixed | script.js:93-107 | a full row with no equal neighbours slides to itself |
| Grid.FixedLinesFixBoard | script.js:124-158 | a board whose lines all slide to themselves is unchanged by the move |
| Grid.StuckBoardIsFixed | script.js:175-186 | no direction changes a board that the loss check declares stuck |
| Grid.ShiftChangedHasEmpty | script.js:158-165 | a move that changes the board leaves an empty cell for the new tile |
| Grid.ShiftedCellFrom | script.js:124-156 | unfolding helper: `Shifted` at one cell, read off the slide of that cell's line |
| Grid.ShiftedCellsValid | script.js:124-156 | a board of empty or power-of-two cells stays so after any move |
| Grid.ShiftedNonNegative | script.js:124-156 | a non-negative board stays non-negative after any move |
| Grid.CellsValidNonNegative | script.js:87 | a board whose every cell is 0 or a power of two is non-negative |
| Grid.MoveGainNonnegative | script.js:121-156 | the score of a move on a non-negative board is non-negative |
| Grid.BoardSumCells | script.js:124-156 | the board sum is the sum of its 16 cells |
| Grid.LinesSum | script.js:124-156 | the lines of any direction cover the board, so their sums add up to the board sum |
| Grid.ShiftedSum | script.js:124-156 | a move preserves the sum of all tiles |
| Strategies.SimulatedDownIsUp | script.js:242-245 | the simulation's down branch (reverse, then transpose, slide, transpose, then reverse) is the up move, with the up score |
| Strategies.SimulateMove | script.js:234-255 | returns whether the simulated direction changes the board, with down simulated as up |
| Strategies.ValidMovesUnfold | script.js:222-232 | the valid list is up, down, left, right, each kept iff its simulation changes the board |
| Strategies.ValidMovesSpec | script.js:222-255 | a direction is listed iff its simulation changes the board, in the order up, down, left, right; down iff up changes the board; left and right iff their real moves do |
| Strategies.GetValidMoves | script.js:222-232 | the loop over the four directions builds exactly the valid list |
| Strategies.StuckHasNoValidMoves | script.js:175-186 | a stuck board has no valid move |
| Strategies.RandomMove | script.js:258-261 | returns none iff the valid list is empty, else a listed move |
| Strategies.RandomReachesEveryValidMove | script.js:260 | every listed move is chosen by some draw |
| Strategies.FirstIn | script.js:265-268 | the first priority direction that is listed, none iff no priority direction is listed |
| Strategies.FirstInEarlier | script.js:265-268 | a priority direction earlier than the chosen one is not listed |
| Strategies.CornerMove | script.js:262-269 | none iff the valid list is empty; otherwise the first of down, right, up, left that is listed |
| Strategies.FirstMaximumStep | script.js:287-290 | one update with a strict `>` keeps the first maximum of the scores seen so far |
| Strategies.GreedyScoresAt | script.js:273-285 | the i-th greedy score is the merge score of the i-th valid move as simulated |
| Strategies.GreedyScore | script.js:274-285 | rewriting the copy, then summing row scores, gives the simulated move's merge score, with down scored as up |
| Strategies.SumMergeScores | script.js:283-285 | the loop sums the merge scores of the four rows |
| Strategies.GreedyMove | script.js:270-293 | none iff the valid list is empty; otherwise the earliest valid move with the strictly largest merge score |
| Strategies.GreedyBest | script.js:271-292 | the scan over a move list returns the move at the first maximum of its scores, none iff the list is empty |
| Strategies.FirstLexMaximumStep | script.js:323-332 | one update of the two-level comparison keeps the first lexicographic maximum seen so far |
| Strategies.LookaheadScanStep | script.js:323-332 | the source's test against the running best (starting from -1) selects, in terms of the key list, the first lexicographic maximum of the keys seen so far |
| Strategies.LookaheadKeysAt | script.js:299-321 | the i-th key is the empty-cell count and merge score of the i-th valid move as simulated |
| Strategies.SimulateWithScore | script.js:304-319 | the full simulation gives the moved board and its score, with down simulated as up |
| Strategies.LookaheadMove | script.js:294-335 | none iff the valid list is empty; otherwise the earliest valid move maximising empty cells, then merge score |
| Strategies.LookaheadBest | script.js:295-334 | the scan returns the move at the first lexicographic maximum of (empty cells, score) |
| Strategies.SelectMove | script.js:257-336 | the result is the named strategy's own answer (`Chooses`): the random pick for the draw, the corner pick, or the move at the first greedy or lookahead maximum; none iff the valid list is empty, else a listed move |
| Strategies.SlideEmptyRow | script.js:93-107 | an empty row slides to itself |
| Strategies.SlideLeadingTile | script.js:93-107 | a lone tile at the front of a line stays there |
| Strategies.SlideTrailingTile | script.js:93-107 | a lone tile at the back of a line moves to the front |
| Strategies.SlideDistinctRow | script.js:93-107 | four tiles with no equal neighbours stay in place |
| Strategies.CornerBoardDownFixed | script.js:132-141 | with a 4 and a 2 at the right of the bottom row, the real down move changes nothing |
| Strategies.CornerBoardUpChanges | script.js:124-131 | on the same board, up changes the board |
| Strategies.CornerProposesNoOp | script.js:242-245 | on that board the corner player proposes down, and down is a no-op |
| Strategies.TopRowBoardFixed | script.js:124-156 | a full top row of distinct tiles is unchanged by up, left and right |
| Strategies.TopRowBoardDownChanges | script.js:132-141 | the same board is changed by the real down move |
| Strategies.StrategiesMissOnlyDown | script.js:242-245 | on that board the valid list is empty although the game is not lost |
| Game.EmptyBoard | script.js:23 | the reset board is 4×4 with every cell 0 |
| Game.NewTileValue | script.js:87 | a new tile is 2 or 4 |
| Game.NewTileValueReaches | script.js:87 | both values are produced by some draw |
| Game.Place | script.js:87 | writing one cell changes that cell only |
| Game.SpawnCell | script.js:84-86 | the chosen cell is empty and in the empty-cell list |
| Game.Spawned | script.js:83-89 | the board after a spawn is again a 4×4 board (`SpawnedSpec` states which cell changes and how) |
| Game.SpawnedSpec | script.js:83-89 | with no empty cell the board is unchanged; otherwise one empty cell becomes 2 or 4 and every other cell is kept |
| Game.SpawnReachesEveryChoice | script.js:86-87 | every empty cell and both values can be chosen |
| Game.PlaceEmptyUpTo | script.js:71-87 | filling an empty cell removes exactly that cell from the scan |
| Game.SpawnedEmptyCount | script.js:83-89 | a spawn on a board with room removes exactly one empty cell |
| Game.PlaceSum | script.js:87 | writing one cell changes the board sum by the difference |
| Game.SpawnedSum | script.js:83-89 | a spawn on a board with room adds the new tile value to the board sum |
| Game.SpawnedCellsValid | script.js:83-89 | spawning keeps every cell empty or a power of two |
| Game.EmptyBoardEmptyUpTo | script.js:23 | every scanned cell of the reset board is empty |
| Game.FirstSpawnLeavesRoom | script.js:28-29 | the reset board has 16 empty cells, and 15 after the first spawn |
| Game.StartBoardEmptyCount | script.js:22-29 | a new game has exactly 14 empty cells, so exactly two tiles |
| Game.StartBoardValues | script.js:22-29 | every cell of a new game is 0, 2 or 4 |
| Game.StartBoardSum | script.js:22-29 | the tiles of a new game add up to the two spawned values |
| Game.CommittedMoveSpawns | script.js:158-165 | after a changing move a tile is always spawned: one empty cell fewer, and the sum grows by the new tile only |
| Game.Game.constructor | script.js:14-17 | fresh state: empty board, score 0, the stored high score, not over |
| Game.Game.GetEmptyTiles | script.js:71-81 | the nested loops return exactly the empty-cell list, in row-major order |
| Game.Game.SpawnTile | script.js:83-89 | the board becomes the spawned board; the other fields are unchanged |
| Game.Game.CheckGameOver | script.js:175-189 | `isGameOver` becomes set iff the board is stuck, otherwise stays as it was; nothing else changes |
| Game.Game.CheckForWin | script.js:191-202 | `isGameOver` becomes set iff a 2048 tile is present, otherwise stays as it was |
| Game.Game.StartGame | script.js:22-33 | two tiles on an empty board, score 0, not over, the high score kept |
| Game.Game.SlideBoard | script.js:120-156 | the four direction branches give the reference moved board and its score |
| Game.Game.Move | script.js:117-171 | a no-op when the game is over or the board would not change; otherwise the moved board plus one spawned tile, the score raised by the move score, the high score the maximum, and the game over iff stuck |
| Game.Game.AiTick | script.js:346-359 | one automated tick: stops when over; otherwise the move is the strategy's own answer on the board (`Chooses`); with no move it runs the loss check; a no-op move leaves every field unchanged; a changing move gives the moved board plus a spawned tile, the raised score, the maximum high score and the loss flag |
| Game.CornerFirstSpawn | script.js:83-89 | on the reset board the draw 15/16 and a 2 put the tile in the bottom-right cell |
| Game.CornerSecondSpawn | script.js:83-89 | after that, the draw 14/15 and a 4 put the tile just left of it |
| Game.CornerBoardIsStartBoard | script.js:22-29 | a new game with those draws starts on the board where the corner player is trapped |
| Game.CornerPlayerStalls | script.js:346-353 | after that start, every one of any number of corner ticks proposes down and reports the game as running; the board stays the trap board, the score 0, the loss flag clear and the high score as it was before the new game |

## Left out

- Rendering (`updateUI`, overlay, messages, font sizes) and input wiring (keyboard, buttons, resize): they are presentation only.
- `localStorage` persistence (script.js:16, 163). The stored high score is a constructor parameter, and its string-to-number coercion is not modelled.
- The `setInterval` timer, `startAI`/`stopAI` and button enabling: they are timer and DOM plumbing. `Game.Game.AiTick` models one tick, and `running` says whether the timer would continue.
- `Math.random()`: each call is a caller-supplied real draw in [0, 1). Probabilities are not modelled; lemmas show only that every outcome is reachable.
- `JSON.stringify`/`JSON.parse` copying and comparison: boards are values, so a copy is the value itself and the comparison is sequence equality.
- Before `startGame` runs, the source's board is `[]`. The constructor uses an all-zero 4×4 board instead, because `startGame` runs straight after it in the source.
- Slide idempotence is false ([2,2,4,0] → [4,4,0,0] → [8,0,0,0]), so it is not stated.
- Strategies.GreedyMove: requires non-negative cells. The source's `-1` starting maximum relies on merge scores being at least 0, which holds for every board the game can reach: the class methods keep every cell 0 or a power of two (`Game.Game.Valid`), and such cells are non-negative (`Grid.CellsValidNonNegative`).
- Strategies.SelectMove: requires non-negative cells, for the same reason.
- Strategies.GreedyMove: for down it scores the up result, as the source's simulation does, and its contract states this rather than the real down move.
- Strategies.LookaheadMove: for down it evaluates the up result, as the source's simulation does, and its contract states this rather than the real down move.
- The board is a `seq<seq<int>>` value, not a mutable nested JavaScript array. In-place writes like `tempBoard[i] = newRow` and `board[r][c] = v` are modelled as sequence updates, and nothing is aliased.
- JavaScript numbers are modelled as unbounded integers. Tiles stay far below 2^53, so no rounding occurs.
