// The game state of script.js (board, score, highScore, isGameOver) and the
// operations that update it: startGame, getEmptyTiles, spawnTile, move,
// checkGameOver, checkForWin and one tick of the automated player.

module Game {
  import opened Rows
  import opened Grid
  import opened Strategies

  /** The tile value whose appearance checkForWin looks for. */
  const WinningTile: int := 2048

  /** Array(SIZE).fill(null).map(() => Array(SIZE).fill(0)). */
  function EmptyBoard(): (b: Board)
    ensures IsBoard(b)
    ensures forall r, c :: 0 <= r < SIZE && 0 <= c < SIZE ==> b[r][c] == 0
  {
    seq(SIZE, _ => Zeros(SIZE))
  }

  /** Math.random() < 0.9 ? 2 : 4. */
  function NewTileValue(draw: real): (v: int)
    ensures v == 2 || v == 4
    ensures IsPow2Tile(v)
  {
    if draw < 0.9 then 2 else 4
  }

  /** Both tile values occur: a draw below 0.9 gives 2 and any other draw gives 4. */
  lemma NewTileValueReaches(v: int)
    requires v == 2 || v == 4
    ensures 0.0 <= (if v == 2 then 0.0 else 0.95) < 1.0
    ensures NewTileValue(if v == 2 then 0.0 else 0.95) == v
  {
  }

  /** The board with cell p set to v (board[r][c] = v). */
  function Place(b: Board, p: Cell, v: int): (s: Board)
    requires IsBoard(b) && p.r < SIZE && p.c < SIZE
    ensures IsBoard(s)
    ensures s[p.r][p.c] == v
    ensures forall r, c :: 0 <= r < SIZE && 0 <= c < SIZE && (r != p.r || c != p.c) ==> s[r][c] == b[r][c]
  {
    b[p.r := b[p.r][p.c := v]]
  }

  /** The cell spawnTile picks: getEmptyTiles()[Math.floor(Math.random() * n)]. */
  function SpawnCell(b: Board, cellDraw: real): (p: Cell)
    requires IsBoard(b) && EmptyCells(b) != [] && 0.0 <= cellDraw < 1.0
    ensures p in EmptyCells(b)
    ensures p.r < SIZE && p.c < SIZE && b[p.r][p.c] == 0
  {
    EmptyCellsSpec(b);
    EmptyCells(b)[PickIndex(cellDraw, |EmptyCells(b)|)]
  }

  /** The board after spawnTile: one new tile on an empty cell, or no change on a full board. */
  function Spawned(b: Board, cellDraw: real, valueDraw: real): (s: Board)
    requires IsBoard(b) && 0.0 <= cellDraw < 1.0
    ensures IsBoard(s)
  {
    if |EmptyCells(b)| > 0 then Place(b, SpawnCell(b, cellDraw), NewTileValue(valueDraw)) else b
  }

  // ---------------------------------------------------------------------
  // What a spawn does

  /**
   * On a board with an empty cell, exactly the picked empty cell receives a
   * 2 or a 4 and every other cell is kept; a full board is left as it is.
   */
  lemma SpawnedSpec(b: Board, cellDraw: real, valueDraw: real)
    requires IsBoard(b) && 0.0 <= cellDraw < 1.0
    ensures !HasEmpty(b) ==> Spawned(b, cellDraw, valueDraw) == b
    ensures HasEmpty(b) ==> (EmptyCells(b) != [] &&
      var p := SpawnCell(b, cellDraw);
      var s := Spawned(b, cellDraw, valueDraw);
      b[p.r][p.c] == 0 && (s[p.r][p.c] == 2 || s[p.r][p.c] == 4) &&
      forall r, c :: 0 <= r < SIZE && 0 <= c < SIZE && (r != p.r || c != p.c) ==> s[r][c] == b[r][c])
  {
    EmptyCellsIffHasEmpty(b);
  }

  /** Every empty cell and every tile value is what some pair of draws spawns. */
  lemma SpawnReachesEveryChoice(b: Board, k: nat, v: int)
    requires IsBoard(b) && k < |EmptyCells(b)| && (v == 2 || v == 4)
    ensures 0.0 <= (k as real) / (|EmptyCells(b)| as real) < 1.0
    ensures EmptyCells(b)[k].r < SIZE && EmptyCells(b)[k].c < SIZE
    ensures Spawned(b, (k as real) / (|EmptyCells(b)| as real), if v == 2 then 0.0 else 0.95) ==
      Place(b, EmptyCells(b)[k], v)
  {
    PickIndexReaches(k, |EmptyCells(b)|);
    NewTileValueReaches(v);
    EmptyCellsSpec(b);
    assert EmptyCells(b)[k] in EmptyCells(b);
  }

  lemma {:induction false} PlaceEmptyUpTo(b: Board, p: Cell, v: int, n: nat)
    requires IsBoard(b) && p.r < SIZE && p.c < SIZE && b[p.r][p.c] == 0 && v != 0
    requires n <= SIZE * SIZE
    ensures |EmptyUpTo(Place(b, p, v), n)| == |EmptyUpTo(b, n)| - (if Flat(p) < n then 1 else 0)
    decreases n
  {
    if n > 0 {
      PlaceEmptyUpTo(b, p, v, n - 1);
      FlatInverse(n - 1);
      var r, c := (n - 1) / SIZE, (n - 1) % SIZE;
      assert Flat(Cell(r, c)) == n - 1;
      assert Flat(p) == n - 1 <==> p == Cell(r, c);
    }
  }

  /** A spawn on a board with an empty cell fills exactly one of them. */
  lemma SpawnedEmptyCount(b: Board, cellDraw: real, valueDraw: real)
    requires IsBoard(b) && 0.0 <= cellDraw < 1.0 && HasEmpty(b)
    ensures |EmptyCells(Spawned(b, cellDraw, valueDraw))| == |EmptyCells(b)| - 1
  {
    EmptyCellsIffHasEmpty(b);
    var p := SpawnCell(b, cellDraw);
    PlaceEmptyUpTo(b, p, NewTileValue(valueDraw), SIZE * SIZE);
  }

  lemma {:induction false} SumUpdate(s: seq<int>, i: nat, x: int)
    requires i < |s|
    ensures Sum(s[i := x]) == Sum(s) - s[i] + x
    decreases |s|
  {
    var n := |s|;
    if i == n - 1 {
      assert s[i := x][..n - 1] == s[..n - 1];
    } else {
      assert s[i := x][..n - 1] == s[..n - 1][i := x];
      SumUpdate(s[..n - 1], i, x);
    }
  }

  lemma PlaceSum(b: Board, p: Cell, v: int)
    requires IsBoard(b) && p.r < SIZE && p.c < SIZE
    ensures BoardSum(Place(b, p, v)) == BoardSum(b) - b[p.r][p.c] + v
  {
    var s := Place(b, p, v);
    var rows := seq(SIZE, r requires 0 <= r < SIZE => Sum(b[r]));
    var rows' := seq(SIZE, r requires 0 <= r < SIZE => Sum(s[r]));
    SumUpdate(b[p.r], p.c, v);
    assert rows' == rows[p.r := Sum(b[p.r]) - b[p.r][p.c] + v];
    SumUpdate(rows, p.r, Sum(b[p.r]) - b[p.r][p.c] + v);
  }

  /** A spawn adds the new tile's value to the board's total. */
  lemma SpawnedSum(b: Board, cellDraw: real, valueDraw: real)
    requires IsBoard(b) && 0.0 <= cellDraw < 1.0 && HasEmpty(b)
    ensures BoardSum(Spawned(b, cellDraw, valueDraw)) == BoardSum(b) + NewTileValue(valueDraw)
  {
    EmptyCellsIffHasEmpty(b);
    PlaceSum(b, SpawnCell(b, cellDraw), NewTileValue(valueDraw));
  }

  /** A spawn keeps every cell 0 or a power of two. */
  lemma SpawnedCellsValid(b: Board, cellDraw: real, valueDraw: real)
    requires IsBoard(b) && 0.0 <= cellDraw < 1.0 && CellsValid(b)
    ensures CellsValid(Spawned(b, cellDraw, valueDraw))
  {
  }

  lemma {:induction false} EmptyBoardEmptyUpTo(n: nat)
    requires n <= SIZE * SIZE
    ensures |EmptyUpTo(EmptyBoard(), n)| == n
    decreases n
  {
    if n > 0 {
      EmptyBoardEmptyUpTo(n - 1);
      FlatInverse(n - 1);
    }
  }

  /** The board startGame leaves for the given draws. */
  function StartBoard(cellDraw1: real, valueDraw1: real, cellDraw2: real, valueDraw2: real): (s: Board)
    requires 0.0 <= cellDraw1 < 1.0 && 0.0 <= cellDraw2 < 1.0
    ensures IsBoard(s)
  {
    Spawned(Spawned(EmptyBoard(), cellDraw1, valueDraw1), cellDraw2, valueDraw2)
  }

  lemma FirstSpawnLeavesRoom(cellDraw1: real, valueDraw1: real)
    requires 0.0 <= cellDraw1 < 1.0
    ensures |EmptyCells(EmptyBoard())| == SIZE * SIZE
    ensures |EmptyCells(Spawned(EmptyBoard(), cellDraw1, valueDraw1))| == SIZE * SIZE - 1
    ensures HasEmpty(EmptyBoard()) && HasEmpty(Spawned(EmptyBoard(), cellDraw1, valueDraw1))
  {
    var e := EmptyBoard();
    EmptyBoardEmptyUpTo(SIZE * SIZE);
    assert e[0][0] == 0;
    SpawnedEmptyCount(e, cellDraw1, valueDraw1);
    EmptyCellsIffHasEmpty(Spawned(e, cellDraw1, valueDraw1));
  }

  /** startGame leaves exactly two tiles: fourteen of the sixteen cells are empty. */
  lemma StartBoardEmptyCount(cellDraw1: real, valueDraw1: real, cellDraw2: real, valueDraw2: real)
    requires 0.0 <= cellDraw1 < 1.0 && 0.0 <= cellDraw2 < 1.0
    ensures |EmptyCells(StartBoard(cellDraw1, valueDraw1, cellDraw2, valueDraw2))| == SIZE * SIZE - 2
  {
    FirstSpawnLeavesRoom(cellDraw1, valueDraw1);
    SpawnedEmptyCount(Spawned(EmptyBoard(), cellDraw1, valueDraw1), cellDraw2, valueDraw2);
  }

  /** Every cell startGame leaves is empty, a 2 or a 4. */
  lemma StartBoardValues(cellDraw1: real, valueDraw1: real, cellDraw2: real, valueDraw2: real)
    requires 0.0 <= cellDraw1 < 1.0 && 0.0 <= cellDraw2 < 1.0
    ensures var s := StartBoard(cellDraw1, valueDraw1, cellDraw2, valueDraw2);
      forall r, c :: 0 <= r < SIZE && 0 <= c < SIZE ==> s[r][c] == 0 || s[r][c] == 2 || s[r][c] == 4
  {
    FirstSpawnLeavesRoom(cellDraw1, valueDraw1);
    SpawnedSpec(EmptyBoard(), cellDraw1, valueDraw1);
    SpawnedSpec(Spawned(EmptyBoard(), cellDraw1, valueDraw1), cellDraw2, valueDraw2);
  }

  /** The two tiles of startGame are the only values on the board. */
  lemma StartBoardSum(cellDraw1: real, valueDraw1: real, cellDraw2: real, valueDraw2: real)
    requires 0.0 <= cellDraw1 < 1.0 && 0.0 <= cellDraw2 < 1.0
    ensures BoardSum(StartBoard(cellDraw1, valueDraw1, cellDraw2, valueDraw2)) ==
      NewTileValue(valueDraw1) + NewTileValue(valueDraw2)
  {
    FirstSpawnLeavesRoom(cellDraw1, valueDraw1);
    SpawnedSum(EmptyBoard(), cellDraw1, valueDraw1);
    SpawnedSum(Spawned(EmptyBoard(), cellDraw1, valueDraw1), cellDraw2, valueDraw2);
    BoardSumCells(EmptyBoard());
  }

  /**
   * A committed move always has room for its spawn: the slid board differs
   * from the original, so it has an empty cell, and the spawn fills one.
   */
  lemma CommittedMoveSpawns(b: Board, d: Direction, cellDraw: real, valueDraw: real)
    requires IsBoard(b) && 0.0 <= cellDraw < 1.0 && Shifted(b, d) != b
    ensures HasEmpty(Shifted(b, d))
    ensures |EmptyCells(Spawned(Shifted(b, d), cellDraw, valueDraw))| == |EmptyCells(Shifted(b, d))| - 1
    ensures BoardSum(Spawned(Shifted(b, d), cellDraw, valueDraw)) == BoardSum(b) + NewTileValue(valueDraw)
  {
    ShiftChangedHasEmpty(b, d);
    SpawnedEmptyCount(Shifted(b, d), cellDraw, valueDraw);
    SpawnedSum(Shifted(b, d), cellDraw, valueDraw);
    ShiftedSum(b, d);
  }

  /** Some cell of the board holds v. */
  predicate HasTile(b: Board, v: int)
    requires IsBoard(b)
  {
    exists r, c :: 0 <= r < SIZE && 0 <= c < SIZE && b[r][c] == v
  }

  /** The first spawn of a new game with draw 15/16 and a 2 fills the last cell. */
  lemma CornerFirstSpawn()
    ensures Spawned(EmptyBoard(), 15.0 / 16.0, 0.0) == Place(EmptyBoard(), Cell(3, 3), 2)
  {
    var e := EmptyBoard();
    assert |EmptyCells(e)| == 16 && |EmptyUpTo(e, 15)| == 15 by {
      FirstSpawnLeavesRoom(15.0 / 16.0, 0.0);
      EmptyBoardEmptyUpTo(SIZE * SIZE - 1);
    }
    assert EmptyCells(e) == EmptyUpTo(e, 15) + [Cell(3, 3)] by {
      assert e[3][3] == 0;
    }
    assert EmptyCells(e)[15] == Cell(3, 3);
    SpawnReachesEveryChoice(e, 15, 2);
  }

  /** The second spawn with draw 14/15 and a 4 fills the last cell still empty. */
  lemma CornerSecondSpawn()
    ensures var b1 := Place(EmptyBoard(), Cell(3, 3), 2);
      Spawned(b1, 14.0 / 15.0, 0.95) == Place(b1, Cell(3, 2), 4)
  {
    var b1 := Place(EmptyBoard(), Cell(3, 3), 2);
    assert |EmptyCells(b1)| == 15 by {
      FirstSpawnLeavesRoom(15.0 / 16.0, 0.0);
      CornerFirstSpawn();
    }
    assert EmptyCells(b1) == EmptyUpTo(b1, 14) + [Cell(3, 2)] by {
      assert b1[3][3] == 2 && b1[3][2] == 0;
      assert EmptyUpTo(b1, 16) == EmptyUpTo(b1, 15);
    }
    assert EmptyCells(b1)[14] == Cell(3, 2);
    SpawnReachesEveryChoice(b1, 14, 4);
  }

  /**
   * A new game can start on the corner strategy's trap: the first spawn
   * takes the last of the sixteen empty cells, the second the last of the
   * fifteen left.
   */
  lemma CornerBoardIsStartBoard()
    ensures StartBoard(15.0 / 16.0, 0.0, 14.0 / 15.0, 0.95) == CornerBoard
  {
    var b1 := Place(EmptyBoard(), Cell(3, 3), 2);
    var b2 := Place(b1, Cell(3, 2), 4);
    CornerFirstSpawn();
    CornerSecondSpawn();
    assert StartBoard(15.0 / 16.0, 0.0, 14.0 / 15.0, 0.95) == b2;
    forall r, c | 0 <= r < SIZE && 0 <= c < SIZE
      ensures b2[r][c] == CornerBoard[r][c]
    {
      if r == 3 && c == 2 {
      } else if r == 3 && c == 3 {
      } else {
        assert b2[r][c] == 0;
      }
    }
    BoardExt(b2, CornerBoard);
  }

  // ---------------------------------------------------------------------
  // The game state

  class Game {
    var board: Board
    var score: int
    var highScore: int
    var isGameOver: bool

    /** A 4x4 board of empty cells and tiles, and a score the high score covers. */
    ghost predicate Valid()
      reads this
    {
      IsBoard(board) && CellsValid(board) && 0 <= score <= highScore
    }

    /** The script's declarations, with the high score loaded from storage. */
    constructor (storedHighScore: nat)
      ensures Valid()
      ensures board == EmptyBoard() && score == 0 && highScore == storedHighScore && !isGameOver
    {
      board := EmptyBoard();
      score := 0;
      highScore := storedHighScore;
      isGameOver := false;
    }

    /** getEmptyTiles: the empty cells, row by row. */
    method GetEmptyTiles() returns (emptyTiles: seq<Cell>)
      requires IsBoard(board)
      ensures emptyTiles == EmptyCells(board)
    {
      emptyTiles := [];
      var r := 0;
      while r < SIZE
        invariant 0 <= r <= SIZE
        invariant emptyTiles == EmptyUpTo(board, r * SIZE)
      {
        var c := 0;
        while c < SIZE
          invariant 0 <= c <= SIZE
          invariant emptyTiles == EmptyUpTo(board, r * SIZE + c)
        {
          FlatInverse(r * SIZE + c);
          if board[r][c] == 0 {
            emptyTiles := emptyTiles + [Cell(r, c)];
          }
          c := c + 1;
        }
        r := r + 1;
      }
    }

    /** spawnTile: put a 2 or a 4 on a randomly picked empty cell, if there is one. */
    method SpawnTile(cellDraw: real, valueDraw: real)
      requires IsBoard(board) && 0.0 <= cellDraw < 1.0
      modifies this
      ensures board == Spawned(old(board), cellDraw, valueDraw)
      ensures score == old(score) && highScore == old(highScore) && isGameOver == old(isGameOver)
    {
      var emptyTiles := GetEmptyTiles();
      if |emptyTiles| > 0 {
        var p := emptyTiles[PickIndex(cellDraw, |emptyTiles|)];
        assert p == SpawnCell(board, cellDraw);
        board := board[p.r := board[p.r][p.c := NewTileValue(valueDraw)]];
      }
    }

    /** checkGameOver: set isGameOver when no cell is empty and no neighbours are equal. */
    method CheckGameOver()
      requires IsBoard(board)
      modifies this
      ensures board == old(board) && score == old(score) && highScore == old(highScore)
      ensures isGameOver == (old(isGameOver) || Stuck(board))
    {
      var emptyTiles := GetEmptyTiles();
      EmptyCellsIffHasEmpty(board);
      if |emptyTiles| > 0 {
        return;
      }
      var r := 0;
      while r < SIZE
        invariant 0 <= r <= SIZE
        invariant forall i: nat, j: nat :: i < r && j < SIZE ==>
          !EqualsRight(board, i, j) && !EqualsBelow(board, i, j)
      {
        var c := 0;
        while c < SIZE
          invariant 0 <= c <= SIZE
          invariant forall i: nat, j: nat :: i < SIZE && j < SIZE && (i < r || (i == r && j < c)) ==>
            !EqualsRight(board, i, j) && !EqualsBelow(board, i, j)
        {
          var val := board[r][c];
          if c < SIZE - 1 && val == board[r][c + 1] {
            assert EqualsRight(board, r, c);
            return;
          }
          if r < SIZE - 1 && val == board[r + 1][c] {
            assert EqualsBelow(board, r, c);
            return;
          }
          c := c + 1;
        }
        r := r + 1;
      }
      isGameOver := true;
    }

    /** checkForWin: set isGameOver when some cell holds 2048. Nothing calls it. */
    method CheckForWin()
      requires IsBoard(board)
      modifies this
      ensures board == old(board) && score == old(score) && highScore == old(highScore)
      ensures isGameOver == (old(isGameOver) || HasTile(board, WinningTile))
    {
      var r := 0;
      while r < SIZE
        invariant 0 <= r <= SIZE
        invariant forall i, j :: 0 <= i < r && 0 <= j < SIZE ==> board[i][j] != WinningTile
      {
        var c := 0;
        while c < SIZE
          invariant 0 <= c <= SIZE
          invariant forall i, j :: 0 <= i < SIZE && 0 <= j < SIZE && (i < r || (i == r && j < c)) ==>
            board[i][j] != WinningTile
        {
          if board[r][c] == WinningTile {
            isGameOver := true;
            return;
          }
          c := c + 1;
        }
        r := r + 1;
      }
    }

    /** startGame: empty board, score 0, not over, then two spawns. */
    method StartGame(cellDraw1: real, valueDraw1: real, cellDraw2: real, valueDraw2: real)
      requires 0 <= highScore
      requires 0.0 <= cellDraw1 < 1.0 && 0.0 <= cellDraw2 < 1.0
      modifies this
      ensures Valid()
      ensures board == StartBoard(cellDraw1, valueDraw1, cellDraw2, valueDraw2)
      ensures score == 0 && !isGameOver && highScore == old(highScore)
    {
      board := EmptyBoard();
      score := 0;
      isGameOver := false;
      SpawnTile(cellDraw1, valueDraw1);
      SpawnedCellsValid(EmptyBoard(), cellDraw1, valueDraw1);
      SpawnTile(cellDraw2, valueDraw2);
      SpawnedCellsValid(Spawned(EmptyBoard(), cellDraw1, valueDraw1), cellDraw2, valueDraw2);
    }

    /**
     * The sliding part of move: the rewrite for the direction, every row
     * slid with its merge score added up, and the rewrite undone.
     */
    method SlideBoard(direction: Direction) returns (tempBoard: Board, moveScore: int)
      requires IsBoard(board)
      ensures tempBoard == Shifted(board, direction)
      ensures moveScore == MoveGain(board, direction)
    {
      BoardIsMatrix(board);
      tempBoard := board;
      if direction == Up {
        tempBoard := Transpose(tempBoard);
        SlideUpIsShift(board);
        tempBoard, moveScore := SlideEachRow(tempBoard);
        BoardIsMatrix(tempBoard);
        tempBoard := Transpose(tempBoard);
      } else if direction == Down {
        tempBoard := Transpose(tempBoard);
        tempBoard := Reverse(tempBoard);
        SlideDownIsShift(board);
        tempBoard, moveScore := SlideEachRow(tempBoard);
        tempBoard := Reverse(tempBoard);
        BoardIsMatrix(tempBoard);
        tempBoard := Transpose(tempBoard);
      } else if direction == Left {
        tempBoard, moveScore := SlideEachRow(tempBoard);
        SlideLeftIsShift(board);
      } else {
        tempBoard := Reverse(tempBoard);
        tempBoard, moveScore := SlideEachRow(tempBoard);
        SlideRightIsShift(board);
        tempBoard := Reverse(tempBoard);
      }
    }

    /**
     * move: nothing on a lost game or when the slide changes nothing;
     * otherwise commit the slid board, add the merge score, raise the high
     * score, spawn a tile and run the loss check.
     */
    method Move(direction: Direction, cellDraw: real, valueDraw: real) returns (moved: bool)
      requires Valid() && 0.0 <= cellDraw < 1.0
      modifies this
      ensures Valid()
      ensures moved <==> !old(isGameOver) && Shifted(old(board), direction) != old(board)
      ensures !moved ==> (board == old(board) && score == old(score) &&
        highScore == old(highScore) && isGameOver == old(isGameOver))
      ensures moved ==> board == Spawned(Shifted(old(board), direction), cellDraw, valueDraw)
      ensures moved ==> score == old(score) + MoveGain(old(board), direction)
      ensures moved ==> highScore == if score > old(highScore) then score else old(highScore)
      ensures moved ==> isGameOver == Stuck(board)
    {
      if isGameOver {
        return false;
      }
      var tempBoard, moveScore := SlideBoard(direction);
      if tempBoard != board {
        CellsValidNonNegative(board);
        MoveGainNonnegative(board, direction);
        ShiftedCellsValid(board, direction);
        board := tempBoard;
        score := score + moveScore;
        if score > highScore {
          highScore := score;
        }
        SpawnedCellsValid(board, cellDraw, valueDraw);
        SpawnTile(cellDraw, valueDraw);
        CheckGameOver();
        return true;
      }
      return false;
    }

    /**
     * One tick of the automated player: stop on a lost game; otherwise ask
     * the strategy for a move and make it, or stop and run the loss check
     * when the strategy has none.
     */
    method AiTick(strategy: StrategyName, moveDraw: real, cellDraw: real, valueDraw: real)
      returns (running: bool, bestMove: Option<Direction>)
      requires Valid() && 0.0 <= moveDraw < 1.0 && 0.0 <= cellDraw < 1.0
      modifies this
      ensures Valid()
      ensures running <==> bestMove.Some?
      ensures old(isGameOver) ==> bestMove.None?
      ensures !old(isGameOver) ==> Chooses(strategy, old(board), moveDraw, bestMove)
      ensures !old(isGameOver) ==> (bestMove.None? <==> ValidMoves(old(board)) == [])
      ensures bestMove.Some? ==> bestMove.value in ValidMoves(old(board))
      ensures bestMove.None? ==> (board == old(board) && score == old(score) &&
        highScore == old(highScore) && isGameOver == (old(isGameOver) || Stuck(old(board))))
      ensures bestMove.Some? && Shifted(old(board), bestMove.value) == old(board) ==>
        (board == old(board) && score == old(score) && highScore == old(highScore) && isGameOver == old(isGameOver))
      ensures bestMove.Some? && Shifted(old(board), bestMove.value) != old(board) ==>
        (board == Spawned(Shifted(old(board), bestMove.value), cellDraw, valueDraw) &&
        score == old(score) + MoveGain(old(board), bestMove.value) &&
        highScore == (if score > old(highScore) then score else old(highScore)) && isGameOver == Stuck(board))
    {
      if isGameOver {
        return false, None;
      }
      CellsValidNonNegative(board);
      bestMove := SelectMove(strategy, board, moveDraw);
      if bestMove.Some? {
        var _ := Move(bestMove.value, cellDraw, valueDraw);
        running := true;
      } else {
        CheckGameOver();
        running := false;
      }
    }
  }

  /**
   * The corner player's endless no-op: a new game that starts on CornerBoard,
   * then any number of automated ticks. Every tick proposes down, the move
   * changes nothing, and the game keeps running with its state untouched.
   */
  method CornerPlayerStalls(g: Game, ticks: nat, moveDraw: real, cellDraw: real, valueDraw: real)
    returns (proposals: seq<Option<Direction>>, runs: seq<bool>)
    requires 0 <= g.highScore && 0.0 <= moveDraw < 1.0 && 0.0 <= cellDraw < 1.0
    modifies g
    ensures g.board == CornerBoard && g.score == 0 && !g.isGameOver && g.highScore == old(g.highScore)
    ensures |proposals| == ticks && forall i :: 0 <= i < ticks ==> proposals[i] == Some(Down)
    ensures |runs| == ticks && forall i :: 0 <= i < ticks ==> runs[i]
  {
    g.StartGame(15.0 / 16.0, 0.0, 14.0 / 15.0, 0.95);
    CornerBoardIsStartBoard();
    CornerProposesNoOp();
    proposals, runs := [], [];
    while |proposals| < ticks
      invariant |runs| == |proposals| <= ticks
      invariant g.Valid() && g.board == CornerBoard && g.score == 0 && !g.isGameOver
      invariant g.highScore == old(g.highScore)
      invariant forall i :: 0 <= i < |proposals| ==> proposals[i] == Some(Down)
      invariant forall i :: 0 <= i < |runs| ==> runs[i]
      decreases ticks - |proposals|
    {
      var running, bestMove := g.AiTick(Corner, moveDraw, cellDraw, valueDraw);
      assert running && bestMove == Some(Down);
      proposals, runs := proposals + [bestMove], runs + [running];
    }
  }
}
