// The automated player: getValidMoves, simulateMove and the four entries of
// aiStrategies (random, corner, greedy, lookahead).

module Strategies {
  import opened Rows
  import opened Grid

  datatype Option<T> = None | Some(value: T)

  /** The keys of aiStrategies. */
  datatype StrategyName = Random | Corner | Greedy | Lookahead

  /**
   * The direction whose result the simulations compute. Their 'down' branch
   * applies reverse before transpose and undoes it in the other order, which
   * slides the columns towards the top: it computes the up result.
   */
  function SimulatedDirection(d: Direction): Direction
  {
    if d == Down then Up else d
  }

  /** The simulation's down: transpose(reverse(b)), slide, reverse(transpose(.)). */
  lemma SimulatedDownIsUp(b: Board)
    requires IsBoard(b)
    ensures IsMatrix(Reverse(b)) && IsBoard(Transpose(Reverse(b)))
    ensures IsBoard(SlideRows(Transpose(Reverse(b))))
    ensures Reverse(Transpose(SlideRows(Transpose(Reverse(b))))) == Shifted(b, Up)
    ensures Sum(RowGains(Transpose(Reverse(b)))) == MoveGain(b, Up)
  {
    BoardIsMatrix(b);
    BoardIsMatrix(Reverse(b));
    var pre := Transpose(Reverse(b));
    forall k | 0 <= k < SIZE
      ensures pre[k] == Line(b, Up, SIZE - 1 - k)
    {
    }
    var m := SlideRows(pre);
    assert IsBoard(m);
    var t := Reverse(Transpose(m));
    var s := Shifted(b, Up);
    forall r, c | 0 <= r < SIZE && 0 <= c < SIZE
      ensures t[r][c] == s[r][c]
    {
      assert t[r][c] == m[SIZE - 1 - c][r];
    }
    BoardExt(t, s);
    assert RowGains(pre) == RevRow(LineGains(b, Up));
    SumRev4(LineGains(b, Up));
  }

  lemma SumRev4(s: seq<int>)
    requires |s| == SIZE
    ensures Sum(RevRow(s)) == Sum(s)
  {
    Sum4(s);
    Sum4(RevRow(s));
  }

  /** Whether the simulation of direction d changes the board (simulateMove's answer). */
  predicate SimulationChanges(b: Board, d: Direction)
    requires IsBoard(b)
  {
    Shifted(b, SimulatedDirection(d)) != b
  }

  /**
   * simulateMove: rewrite a copy, slide every row, undo the rewrite, and
   * compare with the input.
   */
  method SimulateMove(b: Board, direction: Direction) returns (changed: bool)
    requires IsBoard(b)
    ensures changed == SimulationChanges(b, direction)
  {
    BoardIsMatrix(b);
    var tempBoard, ignoredGain := b, 0;
    if direction == Up {
      tempBoard := Transpose(tempBoard);
      tempBoard, ignoredGain := SlideEachRow(tempBoard);
      SlideUpIsShift(b);
      tempBoard := Transpose(tempBoard);
    } else if direction == Down {
      SimulatedDownIsUp(b);
      tempBoard := Transpose(Reverse(tempBoard));
      tempBoard, ignoredGain := SlideEachRow(tempBoard);
      tempBoard := Reverse(Transpose(tempBoard));
    } else if direction == Left {
      tempBoard, ignoredGain := SlideEachRow(tempBoard);
      SlideLeftIsShift(b);
    } else {
      tempBoard := Reverse(tempBoard);
      tempBoard, ignoredGain := SlideEachRow(tempBoard);
      SlideRightIsShift(b);
      tempBoard := Reverse(tempBoard);
    }
    changed := tempBoard != b;
  }

  /** The order in which getValidMoves tries the directions. */
  const Directions: seq<Direction> := [Up, Down, Left, Right]

  function DirectionIndex(d: Direction): nat
  {
    match d
    case Up => 0
    case Down => 1
    case Left => 2
    case Right => 3
  }

  /** The directions of ds that simulateMove reports as changing the board, in order. */
  function KeepValid(b: Board, ds: seq<Direction>): seq<Direction>
    requires IsBoard(b)
  {
    if ds == [] then []
    else
      var last := ds[|ds| - 1];
      KeepValid(b, ds[..|ds| - 1]) + (if SimulationChanges(b, last) then [last] else [])
  }

  /** What getValidMoves returns. */
  function ValidMoves(b: Board): seq<Direction>
    requires IsBoard(b)
  {
    KeepValid(b, Directions)
  }

  function Only(b: Board, d: Direction): seq<Direction>
    requires IsBoard(b)
  {
    if SimulationChanges(b, d) then [d] else []
  }

  lemma ValidMovesUnfold(b: Board)
    requires IsBoard(b)
    ensures ValidMoves(b) == Only(b, Up) + Only(b, Down) + Only(b, Left) + Only(b, Right)
  {
    var d := Directions;
    assert d[..3] == [Up, Down, Left] && d[3] == Right;
    assert KeepValid(b, d) == KeepValid(b, [Up, Down, Left]) + Only(b, Right);
    assert [Up, Down, Left][..2] == [Up, Down];
    assert KeepValid(b, [Up, Down, Left]) == KeepValid(b, [Up, Down]) + Only(b, Left);
    assert [Up, Down][..1] == [Up];
    assert KeepValid(b, [Up, Down]) == KeepValid(b, [Up]) + Only(b, Down);
    assert [Up][..0] == [];
    assert KeepValid(b, [Up]) == Only(b, Up);
  }

  /**
   * getValidMoves lists, in the order up, down, left, right, exactly the
   * directions simulateMove reports as changing the board. Because of the
   * simulation's down branch, down is listed exactly when up is.
   */
  lemma ValidMovesSpec(b: Board)
    requires IsBoard(b)
    ensures forall d :: d in ValidMoves(b) <==> SimulationChanges(b, d)
    ensures forall i, j :: 0 <= i < j < |ValidMoves(b)| ==>
      DirectionIndex(ValidMoves(b)[i]) < DirectionIndex(ValidMoves(b)[j])
    ensures Down in ValidMoves(b) <==> Shifted(b, Up) != b
    ensures Up in ValidMoves(b) <==> Down in ValidMoves(b)
    ensures Left in ValidMoves(b) <==> Shifted(b, Left) != b
    ensures Right in ValidMoves(b) <==> Shifted(b, Right) != b
  {
    ValidMovesUnfold(b);
  }

  /** getValidMoves: try each direction on a copy and collect those that change it. */
  method GetValidMoves(b: Board) returns (validMoves: seq<Direction>)
    requires IsBoard(b)
    ensures validMoves == ValidMoves(b)
  {
    validMoves := [];
    var i := 0;
    while i < |Directions|
      invariant 0 <= i <= |Directions|
      invariant validMoves == KeepValid(b, Directions[..i])
    {
      var direction := Directions[i];
      assert Directions[..i + 1][..i] == Directions[..i];
      var changed := SimulateMove(b, direction);
      if changed {
        validMoves := validMoves + [direction];
      }
      i := i + 1;
    }
    assert Directions[..i] == Directions;
  }

  /** A board on which nothing can move has no valid move. */
  lemma StuckHasNoValidMoves(b: Board)
    requires IsBoard(b) && Stuck(b)
    ensures ValidMoves(b) == []
  {
    StuckBoardIsFixed(b, Up);
    StuckBoardIsFixed(b, Left);
    StuckBoardIsFixed(b, Right);
    ValidMovesUnfold(b);
    assert Only(b, Up) == [] && Only(b, Down) == [] && Only(b, Left) == [] && Only(b, Right) == [];
  }

  // ---------------------------------------------------------------------
  // The four strategies

  /** The random strategy: the valid move at Math.floor(Math.random() * n). */
  function RandomMove(b: Board, draw: real): (m: Option<Direction>)
    requires IsBoard(b) && 0.0 <= draw < 1.0
    ensures m.None? <==> ValidMoves(b) == []
    ensures m.Some? ==> m.value in ValidMoves(b)
  {
    var validMoves := ValidMoves(b);
    if |validMoves| > 0 then Some(validMoves[PickIndex(draw, |validMoves|)]) else None
  }

  /** Every valid move is the random strategy's answer for some draw. */
  lemma RandomReachesEveryValidMove(b: Board, k: nat)
    requires IsBoard(b) && k < |ValidMoves(b)|
    ensures 0.0 <= (k as real) / (|ValidMoves(b)| as real) < 1.0
    ensures RandomMove(b, (k as real) / (|ValidMoves(b)| as real)) == Some(ValidMoves(b)[k])
  {
    PickIndexReaches(k, |ValidMoves(b)|);
  }

  /** The corner strategy's priority list. */
  const Priority: seq<Direction> := [Down, Right, Up, Left]

  function PriorityIndex(d: Direction): (i: nat)
    ensures i < |Priority| && Priority[i] == d
  {
    match d
    case Down => 0
    case Right => 1
    case Up => 2
    case Left => 3
  }

  /** The first entry of ps that occurs in v. */
  function FirstIn(ps: seq<Direction>, v: seq<Direction>): (m: Option<Direction>)
    ensures m.None? <==> forall i :: 0 <= i < |ps| ==> ps[i] !in v
    ensures m.Some? ==> m.value in v && m.value in ps
  {
    if ps == [] then None
    else if ps[0] in v then Some(ps[0])
    else FirstIn(ps[1..], v)
  }

  lemma {:induction false} FirstInEarlier(ps: seq<Direction>, v: seq<Direction>, j: nat)
    requires j < |ps| && FirstIn(ps, v).Some?
    requires forall i :: 0 <= i < j ==> ps[i] != FirstIn(ps, v).value
    ensures ps[j] == FirstIn(ps, v).value || ps[j] !in v
  {
    if ps[0] !in v && j > 0 {
      FirstInEarlier(ps[1..], v, j - 1);
    }
  }

  /**
   * The corner strategy: the first of down, right, up, left that is a valid
   * move; every direction ahead of it in that list is invalid.
   */
  function CornerMove(b: Board): (m: Option<Direction>)
    requires IsBoard(b)
    ensures m.None? <==> ValidMoves(b) == []
    ensures m.Some? ==> m.value in ValidMoves(b)
    ensures m.Some? ==> forall j :: 0 <= j < PriorityIndex(m.value) ==> Priority[j] !in ValidMoves(b)
  {
    var validMoves := ValidMoves(b);
    var m := FirstIn(Priority, validMoves);
    assert m.None? ==> validMoves == [] by {
      if validMoves != [] {
        var d := validMoves[0];
        assert Priority[PriorityIndex(d)] in validMoves;
      }
    }
    assert m.Some? ==> forall j :: 0 <= j < PriorityIndex(m.value) ==> Priority[j] !in validMoves by {
      if m.Some? {
        forall j | 0 <= j < PriorityIndex(m.value)
          ensures Priority[j] !in validMoves
        {
          FirstInEarlier(Priority, validMoves, j);
        }
      }
    }
    m
  }

  /** Index k holds the first occurrence of the largest value of s. */
  predicate FirstMaximum(s: seq<int>, k: int)
  {
    0 <= k < |s| &&
    (forall j :: 0 <= j < |s| ==> s[j] <= s[k]) &&
    (forall j :: 0 <= j < k ==> s[j] < s[k])
  }

  /** Extending a prefix by one element: the new element takes over exactly when it is larger. */
  lemma FirstMaximumStep(s: seq<int>, best: int, i: nat)
    requires i < |s| && (i > 0 ==> FirstMaximum(s[..i], best))
    ensures FirstMaximum(s[..i + 1], if i == 0 || s[best] < s[i] then i else best)
  {
    assert forall j :: 0 <= j < i ==> s[..i + 1][j] == s[..i][j];
  }

  /** The greedy score (the merge score of the simulated move) of each move of v. */
  function GreedyScores(b: Board, v: seq<Direction>): (s: seq<int>)
    requires IsBoard(b)
    ensures |s| == |v|
    decreases |v|
  {
    if v == [] then []
    else GreedyScores(b, v[..|v| - 1]) + [MoveGain(b, SimulatedDirection(v[|v| - 1]))]
  }

  lemma {:induction false} GreedyScoresAt(b: Board, v: seq<Direction>, j: nat)
    requires IsBoard(b) && j < |v|
    ensures GreedyScores(b, v)[j] == MoveGain(b, SimulatedDirection(v[j]))
    decreases |v|
  {
    if j < |v| - 1 {
      GreedyScoresAt(b, v[..|v| - 1], j);
    }
  }

  /** Greedy's inline scoring: the rewrite for the direction, then the summed row scores. */
  method GreedyScore(b: Board, move: Direction) returns (moveScore: int)
    requires IsBoard(b)
    ensures moveScore == MoveGain(b, SimulatedDirection(move))
  {
    BoardIsMatrix(b);
    var boardCopy := b;
    if move == Up {
      boardCopy := Transpose(boardCopy);
    }
    if move == Down {
      BoardIsMatrix(Reverse(boardCopy));
      boardCopy := Transpose(Reverse(boardCopy));
    }
    if move == Right {
      boardCopy := Reverse(boardCopy);
    }
    match move {
      case Up => SlideUpIsShift(b);
      case Down => SimulatedDownIsUp(b);
      case Left => SlideLeftIsShift(b);
      case Right => SlideRightIsShift(b);
    }
    moveScore := SumMergeScores(boardCopy);
  }

  /** Greedy's inner loop: the sum of the merge scores of sliding each row. */
  method SumMergeScores(m: Board) returns (moveScore: int)
    requires IsBoard(m)
    ensures moveScore == Sum(RowGains(m))
  {
    moveScore := 0;
    var i := 0;
    while i < SIZE
      invariant 0 <= i <= SIZE
      invariant moveScore == Sum(RowGains(m)[..i])
    {
      var _, mergeScore := SlideAndMergeRow(m[i]);
      moveScore := moveScore + mergeScore;
      assert RowGains(m)[..i + 1][..i] == RowGains(m)[..i];
      i := i + 1;
    }
    assert RowGains(m)[..SIZE] == RowGains(m);
  }

  /**
   * The greedy strategy: the earliest valid move with the strictly largest
   * merge score; none when no move is valid.
   */
  method GreedyMove(b: Board) returns (bestMove: Option<Direction>)
    requires IsBoard(b) && NonNegative(b)
    ensures bestMove.None? <==> ValidMoves(b) == []
    ensures bestMove.Some? ==> exists k ::
      FirstMaximum(GreedyScores(b, ValidMoves(b)), k) && bestMove.value == ValidMoves(b)[k]
  {
    var validMoves := GetValidMoves(b);
    bestMove := GreedyBest(b, validMoves);
  }

  /** The loop of the greedy strategy over the valid moves. */
  method GreedyBest(b: Board, validMoves: seq<Direction>) returns (bestMove: Option<Direction>)
    requires IsBoard(b) && NonNegative(b)
    ensures bestMove.None? <==> validMoves == []
    ensures bestMove.Some? ==> exists k ::
      FirstMaximum(GreedyScores(b, validMoves), k) && bestMove.value == validMoves[k]
  {
    bestMove := None;
    var maxScore := -1;
    ghost var scores := GreedyScores(b, validMoves);
    ghost var best := 0;
    var i := 0;
    while i < |validMoves|
      invariant 0 <= i <= |validMoves|
      invariant bestMove.None? <==> i == 0
      invariant i == 0 ==> maxScore == -1
      invariant i > 0 ==> (FirstMaximum(scores[..i], best) && bestMove == Some(validMoves[best]) &&
        maxScore == scores[best])
    {
      var move := validMoves[i];
      var moveScore := GreedyScore(b, move);
      GreedyScoresAt(b, validMoves, i);
      MoveGainNonnegative(b, SimulatedDirection(move));
      assert scores[i] == moveScore;
      ghost var next := if i == 0 || scores[best] < scores[i] then i else best;
      FirstMaximumStep(scores, best, i);
      assert next == i <==> moveScore > maxScore;
      if moveScore > maxScore {
        maxScore := moveScore;
        bestMove := Some(move);
      }
      best := next;
      i := i + 1;
    }
    assert scores[..i] == scores;
  }

  /** The key lookahead maximises: empty cells after the move, then its merge score. */
  function LookaheadKey(b: Board, d: Direction): (int, int)
    requires IsBoard(b)
  {
    (|EmptyCells(Shifted(b, SimulatedDirection(d)))|, MoveGain(b, SimulatedDirection(d)))
  }

  /** Lexicographic strict order on keys. */
  predicate KeyBelow(x: (int, int), y: (int, int))
  {
    x.0 < y.0 || (x.0 == y.0 && x.1 < y.1)
  }

  /** Index k holds the first occurrence of the lexicographically largest key of s. */
  predicate FirstLexMaximum(s: seq<(int, int)>, k: int)
  {
    0 <= k < |s| &&
    (forall j :: 0 <= j < |s| ==> !KeyBelow(s[k], s[j])) &&
    (forall j :: 0 <= j < k ==> KeyBelow(s[j], s[k]))
  }

  lemma FirstLexMaximumStep(s: seq<(int, int)>, best: int, i: nat)
    requires i < |s| && (i > 0 ==> FirstLexMaximum(s[..i], best))
    ensures FirstLexMaximum(s[..i + 1], if i == 0 || KeyBelow(s[best], s[i]) then i else best)
  {
    assert forall j :: 0 <= j < i ==> s[..i + 1][j] == s[..i][j];
  }

  /**
   * One step of lookahead's scan: the source's two-level test against the
   * running best (maxEmptyTiles, bestScore), started from (-1, -1), keeps the
   * first lexicographic maximum of the keys seen so far.
   */
  lemma LookaheadScanStep(keys: seq<(int, int)>, best: int, i: nat, maxEmptyTiles: int, bestScore: int)
    returns (next: int)
    requires i < |keys| && keys[i].0 >= 0
    requires i == 0 ==> maxEmptyTiles == -1
    requires i > 0 ==> FirstLexMaximum(keys[..i], best) && keys[best] == (maxEmptyTiles, bestScore)
    ensures FirstLexMaximum(keys[..i + 1], next)
    ensures next == (if keys[i].0 > maxEmptyTiles || (keys[i].0 == maxEmptyTiles && keys[i].1 > bestScore)
      then i else best)
  {
    FirstLexMaximumStep(keys, best, i);
    next := if keys[i].0 > maxEmptyTiles || (keys[i].0 == maxEmptyTiles && keys[i].1 > bestScore) then i else best;
  }

  /** The lookahead key of each move of v. */
  function LookaheadKeys(b: Board, v: seq<Direction>): (s: seq<(int, int)>)
    requires IsBoard(b)
    ensures |s| == |v|
    decreases |v|
  {
    if v == [] then []
    else LookaheadKeys(b, v[..|v| - 1]) + [LookaheadKey(b, v[|v| - 1])]
  }

  lemma {:induction false} LookaheadKeysAt(b: Board, v: seq<Direction>, j: nat)
    requires IsBoard(b) && j < |v|
    ensures LookaheadKeys(b, v)[j] == LookaheadKey(b, v[j])
    decreases |v|
  {
    if j < |v| - 1 {
      LookaheadKeysAt(b, v[..|v| - 1], j);
    }
  }

  /** Lookahead's full simulation: the rewritten rows slid, scored, and rewritten back. */
  method SimulateWithScore(b: Board, move: Direction) returns (boardCopy: Board, tempScore: int)
    requires IsBoard(b)
    ensures boardCopy == Shifted(b, SimulatedDirection(move))
    ensures tempScore == MoveGain(b, SimulatedDirection(move))
  {
    BoardIsMatrix(b);
    boardCopy := b;
    if move == Up {
      boardCopy := Transpose(boardCopy);
      boardCopy, tempScore := SlideEachRow(boardCopy);
      SlideUpIsShift(b);
      boardCopy := Transpose(boardCopy);
    } else if move == Down {
      BoardIsMatrix(Reverse(boardCopy));
      boardCopy := Transpose(Reverse(boardCopy));
      boardCopy, tempScore := SlideEachRow(boardCopy);
      SimulatedDownIsUp(b);
      boardCopy := Reverse(Transpose(boardCopy));
    } else if move == Left {
      boardCopy, tempScore := SlideEachRow(boardCopy);
      SlideLeftIsShift(b);
    } else {
      boardCopy := Reverse(boardCopy);
      boardCopy, tempScore := SlideEachRow(boardCopy);
      SlideRightIsShift(b);
      boardCopy := Reverse(boardCopy);
    }
  }

  /**
   * The lookahead strategy: the earliest valid move leaving the most empty
   * cells, ties broken by a strictly larger merge score; none when no move
   * is valid.
   */
  method LookaheadMove(b: Board) returns (bestMove: Option<Direction>)
    requires IsBoard(b)
    ensures bestMove.None? <==> ValidMoves(b) == []
    ensures bestMove.Some? ==> exists k ::
      FirstLexMaximum(LookaheadKeys(b, ValidMoves(b)), k) && bestMove.value == ValidMoves(b)[k]
  {
    var validMoves := GetValidMoves(b);
    bestMove := LookaheadBest(b, validMoves);
  }

  /** The loop of the lookahead strategy over the valid moves. */
  method LookaheadBest(b: Board, validMoves: seq<Direction>) returns (bestMove: Option<Direction>)
    requires IsBoard(b)
    ensures bestMove.None? <==> validMoves == []
    ensures bestMove.Some? ==> exists k ::
      FirstLexMaximum(LookaheadKeys(b, validMoves), k) && bestMove.value == validMoves[k]
  {
    bestMove := None;
    var maxEmptyTiles := -1;
    var bestScore := -1;
    ghost var keys := LookaheadKeys(b, validMoves);
    ghost var best := 0;
    var i := 0;
    while i < |validMoves|
      invariant 0 <= i <= |validMoves|
      invariant bestMove.None? <==> i == 0
      invariant i == 0 ==> maxEmptyTiles == -1
      invariant i > 0 ==> (FirstLexMaximum(keys[..i], best) && bestMove == Some(validMoves[best]) &&
        (maxEmptyTiles, bestScore) == keys[best])
    {
      var move := validMoves[i];
      var boardCopy, tempScore := SimulateWithScore(b, move);
      var emptyTiles := |EmptyCells(boardCopy)|;
      assert keys[i] == (emptyTiles, tempScore) by {
        LookaheadKeysAt(b, validMoves, i);
      }
      ghost var next := LookaheadScanStep(keys, best, i, maxEmptyTiles, bestScore);
      if emptyTiles > maxEmptyTiles {
        maxEmptyTiles := emptyTiles;
        bestMove := Some(move);
        bestScore := tempScore;
      } else if emptyTiles == maxEmptyTiles {
        if tempScore > bestScore {
          bestScore := tempScore;
          bestMove := Some(move);
        }
      }
      best := next;
      i := i + 1;
    }
    assert keys[..i] == keys;
  }

  /**
   * m is the answer of strategy name on b: the random pick for the draw, the
   * corner pick, or a move at the first maximum of the greedy scores or of
   * the lookahead keys (none exactly when no move is valid).
   */
  predicate Chooses(name: StrategyName, b: Board, draw: real, m: Option<Direction>)
    requires IsBoard(b) && 0.0 <= draw < 1.0
  {
    match name
    case Random => m == RandomMove(b, draw)
    case Corner => m == CornerMove(b)
    case Greedy =>
      (m.None? <==> ValidMoves(b) == []) &&
      (m.Some? ==>
         exists k :: 0 <= k < |ValidMoves(b)| &&
           FirstMaximum(GreedyScores(b, ValidMoves(b)), k) && m.value == ValidMoves(b)[k])
    case Lookahead =>
      (m.None? <==> ValidMoves(b) == []) &&
      (m.Some? ==>
         exists k :: 0 <= k < |ValidMoves(b)| &&
           FirstLexMaximum(LookaheadKeys(b, ValidMoves(b)), k) && m.value == ValidMoves(b)[k])
  }

  /** aiStrategies[name](board). */
  method SelectMove(name: StrategyName, b: Board, draw: real) returns (m: Option<Direction>)
    requires IsBoard(b) && NonNegative(b) && 0.0 <= draw < 1.0
    ensures Chooses(name, b, draw, m)
    ensures m.None? <==> ValidMoves(b) == []
    ensures m.Some? ==> m.value in ValidMoves(b)
  {
    match name
    case Random => m := RandomMove(b, draw);
    case Corner => m := CornerMove(b);
    case Greedy => m := GreedyMove(b);
    case Lookahead => m := LookaheadMove(b);
  }

  // ---------------------------------------------------------------------
  // What the simulation's down branch does to the automated player

  /** A 4 and a 2 in the two right-hand cells of the bottom row (a possible new game). */
  const CornerBoard: Board := [[0, 0, 0, 0], [0, 0, 0, 0], [0, 0, 0, 0], [0, 0, 4, 2]]

  /** One full top row of distinct values and nothing else. */
  const TopRowBoard: Board := [[2, 4, 8, 16], [0, 0, 0, 0], [0, 0, 0, 0], [0, 0, 0, 0]]

  lemma SlideEmptyRow()
    ensures SlideRow([0, 0, 0, 0]) == [0, 0, 0, 0]
  {
    assert [0, 0, 0, 0][1..] == [0, 0, 0];
    assert [0, 0, 0][1..] == [0, 0];
    assert [0, 0][1..] == [0];
    assert Compact([0, 0, 0, 0]) == [];
  }

  lemma SlideLeadingTile(v: int)
    requires v != 0
    ensures SlideRow([v, 0, 0, 0]) == [v, 0, 0, 0]
  {
    assert [v, 0, 0, 0][1..] == [0, 0, 0];
    assert [0, 0, 0][1..] == [0, 0];
    assert [0, 0][1..] == [0];
    assert Compact([v, 0, 0, 0]) == [v];
  }

  lemma SlideTrailingTile(v: int)
    requires v != 0
    ensures SlideRow([0, 0, 0, v]) == [v, 0, 0, 0]
  {
    assert [0, 0, 0, v][1..] == [0, 0, v];
    assert [0, 0, v][1..] == [0, v];
    assert [v][1..] == [];
    assert Compact([v]) == [v];
    assert [0, v][1..] == [v];
    assert Compact([0, v]) == [v];
    assert Compact([0, 0, v]) == [v];
    assert Compact([0, 0, 0, v]) == [v];
  }

  /** Four non-empty cells with no equal neighbours slide to themselves. */
  lemma SlideDistinctRow(w: int, x: int, y: int, z: int)
    requires w != 0 && x != 0 && y != 0 && z != 0
    requires w != x && x != y && y != z
    ensures SlideRow([w, x, y, z]) == [w, x, y, z]
  {
    var row := [w, x, y, z];
    assert !HasAdjacentEqual(row) by {
      forall i | 0 <= i < |row| - 1
        ensures row[i] != row[i + 1]
      {
        if i == 0 { } else if i == 1 { } else { assert i == 2; }
      }
    }
    SlideRowFixed(row);
  }

  lemma CornerBoardDownFixed()
    ensures IsBoard(CornerBoard) && Shifted(CornerBoard, Down) == CornerBoard
  {
    var b := CornerBoard;
    forall k | 0 <= k < SIZE
      ensures SlideRow(Line(b, Down, k)) == Line(b, Down, k)
    {
      if k == 2 {
        assert Line(b, Down, 2) == [4, 0, 0, 0];
        SlideLeadingTile(4);
      } else if k == 3 {
        assert Line(b, Down, 3) == [2, 0, 0, 0];
        SlideLeadingTile(2);
      } else {
        assert Line(b, Down, k) == [0, 0, 0, 0];
        SlideEmptyRow();
      }
    }
    FixedLinesFixBoard(b, Down);
  }

  lemma CornerBoardUpChanges()
    ensures IsBoard(CornerBoard) && Shifted(CornerBoard, Up) != CornerBoard
  {
    var b := CornerBoard;
    assert Line(b, Up, 3) == [0, 0, 0, 2];
    SlideTrailingTile(2);
    ShiftedCellFrom(b, Up, 0, 3);
    assert Shifted(b, Up)[0][3] == 2;
  }

  /**
   * On that board up changes the board, so down is listed as valid and the
   * corner strategy proposes it, yet the real down move changes nothing.
   */
  lemma CornerProposesNoOp()
    ensures IsBoard(CornerBoard)
    ensures CornerMove(CornerBoard) == Some(Down)
    ensures Shifted(CornerBoard, Down) == CornerBoard
  {
    CornerBoardUpChanges();
    CornerBoardDownFixed();
    ValidMovesSpec(CornerBoard);
    assert Down in ValidMoves(CornerBoard);
    var m := CornerMove(CornerBoard);
    assert m.Some? && PriorityIndex(m.value) == 0;
  }

  lemma TopRowBoardFixed(d: Direction)
    requires d != Down
    ensures IsBoard(TopRowBoard) && Shifted(TopRowBoard, d) == TopRowBoard
  {
    var b := TopRowBoard;
    forall k | 0 <= k < SIZE
      ensures SlideRow(Line(b, d, k)) == Line(b, d, k)
    {
      if d == Up {
        var v := b[0][k];
        assert Line(b, Up, k) == [v, 0, 0, 0];
        SlideLeadingTile(v);
      } else if k == 0 {
        assert Line(b, Left, 0) == [2, 4, 8, 16];
        assert Line(b, Right, 0) == [16, 8, 4, 2];
        SlideDistinctRow(2, 4, 8, 16);
        SlideDistinctRow(16, 8, 4, 2);
      } else {
        assert Line(b, d, k) == [0, 0, 0, 0];
        SlideEmptyRow();
      }
    }
    FixedLinesFixBoard(b, d);
  }

  lemma TopRowBoardDownChanges()
    ensures IsBoard(TopRowBoard) && Shifted(TopRowBoard, Down) != TopRowBoard
  {
    var b := TopRowBoard;
    assert Line(b, Down, 0) == [0, 0, 0, 2];
    SlideTrailingTile(2);
    ShiftedCellFrom(b, Down, 0, 0);
    assert Shifted(b, Down)[0][0] == 0;
  }

  /**
   * With one full top row of distinct values, only down would change the
   * board, but the simulation lists no valid move: every strategy returns
   * none although the game is not lost.
   */
  lemma StrategiesMissOnlyDown()
    ensures IsBoard(TopRowBoard)
    ensures ValidMoves(TopRowBoard) == []
    ensures Shifted(TopRowBoard, Down) != TopRowBoard
    ensures !Stuck(TopRowBoard)
  {
    TopRowBoardFixed(Up);
    TopRowBoardFixed(Left);
    TopRowBoardFixed(Right);
    TopRowBoardDownChanges();
    ValidMovesUnfold(TopRowBoard);
    assert Only(TopRowBoard, Up) == [] && Only(TopRowBoard, Down) == [];
    assert Only(TopRowBoard, Left) == [] && Only(TopRowBoard, Right) == [];
    assert TopRowBoard[1][0] == 0;
  }
}
