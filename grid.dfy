// The 4x4 board: transpose and reverse, each direction's result as a
// cell-by-cell reference, and the facts that move relies on.

module Grid {
  import opened Rows

  /** The board as a matrix of rows (let board = [] ... board[r][c]). */
  type Board = seq<seq<int>>

  datatype Direction = Up | Down | Left | Right

  /** A cell position, the {r, c} objects that getEmptyTiles collects. */
  datatype Cell = Cell(r: nat, c: nat)

  predicate IsBoard(b: Board)
  {
    |b| == SIZE && forall r :: 0 <= r < SIZE ==> |b[r]| == SIZE
  }

  /** Every cell holds 0 or a power of two no smaller than 2. */
  predicate CellsValid(b: Board)
    requires IsBoard(b)
  {
    forall r, c :: 0 <= r < SIZE && 0 <= c < SIZE ==> IsCell(b[r][c])
  }

  predicate NonNegative(b: Board)
    requires IsBoard(b)
  {
    forall r, c :: 0 <= r < SIZE && 0 <= c < SIZE ==> b[r][c] >= 0
  }

  /** A non-empty matrix whose rows all have the length of the first. */
  predicate IsMatrix(m: Board)
  {
    |m| > 0 && forall r :: 0 <= r < |m| ==> |m[r]| == |m[0]|
  }

  /** transpose: matrix[0].map((_, col) => matrix.map(row => row[col])). */
  function Transpose(m: Board): (t: Board)
    requires IsMatrix(m)
    ensures |t| == |m[0]| && (|m[0]| > 0 ==> IsMatrix(t) && |t[0]| == |m|)
  {
    seq(|m[0]|, c requires 0 <= c < |m[0]| => seq(|m|, r requires 0 <= r < |m| => m[r][c]))
  }

  /** row.slice().reverse(). */
  function RevRow(s: seq<int>): seq<int>
  {
    seq(|s|, k requires 0 <= k < |s| => s[|s| - 1 - k])
  }

  /** reverse: every row reversed, the order of the rows kept. */
  function Reverse(m: Board): (v: Board)
    ensures |v| == |m| && (IsMatrix(m) ==> IsMatrix(v) && |v[0]| == |m[0]|)
  {
    seq(|m|, r requires 0 <= r < |m| => RevRow(m[r]))
  }

  lemma BoardIsMatrix(b: Board)
    requires IsBoard(b)
    ensures IsMatrix(b)
    ensures IsBoard(Transpose(b)) && IsBoard(Reverse(b))
  {
  }

  /** Transposing twice gives back the matrix. */
  lemma TransposeTwice(m: Board)
    requires IsMatrix(m) && |m[0]| > 0
    ensures IsMatrix(Transpose(m))
    ensures Transpose(Transpose(m)) == m
  {
    var t := Transpose(m);
    assert IsMatrix(t);
    var tt := Transpose(t);
    assert |tt| == |m|;
    forall r | 0 <= r < |m|
      ensures tt[r] == m[r]
    {
      assert |tt[r]| == |m[r]|;
    }
  }

  /** Reversing twice gives back the matrix. */
  lemma ReverseTwice(m: Board)
    ensures Reverse(Reverse(m)) == m
  {
    var rr := Reverse(Reverse(m));
    assert |rr| == |m|;
    forall r | 0 <= r < |m|
      ensures rr[r] == m[r]
    {
      assert |rr[r]| == |m[r]|;
    }
  }

  /** Both rewrites are involutions on the 4x4 board. */
  lemma GeometryInvolutions(b: Board)
    requires IsBoard(b)
    ensures Transpose(Transpose(b)) == b
    ensures Reverse(Reverse(b)) == b
  {
    TransposeTwice(b);
    ReverseTwice(b);
  }

  /**
   * Math.floor(Math.random() * n): the index a uniform draw in [0, 1) picks
   * from a list of n entries.
   */
  function PickIndex(draw: real, n: nat): (k: nat)
    requires 0.0 <= draw < 1.0 && n > 0
    ensures k < n
  {
    assert draw * (n as real) < n as real;
    (draw * (n as real)).Floor
  }

  /** Every index of the list is picked by some draw. */
  lemma PickIndexReaches(k: nat, n: nat)
    requires k < n
    ensures 0.0 <= (k as real) / (n as real) < 1.0
    ensures PickIndex((k as real) / (n as real), n) == k
  {
    var draw := (k as real) / (n as real);
    assert draw * (n as real) == k as real;
  }

  // ---------------------------------------------------------------------
  // Lines and the reference result of each direction

  function Column(b: Board, c: nat): (col: seq<int>)
    requires IsBoard(b) && c < SIZE
    ensures |col| == SIZE
  {
    seq(SIZE, r requires 0 <= r < SIZE => b[r][c])
  }

  /**
   * The k-th line of the board read in the direction tiles travel, so that
   * sliding the direction is sliding every line to its front: rows for Left,
   * reversed rows for Right, columns top-down for Up, bottom-up for Down.
   */
  function Line(b: Board, d: Direction, k: nat): (line: seq<int>)
    requires IsBoard(b) && k < SIZE
    ensures |line| == SIZE
  {
    match d
    case Left => b[k]
    case Right => RevRow(b[k])
    case Up => Column(b, k)
    case Down => RevRow(Column(b, k))
  }

  /** The line of direction d that passes through cell (r, c). */
  function LineOf(d: Direction, r: nat, c: nat): nat
  {
    match d
    case Left => r
    case Right => r
    case Up => c
    case Down => c
  }

  /** The place of cell (r, c) within its line of direction d, counted from the front. */
  function PlaceOf(d: Direction, r: nat, c: nat): nat
    requires r < SIZE && c < SIZE
  {
    match d
    case Left => c
    case Right => SIZE - 1 - c
    case Up => r
    case Down => SIZE - 1 - r
  }

  /** The cell at place i of line k of direction d. */
  function CellAt(d: Direction, k: nat, i: nat): (p: Cell)
    requires k < SIZE && i < SIZE
    ensures p.r < SIZE && p.c < SIZE
    ensures LineOf(d, p.r, p.c) == k && PlaceOf(d, p.r, p.c) == i
  {
    match d
    case Left => Cell(k, i)
    case Right => Cell(k, SIZE - 1 - i)
    case Up => Cell(i, k)
    case Down => Cell(SIZE - 1 - i, k)
  }

  /** Reading a line at a cell's place gives that cell. */
  lemma LineAt(b: Board, d: Direction, r: nat, c: nat)
    requires IsBoard(b) && r < SIZE && c < SIZE
    ensures LineOf(d, r, c) < SIZE && PlaceOf(d, r, c) < SIZE
    ensures Line(b, d, LineOf(d, r, c))[PlaceOf(d, r, c)] == b[r][c]
  {
  }

  /**
   * The board after sliding every line of direction d, cell by cell: cell
   * (r, c) receives the entry at its place of its slid line.
   */
  function Shifted(b: Board, d: Direction): (s: Board)
    requires IsBoard(b)
    ensures IsBoard(s)
  {
    seq(SIZE, r requires 0 <= r < SIZE => seq(SIZE, c requires 0 <= c < SIZE =>
      SlideRow(Line(b, d, LineOf(d, r, c)))[PlaceOf(d, r, c)]))
  }

  /** Two boards are equal when all their cells are. */
  lemma BoardExt(s: Board, b: Board)
    requires IsBoard(s) && IsBoard(b)
    ensures (forall r, c :: 0 <= r < SIZE && 0 <= c < SIZE ==> s[r][c] == b[r][c]) ==> s == b
  {
    if forall r, c :: 0 <= r < SIZE && 0 <= c < SIZE ==> s[r][c] == b[r][c] {
      forall r | 0 <= r < SIZE
        ensures s[r] == b[r]
      {
      }
    }
  }

  /** The merge score of each line of direction d. */
  function LineGains(b: Board, d: Direction): seq<int>
    requires IsBoard(b)
  {
    seq(SIZE, k requires 0 <= k < SIZE => RowGain(Line(b, d, k)))
  }

  /** The score a move in direction d earns: the summed merge scores of its lines. */
  function MoveGain(b: Board, d: Direction): int
    requires IsBoard(b)
  {
    Sum(LineGains(b, d))
  }

  /** Every line slid to the left: the for-loop over tempBoard's rows. */
  function SlideRows(m: Board): Board
  {
    seq(|m|, i requires 0 <= i < |m| => SlideRow(m[i]))
  }

  /** The mergeScore of each row of a matrix. */
  function RowGains(m: Board): seq<int>
  {
    seq(|m|, i requires 0 <= i < |m| => RowGain(m[i]))
  }

  /**
   * The loop `for (i < SIZE) { {newRow, mergeScore} = slideAndMergeRow(t[i]);
   * t[i] = newRow; moveScore += mergeScore }` shared by move and the lookahead
   * strategy.
   */
  method SlideEachRow(m: Board) returns (t: Board, gain: int)
    requires IsBoard(m)
    ensures t == SlideRows(m)
    ensures gain == Sum(RowGains(m))
  {
    t, gain := m, 0;
    var i := 0;
    while i < SIZE
      invariant 0 <= i <= SIZE && |t| == SIZE
      invariant forall k :: 0 <= k < i ==> t[k] == SlideRow(m[k])
      invariant forall k :: i <= k < SIZE ==> t[k] == m[k]
      invariant gain == Sum(RowGains(m)[..i])
    {
      var newRow, mergeScore := SlideAndMergeRow(t[i]);
      t := t[i := newRow];
      gain := gain + mergeScore;
      assert RowGains(m)[..i + 1][..i] == RowGains(m)[..i];
      i := i + 1;
    }
    assert RowGains(m)[..SIZE] == RowGains(m);
  }

  /** Every line of the shifted board is the slid line of the original. */
  lemma ShiftedLines(b: Board, d: Direction, k: nat)
    requires IsBoard(b) && k < SIZE
    ensures Line(Shifted(b, d), d, k) == SlideRow(Line(b, d, k))
  {
    var s := Shifted(b, d);
    var line := SlideRow(Line(b, d, k));
    forall i | 0 <= i < SIZE
      ensures Line(s, d, k)[i] == line[i]
    {
      var p := CellAt(d, k, i);
      LineAt(s, d, p.r, p.c);
    }
  }

  // ---------------------------------------------------------------------
  // move's transpose/reverse compositions against the reference

  lemma SlideLeftIsShift(b: Board)
    requires IsBoard(b)
    ensures SlideRows(b) == Shifted(b, Left)
    ensures RowGains(b) == LineGains(b, Left)
  {
    var s := Shifted(b, Left);
    forall r | 0 <= r < SIZE
      ensures SlideRows(b)[r] == s[r]
    {
    }
  }

  /** right is reverse, slide left, reverse. */
  lemma SlideRightIsShift(b: Board)
    requires IsBoard(b)
    ensures Reverse(SlideRows(Reverse(b))) == Shifted(b, Right)
    ensures RowGains(Reverse(b)) == LineGains(b, Right)
  {
    var s := Shifted(b, Right);
    var t := Reverse(SlideRows(Reverse(b)));
    forall r | 0 <= r < SIZE
      ensures t[r] == s[r]
    {
      assert Reverse(b)[r] == Line(b, Right, r);
    }
    forall k | 0 <= k < SIZE
      ensures RowGains(Reverse(b))[k] == LineGains(b, Right)[k]
    {
      assert Reverse(b)[k] == Line(b, Right, k);
    }
  }

  /** up is transpose, slide left, transpose. */
  lemma SlideUpIsShift(b: Board)
    requires IsBoard(b)
    ensures IsBoard(SlideRows(Transpose(b)))
    ensures Transpose(SlideRows(Transpose(b))) == Shifted(b, Up)
    ensures RowGains(Transpose(b)) == LineGains(b, Up)
  {
    var s := Shifted(b, Up);
    var m := SlideRows(Transpose(b));
    forall k | 0 <= k < SIZE
      ensures Transpose(b)[k] == Line(b, Up, k)
    {
    }
    assert IsBoard(m);
    var t := Transpose(m);
    forall r | 0 <= r < SIZE
      ensures t[r] == s[r]
    {
    }
  }

  /** down is transpose, reverse, slide left, reverse, transpose. */
  lemma SlideDownIsShift(b: Board)
    requires IsBoard(b)
    ensures IsBoard(Reverse(SlideRows(Reverse(Transpose(b)))))
    ensures Transpose(Reverse(SlideRows(Reverse(Transpose(b))))) == Shifted(b, Down)
    ensures RowGains(Reverse(Transpose(b))) == LineGains(b, Down)
  {
    var s := Shifted(b, Down);
    var pre := Reverse(Transpose(b));
    forall k | 0 <= k < SIZE
      ensures pre[k] == Line(b, Down, k)
    {
    }
    var m := Reverse(SlideRows(pre));
    assert IsBoard(m);
    var t := Transpose(m);
    forall r | 0 <= r < SIZE
      ensures t[r] == s[r]
    {
    }
  }

  // ---------------------------------------------------------------------
  // Empty cells, the loss condition and the board sum

  /** The empty cells among the first n cells in row-major order. */
  function EmptyUpTo(b: Board, n: nat): seq<Cell>
    requires IsBoard(b) && n <= SIZE * SIZE
  {
    if n == 0 then []
    else
      var r, c := (n - 1) / SIZE, (n - 1) % SIZE;
      EmptyUpTo(b, n - 1) + (if b[r][c] == 0 then [Cell(r, c)] else [])
  }

  /** What getEmptyTiles returns: the empty cells in row-major order. */
  function EmptyCells(b: Board): seq<Cell>
    requires IsBoard(b)
  {
    EmptyUpTo(b, SIZE * SIZE)
  }

  function Flat(p: Cell): nat
  {
    p.r * SIZE + p.c
  }

  lemma FlatInverse(n: nat)
    ensures (n / SIZE) * SIZE + n % SIZE == n
    ensures n % SIZE < SIZE
  {
  }

  lemma {:induction false} EmptyUpToSpec(b: Board, n: nat)
    requires IsBoard(b) && n <= SIZE * SIZE
    ensures forall p :: p in EmptyUpTo(b, n) <==>
      p.r < SIZE && p.c < SIZE && Flat(p) < n && b[p.r][p.c] == 0
    ensures forall i :: 0 <= i < |EmptyUpTo(b, n)| ==> Flat(EmptyUpTo(b, n)[i]) < n
    ensures forall i, j :: 0 <= i < j < |EmptyUpTo(b, n)| ==>
      Flat(EmptyUpTo(b, n)[i]) < Flat(EmptyUpTo(b, n)[j])
  {
    if n > 0 {
      EmptyUpToSpec(b, n - 1);
      FlatInverse(n - 1);
      var r, c := (n - 1) / SIZE, (n - 1) % SIZE;
      assert Flat(Cell(r, c)) == n - 1;
      forall p: Cell | p.r < SIZE && p.c < SIZE && Flat(p) == n - 1
        ensures p == Cell(r, c)
      {
      }
    }
  }

  /**
   * getEmptyTiles lists each empty cell exactly once, in row-major order, and
   * nothing else.
   */
  lemma EmptyCellsSpec(b: Board)
    requires IsBoard(b)
    ensures forall p :: p in EmptyCells(b) <==> p.r < SIZE && p.c < SIZE && b[p.r][p.c] == 0
    ensures forall i, j :: 0 <= i < j < |EmptyCells(b)| ==> Flat(EmptyCells(b)[i]) < Flat(EmptyCells(b)[j])
  {
    EmptyUpToSpec(b, SIZE * SIZE);
    forall p: Cell | p.r < SIZE && p.c < SIZE
      ensures Flat(p) < SIZE * SIZE
    {
    }
  }

  predicate HasEmpty(b: Board)
    requires IsBoard(b)
  {
    exists r, c :: 0 <= r < SIZE && 0 <= c < SIZE && b[r][c] == 0
  }

  lemma EmptyCellsIffHasEmpty(b: Board)
    requires IsBoard(b)
    ensures EmptyCells(b) != [] <==> HasEmpty(b)
  {
    EmptyCellsSpec(b);
    if HasEmpty(b) {
      var r, c :| 0 <= r < SIZE && 0 <= c < SIZE && b[r][c] == 0;
      assert Cell(r, c) in EmptyCells(b);
    }
    if EmptyCells(b) != [] {
      var p := EmptyCells(b)[0];
      assert p in EmptyCells(b);
    }
  }

  /** Cell (r, c) equals its right-hand neighbour. */
  predicate EqualsRight(b: Board, r: nat, c: nat)
    requires IsBoard(b) && r < SIZE && c < SIZE
  {
    c < SIZE - 1 && b[r][c] == b[r][c + 1]
  }

  /** Cell (r, c) equals the neighbour below it. */
  predicate EqualsBelow(b: Board, r: nat, c: nat)
    requires IsBoard(b) && r < SIZE && c < SIZE
  {
    r < SIZE - 1 && b[r][c] == b[r + 1][c]
  }

  /** Two horizontally or vertically neighbouring cells hold the same value. */
  predicate HasAdjacentPair(b: Board)
    requires IsBoard(b)
  {
    exists r: nat, c: nat :: r < SIZE && c < SIZE && (EqualsRight(b, r, c) || EqualsBelow(b, r, c))
  }

  /** The loss condition of checkGameOver: no empty cell and no equal neighbours. */
  predicate Stuck(b: Board)
    requires IsBoard(b)
  {
    !HasEmpty(b) && !HasAdjacentPair(b)
  }

  lemma NoAdjacentInLine(b: Board, d: Direction, k: nat)
    requires IsBoard(b) && k < SIZE && Stuck(b)
    ensures !HasAdjacentEqual(Line(b, d, k))
    ensures forall i :: 0 <= i < SIZE ==> Line(b, d, k)[i] != 0
  {
    var line := Line(b, d, k);
    forall i | 0 <= i < SIZE - 1
      ensures line[i] != line[i + 1]
    {
      match d
      case Left =>
        assert !EqualsRight(b, k, i);
      case Right =>
        assert !EqualsRight(b, k, SIZE - 2 - i);
      case Up =>
        assert !EqualsBelow(b, i, k);
      case Down =>
        assert !EqualsBelow(b, SIZE - 2 - i, k);
    }
    forall i | 0 <= i < SIZE
      ensures line[i] != 0
    {
      match d
      case Left => assert line[i] == b[k][i];
      case Right => assert line[i] == b[k][SIZE - 1 - i];
      case Up => assert line[i] == b[i][k];
      case Down => assert line[i] == b[SIZE - 1 - i][k];
    }
  }

  /** A line with no empty cell and no equal neighbours slides to itself. */
  lemma SlideRowFixed(row: seq<int>)
    requires |row| == SIZE
    requires forall i :: 0 <= i < SIZE ==> row[i] != 0
    requires !HasAdjacentEqual(row)
    ensures SlideRow(row) == row
  {
    assert Compact(row) == row;
    MergedUnchangedIff(row);
  }

  /** A board whose every line of direction d slides to itself is unchanged by d. */
  lemma FixedLinesFixBoard(b: Board, d: Direction)
    requires IsBoard(b)
    requires forall k :: 0 <= k < SIZE ==> SlideRow(Line(b, d, k)) == Line(b, d, k)
    ensures Shifted(b, d) == b
  {
    var s := Shifted(b, d);
    forall r, c | 0 <= r < SIZE && 0 <= c < SIZE
      ensures s[r][c] == b[r][c]
    {
      LineAt(b, d, r, c);
    }
    BoardExt(s, b);
  }

  /** On a stuck board no direction changes anything. */
  lemma StuckBoardIsFixed(b: Board, d: Direction)
    requires IsBoard(b) && Stuck(b)
    ensures Shifted(b, d) == b
  {
    forall k | 0 <= k < SIZE
      ensures SlideRow(Line(b, d, k)) == Line(b, d, k)
    {
      NoAdjacentInLine(b, d, k);
      SlideRowFixed(Line(b, d, k));
    }
    FixedLinesFixBoard(b, d);
  }

  /**
   * A direction that changes the board leaves an empty cell behind, so the
   * spawn that follows a committed move always finds a place.
   */
  lemma ShiftChangedHasEmpty(b: Board, d: Direction)
    requires IsBoard(b)
    requires Shifted(b, d) != b
    ensures HasEmpty(Shifted(b, d))
  {
    var s := Shifted(b, d);
    BoardExt(s, b);
    var r, c :| 0 <= r < SIZE && 0 <= c < SIZE && s[r][c] != b[r][c];
    var k := LineOf(d, r, c);
    LineAt(b, d, r, c);
    var line := Line(b, d, k);
    assert SlideRow(line)[PlaceOf(d, r, c)] != line[PlaceOf(d, r, c)];
    SlideRowChangedHasZero(line);
    var p := CellAt(d, k, SIZE - 1);
    assert s[p.r][p.c] == 0;
  }

  /** Every cell of the shifted board is an entry of a slid line. */
  lemma ShiftedCellFrom(b: Board, d: Direction, r: nat, c: nat)
    requires IsBoard(b) && r < SIZE && c < SIZE
    ensures LineOf(d, r, c) < SIZE && PlaceOf(d, r, c) < SIZE
    ensures Shifted(b, d)[r][c] == SlideRow(Line(b, d, LineOf(d, r, c)))[PlaceOf(d, r, c)]
  {
  }

  /** Every entry of a line is a cell of the board. */
  lemma LineEntries(b: Board, d: Direction, k: nat, i: nat)
    requires IsBoard(b) && k < SIZE && i < SIZE
    ensures CellAt(d, k, i).r < SIZE && CellAt(d, k, i).c < SIZE
    ensures Line(b, d, k)[i] == b[CellAt(d, k, i).r][CellAt(d, k, i).c]
  {
    var p := CellAt(d, k, i);
    LineAt(b, d, p.r, p.c);
  }

  /** Sliding keeps every cell 0 or a power of two. */
  lemma ShiftedCellsValid(b: Board, d: Direction)
    requires IsBoard(b) && CellsValid(b)
    ensures CellsValid(Shifted(b, d))
  {
    forall k | 0 <= k < SIZE
      ensures forall i :: 0 <= i < SIZE ==> IsCell(SlideRow(Line(b, d, k))[i])
    {
      var line := Line(b, d, k);
      forall i | 0 <= i < SIZE
        ensures IsCell(line[i])
      {
        LineEntries(b, d, k, i);
      }
      SlideRowCells(line);
    }
  }

  lemma ShiftedNonNegative(b: Board, d: Direction)
    requires IsBoard(b) && NonNegative(b)
    ensures NonNegative(Shifted(b, d))
  {
    forall k | 0 <= k < SIZE
      ensures forall i :: 0 <= i < SIZE ==> SlideRow(Line(b, d, k))[i] >= 0
    {
      var line := Line(b, d, k);
      forall i | 0 <= i < SIZE
        ensures line[i] >= 0
      {
        LineEntries(b, d, k, i);
      }
      SlideRowNonnegative(line);
    }
  }

  lemma CellsValidNonNegative(b: Board)
    requires IsBoard(b) && CellsValid(b)
    ensures NonNegative(b)
  {
  }

  /** A move's score is never negative on a board of non-negative cells. */
  lemma MoveGainNonnegative(b: Board, d: Direction)
    requires IsBoard(b) && NonNegative(b)
    ensures MoveGain(b, d) >= 0
  {
    var g := LineGains(b, d);
    forall k | 0 <= k < SIZE
      ensures g[k] >= 0
    {
      var line := Line(b, d, k);
      forall i | 0 <= i < SIZE
        ensures line[i] >= 0
      {
        LineEntries(b, d, k, i);
      }
      RowGainNonnegative(line);
    }
    Sum4(g);
  }

  lemma Sum4(s: seq<int>)
    requires |s| == 4
    ensures Sum(s) == s[0] + s[1] + s[2] + s[3]
  {
    assert s[..3][..2] == s[..2] && s[..2][..1] == s[..1] && s[..1][..0] == [];
    assert Sum(s[..1]) == s[0];
    assert Sum(s[..2]) == Sum(s[..1]) + s[1];
    assert Sum(s[..3]) == Sum(s[..2]) + s[2];
  }

  /** The sum of all cells. */
  function BoardSum(b: Board): int
    requires IsBoard(b)
  {
    Sum(seq(SIZE, r requires 0 <= r < SIZE => Sum(b[r])))
  }

  lemma BoardSumCells(b: Board)
    requires IsBoard(b)
    ensures BoardSum(b) ==
      b[0][0] + b[0][1] + b[0][2] + b[0][3] + b[1][0] + b[1][1] + b[1][2] + b[1][3] +
      b[2][0] + b[2][1] + b[2][2] + b[2][3] + b[3][0] + b[3][1] + b[3][2] + b[3][3]
  {
    Sum4(seq(SIZE, r requires 0 <= r < SIZE => Sum(b[r])));
    Sum4(b[0]);
    Sum4(b[1]);
    Sum4(b[2]);
    Sum4(b[3]);
  }

  /** The lines of any direction cover every cell once. */
  lemma LinesSum(b: Board, d: Direction)
    requires IsBoard(b)
    ensures Sum(seq(SIZE, k requires 0 <= k < SIZE => Sum(Line(b, d, k)))) == BoardSum(b)
  {
    BoardSumCells(b);
    Sum4(seq(SIZE, k requires 0 <= k < SIZE => Sum(Line(b, d, k))));
    Sum4(Line(b, d, 0));
    Sum4(Line(b, d, 1));
    Sum4(Line(b, d, 2));
    Sum4(Line(b, d, 3));
  }

  /** Sliding and merging keep the total of the board's values. */
  lemma ShiftedSum(b: Board, d: Direction)
    requires IsBoard(b)
    ensures BoardSum(Shifted(b, d)) == BoardSum(b)
  {
    var s := Shifted(b, d);
    LinesSum(b, d);
    LinesSum(s, d);
    assert seq(SIZE, k requires 0 <= k < SIZE => Sum(Line(s, d, k))) == seq(SIZE, k requires 0 <= k < SIZE => Sum(Line(b, d, k))) by {
      forall k | 0 <= k < SIZE
        ensures Sum(Line(s, d, k)) == Sum(Line(b, d, k))
      {
        ShiftedLines(b, d, k);
        SlideRowShape(Line(b, d, k));
      }
    }
  }
}
