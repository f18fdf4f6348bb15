// One row of the 2048 board: compacting, single-pass merging and padding
// (slideAndMergeRow in script.js).

module Rows {

  /** Width of the board and length of every row. */
  const SIZE: nat := 4

  /** The sum of a sequence, peeled from the back so that prefix sums unfold. */
  function Sum(s: seq<int>): int
  {
    if s == [] then 0 else Sum(s[..|s| - 1]) + s[|s| - 1]
  }

  /** A tile value of the game: a power of two no smaller than 2. */
  predicate IsPow2Tile(v: int)
    decreases if v < 0 then 0 else v
  {
    v == 2 || (v > 2 && v % 2 == 0 && IsPow2Tile(v / 2))
  }

  /** A cell value: empty (0) or a tile. */
  predicate IsCell(v: int)
  {
    v == 0 || IsPow2Tile(v)
  }

  function Zeros(n: nat): (z: seq<int>)
    ensures |z| == n && forall i :: 0 <= i < n ==> z[i] == 0
  {
    seq(n, _ => 0)
  }

  /** The row with its zeros dropped, order kept (row.filter(val => val !== 0)). */
  function Compact(row: seq<int>): (c: seq<int>)
    ensures |c| <= |row|
    ensures forall i :: 0 <= i < |c| ==> c[i] != 0
    ensures forall i :: 0 <= i < |c| ==> c[i] in row
    ensures (forall i :: 0 <= i < |row| ==> row[i] != 0) ==> c == row
    ensures forall i :: 0 <= i < |row| && row[i] != 0 ==> row[i] in c
  {
    if row == [] then []
    else if row[0] != 0 then [row[0]] + Compact(row[1..])
    else Compact(row[1..])
  }

  /**
   * One left-to-right merging pass over a compacted row: two adjacent equal
   * values become one cell of double the value, and the cell produced is
   * never merged again in the same pass.
   */
  function Merged(s: seq<int>): (m: seq<int>)
    ensures |m| <= |s|
  {
    if |s| < 2 then s
    else if s[0] == s[1] then [2 * s[0]] + Merged(s[2..])
    else [s[0]] + Merged(s[1..])
  }

  /** The score of one merging pass: the sum of the doubled values it produces. */
  function MergeGain(s: seq<int>): int
  {
    if |s| < 2 then 0
    else if s[0] == s[1] then 2 * s[0] + MergeGain(s[2..])
    else MergeGain(s[1..])
  }

  /** The row padded on the right with zeros up to length n. */
  function Padded(s: seq<int>, n: nat): (p: seq<int>)
    ensures |p| == if |s| < n then n else |s|
    ensures p[..|s|] == s
    ensures forall i :: |s| <= i < |p| ==> p[i] == 0
  {
    if |s| < n then s + Zeros(n - |s|) else s
  }

  /** The newRow that slideAndMergeRow returns. */
  function SlideRow(row: seq<int>): (r: seq<int>)
    ensures |row| <= SIZE ==> |r| == SIZE
  {
    Padded(Merged(Compact(row)), SIZE)
  }

  /** The mergeScore that slideAndMergeRow returns. */
  function RowGain(row: seq<int>): int
  {
    MergeGain(Compact(row))
  }

  /** slideAndMergeRow: filter out zeros, merge in one pass with splice, pad with push. */
  method SlideAndMergeRow(row: seq<int>) returns (newRow: seq<int>, mergeScore: int)
    ensures newRow == SlideRow(row)
    ensures mergeScore == RowGain(row)
  {
    newRow := Compact(row);
    newRow, mergeScore := MergePass(newRow);
    newRow := PadRow(newRow);
  }

  /** The merging loop of slideAndMergeRow: double in place, then splice out the partner. */
  method MergePass(compact: seq<int>) returns (newRow: seq<int>, mergeScore: int)
    ensures newRow == Merged(compact)
    ensures mergeScore == MergeGain(compact)
  {
    newRow := compact;
    mergeScore := 0;
    var i := 0;
    while i < |newRow| - 1
      invariant 0 <= i <= |newRow|
      invariant newRow[..i] + Merged(newRow[i..]) == Merged(compact)
      invariant mergeScore + MergeGain(newRow[i..]) == MergeGain(compact)
      decreases |newRow| - i
    {
      if newRow[i] == newRow[i + 1] {
        ghost var before := newRow;
        newRow := newRow[i := newRow[i] * 2];
        mergeScore := mergeScore + newRow[i];
        newRow := newRow[..i + 1] + newRow[i + 2..];
        assert newRow == Spliced(before, i);
        MergeStepSplice(before, i);
      } else {
        MergeStepKeep(newRow, i);
      }
      i := i + 1;
    }
    assert newRow[..i] + newRow[i..] == newRow;
  }

  /** The padding loop of slideAndMergeRow: push zeros until the row has SIZE cells. */
  method PadRow(merged: seq<int>) returns (newRow: seq<int>)
    ensures newRow == Padded(merged, SIZE)
  {
    newRow := merged;
    while |newRow| < SIZE
      invariant |merged| <= |newRow| <= if |merged| < SIZE then SIZE else |merged|
      invariant newRow == merged + Zeros(|newRow| - |merged|)
      decreases SIZE - |newRow|
    {
      newRow := newRow + [0];
    }
  }

  /** One step of the merging pass taken at index i. */
  lemma MergedStep(s: seq<int>, i: nat)
    requires i < |s| - 1
    ensures s[i] == s[i + 1] ==> Merged(s[i..]) == [2 * s[i]] + Merged(s[i + 2..])
    ensures s[i] == s[i + 1] ==> MergeGain(s[i..]) == 2 * s[i] + MergeGain(s[i + 2..])
    ensures s[i] != s[i + 1] ==> Merged(s[i..]) == [s[i]] + Merged(s[i + 1..])
    ensures s[i] != s[i + 1] ==> MergeGain(s[i..]) == MergeGain(s[i + 1..])
  {
    assert s[i..][2..] == s[i + 2..];
    assert s[i..][1..] == s[i + 1..];
  }

  /** The row after doubling cell i and splicing out cell i + 1. */
  function Spliced(s: seq<int>, i: nat): (t: seq<int>)
    requires i < |s| - 1
    ensures |t| == |s| - 1
  {
    s[..i] + [2 * s[i]] + s[i + 2..]
  }

  /** A merge at index i: the prefix grows by the doubled cell and the pass continues after it. */
  lemma MergeStepSplice(s: seq<int>, i: nat)
    requires i < |s| - 1 && s[i] == s[i + 1]
    ensures Spliced(s, i)[..i + 1] + Merged(Spliced(s, i)[i + 1..]) == s[..i] + Merged(s[i..])
    ensures 2 * s[i] + MergeGain(Spliced(s, i)[i + 1..]) == MergeGain(s[i..])
  {
    var t := Spliced(s, i);
    assert t[..i + 1] == s[..i] + [2 * s[i]];
    assert t[i + 1..] == s[i + 2..];
    MergedStep(s, i);
    calc {
      t[..i + 1] + Merged(t[i + 1..]);
      (s[..i] + [2 * s[i]]) + Merged(s[i + 2..]);
      s[..i] + ([2 * s[i]] + Merged(s[i + 2..]));
      s[..i] + Merged(s[i..]);
    }
  }

  /** No merge at index i: the prefix grows by cell i unchanged. */
  lemma MergeStepKeep(s: seq<int>, i: nat)
    requires i < |s| - 1 && s[i] != s[i + 1]
    ensures s[..i + 1] + Merged(s[i + 1..]) == s[..i] + Merged(s[i..])
    ensures MergeGain(s[i + 1..]) == MergeGain(s[i..])
  {
    assert s[..i + 1] == s[..i] + [s[i]];
    assert s[i..][1..] == s[i + 1..];
  }

  // ---------------------------------------------------------------------
  // Properties of the row primitive

  lemma {:induction false} SumConcat(a: seq<int>, b: seq<int>)
    ensures Sum(a + b) == Sum(a) + Sum(b)
    decreases |b|
  {
    if b == [] {
      assert a + b == a;
    } else {
      assert (a + b)[..|a + b| - 1] == a + b[..|b| - 1];
      SumConcat(a, b[..|b| - 1]);
    }
  }

  lemma SumZeros(n: nat)
    ensures Sum(Zeros(n)) == 0
  {
    if n > 0 {
      assert Zeros(n)[..n - 1] == Zeros(n - 1);
      SumZeros(n - 1);
    }
  }

  lemma SumCons(x: int, s: seq<int>)
    ensures Sum([x] + s) == x + Sum(s)
  {
    SumConcat([x], s);
    assert [x][..0] == [];
  }

  /** Filtering works element by element, so it keeps the order of the values it keeps. */
  lemma {:induction false} CompactConcat(a: seq<int>, b: seq<int>)
    ensures Compact(a + b) == Compact(a) + Compact(b)
    decreases |a|
  {
    if a == [] {
      assert a + b == b;
    } else {
      assert (a + b)[1..] == a[1..] + b;
      CompactConcat(a[1..], b);
    }
  }

  lemma {:induction false} CompactSum(row: seq<int>)
    ensures Sum(Compact(row)) == Sum(row)
    decreases |row|
  {
    if row != [] {
      CompactSum(row[1..]);
      SumCons(row[0], row[1..]);
      assert [row[0]] + row[1..] == row;
      if row[0] != 0 {
        SumCons(row[0], Compact(row[1..]));
      }
    }
  }

  lemma {:induction false} MergedSum(s: seq<int>)
    ensures Sum(Merged(s)) == Sum(s)
    decreases |s|
  {
    if |s| >= 2 {
      if s[0] == s[1] {
        MergedSum(s[2..]);
        SumCons(2 * s[0], Merged(s[2..]));
        assert s == [s[0]] + ([s[1]] + s[2..]);
        SumCons(s[1], s[2..]);
        SumCons(s[0], [s[1]] + s[2..]);
      } else {
        MergedSum(s[1..]);
        SumCons(s[0], Merged(s[1..]));
        assert s == [s[0]] + s[1..];
        SumCons(s[0], s[1..]);
      }
    }
  }

  lemma {:induction false} MergedNonzero(s: seq<int>)
    requires forall i :: 0 <= i < |s| ==> s[i] != 0
    ensures forall i :: 0 <= i < |Merged(s)| ==> Merged(s)[i] != 0
    decreases |s|
  {
    if |s| >= 2 {
      if s[0] == s[1] {
        MergedNonzero(s[2..]);
      } else {
        MergedNonzero(s[1..]);
      }
    }
  }

  /**
   * Row shape: a row of length SIZE slides to a row of length SIZE whose
   * nonzero entries all come before its zeros, with the same sum.
   */
  lemma SlideRowShape(row: seq<int>)
    requires |row| == SIZE
    ensures |SlideRow(row)| == SIZE
    ensures forall i, j :: 0 <= i < j < SIZE && SlideRow(row)[i] == 0 ==> SlideRow(row)[j] == 0
    ensures Sum(SlideRow(row)) == Sum(row)
  {
    var m := Merged(Compact(row));
    MergedNonzero(Compact(row));
    CompactSum(row);
    MergedSum(Compact(row));
    var r := SlideRow(row);
    assert r[..|m|] == m;
    assert forall k :: 0 <= k < |m| ==> r[k] == r[..|m|][k];
    if |m| < SIZE {
      SumConcat(m, Zeros(SIZE - |m|));
      SumZeros(SIZE - |m|);
    }
  }

  /** Each cell a merging pass produces stands for one or two cells of its input. */
  lemma {:induction false} MergedLengthBounds(s: seq<int>)
    ensures |s| <= 2 * |Merged(s)|
    decreases |s|
  {
    if |s| >= 2 {
      if s[0] == s[1] {
        MergedLengthBounds(s[2..]);
      } else {
        MergedLengthBounds(s[1..]);
      }
    }
  }

  predicate HasAdjacentEqual(s: seq<int>)
  {
    exists i :: 0 <= i < |s| - 1 && s[i] == s[i + 1]
  }

  /**
   * A merging pass changes its input exactly when two adjacent values are
   * equal, and then it shortens the row.
   */
  lemma {:induction false} MergedUnchangedIff(s: seq<int>)
    ensures Merged(s) == s <==> !HasAdjacentEqual(s)
    ensures Merged(s) != s ==> |Merged(s)| < |s|
    decreases |s|
  {
    if |s| >= 2 {
      if s[0] == s[1] {
        assert HasAdjacentEqual(s) by { assert s[0] == s[1]; }
        assert |Merged(s)| < |s| by { assert |Merged(s[2..])| <= |s| - 2; }
      } else {
        MergedUnchangedIff(s[1..]);
        assert s == [s[0]] + s[1..];
        if HasAdjacentEqual(s[1..]) {
          var i :| 0 <= i < |s[1..]| - 1 && s[1..][i] == s[1..][i + 1];
          assert s[i + 1] == s[i + 2];
        }
        if HasAdjacentEqual(s) {
          var i :| 0 <= i < |s| - 1 && s[i] == s[i + 1];
          assert i > 0;
          assert s[1..][i - 1] == s[1..][i];
        }
      }
    }
  }

  /** The score is zero when no merge happens and positive when one does (for positive values). */
  lemma {:induction false} MergeGainSign(s: seq<int>)
    requires forall i :: 0 <= i < |s| ==> s[i] > 0
    ensures MergeGain(s) >= 0
    ensures MergeGain(s) == 0 <==> Merged(s) == s
    decreases |s|
  {
    MergedUnchangedIff(s);
    if |s| >= 2 {
      if s[0] == s[1] {
        MergeGainSign(s[2..]);
      } else {
        MergeGainSign(s[1..]);
        MergedUnchangedIff(s[1..]);
        assert Merged(s) == s <==> Merged(s[1..]) == s[1..] by {
          assert s == [s[0]] + s[1..];
        }
      }
    }
  }

  lemma {:induction false} MergeGainNonnegative(s: seq<int>)
    requires forall i :: 0 <= i < |s| ==> s[i] >= 0
    ensures MergeGain(s) >= 0
    decreases |s|
  {
    if |s| >= 2 {
      if s[0] == s[1] {
        MergeGainNonnegative(s[2..]);
      } else {
        MergeGainNonnegative(s[1..]);
      }
    }
  }

  lemma RowGainNonnegative(row: seq<int>)
    requires forall i :: 0 <= i < |row| ==> row[i] >= 0
    ensures RowGain(row) >= 0
  {
    MergeGainNonnegative(Compact(row));
  }

  function Repeat(v: int, k: nat): (s: seq<int>)
    ensures |s| == k && forall i :: 0 <= i < k ==> s[i] == v
  {
    seq(k, _ => v)
  }

  lemma RepeatDrop(v: int, k: nat)
    requires k >= 2
    ensures Repeat(v, k)[2..] == Repeat(v, k - 2)
  {
  }

  lemma RepeatCons(v: int, q: nat)
    ensures [v] + Repeat(v, q) == Repeat(v, q + 1)
  {
  }

  /**
   * Non-chaining: a run of k equal values v merges into k/2 cells of 2v,
   * followed by one v when k is odd.
   */
  lemma {:induction false} MergedRun(v: int, k: nat)
    ensures Merged(Repeat(v, k)) == Repeat(2 * v, k / 2) + Repeat(v, k % 2)
    decreases k
  {
    var run := Repeat(v, k);
    if k >= 2 {
      var q := (k - 2) / 2;
      MergedRun(v, k - 2);
      RepeatDrop(v, k);
      RepeatCons(2 * v, q);
      assert run[0] == run[1] == v;
      assert Merged(run) == [2 * v] + Merged(run[2..]);
      assert q + 1 == k / 2 && (k - 2) % 2 == k % 2;
    } else if k == 1 {
      assert run == [v];
    } else {
      assert run == [];
    }
  }

  /** The score of a run of k equal values v is 2v per merge, k/2 merges in all. */
  lemma {:induction false} MergeGainRun(v: int, k: nat)
    ensures MergeGain(Repeat(v, k)) == (k / 2) * (2 * v)
    decreases k
  {
    var run := Repeat(v, k);
    if k >= 2 {
      MergeGainRun(v, k - 2);
      assert run[2..] == Repeat(v, k - 2);
      MergedStep(run, 0);
      assert run[0..] == run;
      var q, w := (k - 2) / 2, 2 * v;
      assert k / 2 == q + 1;
      assert (q + 1) * w == w + q * w;
    }
  }

  /** The two examples of single-pass merging: chained re-merging never happens. */
  lemma SlideRowExampleRun()
    ensures SlideRow([2, 2, 2, 2]) == [4, 4, 0, 0] && RowGain([2, 2, 2, 2]) == 8
  {
    assert Compact([2, 2, 2, 2]) == [2, 2, 2, 2];
    assert Repeat(2, 4) == [2, 2, 2, 2];
    MergedRun(2, 4);
    MergeGainRun(2, 4);
    assert Merged([2, 2, 2, 2]) == [4, 4];
  }

  lemma SlideRowExampleOnce()
    ensures SlideRow([2, 2, 4, 0]) == [4, 4, 0, 0] && RowGain([2, 2, 4, 0]) == 4
  {
    assert [2, 2, 4, 0][1..] == [2, 4, 0];
    assert [2, 4, 0][1..] == [4, 0];
    assert [4, 0][1..] == [0];
    assert Compact([2, 2, 4, 0]) == [2, 2, 4];
    assert [2, 2, 4][2..] == [4];
    assert Merged([2, 2, 4]) == [4, 4];
  }

  lemma SlideRowExampleGap()
    ensures SlideRow([0, 0, 2, 2]) == [4, 0, 0, 0] && RowGain([0, 0, 2, 2]) == 4
  {
    assert [0, 0, 2, 2][1..] == [0, 2, 2];
    assert [0, 2, 2][1..] == [2, 2];
    assert Compact([0, 0, 2, 2]) == [2, 2];
    assert Merged([2, 2]) == [4];
  }

  lemma DoubleTile(v: int)
    requires IsPow2Tile(v)
    ensures IsPow2Tile(2 * v)
  {
    assert (2 * v) / 2 == v;
  }

  lemma {:induction false} MergedCells(s: seq<int>)
    requires forall i :: 0 <= i < |s| ==> IsPow2Tile(s[i])
    ensures forall i :: 0 <= i < |Merged(s)| ==> IsPow2Tile(Merged(s)[i])
    decreases |s|
  {
    if |s| >= 2 {
      if s[0] == s[1] {
        DoubleTile(s[0]);
        MergedCells(s[2..]);
      } else {
        MergedCells(s[1..]);
      }
    }
  }

  /** Sliding a row of cells (0 or powers of two) yields a row of cells. */
  lemma SlideRowCells(row: seq<int>)
    requires forall i :: 0 <= i < |row| ==> IsCell(row[i])
    ensures forall i :: 0 <= i < |SlideRow(row)| ==> IsCell(SlideRow(row)[i])
  {
    var c := Compact(row);
    assert forall i :: 0 <= i < |c| ==> IsPow2Tile(c[i]) by {
      forall i | 0 <= i < |c| ensures IsPow2Tile(c[i]) {
        assert c[i] in row;
      }
    }
    MergedCells(c);
    var m := Merged(c);
    var r := SlideRow(row);
    forall i | 0 <= i < |r| ensures IsCell(r[i]) {
      if i < |m| {
        assert r[..|m|] == m;
        assert r[i] == m[i];
      }
    }
  }

  lemma SlideRowNonnegative(row: seq<int>)
    requires forall i :: 0 <= i < |row| ==> row[i] >= 0
    ensures forall i :: 0 <= i < |SlideRow(row)| ==> SlideRow(row)[i] >= 0
  {
    var c := Compact(row);
    MergedNonnegative(c);
    var m := Merged(c);
    var r := SlideRow(row);
    forall i | 0 <= i < |r| ensures r[i] >= 0 {
      if i < |m| {
        assert r[..|m|] == m;
        assert r[i] == m[i];
      }
    }
  }

  lemma {:induction false} MergedNonnegative(s: seq<int>)
    requires forall i :: 0 <= i < |s| ==> s[i] >= 0
    ensures forall i :: 0 <= i < |Merged(s)| ==> Merged(s)[i] >= 0
    decreases |s|
  {
    if |s| >= 2 {
      if s[0] == s[1] {
        MergedNonnegative(s[2..]);
      } else {
        MergedNonnegative(s[1..]);
      }
    }
  }

  /**
   * A row of length SIZE that sliding changes ends in an empty cell: either a
   * merge shortened it or its zeros were not all at the end.
   */
  lemma SlideRowChangedHasZero(row: seq<int>)
    requires |row| == SIZE
    requires SlideRow(row) != row
    ensures SlideRow(row)[SIZE - 1] == 0
  {
    var c := Compact(row);
    CompactDropsZero(row);
    MergedUnchangedIff(c);
  }

  /** A row holding a zero compacts to a strictly shorter row. */
  lemma {:induction false} CompactDropsZero(row: seq<int>)
    ensures (exists i :: 0 <= i < |row| && row[i] == 0) ==> |Compact(row)| < |row|
    decreases |row|
  {
    if row != [] && row[0] != 0 {
      CompactDropsZero(row[1..]);
      if exists i :: 0 <= i < |row| && row[i] == 0 {
        var i :| 0 <= i < |row| && row[i] == 0;
        assert row[1..][i - 1] == 0;
      }
    }
  }
}
