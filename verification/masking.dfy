/**
 * Data-mask conditions and the penalty scores used to choose between masked
 * candidates (section 6.8 of ISO/IEC 18004:2006).
 *
 * Penalties look only at colours, and at every module of the symbol whether
 * reserved or not. A line (row or column) is the sequence of its modules'
 * colours, true for dark.
 */
module Masking {
  import opened Wrappers
  import opened ModuleBlocks
  import FinderPatterns

  // ------------------------------------------------------------------
  // Table 10: the eight data-mask conditions
  // ------------------------------------------------------------------

  /**
   * Mask reference `mask` (000 .. 111) inverts the module at (row, col) when
   * this holds. Coordinates are never negative, so C#'s truncating `/` and
   * `%` agree with Dafny's here.
   */
  predicate MaskCondition(mask: int, row: nat, col: nat)
    requires 0 <= mask < 8
  {
    match mask
    case 0 => (row + col) % 2 == 0
    case 1 => row % 2 == 0
    case 2 => col % 3 == 0
    case 3 => (row + col) % 3 == 0
    case 4 => (row / 2 + col / 3) % 2 == 0
    case 5 => (row * col) % 2 + (row * col) % 3 == 0
    case 6 => ((row * col) % 2 + (row * col) % 3) % 2 == 0
    case _ => ((row + col) % 2 + (row * col) % 3) % 2 == 0
  }

  // ------------------------------------------------------------------
  // Lines of a grid
  // ------------------------------------------------------------------

  function Row(g: Grid, i: int): (line: seq<bool>)
    requires IsGrid(g, |g|) && 0 <= i < |g|
    ensures |line| == |g|
    ensures forall c :: 0 <= c < |g| ==> line[c] == g[i][c].dark
  {
    seq(|g|, c requires 0 <= c < |g| => g[i][c].dark)
  }

  function Column(g: Grid, j: int): (line: seq<bool>)
    requires IsGrid(g, |g|) && 0 <= j < |g|
    ensures |line| == |g|
    ensures forall r :: 0 <= r < |g| ==> line[r] == g[r][j].dark
  {
    seq(|g|, r requires 0 <= r < |g| => g[r][j].dark)
  }

  /** Sum of a line score over rows 0..n-1 and columns 0..n-1. */
  function LineSum(g: Grid, n: nat, score: seq<bool> -> nat): nat
    requires IsGrid(g, |g|) && n <= |g|
  {
    if n == 0 then 0 else LineSum(g, n - 1, score) + score(Row(g, n - 1)) + score(Column(g, n - 1))
  }

  // ------------------------------------------------------------------
  // Rule A: runs of five or more modules of one colour in a line
  // ------------------------------------------------------------------

  /** The length of the run of equal modules that ends at position i. */
  function RunEnding(line: seq<bool>, i: int): (n: nat)
    requires 0 <= i < |line|
    ensures 1 <= n <= i + 1
    ensures forall k :: i - n < k <= i ==> line[k] == line[i]
    ensures n <= i ==> line[i - n] != line[i]
  {
    if i > 0 && line[i - 1] == line[i] then RunEnding(line, i - 1) + 1 else 1
  }

  /** A maximal run ends at position i: the line ends or the colour changes. */
  predicate RunEnds(line: seq<bool>, i: int)
    requires 0 <= i < |line|
  {
    i == |line| - 1 || line[i + 1] != line[i]
  }

  /** A run of n modules scores n - 2 when n >= 5, nothing otherwise. */
  function RunPoints(n: nat): nat
  {
    if n >= 5 then n - 2 else 0
  }

  /** The points of the maximal runs that end before position k. */
  function RunsBefore(line: seq<bool>, k: int): nat
    requires 0 <= k <= |line|
  {
    if k == 0 then 0
    else RunsBefore(line, k - 1) + (if RunEnds(line, k - 1) then RunPoints(RunEnding(line, k - 1)) else 0)
  }

  /** Rule A for one line: every maximal run scored once. */
  function RunPenalty(line: seq<bool>): nat
  {
    RunsBefore(line, |line|)
  }

  /**
   * The scan of one row or column as the source does it: follow the current
   * run and score it when the colour changes and once more at the end.
   */
  method ScanLine(line: seq<bool>) returns (score: int)
    requires |line| >= 1
    ensures score == RunPenalty(line)
  {
    score := 0;
    var runLength := 1;
    var runIsDark := line[0];
    for col := 1 to |line|
      invariant runIsDark == line[col - 1]
      invariant runLength == RunEnding(line, col - 1)
      invariant score == RunsBefore(line, col - 1)
    {
      if line[col] == runIsDark {
        runLength := runLength + 1;
      } else {
        if runLength >= 5 {
          score := score + runLength - 2;
        }
        runLength := 1;
        runIsDark := line[col];
      }
    }
    if runLength >= 5 {
      score := score + runLength - 2;
    }
  }

  /** The maximal runs partition the line: their lengths add up to its length. */
  lemma {:induction false} RunsCoverLine(line: seq<bool>, k: int)
    requires 1 <= k <= |line|
    ensures RunLengthsBefore(line, k - 1) + RunEnding(line, k - 1) == k
  {
    if k > 1 {
      RunsCoverLine(line, k - 1);
    }
  }

  /** The lengths of the maximal runs that end before position k. */
  function RunLengthsBefore(line: seq<bool>, k: int): nat
    requires 0 <= k <= |line|
  {
    if k == 0 then 0
    else RunLengthsBefore(line, k - 1) + (if RunEnds(line, k - 1) then RunEnding(line, k - 1) else 0)
  }

  /** Summing every maximal run's length gives the length of the line. */
  lemma RunsPartitionLine(line: seq<bool>)
    requires |line| >= 1
    ensures RunLengthsBefore(line, |line|) == |line|
  {
    RunsCoverLine(line, |line|);
  }

  /** A line of one colour is a single run. */
  lemma {:induction false} UniformLine(line: seq<bool>, k: int)
    requires 1 <= k <= |line|
    requires forall i :: 0 <= i < |line| ==> line[i] == line[0]
    ensures RunEnding(line, k - 1) == k
    ensures RunsBefore(line, k - 1) == 0
  {
    if k > 1 {
      UniformLine(line, k - 1);
    }
  }

  /** A one-colour line of length n scores n - 2 when n >= 5. */
  lemma UniformLineScore(line: seq<bool>)
    requires |line| >= 1
    requires forall i :: 0 <= i < |line| ==> line[i] == line[0]
    ensures RunPenalty(line) == RunPoints(|line|)
  {
    UniformLine(line, |line|);
  }

  /** A line whose colour changes at least every four modules scores nothing. */
  lemma {:induction false} ShortRunsScoreNothing(line: seq<bool>, k: int)
    requires 0 <= k <= |line|
    requires forall i :: 0 <= i < |line| ==> RunEnding(line, i) < 5
    ensures RunsBefore(line, k) == 0
  {
    if k > 0 {
      ShortRunsScoreNothing(line, k - 1);
      assert RunEnding(line, k - 1) < 5;
    }
  }

  function PenaltyA(g: Grid): nat
    requires IsGrid(g, |g|)
  {
    LineSum(g, |g|, RunPenalty)
  }

  // ------------------------------------------------------------------
  // Rule B: 2x2 blocks of one colour, overlaps counted
  // ------------------------------------------------------------------

  predicate UniformSquare(g: Grid, row: int, col: int)
    requires IsGrid(g, |g|) && 0 <= row < |g| - 1 && 0 <= col < |g| - 1
  {
    var d := g[row][col].dark;
    g[row][col + 1].dark == d && g[row + 1][col].dark == d && g[row + 1][col + 1].dark == d
  }

  /** Uniform squares with top-left corner in `row` and column below n. */
  function SquaresInRow(g: Grid, row: int, n: int): (k: nat)
    requires IsGrid(g, |g|) && 0 <= row < |g| - 1 && 0 <= n <= |g| - 1
    ensures k <= n
  {
    if n == 0 then 0 else SquaresInRow(g, row, n - 1) + (if UniformSquare(g, row, n - 1) then 1 else 0)
  }

  /** Uniform squares with top-left corner in the first m rows. */
  function Squares(g: Grid, m: int): (k: nat)
    requires IsGrid(g, |g|) && 1 <= |g| && 0 <= m <= |g| - 1
    ensures k <= m * (|g| - 1)
  {
    if m == 0 then 0
    else
      var k := Squares(g, m - 1) + SquaresInRow(g, m - 1, |g| - 1);
      assert m * (|g| - 1) == (m - 1) * (|g| - 1) + (|g| - 1);
      k
  }

  /** Rule B: three points for every uniform 2x2 block. */
  function PenaltyB(g: Grid): (p: nat)
    requires IsGrid(g, |g|)
    ensures |g| >= 1 ==> p <= 3 * (|g| - 1) * (|g| - 1)
  {
    if |g| == 0 then 0 else 3 * Squares(g, |g| - 1)
  }

  /** In a one-colour grid every 2x2 block counts. */
  lemma {:induction false} UniformRowSquares(g: Grid, row: int, n: int)
    requires IsGrid(g, |g|) && 0 <= row < |g| - 1 && 0 <= n <= |g| - 1
    requires forall r, c :: 0 <= r < |g| && 0 <= c < |g| ==> g[r][c].dark == g[0][0].dark
    ensures SquaresInRow(g, row, n) == n
  {
    if n > 0 {
      UniformRowSquares(g, row, n - 1);
    }
  }

  lemma {:induction false} UniformSquares(g: Grid, m: int)
    requires IsGrid(g, |g|) && 1 <= |g| && 0 <= m <= |g| - 1
    requires forall r, c :: 0 <= r < |g| && 0 <= c < |g| ==> g[r][c].dark == g[0][0].dark
    ensures Squares(g, m) == m * (|g| - 1)
  {
    if m > 0 {
      UniformSquares(g, m - 1);
      UniformRowSquares(g, m - 1, |g| - 1);
      assert m * (|g| - 1) == (m - 1) * (|g| - 1) + (|g| - 1);
    }
  }

  /** A one-colour symbol of width w scores the most rule B can give, 3 (w - 1)^2. */
  lemma UniformPenaltyB(g: Grid)
    requires IsGrid(g, |g|) && 1 <= |g|
    requires forall r, c :: 0 <= r < |g| && 0 <= c < |g| ==> g[r][c].dark == g[0][0].dark
    ensures PenaltyB(g) == 3 * (|g| - 1) * (|g| - 1)
  {
    UniformSquares(g, |g| - 1);
  }

  /** The top-left corners of all uniform 2x2 blocks: the blocks rule B counts, overlaps included. */
  function UniformBlocks(g: Grid): set<(int, int)>
    requires IsGrid(g, |g|)
  {
    set r, c | 0 <= r < |g| - 1 && 0 <= c < |g| - 1 && UniformSquare(g, r, c) :: (r, c)
  }

  /** The corners of uniform blocks in the first m rows. */
  function BlocksAbove(g: Grid, m: int): set<(int, int)>
    requires IsGrid(g, |g|) && 0 <= m <= |g| - 1
  {
    set r, c | 0 <= r < m && 0 <= c < |g| - 1 && UniformSquare(g, r, c) :: (r, c)
  }

  /** The corners of uniform blocks in `row`, column below n. */
  function BlocksInRow(g: Grid, row: int, n: int): set<(int, int)>
    requires IsGrid(g, |g|) && 0 <= row < |g| - 1 && 0 <= n <= |g| - 1
  {
    set c | 0 <= c < n && UniformSquare(g, row, c) :: (row, c)
  }

  lemma {:induction false} BlocksInRowCount(g: Grid, row: int, n: int)
    requires IsGrid(g, |g|) && 0 <= row < |g| - 1 && 0 <= n <= |g| - 1
    ensures |BlocksInRow(g, row, n)| == SquaresInRow(g, row, n)
  {
    if n == 0 {
      assert BlocksInRow(g, row, 0) == {};
    } else {
      BlocksInRowCount(g, row, n - 1);
      var before := BlocksInRow(g, row, n - 1);
      assert (row, n - 1) !in before;
      if UniformSquare(g, row, n - 1) {
        assert BlocksInRow(g, row, n) == before + {(row, n - 1)};
      } else {
        assert BlocksInRow(g, row, n) == before;
      }
    }
  }

  lemma {:induction false} BlocksAboveCount(g: Grid, m: int)
    requires IsGrid(g, |g|) && 0 <= m <= |g| - 1
    ensures |BlocksAbove(g, m)| == Squares(g, m)
  {
    if m == 0 {
      assert BlocksAbove(g, 0) == {};
    } else {
      BlocksAboveCount(g, m - 1);
      BlocksInRowCount(g, m - 1, |g| - 1);
      var above := BlocksAbove(g, m - 1);
      var row := BlocksInRow(g, m - 1, |g| - 1);
      assert BlocksAbove(g, m) == above + row;
      assert above * row == {} by {
        forall x | x in row ensures x !in above {
        }
      }
    }
  }

  /** Rule B counted independently: three points per uniform 2x2 block, each block once. */
  lemma PenaltyBCountsBlocks(g: Grid)
    requires IsGrid(g, |g|)
    ensures PenaltyB(g) == 3 * |UniformBlocks(g)|
  {
    if |g| == 0 {
      assert UniformBlocks(g) == {};
    } else {
      BlocksAboveCount(g, |g| - 1);
      assert UniformBlocks(g) == BlocksAbove(g, |g| - 1);
    }
  }

  // ------------------------------------------------------------------
  // Rule C: finder-like windows in a row or column
  // ------------------------------------------------------------------

  /** What a fresh detector counts after a whole line has been shifted in. */
  function DetectorCount(line: seq<bool>): nat
  {
    FinderPatterns.Run(line).found
  }

  /** Rule C: forty points per detection, over every row and every column. */
  function PenaltyC(g: Grid): nat
    requires IsGrid(g, |g|)
  {
    40 * LineSum(g, |g|, DetectorCount)
  }

  /** The detectors count exactly the windows 1011101 0000 and 0000 1011101 of the lines. */
  lemma {:induction false} DetectorSum(g: Grid, n: nat)
    requires IsGrid(g, |g|) && n <= |g|
    ensures LineSum(g, n, DetectorCount) == LineSum(g, n, FinderPatterns.Matches)
  {
    if n > 0 {
      DetectorSum(g, n - 1);
      FinderPatterns.Detects(Row(g, n - 1));
      FinderPatterns.Detects(Column(g, n - 1));
    }
  }

  lemma PenaltyCCountsWindows(g: Grid)
    requires IsGrid(g, |g|)
    ensures PenaltyC(g) == 40 * LineSum(g, |g|, FinderPatterns.Matches)
  {
    DetectorSum(g, |g|);
  }

  // ------------------------------------------------------------------
  // Rule D: proportion of dark modules
  // ------------------------------------------------------------------

  function DarkInRow(g: Grid, row: int, n: int): (k: nat)
    requires IsGrid(g, |g|) && 0 <= row < |g| && 0 <= n <= |g|
    ensures k <= n
  {
    if n == 0 then 0 else DarkInRow(g, row, n - 1) + (if g[row][n - 1].dark then 1 else 0)
  }

  /** The dark modules in the first m rows. */
  function DarkCount(g: Grid, m: int): (k: nat)
    requires IsGrid(g, |g|) && 0 <= m <= |g|
    ensures k <= m * |g|
  {
    if m == 0 then 0
    else
      var k := DarkCount(g, m - 1) + DarkInRow(g, m - 1, |g|);
      assert m * |g| == (m - 1) * |g| + |g|;
      k
  }

  function Max(a: int, b: int): int
  {
    if a >= b then a else b
  }

  /**
   * Rule D from the two colour counts: ten points for every full 5% by
   * which the majority colour exceeds half. With no modules at all the
   * percentage divides by zero.
   */
  function PenaltyD(dark: nat, light: nat): (r: Result<int>)
    ensures r.Failure? <==> dark + light == 0
    ensures r.Failure? ==> r.error == DivideByZero
    ensures r.Success? ==> 0 <= r.value <= 100 && r.value % 10 == 0
    ensures r.Success? ==>
      50 + r.value / 2 <= 100 * Max(dark, light) / (dark + light) < 55 + r.value / 2
  {
    if dark + light == 0 then Failure(DivideByZero)
    else
      var total := dark + light;
      var share := 100 * Max(dark, light) / total;
      ShareBounds(Max(dark, light), total);
      var step := (share - 50) / 5;
      Success(step * 10)
  }

  /** The majority colour holds between half and all of the modules. */
  lemma ShareBounds(majority: int, total: int)
    requires total > 0 && total <= 2 * majority && majority <= total
    ensures 50 <= 100 * majority / total <= 100
  {
    DivBetween(100 * majority, total, 50, 100);
  }

  lemma DivBetween(a: int, b: int, lo: int, hi: int)
    requires b > 0 && lo * b <= a <= hi * b
    ensures lo <= a / b <= hi
  {
    var q, m := a / b, a % b;
    assert a == q * b + m;
    if q < lo {
      MulMonotone(q, lo - 1, b);
      assert false;
    }
    if q > hi {
      MulMonotone(hi + 1, q, b);
      assert false;
    }
  }

  lemma MulMonotone(x: int, y: int, b: int)
    requires x <= y && b > 0
    ensures x * b <= y * b
    ensures (x + 1) * b == x * b + b && (y + 1) * b == y * b + b
  {
    assert y * b - x * b == (y - x) * b;
  }

  // ------------------------------------------------------------------
  // The total
  // ------------------------------------------------------------------

  /**
   * The penalty of a candidate symbol: rules A + B + C + D over every
   * module. A symbol without modules fails in rule D.
   */
  function Penalty(g: Grid): (r: Result<int>)
    requires IsGrid(g, |g|)
    ensures r.Failure? <==> |g| == 0
    ensures r.Success? ==> r.value >= 0
    ensures r.Success? ==> PenaltyA(g) + PenaltyB(g) + PenaltyC(g) <= r.value <= PenaltyA(g) + PenaltyB(g) + PenaltyC(g) + 100
  {
    var dark := DarkCount(g, |g|);
    assert dark <= |g| * |g|;
    var d :- PenaltyD(dark, |g| * |g| - dark);
    Success(PenaltyA(g) + PenaltyB(g) + PenaltyC(g) + d)
  }
}
