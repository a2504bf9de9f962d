/**
 * Alignment patterns (section 6.3.6 and Annex E of ISO/IEC 18004:2006): the
 * row/column coordinates of the pattern centres per version, and the list of
 * centres, which leaves out the three positions that coincide with the
 * finder patterns.
 */
module AlignmentPatterns {
  import opened Wrappers

  datatype Point = Point(x: int, y: int)

  /** The Annex E coordinates of a version (1 .. 40); version 1 has none. */
  function CoordinateRow(version: int): (r: seq<int>)
    requires 1 <= version <= 40
  {
    if version <= 20 then
      if version <= 10 then
        if version <= 5 then
          if version <= 2 then
            if version <= 1 then
              []
            else
              [6, 18]
          else
            if version <= 3 then
              [6, 22]
            else
              if version <= 4 then
                [6, 26]
              else
                [6, 30]
        else
          if version <= 7 then
            if version <= 6 then
              [6, 34]
            else
              [6, 22, 38]
          else
            if version <= 8 then
              [6, 24, 42]
            else
              if version <= 9 then
                [6, 26, 46]
              else
                [6, 28, 50]
      else
        if version <= 15 then
          if version <= 12 then
            if version <= 11 then
              [6, 30, 54]
            else
              [6, 32, 58]
          else
            if version <= 13 then
              [6, 34, 62]
            else
              if version <= 14 then
                [6, 26, 46, 66]
              else
                [6, 26, 48, 70]
        else
          if version <= 17 then
            if version <= 16 then
              [6, 26, 50, 74]
            else
              [6, 30, 54, 78]
          else
            if version <= 18 then
              [6, 30, 56, 82]
            else
              if version <= 19 then
                [6, 30, 58, 86]
              else
                [6, 34, 62, 90]
    else
      if version <= 30 then
        if version <= 25 then
          if version <= 22 then
            if version <= 21 then
              [6, 28, 50, 72, 94]
            else
              [6, 26, 50, 74, 98]
          else
            if version <= 23 then
              [6, 30, 54, 78, 102]
            else
              if version <= 24 then
                [6, 28, 54, 80, 106]
              else
                [6, 32, 58, 84, 110]
        else
          if version <= 27 then
            if version <= 26 then
              [6, 30, 58, 86, 114]
            else
              [6, 34, 62, 90, 118]
          else
            if version <= 28 then
              [6, 26, 50, 74, 98, 122]
            else
              if version <= 29 then
                [6, 30, 54, 78, 102, 126]
              else
                [6, 26, 52, 78, 104, 130]
      else
        if version <= 35 then
          if version <= 32 then
            if version <= 31 then
              [6, 30, 56, 82, 108, 134]
            else
              [6, 34, 60, 86, 112, 138]
          else
            if version <= 33 then
              [6, 30, 58, 86, 114, 142]
            else
              if version <= 34 then
                [6, 34, 62, 90, 118, 146]
              else
                [6, 30, 54, 78, 102, 126, 150]
        else
          if version <= 37 then
            if version <= 36 then
              [6, 24, 50, 76, 102, 128, 154]
            else
              [6, 28, 54, 80, 106, 132, 158]
          else
            if version <= 38 then
              [6, 32, 58, 84, 110, 136, 162]
            else
              if version <= 39 then
                [6, 26, 54, 82, 110, 138, 166]
              else
                [6, 30, 58, 86, 114, 142, 170]
  }

  predicate StrictlyIncreasing(s: seq<int>)
  {
    forall i, j :: 0 <= i < j < |s| ==> s[i] < s[j]
  }

  /** A row for a version of width 17 + 4v: starts at 6 and ends 7 modules before the far edge. */
  predicate SpansSymbol(row: seq<int>, version: int)
  {
    |row| >= 2 && row[0] == 6 && StrictlyIncreasing(row) && row[|row| - 1] == 10 + 4 * version
  }

  /** Version 1 has no alignment patterns. */
  lemma FirstVersionHasNone()
    ensures CoordinateRow(1) == []
  {
  }

  /** Every row from version 2 on starts at 6, increases, and ends at 10 + 4v. */
  lemma RowsSpanSymbol(version: int)
    requires 2 <= version <= 40
    ensures SpansSymbol(CoordinateRow(version), version)
  {
    if version <= 10 {
      RowsSpan2To10(version);
    } else if version <= 20 {
      RowsSpan11To20(version);
    } else if version <= 30 {
      RowsSpan21To30(version);
    } else {
      RowsSpan31To40(version);
    }
  }

  lemma RowsSpan2To10(version: int)
    requires 2 <= version <= 10
    ensures SpansSymbol(CoordinateRow(version), version)
  {
  }

  lemma RowsSpan11To20(version: int)
    requires 11 <= version <= 20
    ensures SpansSymbol(CoordinateRow(version), version)
  {
  }

  lemma RowsSpan21To30(version: int)
    requires 21 <= version <= 30
    ensures SpansSymbol(CoordinateRow(version), version)
  {
  }

  lemma RowsSpan31To40(version: int)
    requires 31 <= version <= 40
    ensures SpansSymbol(CoordinateRow(version), version)
  {
  }

  // ------------------------------------------------------------------
  // Pattern centres
  // ------------------------------------------------------------------

  /** The three corner pairs that coincide with finder patterns. */
  predicate Skipped(n: int, x: int, y: int)
  {
    (x == 0 && y == 0) || (x == n - 1 && y == 0) || (x == 0 && y == n - 1)
  }

  /** The inner loop: y from `y` up, skipping the corner pairs. */
  function Column(row: seq<int>, x: int, y: int): seq<Point>
    requires 0 <= x < |row| && 0 <= y <= |row|
    decreases |row| - y
  {
    if y == |row| then []
    else (if Skipped(|row|, x, y) then [] else [Point(row[x], row[y])]) + Column(row, x, y + 1)
  }

  /** The outer loop: x from `x` up. */
  function Columns(row: seq<int>, x: int): seq<Point>
    requires 0 <= x <= |row|
    decreases |row| - x
  {
    if x == |row| then [] else Column(row, x, 0) + Columns(row, x + 1)
  }

  /** GetCoordinates: the centres for a version; the row index is version - 1. */
  function GetCoordinates(version: int): (r: Result<seq<Point>>)
    ensures r.Success? <==> 1 <= version <= 40
    ensures r.Failure? ==> r.error == IndexOutOfRange
    ensures version == 1 ==> r == Success([])
    ensures r.Success? && version >= 2 ==>
      var n := |CoordinateRow(version)|;
      |r.value| == n * n - 3
    ensures r.Success? ==> forall p :: p in r.value <==> Centre(CoordinateRow(version), p)
  {
    if version < 1 || version > 40 then Failure(IndexOutOfRange)
    else
      var row := CoordinateRow(version);
      CentresCounted(version);
      ColumnsMembers(row, 0);
      Success(Columns(row, 0))
  }

  lemma CentresCounted(version: int)
    requires 1 <= version <= 40
    ensures version >= 2 ==>
      |Columns(CoordinateRow(version), 0)| == |CoordinateRow(version)| * |CoordinateRow(version)| - 3
  {
    if version >= 2 {
      RowsSpanSymbol(version);
      ColumnsCount(CoordinateRow(version), 0);
    }
  }

  /** p is the centre at some (row[x], row[y]) other than the three corners. */
  predicate Centre(row: seq<int>, p: Point)
  {
    exists x, y | 0 <= x < |row| && 0 <= y < |row| :: !Skipped(|row|, x, y) && p == Point(row[x], row[y])
  }

  /** How many of y .. n - 1 the inner loop skips for column x. */
  function SkipsFrom(n: int, x: int, y: int): int
  {
    (if x == 0 && y <= 0 then 1 else 0)
    + (if x == n - 1 && x != 0 && y <= 0 then 1 else 0)
    + (if x == 0 && n - 1 != 0 && y <= n - 1 then 1 else 0)
  }

  lemma {:induction false} ColumnCount(row: seq<int>, x: int, y: int)
    requires 0 <= x < |row| && 0 <= y <= |row|
    ensures |Column(row, x, y)| == |row| - y - SkipsFrom(|row|, x, y)
    decreases |row| - y
  {
    if y < |row| {
      ColumnCount(row, x, y + 1);
    }
  }

  /** The outer loop from column x yields (n - x) * n points less the corners in those columns. */
  lemma {:induction false} ColumnsCount(row: seq<int>, x: int)
    requires 2 <= |row| && 0 <= x <= |row|
    ensures |Columns(row, x)| == (|row| - x) * |row| - (if x == 0 then 3 else if x < |row| then 1 else 0)
    decreases |row| - x
  {
    if x < |row| {
      ColumnCount(row, x, 0);
      ColumnsCount(row, x + 1);
      CountStep(|row|, x);
    }
  }

  /** One more column adds n points less the corners it skips. */
  lemma CountStep(n: int, x: int)
    requires 2 <= n && 0 <= x < n
    ensures (n - SkipsFrom(n, x, 0)) + ((n - (x + 1)) * n - (if x + 1 < n then 1 else 0))
      == (n - x) * n - (if x == 0 then 3 else 1)
  {
    assert (n - x) * n == (n - (x + 1)) * n + n;
  }

  lemma {:induction false} ColumnMembers(row: seq<int>, x: int, y: int, p: Point)
    requires 0 <= x < |row| && 0 <= y <= |row|
    ensures p in Column(row, x, y) <==>
      exists y' | y <= y' < |row| :: !Skipped(|row|, x, y') && p == Point(row[x], row[y'])
    decreases |row| - y
  {
    if y < |row| {
      ColumnMembers(row, x, y + 1, p);
      var head := if Skipped(|row|, x, y) then [] else [Point(row[x], row[y])];
      assert Column(row, x, y) == head + Column(row, x, y + 1);
      if p in head {
        assert !Skipped(|row|, x, y) && p == Point(row[x], row[y]);
      }
      if exists y' | y <= y' < |row| :: !Skipped(|row|, x, y') && p == Point(row[x], row[y']) {
        var y' :| y <= y' < |row| && !Skipped(|row|, x, y') && p == Point(row[x], row[y']);
        if y' == y {
          assert p in head;
        }
      }
    }
  }

  lemma {:induction false} ColumnsMembers(row: seq<int>, x: int)
    requires 0 <= x <= |row|
    ensures forall p :: p in Columns(row, x) <==>
      exists x', y | x <= x' < |row| && 0 <= y < |row| :: !Skipped(|row|, x', y) && p == Point(row[x'], row[y])
    decreases |row| - x
  {
    if x < |row| {
      ColumnsMembers(row, x + 1);
      forall p
        ensures p in Columns(row, x) <==>
          exists x', y | x <= x' < |row| && 0 <= y < |row| :: !Skipped(|row|, x', y) && p == Point(row[x'], row[y])
      {
        ColumnMembers(row, x, 0, p);
      }
    }
  }

  /** Where the inner loop stops producing points: the last y is skipped in column 0. */
  function Limit(n: int, x: int): int
  {
    if x == 0 then n - 1 else n
  }

  lemma {:induction false} ColumnRange(row: seq<int>, x: int, y: int)
    requires 2 <= |row| && 0 <= x < |row| && 1 <= y <= Limit(|row|, x)
    ensures Column(row, x, y) == seq(Limit(|row|, x) - y, i requires 0 <= i < Limit(|row|, x) - y => Point(row[x], row[y + i]))
    decreases |row| - y
  {
    var n := |row|;
    if y == Limit(n, x) {
      if x == 0 {
        assert Column(row, x, y) == [] + Column(row, x, n);
      }
    } else {
      ColumnRange(row, x, y + 1);
      var tail := seq(Limit(n, x) - y - 1, i requires 0 <= i < Limit(n, x) - y - 1 => Point(row[x], row[y + 1 + i]));
      assert Column(row, x, y) == [Point(row[x], row[y])] + tail;
    }
  }

  /**
   * The order of the enumeration: column x holds (row[x], row[y]) for y
   * ascending; column 0 drops its first and last y, column n - 1 its first.
   */
  lemma ColumnShape(row: seq<int>, x: int)
    requires 2 <= |row| && 0 <= x < |row|
    ensures var n := |row|;
      Column(row, x, 0) ==
        if x == 0 then seq(n - 2, i requires 0 <= i < n - 2 => Point(row[0], row[i + 1]))
        else if x == n - 1 then seq(n - 1, i requires 0 <= i < n - 1 => Point(row[x], row[i + 1]))
        else seq(n, i requires 0 <= i < n => Point(row[x], row[i]))
  {
    var n := |row|;
    ColumnRange(row, x, 1);
    if x != 0 && x != n - 1 {
      assert Column(row, x, 0) == [Point(row[x], row[0])] + Column(row, x, 1);
    }
  }

  // ------------------------------------------------------------------
  // Spacing of the centres
  // ------------------------------------------------------------------

  /** Every coordinate is even and any two differ by at least 12. */
  predicate Spaced(row: seq<int>)
  {
    (forall i :: 0 <= i < |row| ==> row[i] % 2 == 0) &&
    (forall i, j :: 0 <= i < j < |row| ==> row[i] + 12 <= row[j])
  }

  lemma RowsSpaced(version: int)
    requires 1 <= version <= 40
    ensures Spaced(CoordinateRow(version))
  {
    if version <= 10 {
      RowsSpaced1To10(version);
    } else if version <= 20 {
      RowsSpaced11To20(version);
    } else if version <= 30 {
      RowsSpaced21To30(version);
    } else if version <= 35 {
      RowsSpaced31To35(version);
    } else {
      RowsSpaced36To40(version);
    }
  }

  lemma RowsSpaced1To10(version: int)
    requires 1 <= version <= 10
    ensures Spaced(CoordinateRow(version))
  {
  }

  lemma RowsSpaced11To20(version: int)
    requires 11 <= version <= 20
    ensures Spaced(CoordinateRow(version))
  {
  }

  lemma RowsSpaced21To30(version: int)
    requires 21 <= version <= 30
    ensures Spaced(CoordinateRow(version))
  {
  }

  lemma RowsSpaced31To35(version: int)
    requires 31 <= version <= 35
    ensures Spaced(CoordinateRow(version))
  {
  }

  lemma RowsSpaced36To40(version: int)
    requires 36 <= version <= 40
    ensures Spaced(CoordinateRow(version))
  {
  }

  /**
   * Where a centre can sit in a symbol of width 17 + 4v: on even coordinates
   * from 6 to width - 7, either on the first coordinate or at least 18, and
   * a centre on row or column 6 keeps 12 modules clear of the far finder.
   */
  lemma CentreShape(version: int, p: Point)
    requires 2 <= version <= 40 && Centre(CoordinateRow(version), p)
    ensures var last := 10 + 4 * version;
      p.x % 2 == 0 && p.y % 2 == 0 &&
      6 <= p.x <= last && 6 <= p.y <= last &&
      (p.x == 6 || p.x >= 18) && (p.y == 6 || p.y >= 18) &&
      (p.x == 6 ==> 18 <= p.y <= last - 12) &&
      (p.y == 6 ==> 18 <= p.x <= last - 12)
  {
    var row := CoordinateRow(version);
    var n := |row|;
    RowsSpanSymbol(version);
    RowsSpaced(version);
    var x, y :| 0 <= x < n && 0 <= y < n && !Skipped(n, x, y) && p == Point(row[x], row[y]);
    if x > 0 {
      assert row[0] + 12 <= row[x];
    }
    if y > 0 {
      assert row[0] + 12 <= row[y];
    }
    if x < n - 1 {
      assert row[x] + 12 <= row[n - 1];
    }
    if y < n - 1 {
      assert row[y] + 12 <= row[n - 1];
    }
  }

  /** Two different centres are at least 12 apart in one of the coordinates. */
  lemma CentresApart(version: int, p: Point, q: Point)
    requires 2 <= version <= 40 && Centre(CoordinateRow(version), p) && Centre(CoordinateRow(version), q)
    requires p != q
    ensures p.x + 12 <= q.x || q.x + 12 <= p.x || p.y + 12 <= q.y || q.y + 12 <= p.y
  {
    var row := CoordinateRow(version);
    var n := |row|;
    RowsSpaced(version);
    var a, b :| 0 <= a < n && 0 <= b < n && !Skipped(n, a, b) && p == Point(row[a], row[b]);
    var c, d :| 0 <= c < n && 0 <= d < n && !Skipped(n, c, d) && q == Point(row[c], row[d]);
    if a != c {
      SpacedApart(row, a, c);
    } else {
      SpacedApart(row, b, d);
    }
  }

  lemma SpacedApart(row: seq<int>, i: int, j: int)
    requires Spaced(row) && 0 <= i < |row| && 0 <= j < |row| && i != j
    ensures row[i] + 12 <= row[j] || row[j] + 12 <= row[i]
  {
  }
}
