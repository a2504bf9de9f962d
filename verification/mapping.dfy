/**
 * Codeword placement (section 6.7.3 of ISO/IEC 18004:2006): the modules not
 * taken by function patterns are visited in two-module-wide columns from the
 * right edge leftwards, upwards in the first column pair and alternating
 * direction after every pair, the right module of each row before the left
 * one; the timing column 6 is skipped. Consecutive groups of eight visited
 * modules then take the bits of one codeword each, most significant first.
 *
 * Points are (x = column, y = row), as in the source.
 */
module Mapping {
  import opened ModuleBlocks
  import AlignmentPatterns

  type Point = AlignmentPatterns.Point

  // ------------------------------------------------------------------
  // Column pairs
  // ------------------------------------------------------------------

  /** Column x belongs to one of the pairs whose right-hand columns are cs. */
  predicate InPairs(cs: seq<int>, x: int)
  {
    |cs| > 0 && (x == cs[0] || x == cs[0] - 1 || InPairs(cs[1..], x))
  }

  predicate Descending(cs: seq<int>)
  {
    forall i, j :: 0 <= i < j < |cs| ==> cs[j] <= cs[i] - 2
  }

  /**
   * The right-hand columns of the pairs, from column `col` leftwards in steps
   * of two while the column is positive; column 6 is replaced by column 5.
   */
  function PairColumns(col: int): (cs: seq<int>)
    ensures forall k :: 0 <= k < |cs| ==> 1 <= cs[k] <= col && cs[k] != 6
    ensures Descending(cs)
    ensures 2 * |cs| <= col + 1 || col <= 0
    decreases col
  {
    if col <= 0 then []
    else
      var c := if col == 6 then col - 1 else col;
      [c] + PairColumns(c - 2)
  }

  /**
   * For an even starting column of at least 6 (the right edge of a symbol
   * of odd width 7 or more), the pairs cover every column from 0 to the
   * edge except the timing column.
   */
  lemma {:induction false} PairsCoverColumns(col: int, x: int)
    requires col >= 6 && col % 2 == 0
    ensures InPairs(PairColumns(col), x) <==> 0 <= x <= col && x != 6
    decreases col
  {
    if col == 6 {
      LeftmostPairs(x);
    } else {
      PairsCoverColumns(col - 2, x);
      assert PairColumns(col)[1..] == PairColumns(col - 2);
    }
  }

  /** Left of the timing column the pairs are (5, 4), (3, 2) and (1, 0). */
  lemma LeftmostPairs(x: int)
    ensures InPairs(PairColumns(6), x) <==> 0 <= x <= 5
  {
    PairColumnsOfSix();
    var one, three, six := [1], [3, 1], [5, 3, 1];
    assert one[1..] == [] && !InPairs([], x);
    assert InPairs(one, x) <==> x == 1 || x == 0;
    assert three[1..] == one;
    assert InPairs(three, x) <==> 0 <= x <= 3;
    assert six[1..] == three;
  }

  lemma PairColumnsOfSix()
    ensures PairColumns(6) == [5, 3, 1]
  {
    assert PairColumns(1) == [1];
    assert PairColumns(3) == [3, 1];
  }

  /** Every column covered by later pairs lies left of the first pair. */
  lemma {:induction false} CoveredBelow(cs: seq<int>, x: int)
    requires |cs| > 0 && Descending(cs)
    requires InPairs(cs[1..], x)
    ensures x <= cs[0] - 2
  {
    var tail := cs[1..];
    if InPairs(tail[1..], x) {
      assert Descending(tail);
      CoveredBelow(tail, x);
    }
    assert tail[0] == cs[1];
  }

  // ------------------------------------------------------------------
  // The traversal
  // ------------------------------------------------------------------

  /** The module at (row, col) when it is free for data, nothing when it is reserved. */
  function Visit(g: Grid, row: int, col: int): (r: seq<Point>)
    requires IsGrid(g, |g|) && 0 <= row < |g| && 0 <= col < |g|
    ensures |r| <= 1
  {
    if g[row][col].reserved then [] else [AlignmentPatterns.Point(col, row)]
  }

  /** Rows `row` down to 0 of the pair with right column c, right module first. */
  function Upward(g: Grid, c: int, row: int): (r: seq<Point>)
    requires IsGrid(g, |g|) && 1 <= c < |g| && -1 <= row < |g|
    ensures |r| <= 2 * (row + 1)
    decreases row + 1
  {
    if row < 0 then []
    else Visit(g, row, c) + Visit(g, row, c - 1) + Upward(g, c, row - 1)
  }

  /** Rows `row` up to the last of the pair with right column c, right module first. */
  function Downward(g: Grid, c: int, row: int): (r: seq<Point>)
    requires IsGrid(g, |g|) && 1 <= c < |g| && 0 <= row <= |g|
    ensures |r| <= 2 * (|g| - row)
    decreases |g| - row
  {
    if row == |g| then []
    else Visit(g, row, c) + Visit(g, row, c - 1) + Downward(g, c, row + 1)
  }

  /** The pairs in order, the first in direction `upward`, reversing after each. */
  function Zigzag(g: Grid, cs: seq<int>, upward: bool): (r: seq<Point>)
    requires IsGrid(g, |g|)
    requires forall k :: 0 <= k < |cs| ==> 1 <= cs[k] < |g|
    ensures |r| <= 2 * |g| * |cs|
  {
    if |cs| == 0 then []
    else
      var pair := if upward then Upward(g, cs[0], |g| - 1) else Downward(g, cs[0], 0);
      var r := pair + Zigzag(g, cs[1..], !upward);
      assert 2 * |g| * |cs| == 2 * |g| + 2 * |g| * (|cs| - 1);
      r
  }

  /**
   * The traversal the source records: at most width^2 points, so it always
   * fits the width^2 array the source allocates.
   */
  function BitStreamMapping(g: Grid): (r: seq<Point>)
    requires IsGrid(g, |g|)
    ensures |r| <= |g| * |g|
  {
    TraversalFits(g);
    Zigzag(g, PairColumns(|g| - 1), true)
  }

  /** The pairs number at most width / 2, each visiting at most 2 width modules. */
  lemma TraversalFits(g: Grid)
    requires IsGrid(g, |g|)
    ensures |Zigzag(g, PairColumns(|g| - 1), true)| <= |g| * |g|
  {
    var cs := PairColumns(|g| - 1);
    var n := |Zigzag(g, cs, true)|;
    assert n <= 2 * |g| * |cs|;
    if |g| > 0 {
      PairsBound(|g|, |cs|, n);
    }
  }

  lemma PairsBound(w: int, pairs: int, n: int)
    requires 0 < w && 0 <= pairs && 2 * pairs <= w && n <= 2 * w * pairs
    ensures n <= w * w
  {
    MulLeft(w, 2 * pairs, w);
    assert 2 * w * pairs == w * (2 * pairs);
  }

  lemma MulLeft(a: nat, b: int, c: int)
    requires b <= c
    ensures a * b <= a * c
  {
  }

  // ------------------------------------------------------------------
  // Every free module exactly once
  // ------------------------------------------------------------------

  predicate Free(g: Grid, p: Point)
    requires IsGrid(g, |g|)
  {
    0 <= p.x < |g| && 0 <= p.y < |g| && !g[p.y][p.x].reserved
  }

  predicate Distinct(s: seq<Point>)
  {
    forall i, j :: 0 <= i < j < |s| ==> s[i] != s[j]
  }

  lemma DistinctConcat(a: seq<Point>, b: seq<Point>)
    requires Distinct(a) && Distinct(b)
    requires forall p :: p in a ==> p !in b
    ensures Distinct(a + b)
  {
    forall i, j | 0 <= i < j < |a + b|
      ensures (a + b)[i] != (a + b)[j]
    {
      if i < |a| && j >= |a| {
        assert (a + b)[i] in a && (a + b)[j] in b;
      }
    }
  }

  lemma {:induction false} UpwardMember(g: Grid, c: int, row: int, p: Point)
    requires IsGrid(g, |g|) && 1 <= c < |g| && -1 <= row < |g|
    ensures p in Upward(g, c, row) <==> (p.x == c || p.x == c - 1) && 0 <= p.y <= row && Free(g, p)
    decreases row + 1
  {
    if row >= 0 {
      UpwardMember(g, c, row - 1, p);
    }
  }

  lemma {:induction false} UpwardDistinct(g: Grid, c: int, row: int)
    requires IsGrid(g, |g|) && 1 <= c < |g| && -1 <= row < |g|
    ensures Distinct(Upward(g, c, row))
    decreases row + 1
  {
    if row >= 0 {
      UpwardDistinct(g, c, row - 1);
      var head := Visit(g, row, c) + Visit(g, row, c - 1);
      forall q | q in head
        ensures q !in Upward(g, c, row - 1)
      {
        UpwardMember(g, c, row - 1, q);
      }
      DistinctConcat(head, Upward(g, c, row - 1));
    }
  }

  lemma {:induction false} DownwardMember(g: Grid, c: int, row: int, p: Point)
    requires IsGrid(g, |g|) && 1 <= c < |g| && 0 <= row <= |g|
    ensures p in Downward(g, c, row) <==> (p.x == c || p.x == c - 1) && row <= p.y < |g| && Free(g, p)
    decreases |g| - row
  {
    if row < |g| {
      DownwardMember(g, c, row + 1, p);
    }
  }

  lemma {:induction false} DownwardDistinct(g: Grid, c: int, row: int)
    requires IsGrid(g, |g|) && 1 <= c < |g| && 0 <= row <= |g|
    ensures Distinct(Downward(g, c, row))
    decreases |g| - row
  {
    if row < |g| {
      DownwardDistinct(g, c, row + 1);
      var head := Visit(g, row, c) + Visit(g, row, c - 1);
      forall q | q in head
        ensures q !in Downward(g, c, row + 1)
      {
        DownwardMember(g, c, row + 1, q);
      }
      DistinctConcat(head, Downward(g, c, row + 1));
    }
  }

  /** Whatever the direction, a pair visits exactly the free modules of its two columns. */
  lemma PairMember(g: Grid, c: int, upward: bool, p: Point)
    requires IsGrid(g, |g|) && 1 <= c < |g|
    ensures p in (if upward then Upward(g, c, |g| - 1) else Downward(g, c, 0)) <==> (p.x == c || p.x == c - 1) && Free(g, p)
  {
    UpwardMember(g, c, |g| - 1, p);
    DownwardMember(g, c, 0, p);
  }

  /** Whatever the direction, a pair visits no module twice. */
  lemma PairDistinct(g: Grid, c: int, upward: bool)
    requires IsGrid(g, |g|) && 1 <= c < |g|
    ensures Distinct(if upward then Upward(g, c, |g| - 1) else Downward(g, c, 0))
  {
    UpwardDistinct(g, c, |g| - 1);
    DownwardDistinct(g, c, 0);
  }

  /** The zigzag over pairs cs visits exactly the free modules of their columns, each once. */
  lemma ZigzagMembers(g: Grid, cs: seq<int>, upward: bool, p: Point)
    requires IsGrid(g, |g|)
    requires forall k :: 0 <= k < |cs| ==> 1 <= cs[k] < |g|
    requires Descending(cs)
    ensures p in Zigzag(g, cs, upward) <==> InPairs(cs, p.x) && Free(g, p)
    ensures Distinct(Zigzag(g, cs, upward))
  {
    ZigzagMember(g, cs, upward, p);
    ZigzagDistinct(g, cs, upward);
  }

  lemma {:induction false} ZigzagMember(g: Grid, cs: seq<int>, upward: bool, p: Point)
    requires IsGrid(g, |g|)
    requires forall k :: 0 <= k < |cs| ==> 1 <= cs[k] < |g|
    requires Descending(cs)
    ensures p in Zigzag(g, cs, upward) <==> InPairs(cs, p.x) && Free(g, p)
  {
    if |cs| > 0 {
      assert Descending(cs[1..]);
      ZigzagMember(g, cs[1..], !upward, p);
      PairMember(g, cs[0], upward, p);
    }
  }

  lemma {:induction false} ZigzagDistinct(g: Grid, cs: seq<int>, upward: bool)
    requires IsGrid(g, |g|)
    requires forall k :: 0 <= k < |cs| ==> 1 <= cs[k] < |g|
    requires Descending(cs)
    ensures Distinct(Zigzag(g, cs, upward))
  {
    if |cs| > 0 {
      var pair := if upward then Upward(g, cs[0], |g| - 1) else Downward(g, cs[0], 0);
      var rest := Zigzag(g, cs[1..], !upward);
      assert Descending(cs[1..]);
      ZigzagDistinct(g, cs[1..], !upward);
      forall q | q in pair
        ensures q !in rest
      {
        PairBeforeRest(g, cs, upward, q);
      }
      PairDistinct(g, cs[0], upward);
      DistinctConcat(pair, rest);
    }
  }

  /** A module of the first pair is not visited again by the later pairs, which lie to its left. */
  lemma PairBeforeRest(g: Grid, cs: seq<int>, upward: bool, q: Point)
    requires IsGrid(g, |g|)
    requires forall k :: 0 <= k < |cs| ==> 1 <= cs[k] < |g|
    requires Descending(cs) && |cs| > 0
    requires q in (if upward then Upward(g, cs[0], |g| - 1) else Downward(g, cs[0], 0))
    ensures q !in Zigzag(g, cs[1..], !upward)
  {
    assert Descending(cs[1..]);
    PairMember(g, cs[0], upward, q);
    ZigzagMember(g, cs[1..], !upward, q);
    if InPairs(cs[1..], q.x) {
      CoveredBelow(cs, q.x);
    }
  }

  /**
   * In a symbol of odd width of at least 7, the traversal lists every free
   * module outside the timing column exactly once, and nothing else.
   */
  lemma BitStreamCoversFreeModules(g: Grid)
    requires IsGrid(g, |g|) && |g| >= 7 && |g| % 2 == 1
    ensures forall p :: p in BitStreamMapping(g) <==> Free(g, p) && p.x != 6
    ensures Distinct(BitStreamMapping(g))
  {
    forall p
      ensures p in BitStreamMapping(g) <==> Free(g, p) && p.x != 6
    {
      BitStreamMember(g, p);
    }
    ZigzagMembers(g, PairColumns(|g| - 1), true, AlignmentPatterns.Point(0, 0));
  }

  lemma BitStreamMember(g: Grid, p: Point)
    requires IsGrid(g, |g|) && |g| >= 7 && |g| % 2 == 1
    ensures p in BitStreamMapping(g) <==> Free(g, p) && p.x != 6
  {
    ZigzagMembers(g, PairColumns(|g| - 1), true, p);
    PairsCoverColumns(|g| - 1, p.x);
  }

  // ------------------------------------------------------------------
  // Grouping into codeword placements
  // ------------------------------------------------------------------

  /** The eight modules of one codeword, most significant bit first. */
  datatype CodewordPlacement = CodewordPlacement(
    bit7: Point, bit6: Point, bit5: Point, bit4: Point,
    bit3: Point, bit2: Point, bit1: Point, bit0: Point)

  const Origin: Point := AlignmentPatterns.Point(0, 0)

  /** An entry the grouping loop never writes: every point is (0, 0). */
  const Unfilled: CodewordPlacement :=
    CodewordPlacement(Origin, Origin, Origin, Origin, Origin, Origin, Origin, Origin)

  /** The bit-stream array: the recorded traversal, then (0, 0) up to n entries. */
  function Padded(points: seq<Point>, n: int): (r: seq<Point>)
    requires |points| <= n
    ensures |r| == n && r[..|points|] == points
    ensures forall i :: |points| <= i < n ==> r[i] == Origin
  {
    points + seq(n - |points|, _ => Origin)
  }

  /** Bit j of the codeword sits at `mapping[8 k + 7 - j]` for placement k. */
  function Group(mapping: seq<Point>, k: int): CodewordPlacement
    requires 0 <= k && 8 * k + 8 <= |mapping|
  {
    var b := 8 * k;
    CodewordPlacement(mapping[b], mapping[b + 1], mapping[b + 2], mapping[b + 3],
                      mapping[b + 4], mapping[b + 5], mapping[b + 6], mapping[b + 7])
  }

  /**
   * The grouping loop: length / 8 entries; entry k is written only while
   * 8 k < length - 8, so an array whose length is a multiple of eight
   * keeps its last entry unwritten.
   */
  function PlacementsFrom(mapping: seq<Point>): (r: seq<CodewordPlacement>)
    ensures |r| == |mapping| / 8
    ensures forall k :: 0 <= k < |r| && 8 * k < |mapping| - 8 ==> r[k] == Group(mapping, k)
    ensures forall k :: 0 <= k < |r| && 8 * k >= |mapping| - 8 ==> r[k] == Unfilled
  {
    seq(|mapping| / 8, k requires 0 <= k < |mapping| / 8 =>
      if 8 * k < |mapping| - 8 then Group(mapping, k) else Unfilled)
  }

  /** The placements for a symbol: its traversal in a width^2 array, grouped by eight. */
  function CodewordPlacements(g: Grid): (r: seq<CodewordPlacement>)
    requires IsGrid(g, |g|)
    ensures |r| == |g| * |g| / 8
  {
    PlacementsFrom(Padded(BitStreamMapping(g), |g| * |g|))
  }

  /** For odd widths (every symbol width) width^2 is 1 mod 8, so every entry is written. */
  lemma OddWidthFillsAll(width: int, k: int)
    requires width >= 1 && width % 2 == 1 && 0 <= k < width * width / 8
    ensures 8 * k < width * width - 8
  {
    var h := (width - 1) / 2;
    var t := Triangle(h);
    var square := width * width;
    OddSquare(width, h);
    assert square == 8 * t + 1;
    assert square / 8 == t;
  }

  lemma OddSquare(width: int, h: nat)
    requires width == 2 * h + 1
    ensures width * width == 4 * (h * (h + 1)) + 1
  {
    assert width * width == (2 * h + 1) * (2 * h + 1);
    assert (2 * h + 1) * (2 * h + 1) == 4 * h * h + 4 * h + 1;
  }

  /** h (h + 1) / 2, which is whole because one of h and h + 1 is even. */
  function Triangle(h: nat): (t: nat)
    ensures 2 * t == h * (h + 1)
  {
    if h == 0 then 0 else Triangle(h - 1) + h
  }

  /** When the array length is a multiple of eight the last group stays (0, 0). */
  lemma LastGroupOfMultipleUnfilled(mapping: seq<Point>)
    requires |mapping| >= 8 && |mapping| % 8 == 0
    ensures PlacementsFrom(mapping)[|mapping| / 8 - 1] == Unfilled
  {
  }
}
