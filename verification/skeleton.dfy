/**
 * The function patterns a symbol template draws into a fresh grid before any
 * data is placed: the timing patterns, the three finder patterns with their
 * separators and format strips, the alignment patterns and, from version 7,
 * the two version information blocks. Every module drawn here is reserved,
 * which is what keeps data placement and masking away from it.
 *
 * The drawing is modelled on the decoded grid; ModuleBlocks.SetRefines shows
 * that the packed store's Set acts on that grid as GridSet.
 */
module Skeleton {
  import opened Arith
  import opened ModuleBlocks
  import AlignmentPatterns

  type Point = AlignmentPatterns.Point

  /** The flag combinations the template draws with. */
  const ReservedLight: bv8 := 2
  const ReservedDark: bv8 := 3

  /** The width of a version's symbol: 21 modules for version 1, 4 more per version. */
  function Width(version: int): int
  {
    21 + 4 * (version - 1)
  }

  /** A fresh store: every module light and unreserved. */
  function Blank(width: nat): (g: Grid)
    ensures IsGrid(g, width)
    ensures forall i, j :: 0 <= i < width && 0 <= j < width ==> g[i][j] == Module(false, false)
  {
    seq(width, _ => seq(width, _ => Module(false, false)))
  }

  function Abs(a: int): nat
  {
    if a < 0 then -a else a
  }

  /** Chebyshev distance of (i, j) from (ci, cj): the ring of concentric squares a module is on. */
  function Distance(i: int, j: int, ci: int, cj: int): nat
  {
    if Abs(i - ci) < Abs(j - cj) then Abs(j - cj) else Abs(i - ci)
  }

  /** C#'s `((value >> position) & 1) != 0`; `>>` on an int floors, as Dafny's `/` does. */
  predicate BitAt(value: int, position: nat)
  {
    (value / Pow2(position)) % 2 == 1
  }

  /** GetTypeFromBitPosition: Dark for a set bit, Light otherwise. */
  function TypeOfBit(value: int, position: nat): (flag: bv8)
    ensures flag == Dark <==> BitAt(value, position)
    ensures flag == Light <==> !BitAt(value, position)
  {
    if BitAt(value, position) then Dark else Light
  }

  // ------------------------------------------------------------------
  // DrawRect and DrawSquare
  // ------------------------------------------------------------------

  predicate InRect(i: int, j: int, row: int, col: int, width: int, height: int)
  {
    row <= i < row + height && col <= j < col + width
  }

  /** The rectangle lies inside the grid (the store itself checks nothing). */
  predicate Fits(g: Grid, row: int, col: int, width: int, height: int)
  {
    0 <= row && 0 <= col && row + height <= |g| && col + width <= |g|
  }

  /**
   * DrawRect negates its flag before use: `xor` = true ORs the flag into
   * each cell of the rectangle, the default false overwrites it.
   */
  function DrawRect(g: Grid, row: int, col: int, width: int, height: int, flag: bv8, xor: bool): (h: Grid)
    requires IsGrid(g, |g|) && Fits(g, row, col, width, height)
    ensures IsGrid(h, |g|)
  {
    seq(|g|, i requires 0 <= i < |g| => seq(|g|, j requires 0 <= j < |g| =>
      if InRect(i, j, row, col, width, height) then SetModule(g[i][j], flag, !xor) else g[i][j]))
  }

  /** The source's nested loops, one Set per cell, row by row, give DrawRect's picture. */
  method DrawRectLoop(g: Grid, row: int, col: int, width: int, height: int, flag: bv8, xor: bool) returns (h: Grid)
    requires IsGrid(g, |g|) && Fits(g, row, col, width, height)
    ensures h == DrawRect(g, row, col, width, height, flag, xor)
  {
    var overwrite := !xor;
    h := g;
    var y := 0;
    while y < height
      invariant 0 <= y && (y <= height || y == 0)
      invariant IsGrid(h, |g|)
      invariant forall i, j {:trigger h[i][j]} :: 0 <= i < |g| && 0 <= j < |g| ==>
        h[i][j] == if InRect(i, j, row, col, width, y) then SetModule(g[i][j], flag, overwrite) else g[i][j]
    {
      var x := 0;
      while x < width
        invariant 0 <= x && (x <= width || x == 0)
        invariant IsGrid(h, |g|)
        invariant forall i, j {:trigger h[i][j]} :: 0 <= i < |g| && 0 <= j < |g| ==>
          h[i][j] ==
            if InRect(i, j, row, col, width, y) || (i == row + y && col <= j < col + x) then SetModule(g[i][j], flag, overwrite)
            else g[i][j]
      {
        h := GridSet(h, row + y, col + x, flag, overwrite);
        x := x + 1;
      }
      y := y + 1;
    }
    var d := DrawRect(g, row, col, width, height, flag, xor);
    forall i | 0 <= i < |g|
      ensures h[i] == d[i]
    {
      assert forall j :: 0 <= j < |g| ==> h[i][j] == d[i][j];
    }
  }

  function DrawSquare(g: Grid, row: int, col: int, width: int, flag: bv8, xor: bool): (h: Grid)
    requires IsGrid(g, |g|) && Fits(g, row, col, width, width)
    ensures IsGrid(h, |g|)
  {
    DrawRect(g, row, col, width, width, flag, xor)
  }

  /** What each flag does to a module. */
  lemma FlagEffects(m: Module)
    ensures SetModule(m, ReservedDark, true) == Module(true, true)
    ensures SetModule(m, ReservedLight, true) == Module(false, true)
    ensures SetModule(m, Reserved, false) == Module(m.dark, true)
  {
  }

  // ------------------------------------------------------------------
  // Timing patterns
  // ------------------------------------------------------------------

  /** A timing module: reserved, dark on even positions. */
  function TimingModule(k: int): Module
  {
    Module(k % 2 == 0, true)
  }

  /** The timing loop from i on: overwrites (i, 6) and then (6, i). */
  function TimingFrom(g: Grid, i: int): (h: Grid)
    requires IsGrid(g, |g|) && |g| > 6 && 0 <= i
    ensures IsGrid(h, |g|)
    ensures forall a, b {:trigger h[a][b]} :: 0 <= a < |g| && 0 <= b < |g| ==>
      h[a][b] ==
        if b == 6 && a >= i then TimingModule(a)
        else if a == 6 && b >= i then TimingModule(b)
        else g[a][b]
    decreases |g| - i
  {
    if i >= |g| then g
    else
      var flag := if i % 2 == 0 then ReservedDark else ReservedLight;
      FlagEffects(g[i][6]);
      FlagEffects(g[6][i]);
      var g1 := GridSet(g, i, 6, flag, true);
      FlagEffects(g1[6][i]);
      TimingFrom(GridSet(g1, 6, i, flag, true), i + 1)
  }

  // ------------------------------------------------------------------
  // Finder patterns
  // ------------------------------------------------------------------

  /**
   * A finder corner by offsets (di, dj) from the symbol's corner: a 7x7 dark
   * square, a 5x5 light one inside it and a 3x3 dark core (so a module is
   * light exactly on the ring at distance 2 from the centre); then a light
   * separator; then the format strip, which is reserved and keeps its colour.
   */
  function FinderModule(di: int, dj: int, before: Module): Module
  {
    if di <= 6 && dj <= 6 then Module(Distance(di, dj, 3, 3) != 2, true)
    else if di <= 7 && dj <= 7 then Module(false, true)
    else Module(before.dark, true)
  }

  /** The top-left finder corner: the format strip along row 8 and column 8 is ORed in as reserved, then the separator square, the 7x7 dark, 5x5 light and 3x3 dark squares overwrite. */
  function TopLeftFinder(g: Grid): (h: Grid)
    requires IsGrid(g, |g|) && |g| >= 9
    ensures IsGrid(h, |g|)
  {
    var w := |g|;
    var g1 := DrawSquare(g, 0, 0, 9, Reserved, true);
    var g2 := DrawSquare(g1, 0, 0, 8, ReservedLight, false);
    var g3 := DrawSquare(g2, 0, 0, 7, ReservedDark, false);
    var g4 := DrawSquare(g3, 1, 1, 5, ReservedLight, false);
    DrawSquare(g4, 2, 2, 3, ReservedDark, false)
  }

  lemma TopLeftFinderDrawn(g: Grid, i: int, j: int)
    requires IsGrid(g, |g|) && |g| >= 9 && 0 <= i < |g| && 0 <= j < |g|
    ensures var w := |g|;
      TopLeftFinder(g)[i][j] == if i <= 8 && j <= 8 then FinderModule(i, j, g[i][j]) else g[i][j]
  {
    var w := |g|;
    var g1 := DrawSquare(g, 0, 0, 9, Reserved, true);
    var g2 := DrawSquare(g1, 0, 0, 8, ReservedLight, false);
    var g3 := DrawSquare(g2, 0, 0, 7, ReservedDark, false);
    var g4 := DrawSquare(g3, 1, 1, 5, ReservedLight, false);
    var g5 := DrawSquare(g4, 2, 2, 3, ReservedDark, false);
    assert TopLeftFinder(g) == g5;
    FlagEffects(g[i][j]);
    FlagEffects(g1[i][j]);
    FlagEffects(g2[i][j]);
    FlagEffects(g3[i][j]);
    FlagEffects(g4[i][j]);
  }

  /** The top-right finder corner: the format strip is row 8 only. */
  function TopRightFinder(g: Grid): (h: Grid)
    requires IsGrid(g, |g|) && |g| >= 9
    ensures IsGrid(h, |g|)
  {
    var w := |g|;
    var g1 := DrawRect(g, 8, w - 8, 8, 1, Reserved, true);
    var g2 := DrawSquare(g1, 0, w - 8, 8, ReservedLight, false);
    var g3 := DrawSquare(g2, 0, w - 7, 7, ReservedDark, false);
    var g4 := DrawSquare(g3, 1, w - 6, 5, ReservedLight, false);
    DrawSquare(g4, 2, w - 5, 3, ReservedDark, false)
  }

  lemma TopRightFinderDrawn(g: Grid, i: int, j: int)
    requires IsGrid(g, |g|) && |g| >= 9 && 0 <= i < |g| && 0 <= j < |g|
    ensures var w := |g|;
      TopRightFinder(g)[i][j] == if i <= 8 && j >= w - 8 then FinderModule(i, w - 1 - j, g[i][j]) else g[i][j]
  {
    var w := |g|;
    var g1 := DrawRect(g, 8, w - 8, 8, 1, Reserved, true);
    var g2 := DrawSquare(g1, 0, w - 8, 8, ReservedLight, false);
    var g3 := DrawSquare(g2, 0, w - 7, 7, ReservedDark, false);
    var g4 := DrawSquare(g3, 1, w - 6, 5, ReservedLight, false);
    var g5 := DrawSquare(g4, 2, w - 5, 3, ReservedDark, false);
    assert TopRightFinder(g) == g5;
    FlagEffects(g[i][j]);
    FlagEffects(g1[i][j]);
    FlagEffects(g2[i][j]);
    FlagEffects(g3[i][j]);
    FlagEffects(g4[i][j]);
  }

  /** The bottom-left finder corner: the format strip is column 8 only. */
  function BottomLeftFinder(g: Grid): (h: Grid)
    requires IsGrid(g, |g|) && |g| >= 9
    ensures IsGrid(h, |g|)
  {
    var w := |g|;
    var g1 := DrawRect(g, w - 8, 8, 1, 8, Reserved, true);
    var g2 := DrawSquare(g1, w - 8, 0, 8, ReservedLight, false);
    var g3 := DrawSquare(g2, w - 7, 0, 7, ReservedDark, false);
    var g4 := DrawSquare(g3, w - 6, 1, 5, ReservedLight, false);
    DrawSquare(g4, w - 5, 2, 3, ReservedDark, false)
  }

  lemma BottomLeftFinderDrawn(g: Grid, i: int, j: int)
    requires IsGrid(g, |g|) && |g| >= 9 && 0 <= i < |g| && 0 <= j < |g|
    ensures var w := |g|;
      BottomLeftFinder(g)[i][j] == if i >= w - 8 && j <= 8 then FinderModule(w - 1 - i, j, g[i][j]) else g[i][j]
  {
    var w := |g|;
    var g1 := DrawRect(g, w - 8, 8, 1, 8, Reserved, true);
    var g2 := DrawSquare(g1, w - 8, 0, 8, ReservedLight, false);
    var g3 := DrawSquare(g2, w - 7, 0, 7, ReservedDark, false);
    var g4 := DrawSquare(g3, w - 6, 1, 5, ReservedLight, false);
    var g5 := DrawSquare(g4, w - 5, 2, 3, ReservedDark, false);
    assert BottomLeftFinder(g) == g5;
    FlagEffects(g[i][j]);
    FlagEffects(g1[i][j]);
    FlagEffects(g2[i][j]);
    FlagEffects(g3[i][j]);
    FlagEffects(g4[i][j]);
  }

  /** The finder corner a cell lies in decides its module; other cells keep theirs. */
  function FinderAt(w: int, i: int, j: int, before: Module): Module
  {
    if i <= 8 && j <= 8 then FinderModule(i, j, before)
    else if i <= 8 && j >= w - 8 then FinderModule(i, w - 1 - j, before)
    else if i >= w - 8 && j <= 8 then FinderModule(w - 1 - i, j, before)
    else before
  }

  /** PopulateFinderPatterns: top-left, top-right, bottom-left. */
  function Finders(g: Grid): (h: Grid)
    requires IsGrid(g, |g|) && |g| >= 9
    ensures IsGrid(h, |g|)
  {
    BottomLeftFinder(TopRightFinder(TopLeftFinder(g)))
  }

  /** From width 17 on the three corners do not meet, so each keeps its own picture. */
  lemma FindersDrawn(g: Grid, i: int, j: int)
    requires IsGrid(g, |g|) && |g| >= 17 && 0 <= i < |g| && 0 <= j < |g|
    ensures Finders(g)[i][j] == FinderAt(|g|, i, j, g[i][j])
  {
    var g1 := TopLeftFinder(g);
    var g2 := TopRightFinder(g1);
    TopLeftFinderDrawn(g, i, j);
    TopRightFinderDrawn(g1, i, j);
    BottomLeftFinderDrawn(g2, i, j);
  }

  // ------------------------------------------------------------------
  // Alignment patterns
  // ------------------------------------------------------------------

  /** The 5x5 square an alignment pattern centred on p covers. */
  predicate Near(p: Point, i: int, j: int)
  {
    p.y - 2 <= i <= p.y + 2 && p.x - 2 <= j <= p.x + 2
  }

  /** An alignment module: dark except on the ring at distance 1 from the centre. */
  function AlignmentModule(p: Point, i: int, j: int): Module
  {
    Module(Distance(i, j, p.y, p.x) != 1, true)
  }

  predicate Placeable(g: Grid, p: Point)
  {
    2 <= p.x && p.x + 2 < |g| && 2 <= p.y && p.y + 2 < |g|
  }

  /** One alignment pattern: 5x5 dark, 3x3 light, 1x1 dark, all overwriting. */
  function AlignmentAt(g: Grid, p: Point): (h: Grid)
    requires IsGrid(g, |g|) && Placeable(g, p)
    ensures IsGrid(h, |g|)
    ensures forall i, j {:trigger h[i][j]} :: 0 <= i < |g| && 0 <= j < |g| ==>
      h[i][j] == if Near(p, i, j) then AlignmentModule(p, i, j) else g[i][j]
  {
    var g1 := DrawSquare(g, p.y - 2, p.x - 2, 5, ReservedDark, false);
    var g2 := DrawSquare(g1, p.y - 1, p.x - 1, 3, ReservedLight, false);
    var g3 := DrawSquare(g2, p.y, p.x, 1, ReservedDark, false);
    assert forall i, j :: 0 <= i < |g| && 0 <= j < |g| ==>
      g3[i][j] == if Near(p, i, j) then AlignmentModule(p, i, j) else g[i][j] by {
      forall i, j | 0 <= i < |g| && 0 <= j < |g|
        ensures g3[i][j] == if Near(p, i, j) then AlignmentModule(p, i, j) else g[i][j]
      {
        FlagEffects(g[i][j]);
        FlagEffects(g1[i][j]);
        FlagEffects(g2[i][j]);
      }
    }
    g3
  }

  /** PopulateAlignmentPatterns: the centres in order. */
  function Alignments(g: Grid, centres: seq<Point>): (h: Grid)
    requires IsGrid(g, |g|) && forall k :: 0 <= k < |centres| ==> Placeable(g, centres[k])
    ensures IsGrid(h, |g|)
    ensures forall i, j :: 0 <= i < |g| && 0 <= j < |g| && (forall k :: 0 <= k < |centres| ==> !Near(centres[k], i, j)) ==>
      h[i][j] == g[i][j]
    decreases |centres|
  {
    if |centres| == 0 then g
    else
      var g1 := AlignmentAt(g, centres[0]);
      var rest := centres[1..];
      assert forall k :: 0 <= k < |rest| ==> Placeable(g1, rest[k]) by {
        forall k | 0 <= k < |rest|
          ensures Placeable(g1, rest[k])
        {
          assert rest[k] == centres[k + 1];
          assert Placeable(g, centres[k + 1]);
        }
      }
      Alignments(g1, rest)
  }

  /** Two centres whose 5x5 squares do not meet. */
  predicate Apart(p: Point, q: Point)
  {
    p.x + 5 <= q.x || q.x + 5 <= p.x || p.y + 5 <= q.y || q.y + 5 <= p.y
  }

  predicate Separate(centres: seq<Point>)
  {
    forall k, l :: 0 <= k < |centres| && 0 <= l < |centres| ==> centres[k] == centres[l] || Apart(centres[k], centres[l])
  }

  /** With separate centres, every module near a centre shows that centre's pattern. */
  lemma {:induction false} AlignmentsDrawn(g: Grid, centres: seq<Point>, k: int, i: int, j: int)
    requires IsGrid(g, |g|) && forall k :: 0 <= k < |centres| ==> Placeable(g, centres[k])
    requires Separate(centres)
    requires 0 <= k < |centres| && 0 <= i < |g| && 0 <= j < |g| && Near(centres[k], i, j)
    ensures Alignments(g, centres)[i][j] == AlignmentModule(centres[k], i, j)
    decreases |centres|
  {
    var g1 := AlignmentAt(g, centres[0]);
    var rest := centres[1..];
    assert Separate(rest) by {
      forall a, b | 0 <= a < |rest| && 0 <= b < |rest|
        ensures rest[a] == rest[b] || Apart(rest[a], rest[b])
      {
        assert rest[a] == centres[a + 1] && rest[b] == centres[b + 1];
      }
    }
    if k > 0 {
      AlignmentsDrawn(g1, rest, k - 1, i, j);
    } else if exists l :: 0 <= l < |rest| && Near(rest[l], i, j) {
      var l :| 0 <= l < |rest| && Near(rest[l], i, j);
      assert rest[l] == centres[l + 1];
      assert centres[0] == centres[l + 1] || Apart(centres[0], centres[l + 1]);
      AlignmentsDrawn(g1, rest, l, i, j);
    } else {
      assert Alignments(g, centres) == Alignments(g1, rest);
    }
  }

  // ------------------------------------------------------------------
  // Version information
  // ------------------------------------------------------------------

  /** Annex D: the 18-bit version information of versions 7 .. 40 (index version - 7). */
  function VersionEncoding(version: int): int
    requires 7 <= version <= 40
  {
    match version
    case 7 => 0x07C94
    case 8 => 0x085BC
    case 9 => 0x09A99
    case 10 => 0x0A4D3
    case 11 => 0x0BBF6
    case 12 => 0x0C762
    case 13 => 0x0D847
    case 14 => 0x0E60D
    case 15 => 0x0F928
    case 16 => 0x10B78
    case 17 => 0x1145D
    case 18 => 0x12A17
    case 19 => 0x13532
    case 20 => 0x149A6
    case 21 => 0x15683
    case 22 => 0x168C9
    case 23 => 0x177EC
    case 24 => 0x18EC4
    case 25 => 0x191E1
    case 26 => 0x1AFAB
    case 27 => 0x1B08E
    case 28 => 0x1CC1A
    case 29 => 0x1D33F
    case 30 => 0x1ED75
    case 31 => 0x1F250
    case 32 => 0x209D5
    case 33 => 0x216F0
    case 34 => 0x228BA
    case 35 => 0x2379F
    case 36 => 0x24B0B
    case 37 => 0x2542E
    case 38 => 0x26A64
    case 39 => 0x27541
    case _ => 0x28C69
  }

  /**
   * The colour the source gives version module i: `((info >> i) & 0x2) != 0`,
   * which tests bit i + 1 of the information, not bit i.
   */
  predicate VersionBit(info: int, i: nat)
  {
    (info / Pow2(i)) % 4 >= 2
  }

  function VersionModule(info: int, i: nat): Module
  {
    Module(VersionBit(info, i), true)
  }

  /**
   * Which version module a cell of the upper-right block holds: module i sits
   * at row i / 3, column w - 11 + i % 3; -1 for cells outside the block.
   */
  function VersionIndex(w: int, row: int, col: int): int
  {
    if 0 <= row <= 5 && w - 11 <= col <= w - 9 then 3 * row + (col - (w - 11)) else -1
  }

  /**
   * The two version blocks: module i overwrites (i / 3, w - 11 + i % 3) in the
   * upper right and its transpose in the lower left.
   */
  function VersionBlocks(g: Grid, info: int): (h: Grid)
    requires IsGrid(g, |g|) && |g| >= 17
    ensures IsGrid(h, |g|)
  {
    var w := |g|;
    seq(w, a requires 0 <= a < w => seq(w, b requires 0 <= b < w =>
      if VersionIndex(w, a, b) >= 0 then VersionModule(info, VersionIndex(w, a, b))
      else if VersionIndex(w, b, a) >= 0 then VersionModule(info, VersionIndex(w, b, a))
      else g[a][b]))
  }

  /** Iteration i of the loop: module i, overwriting, into both blocks. */
  function VersionStep(g: Grid, info: int, i: int): (h: Grid)
    requires IsGrid(g, |g|) && |g| >= 17 && 0 <= i < 18
    ensures IsGrid(h, |g|)
  {
    var w := |g|;
    var flag := ReservedLight | (if VersionBit(info, i) then Dark else Light);
    var x, y := i / 3, w - 11 + i % 3;
    GridSet(GridSet(g, x, y, flag, true), y, x, flag, true)
  }

  lemma VersionStepCell(g: Grid, info: int, i: int, a: int, b: int)
    requires IsGrid(g, |g|) && |g| >= 17 && 0 <= i < 18 && 0 <= a < |g| && 0 <= b < |g|
    ensures VersionStep(g, info, i)[a][b] ==
      if VersionIndex(|g|, a, b) == i || VersionIndex(|g|, b, a) == i then VersionModule(info, i) else g[a][b]
  {
  }

  /** The source's loop over i = 0 .. 17 draws the two blocks. */
  method VersionBlocksLoop(g: Grid, info: int) returns (h: Grid)
    requires IsGrid(g, |g|) && |g| >= 17
    ensures h == VersionBlocks(g, info)
  {
    var w := |g|;
    h := g;
    var i := 0;
    while i < 18
      invariant 0 <= i <= 18
      invariant IsGrid(h, w)
      invariant forall a, b {:trigger h[a][b]} :: 0 <= a < w && 0 <= b < w ==>
        h[a][b] ==
          if 0 <= VersionIndex(w, a, b) < i then VersionModule(info, VersionIndex(w, a, b))
          else if 0 <= VersionIndex(w, b, a) < i then VersionModule(info, VersionIndex(w, b, a))
          else g[a][b]
    {
      var before := h;
      h := VersionStep(h, info, i);
      forall a, b | 0 <= a < w && 0 <= b < w
        ensures h[a][b] ==
          if 0 <= VersionIndex(w, a, b) < i + 1 then VersionModule(info, VersionIndex(w, a, b))
          else if 0 <= VersionIndex(w, b, a) < i + 1 then VersionModule(info, VersionIndex(w, b, a))
          else g[a][b]
      {
        VersionStepCell(before, info, i, a, b);
      }
      i := i + 1;
    }
    var d := VersionBlocks(g, info);
    forall a | 0 <= a < w
      ensures h[a] == d[a]
    {
      assert forall b :: 0 <= b < w ==> h[a][b] == d[a][b];
    }
  }

  /** PopulateVersionInformation: nothing below version 7. */
  function VersionInformation(g: Grid, version: int): (h: Grid)
    requires IsGrid(g, |g|) && |g| >= 17 && 1 <= version <= 40
    ensures IsGrid(h, |g|)
    ensures version < 7 ==> h == g
  {
    if version < 7 then g else VersionBlocks(g, VersionEncoding(version))
  }

  /** The lower-left block is the transpose of the upper-right one. */
  lemma VersionBlocksTransposed(g: Grid, info: int, row: int, col: int)
    requires IsGrid(g, |g|) && |g| >= 17 && 0 <= row <= 5 && |g| - 11 <= col <= |g| - 9
    ensures VersionBlocks(g, info)[row][col] == VersionBlocks(g, info)[col][row]
    ensures VersionBlocks(g, info)[row][col] == VersionModule(info, 3 * row + col - (|g| - 11))
  {
  }

  /** Version module i shows bit i + 1 of the information. */
  lemma VersionBitIsNextBit(info: int, i: nat)
    ensures VersionBit(info, i) <==> BitAt(info, i + 1)
  {
    var q := info / Pow2(i);
    DivDiv(info, Pow2(i));
    assert Pow2(i + 1) == 2 * Pow2(i);
    assert info / Pow2(i + 1) == q / 2;
  }

  /** Dividing by p and then by 2 is dividing by 2p. */
  lemma DivDiv(a: int, p: int)
    requires p >= 1
    ensures a / (2 * p) == (a / p) / 2
  {
    var q := a / p;
    var r := a % p;
    var q2 := q / 2;
    var r2 := q % 2;
    assert a == q * p + r;
    assert q == 2 * q2 + r2;
    assert a == q2 * (2 * p) + (r2 * p + r);
    assert 0 <= r2 * p + r < 2 * p by {
      if r2 == 1 {
        assert r2 * p == p;
      }
    }
    DivUnique(a, 2 * p, q2, r2 * p + r);
  }

  /** Every table entry carries its version in the top six of its 18 bits. */
  lemma VersionEncodingCarriesVersion(version: int)
    requires 7 <= version <= 40
    ensures 0 <= VersionEncoding(version) < 0x40000
    ensures VersionEncoding(version) / 0x1000 == version
  {
  }

  /** Bit 18 of an 18-bit value is clear, so the last version module (i = 17) is always light. */
  lemma LastVersionModuleLight(version: int)
    requires 7 <= version <= 40
    ensures !VersionBit(VersionEncoding(version), 17)
  {
    var info := VersionEncoding(version);
    VersionEncodingCarriesVersion(version);
    VersionBitIsNextBit(info, 17);
    Pow2Of18();
    assert info / Pow2(18) == 0;
  }

  lemma Pow2Of18()
    ensures Pow2(18) == 0x40000
  {
    assert Pow2(10) == 1024 by {
      assert Pow2(5) == 32;
    }
  }

  // ------------------------------------------------------------------
  // The reserved modules of a version
  // ------------------------------------------------------------------

  /** The alignment centres of a version, as GetCoordinates lists them. */
  function Centres(version: int): (cs: seq<Point>)
    requires 1 <= version <= 40
    ensures forall k :: 0 <= k < |cs| ==>
      version >= 2 && AlignmentPatterns.Centre(AlignmentPatterns.CoordinateRow(version), cs[k])
  {
    AlignmentPatterns.GetCoordinates(version).value
  }

  /** Every centre's 5x5 square lies inside the symbol, and no two squares meet. */
  lemma CentresFit(version: int)
    requires 1 <= version <= 40
    ensures forall k :: 0 <= k < |Centres(version)| ==>
      2 <= Centres(version)[k].x && Centres(version)[k].x + 2 < Width(version) &&
      2 <= Centres(version)[k].y && Centres(version)[k].y + 2 < Width(version)
    ensures Separate(Centres(version))
  {
    var cs := Centres(version);
    forall k | 0 <= k < |cs|
      ensures 2 <= cs[k].x && cs[k].x + 2 < Width(version) && 2 <= cs[k].y && cs[k].y + 2 < Width(version)
    {
      AlignmentPatterns.CentreShape(version, cs[k]);
    }
    forall k, l | 0 <= k < |cs| && 0 <= l < |cs|
      ensures cs[k] == cs[l] || Apart(cs[k], cs[l])
    {
      if cs[k] != cs[l] {
        AlignmentPatterns.CentresApart(version, cs[k], cs[l]);
      }
    }
  }

  /**
   * A new template's store: a blank width x width grid with the timing
   * patterns, the finder patterns, the alignment patterns and the version
   * information drawn in that order (PopulateReservedModuleBits).
   */
  function ReservedModules(version: int): (g: Grid)
    requires 1 <= version <= 40
    ensures IsGrid(g, Width(version))
  {
    var w := Width(version);
    var timed := TimingFrom(Blank(w), 0);
    var found := Finders(timed);
    var aligned := PopulateAlignment(found, version);
    VersionInformation(aligned, version)
  }

  /** PopulateAlignmentPatterns for a version: its centres in GetCoordinates order. */
  function PopulateAlignment(g: Grid, version: int): (h: Grid)
    requires 1 <= version <= 40 && IsGrid(g, Width(version))
    ensures IsGrid(h, Width(version))
  {
    CentresFit(version);
    Alignments(g, Centres(version))
  }

  /**
   * Between the finder patterns the timing patterns survive everything drawn
   * after them: (6, k) and (k, 6) for 8 <= k <= width - 9 are reserved and
   * dark exactly when k is even. Alignment patterns drawn over them agree,
   * because their centres sit on even coordinates.
   */
  lemma TimingPatternsSurvive(version: int, k: int)
    requires 1 <= version <= 40 && 8 <= k <= Width(version) - 9
    ensures ReservedModules(version)[6][k] == TimingModule(k)
    ensures ReservedModules(version)[k][6] == TimingModule(k)
  {
    TimingCellSurvives(version, 6, k, k);
    TimingCellSurvives(version, k, 6, k);
  }

  lemma TimingCellSurvives(version: int, i: int, j: int, k: int)
    requires 1 <= version <= 40 && 8 <= k <= Width(version) - 9
    requires (i == 6 && j == k) || (i == k && j == 6)
    ensures ReservedModules(version)[i][j] == TimingModule(k)
  {
    var w := Width(version);
    var timed := TimingFrom(Blank(w), 0);
    var found := Finders(timed);
    var aligned := PopulateAlignment(found, version);
    TimedCell(w, i, j, k);
    FindersDrawn(timed, i, j);
    AlignmentsKeepTiming(found, version, i, j, k);
    VersionInformationFrame(aligned, version, i, j);
  }

  lemma TimedCell(w: int, i: int, j: int, k: int)
    requires w >= 17 && 8 <= k <= w - 9 && ((i == 6 && j == k) || (i == k && j == 6))
    ensures TimingFrom(Blank(w), 0)[i][j] == TimingModule(k)
  {
  }

  /** Cells outside both version blocks keep their module. */
  lemma VersionInformationFrame(g: Grid, version: int, i: int, j: int)
    requires IsGrid(g, |g|) && |g| >= 17 && 1 <= version <= 40 && 0 <= i < |g| && 0 <= j < |g|
    requires VersionIndex(|g|, i, j) < 0 && VersionIndex(|g|, j, i) < 0
    ensures VersionInformation(g, version)[i][j] == g[i][j]
  {
  }

  lemma AlignmentsKeepTiming(g: Grid, version: int, i: int, j: int, k: int)
    requires 1 <= version <= 40 && IsGrid(g, Width(version))
    requires 8 <= k <= Width(version) - 9 && ((i == 6 && j == k) || (i == k && j == 6))
    requires g[i][j] == TimingModule(k)
    ensures PopulateAlignment(g, version)[i][j] == TimingModule(k)
  {
    CentresFit(version);
    var cs := Centres(version);
    if c :| 0 <= c < |cs| && Near(cs[c], i, j) {
      var p := cs[c];
      AlignmentPatterns.CentreShape(version, p);
      AlignmentOverTiming(p, i, j, k);
      AlignmentsDrawn(g, cs, c, i, j);
    }
  }

  /** An alignment square over a timing line agrees with it: both are dark on even positions. */
  lemma AlignmentOverTiming(p: Point, i: int, j: int, k: int)
    requires p.x % 2 == 0 && p.y % 2 == 0 && (p.x == 6 || p.x >= 18) && (p.y == 6 || p.y >= 18)
    requires k >= 8 && ((i == 6 && j == k) || (i == k && j == 6)) && Near(p, i, j)
    ensures AlignmentModule(p, i, j) == TimingModule(k)
  {
  }

  /**
   * Every module of a new template is either drawn (and so reserved) or
   * still the blank light, unreserved module: nothing draws without reserving.
   */
  lemma ReservedOrBlank(version: int, i: int, j: int)
    requires 1 <= version <= 40 && 0 <= i < Width(version) && 0 <= j < Width(version)
    ensures ReservedModules(version)[i][j].reserved || ReservedModules(version)[i][j] == Module(false, false)
  {
    var w := Width(version);
    var timed: Grid := TimingFrom(Blank(w), 0);
    var found: Grid := Finders(timed);
    var aligned: Grid := PopulateAlignment(found, version);
    TimedReservedOrBlank(w, i, j);
    FinderReservedOrKept(timed, i, j);
    AlignedReservedOrKept(found, version, i, j);
    VersionReservedOrKept(aligned, version, i, j);
  }

  lemma TimedReservedOrBlank(w: int, i: int, j: int)
    requires w >= 17 && 0 <= i < w && 0 <= j < w
    ensures TimingFrom(Blank(w), 0)[i][j].reserved || TimingFrom(Blank(w), 0)[i][j] == Module(false, false)
  {
  }

  lemma FinderReservedOrKept(g: Grid, i: int, j: int)
    requires IsGrid(g, |g|) && |g| >= 17 && 0 <= i < |g| && 0 <= j < |g|
    ensures Finders(g)[i][j].reserved || Finders(g)[i][j] == g[i][j]
  {
    FindersDrawn(g, i, j);
  }

  lemma VersionReservedOrKept(g: Grid, version: int, i: int, j: int)
    requires IsGrid(g, |g|) && |g| >= 17 && 1 <= version <= 40 && 0 <= i < |g| && 0 <= j < |g|
    ensures VersionInformation(g, version)[i][j].reserved || VersionInformation(g, version)[i][j] == g[i][j]
  {
  }

  /** An alignment step leaves a module as it was or reserves it. */
  lemma AlignedReservedOrKept(g: Grid, version: int, i: int, j: int)
    requires 1 <= version <= 40 && IsGrid(g, Width(version)) && 0 <= i < Width(version) && 0 <= j < Width(version)
    ensures PopulateAlignment(g, version)[i][j].reserved || PopulateAlignment(g, version)[i][j] == g[i][j]
  {
    CentresFit(version);
    var cs := Centres(version);
    if c :| 0 <= c < |cs| && Near(cs[c], i, j) {
      AlignmentsDrawn(g, cs, c, i, j);
    }
  }

  /** The corner module (0, 0) of every template is dark and reserved: it is in the top-left finder. */
  lemma CornerDarkReserved(version: int)
    requires 1 <= version <= 40
    ensures ReservedModules(version)[0][0] == Module(true, true)
  {
    var w := Width(version);
    var timed: Grid := TimingFrom(Blank(w), 0);
    var found: Grid := Finders(timed);
    var aligned: Grid := PopulateAlignment(found, version);
    FindersDrawn(timed, 0, 0);
    assert found[0][0] == Module(true, true);
    CornerKeptByAlignment(found, version);
    VersionInformationFrame(aligned, version, 0, 0);
  }

  lemma CornerKeptByAlignment(g: Grid, version: int)
    requires 1 <= version <= 40 && IsGrid(g, Width(version))
    ensures PopulateAlignment(g, version)[0][0] == g[0][0]
  {
    CentresFit(version);
    var cs := Centres(version);
    forall c | 0 <= c < |cs|
      ensures !Near(cs[c], 0, 0)
    {
      AlignmentPatterns.CentreShape(version, cs[c]);
    }
  }

  /**
   * The format strips beside the finders (row and column 8 next to the
   * top-left finder, column 8 under the bottom-left one, row 8 beside the
   * top-right one, the timing lines excepted) are reserved and light in a new
   * template: the finders reserve them without colouring them, and nothing
   * drawn afterwards reaches them.
   */
  lemma FormatStripReservedLight(version: int, i: int, j: int)
    requires 1 <= version <= 40
    requires (i == 8 && 0 <= j <= 8 && j != 6) || (j == 8 && 0 <= i <= 8 && i != 6) ||
      (j == 8 && Width(version) - 8 <= i < Width(version)) || (i == 8 && Width(version) - 8 <= j < Width(version))
    ensures ReservedModules(version)[i][j] == Module(false, true)
  {
    var w := Width(version);
    var timed: Grid := TimingFrom(Blank(w), 0);
    var found: Grid := Finders(timed);
    var aligned: Grid := PopulateAlignment(found, version);
    assert timed[i][j] == Module(false, false);
    FindersDrawn(timed, i, j);
    assert found[i][j] == Module(false, true);
    StripKeptByAlignment(found, version, i, j);
    VersionInformationFrame(aligned, version, i, j);
  }

  lemma StripKeptByAlignment(g: Grid, version: int, i: int, j: int)
    requires 1 <= version <= 40 && IsGrid(g, Width(version))
    requires (i == 8 && 0 <= j <= 8) || (j == 8 && 0 <= i <= 8) ||
      (j == 8 && Width(version) - 8 <= i < Width(version)) || (i == 8 && Width(version) - 8 <= j < Width(version))
    ensures PopulateAlignment(g, version)[i][j] == g[i][j]
  {
    CentresFit(version);
    var cs := Centres(version);
    forall c | 0 <= c < |cs|
      ensures !Near(cs[c], i, j)
    {
      AlignmentPatterns.CentreShape(version, cs[c]);
    }
  }
}
