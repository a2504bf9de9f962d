/**
 * A symbol template: the module grid of one version with its error
 * correction level, the data placement that fills the free modules with the
 * message codewords, and the data masking (section 6.7.3 and 6.8 of
 * ISO/IEC 18004:2006).
 *
 * The template is a value: the source's copy constructor, which deep-copies
 * the module store, is the identity here, and every operation returns a new
 * template.
 */
module SymbolTemplates {
  import opened Wrappers
  import opened ModuleBlocks
  import opened Skeleton
  import AlignmentPatterns
  import Mapping
  import Masking
  import Capacity
  import DataMatrix

  type Byte = DataMatrix.Byte
  type CodewordPlacement = Mapping.CodewordPlacement

  datatype Template = Template(version: int, width: int, level: int, modules: Grid)

  predicate Valid(t: Template)
  {
    1 <= t.version <= 40 && t.width == Width(t.version) && IsGrid(t.modules, t.width)
  }

  /**
   * The template of a version: its width, the function patterns drawn into a
   * blank grid, and the default level (the enum's first member, VeryLow).
   * Every module is either reserved or still light and unreserved.
   */
  function NewTemplate(version: int): (t: Template)
    requires 1 <= version <= 40
    ensures Valid(t) && t.version == version && t.level == Capacity.VeryLow
    ensures t.width == 21 + 4 * (version - 1)
    ensures forall i, j :: 0 <= i < t.width && 0 <= j < t.width ==>
      t.modules[i][j].reserved || t.modules[i][j] == Module(false, false)
  {
    var g := ReservedModules(version);
    forall i, j | 0 <= i < Width(version) && 0 <= j < Width(version)
      ensures g[i][j].reserved || g[i][j] == Module(false, false)
    {
      ReservedOrBlank(version, i, j);
    }
    Template(version, Width(version), Capacity.VeryLow, g)
  }

  // ------------------------------------------------------------------
  // Data placement
  // ------------------------------------------------------------------

  /** MemoryStream.ReadByte at position k: the byte there, or -1 once past the end. */
  function ReadByte(data: seq<Byte>, k: nat): (b: int)
    ensures -1 <= b < 256
    ensures b == -1 <==> k >= |data|
  {
    if k < |data| then data[k] else -1
  }

  /** The stream position after reading at k: one further, but never past the end. */
  function PositionAfter(data: seq<Byte>, k: nat): nat
  {
    if k < |data| then k + 1 else |data|
  }

  /** The module of bit j (0 .. 7) of a placement. */
  function BitPoint(c: CodewordPlacement, j: int): Point
    requires 0 <= j < 8
  {
    match j
    case 7 => c.bit7
    case 6 => c.bit6
    case 5 => c.bit5
    case 4 => c.bit4
    case 3 => c.bit3
    case 2 => c.bit2
    case 1 => c.bit1
    case _ => c.bit0
  }

  /** A point inside a square of width w. */
  predicate Within(w: int, p: Point)
  {
    0 <= p.x < w && 0 <= p.y < w
  }

  predicate OnGrid(g: Grid, p: Point)
  {
    Within(|g|, p)
  }

  /** All eight modules of a placement lie in a square of width w. */
  predicate Lands(w: int, c: CodewordPlacement)
  {
    Within(w, c.bit7) && Within(w, c.bit6) && Within(w, c.bit5) && Within(w, c.bit4) &&
    Within(w, c.bit3) && Within(w, c.bit2) && Within(w, c.bit1) && Within(w, c.bit0)
  }

  predicate AllLand(w: int, placements: seq<CodewordPlacement>)
  {
    forall m :: 0 <= m < |placements| ==> Lands(w, placements[m])
  }

  /** `Set(p.Y, p.X, flag)` with the default overwrite = false: the flag is ORed in. */
  function OrAt(g: Grid, p: Point, flag: bv8): (h: Grid)
    requires IsGrid(g, |g|) && OnGrid(g, p)
    ensures IsGrid(h, |g|)
  {
    GridSet(g, p.y, p.x, flag, false)
  }

  /** One iteration of the placement loop: bits 7 down to 0 of the value, each ORed in. */
  function PlaceCodeword(g: Grid, c: CodewordPlacement, value: int): (h: Grid)
    requires IsGrid(g, |g|) && Lands(|g|, c)
    ensures IsGrid(h, |g|)
  {
    var g7 := OrAt(g, c.bit7, TypeOfBit(value, 7));
    var g6 := OrAt(g7, c.bit6, TypeOfBit(value, 6));
    var g5 := OrAt(g6, c.bit5, TypeOfBit(value, 5));
    var g4 := OrAt(g5, c.bit4, TypeOfBit(value, 4));
    var g3 := OrAt(g4, c.bit3, TypeOfBit(value, 3));
    var g2 := OrAt(g3, c.bit2, TypeOfBit(value, 2));
    var g1 := OrAt(g2, c.bit1, TypeOfBit(value, 1));
    OrAt(g1, c.bit0, TypeOfBit(value, 0))
  }

  /** Some bit of the value is set and its module in the placement is (i, j). */
  predicate DarkHit(c: CodewordPlacement, value: int, i: int, j: int)
  {
    var p := AlignmentPatterns.Point(j, i);
    (c.bit7 == p && BitAt(value, 7)) || (c.bit6 == p && BitAt(value, 6)) ||
    (c.bit5 == p && BitAt(value, 5)) || (c.bit4 == p && BitAt(value, 4)) ||
    (c.bit3 == p && BitAt(value, 3)) || (c.bit2 == p && BitAt(value, 2)) ||
    (c.bit1 == p && BitAt(value, 1)) || (c.bit0 == p && BitAt(value, 0))
  }

  /** One OR step at p: (i, j) darkens when it is p and the bit is set, and keeps its reservation. */
  lemma OrBitAt(g: Grid, p: Point, value: int, b: nat, i: int, j: int)
    requires IsGrid(g, |g|) && OnGrid(g, p) && 0 <= i < |g| && 0 <= j < |g|
    ensures OrAt(g, p, TypeOfBit(value, b))[i][j] ==
      Module(g[i][j].dark || (p == AlignmentPatterns.Point(j, i) && BitAt(value, b)), g[i][j].reserved)
  {
    if p != AlignmentPatterns.Point(j, i) {
      assert i != p.y || j != p.x;
    }
  }

  /** A module after one placement: darkened when a set bit lands on it, otherwise as it was. */
  lemma PlaceCodewordCell(g: Grid, c: CodewordPlacement, value: int, i: int, j: int)
    requires IsGrid(g, |g|) && Lands(|g|, c) && 0 <= i < |g| && 0 <= j < |g|
    ensures PlaceCodeword(g, c, value)[i][j] == Module(g[i][j].dark || DarkHit(c, value, i, j), g[i][j].reserved)
  {
    var g7 := OrAt(g, c.bit7, TypeOfBit(value, 7));
    var g6 := OrAt(g7, c.bit6, TypeOfBit(value, 6));
    var g5 := OrAt(g6, c.bit5, TypeOfBit(value, 5));
    var g4 := OrAt(g5, c.bit4, TypeOfBit(value, 4));
    var g3 := OrAt(g4, c.bit3, TypeOfBit(value, 3));
    var g2 := OrAt(g3, c.bit2, TypeOfBit(value, 2));
    var g1 := OrAt(g2, c.bit1, TypeOfBit(value, 1));
    assert PlaceCodeword(g, c, value) == OrAt(g1, c.bit0, TypeOfBit(value, 0));
    OrBitAt(g, c.bit7, value, 7, i, j);
    OrBitAt(g7, c.bit6, value, 6, i, j);
    OrBitAt(g6, c.bit5, value, 5, i, j);
    OrBitAt(g5, c.bit4, value, 4, i, j);
    OrBitAt(g4, c.bit3, value, 3, i, j);
    OrBitAt(g3, c.bit2, value, 2, i, j);
    OrBitAt(g2, c.bit1, value, 1, i, j);
    OrBitAt(g1, c.bit0, value, 0, i, j);
  }

  /**
   * The placement loop from placement k on: read a byte, OR its eight bits
   * in, and stop once the stream position reaches its length or the
   * placements run out. The guard `thisByte > 255` of the source can never
   * hold, so it has no branch here.
   */
  function PopulateFrom(g: Grid, placements: seq<CodewordPlacement>, data: seq<Byte>, k: nat): (h: Grid)
    requires IsGrid(g, |g|) && AllLand(|g|, placements)
    ensures IsGrid(h, |g|)
    decreases |placements| - k
  {
    if k >= |placements| then g
    else
      var g1 := PlaceCodeword(g, placements[k], ReadByte(data, k));
      if PositionAfter(data, k) == |data| then g1
      else PopulateFrom(g1, placements, data, k + 1)
  }

  /** Some placement from k on that the loop reaches darkens (i, j). */
  predicate HitFrom(placements: seq<CodewordPlacement>, data: seq<Byte>, k: nat, i: int, j: int)
    decreases |placements| - k
  {
    k < |placements| &&
    (DarkHit(placements[k], ReadByte(data, k), i, j) ||
     (PositionAfter(data, k) != |data| && HitFrom(placements, data, k + 1, i, j)))
  }

  /** Placement only ever darkens a module, and keeps every reservation. */
  lemma {:induction false} PopulateCell(g: Grid, placements: seq<CodewordPlacement>, data: seq<Byte>, k: nat, i: int, j: int)
    requires IsGrid(g, |g|) && AllLand(|g|, placements) && 0 <= i < |g| && 0 <= j < |g|
    ensures PopulateFrom(g, placements, data, k)[i][j] ==
      Module(g[i][j].dark || HitFrom(placements, data, k, i, j), g[i][j].reserved)
    decreases |placements| - k
  {
    if k < |placements| {
      var g1 := PlaceCodeword(g, placements[k], ReadByte(data, k));
      PlaceCodewordCell(g, placements[k], ReadByte(data, k), i, j);
      if PositionAfter(data, k) != |data| {
        PopulateCell(g1, placements, data, k + 1, i, j);
      }
    }
  }

  /** The eight modules of a placement, as a predicate on a point. */
  predicate Touches(c: CodewordPlacement, p: Point)
  {
    c.bit7 == p || c.bit6 == p || c.bit5 == p || c.bit4 == p ||
    c.bit3 == p || c.bit2 == p || c.bit1 == p || c.bit0 == p
  }

  /** A module no reached placement touches is never darkened. */
  lemma {:induction false} NoHit(placements: seq<CodewordPlacement>, data: seq<Byte>, k: nat, p: Point)
    requires forall m :: k <= m < |placements| ==> !Touches(placements[m], p)
    ensures !HitFrom(placements, data, k, p.y, p.x)
    decreases |placements| - k
  {
    if k < |placements| {
      assert p == AlignmentPatterns.Point(p.x, p.y);
      NoHit(placements, data, k + 1, p);
    }
  }

  /** A module only placement m touches is darkened exactly as that placement's value says, once m is reached. */
  lemma {:induction false} OnlyHit(placements: seq<CodewordPlacement>, data: seq<Byte>, k: nat, m: nat, p: Point)
    requires k <= m < |placements| && (m == k || m < |data|)
    requires forall n :: k <= n < |placements| && n != m ==> !Touches(placements[n], p)
    ensures HitFrom(placements, data, k, p.y, p.x) == DarkHit(placements[m], ReadByte(data, m), p.y, p.x)
    decreases |placements| - k
  {
    assert p == AlignmentPatterns.Point(p.x, p.y);
    if k < m {
      OnlyHit(placements, data, k + 1, m, p);
    } else {
      NoHit(placements, data, k + 1, p);
    }
  }

  // ------------------------------------------------------------------
  // Placement in a symbol
  // ------------------------------------------------------------------

  /** A grid of odd width of at least 7, as every symbol is (widths 21 .. 177). */
  predicate SymbolGrid(g: Grid)
  {
    IsGrid(g, |g|) && |g| >= 7 && |g| % 2 == 1
  }

  /** The bit-stream array of a grid: its traversal, padded with (0, 0) to width^2 points. */
  function Traversal(g: Grid): seq<Point>
    requires IsGrid(g, |g|)
  {
    Mapping.Padded(Mapping.BitStreamMapping(g), |g| * |g|)
  }

  lemma PlacementIsGroup(g: Grid, k: int)
    requires SymbolGrid(g) && 0 <= k < |Mapping.CodewordPlacements(g)|
    ensures 8 * k + 8 <= |Traversal(g)|
    ensures Mapping.CodewordPlacements(g)[k] == Mapping.Group(Traversal(g), k)
  {
    Mapping.OddWidthFillsAll(|g|, k);
  }

  /** Each traversal point is a free module, and each padding point is (0, 0). */
  lemma TraversalPoint(g: Grid, n: int)
    requires SymbolGrid(g) && 0 <= n < |g| * |g|
    ensures n < |Mapping.BitStreamMapping(g)| ==>
      Traversal(g)[n] == Mapping.BitStreamMapping(g)[n] && Mapping.Free(g, Traversal(g)[n])
    ensures n >= |Mapping.BitStreamMapping(g)| ==> Traversal(g)[n] == Mapping.Origin
  {
    var bits := Mapping.BitStreamMapping(g);
    var padded := Traversal(g);
    if n < |bits| {
      assert padded[..|bits|] == bits;
      assert padded[n] == padded[..|bits|][n];
      Mapping.BitStreamMember(g, bits[n]);
    }
  }

  /** Bit b of placement k is traversal point 8 k + 7 - b, free for data, or the corner (0, 0) in the padding. */
  lemma GroupPoint(g: Grid, k: int, b: int)
    requires SymbolGrid(g) && 0 <= k < |Mapping.CodewordPlacements(g)| && 0 <= b < 8
    ensures 8 * k + 7 - b < |Mapping.BitStreamMapping(g)| ==>
      BitPoint(Mapping.CodewordPlacements(g)[k], b) == Mapping.BitStreamMapping(g)[8 * k + 7 - b] &&
      Mapping.Free(g, BitPoint(Mapping.CodewordPlacements(g)[k], b))
    ensures 8 * k + 7 - b >= |Mapping.BitStreamMapping(g)| ==>
      BitPoint(Mapping.CodewordPlacements(g)[k], b) == Mapping.Origin
  {
    var c := Mapping.CodewordPlacements(g);
    var n := 8 * k + 7 - b;
    PlacementIsGroup(g, k);
    GroupBit(Traversal(g), k, b);
    assert BitPoint(c[k], b) == Traversal(g)[n];
    TraversalPoint(g, n);
  }

  /** Field b of group k of a bit-stream array is entry 8 k + 7 - b. */
  lemma GroupBit(mapping: seq<Point>, k: int, b: int)
    requires 0 <= k && 8 * k + 8 <= |mapping| && 0 <= b < 8
    ensures BitPoint(Mapping.Group(mapping, k), b) == mapping[8 * k + 7 - b]
  {
  }

  lemma FieldsAreBitPoints(c: CodewordPlacement)
    ensures c.bit7 == BitPoint(c, 7) && c.bit6 == BitPoint(c, 6) && c.bit5 == BitPoint(c, 5) && c.bit4 == BitPoint(c, 4)
    ensures c.bit3 == BitPoint(c, 3) && c.bit2 == BitPoint(c, 2) && c.bit1 == BitPoint(c, 1) && c.bit0 == BitPoint(c, 0)
  {
  }

  /** Every placement of a symbol lands in its grid. */
  lemma PlacementsLand(g: Grid)
    requires SymbolGrid(g)
    ensures AllLand(|g|, Mapping.CodewordPlacements(g))
  {
    var placements := Mapping.CodewordPlacements(g);
    forall k | 0 <= k < |placements|
      ensures Lands(|g|, placements[k])
    {
      forall b | 0 <= b < 8
        ensures OnGrid(g, BitPoint(placements[k], b))
      {
        GroupPoint(g, k, b);
      }
      FieldsAreBitPoints(placements[k]);
    }
  }

  /** PopulateData on a grid: the placement loop over the grid's own placements. */
  function PopulateGrid(g: Grid, data: seq<Byte>): (h: Grid)
    requires SymbolGrid(g)
    ensures IsGrid(h, |g|)
  {
    PlacementsLand(g);
    PopulateFrom(g, Mapping.CodewordPlacements(g), data, 0)
  }

  /**
   * PopulateData: the message codewords ORed into the data modules. Placement
   * keeps every reservation, only ever darkens, and leaves version, width and
   * level alone.
   */
  function PopulateData(t: Template, data: seq<Byte>): (r: Template)
    requires Valid(t)
    ensures Valid(r) && r.version == t.version && r.width == t.width && r.level == t.level
    ensures forall i, j :: 0 <= i < t.width && 0 <= j < t.width ==>
      r.modules[i][j].reserved == t.modules[i][j].reserved &&
      (t.modules[i][j].dark ==> r.modules[i][j].dark)
  {
    var g := t.modules;
    var h := PopulateGrid(g, data);
    forall i, j | 0 <= i < t.width && 0 <= j < t.width
      ensures h[i][j].reserved == g[i][j].reserved && (g[i][j].dark ==> h[i][j].dark)
    {
      PlacementsLand(g);
      PopulateCell(g, Mapping.CodewordPlacements(g), data, 0, i, j);
    }
    t.(modules := h)
  }

  /** A placement darkens p by bit b alone when p is its bit-b module and no other. */
  lemma DarkHitSingle(c: CodewordPlacement, value: int, b: int, p: Point)
    requires 0 <= b < 8 && BitPoint(c, b) == p
    requires forall b' :: 0 <= b' < 8 && b' != b ==> BitPoint(c, b') != p
    ensures DarkHit(c, value, p.y, p.x) == BitAt(value, b)
  {
    assert p == AlignmentPatterns.Point(p.x, p.y);
    FieldsAreBitPoints(c);
  }

  /** A module no bit of a placement sits on is not touched by it. */
  lemma UntouchedByBits(c: CodewordPlacement, p: Point)
    requires forall b :: 0 <= b < 8 ==> BitPoint(c, b) != p
    ensures !Touches(c, p)
  {
    FieldsAreBitPoints(c);
  }

  /** Placement k of a symbol touches no traversal point outside its own eight. */
  lemma GroupMisses(g: Grid, k: int, n: int)
    requires SymbolGrid(g) && g[0][0].reserved
    requires 0 <= k < |Mapping.CodewordPlacements(g)| && 0 <= n < |Mapping.BitStreamMapping(g)|
    requires n < 8 * k || 8 * k + 8 <= n
    ensures !Touches(Mapping.CodewordPlacements(g)[k], Mapping.BitStreamMapping(g)[n])
  {
    var bits := Mapping.BitStreamMapping(g);
    var c := Mapping.CodewordPlacements(g)[k];
    Mapping.BitStreamCoversFreeModules(g);
    Mapping.BitStreamMember(g, bits[n]);
    forall b | 0 <= b < 8
      ensures BitPoint(c, b) != bits[n]
    {
      GroupPoint(g, k, b);
    }
    UntouchedByBits(c, bits[n]);
  }

  /** A reserved module is touched by no placement, unless it is the corner (0, 0) that padding points at. */
  lemma ReservedMissed(g: Grid, k: int, p: Point)
    requires SymbolGrid(g) && 0 <= k < |Mapping.CodewordPlacements(g)|
    requires OnGrid(g, p) && g[p.y][p.x].reserved && p != Mapping.Origin
    ensures !Touches(Mapping.CodewordPlacements(g)[k], p)
  {
    var c := Mapping.CodewordPlacements(g)[k];
    forall b | 0 <= b < 8
      ensures BitPoint(c, b) != p
    {
      GroupPoint(g, k, b);
    }
    UntouchedByBits(c, p);
  }

  /** Within its own placement, a module is darkened exactly by its own bit. */
  lemma OwnGroupHit(g: Grid, m: int, b: int, value: int)
    requires SymbolGrid(g) && 0 <= m && 8 * m + 8 <= |Mapping.BitStreamMapping(g)| && 0 <= b < 8
    ensures m < |Mapping.CodewordPlacements(g)|
    ensures var p := Mapping.BitStreamMapping(g)[8 * m + 7 - b];
      DarkHit(Mapping.CodewordPlacements(g)[m], value, p.y, p.x) == BitAt(value, b)
  {
    var bits := Mapping.BitStreamMapping(g);
    assert m < |Mapping.CodewordPlacements(g)|;
    var c := Mapping.CodewordPlacements(g)[m];
    var p := bits[8 * m + 7 - b];
    Mapping.BitStreamCoversFreeModules(g);
    GroupPoint(g, m, b);
    forall b' | 0 <= b' < 8 && b' != b
      ensures BitPoint(c, b') != p
    {
      GroupPoint(g, m, b');
    }
    DarkHitSingle(c, value, b, p);
  }

  /**
   * The data read back: when the payload fits the free modules, bit b of
   * byte m lands on traversal point 8 m + 7 - b, a free module, which ends up
   * dark exactly when it was dark already or the bit is set.
   */
  lemma PopulateReadsBack(g: Grid, data: seq<Byte>, m: int, b: int)
    requires SymbolGrid(g) && g[0][0].reserved
    requires 8 * |data| <= |Mapping.BitStreamMapping(g)| && 0 <= m < |data| && 0 <= b < 8
    ensures var p := Mapping.BitStreamMapping(g)[8 * m + 7 - b];
      Mapping.Free(g, p) &&
      PopulateGrid(g, data)[p.y][p.x] == Module(g[p.y][p.x].dark || BitAt(data[m], b), false)
  {
    var bits := Mapping.BitStreamMapping(g);
    var placements := Mapping.CodewordPlacements(g);
    var n := 8 * m + 7 - b;
    var p := bits[n];
    Mapping.BitStreamMember(g, p);
    PlacementsLand(g);
    PopulateCell(g, placements, data, 0, p.y, p.x);
    OwnGroupHit(g, m, b, data[m]);
    forall k | 0 <= k < |placements| && k != m
      ensures !Touches(placements[k], p)
    {
      GroupMisses(g, k, n);
    }
    OnlyHit(placements, data, 0, m, p);
  }

  /** Placement leaves every reserved module as it was; the corner (0, 0) only needs to be dark already. */
  lemma PopulateKeepsReserved(g: Grid, data: seq<Byte>, i: int, j: int)
    requires SymbolGrid(g) && 0 <= i < |g| && 0 <= j < |g| && g[i][j].reserved
    requires (i, j) != (0, 0) || g[0][0].dark
    ensures PopulateGrid(g, data)[i][j] == g[i][j]
  {
    var placements := Mapping.CodewordPlacements(g);
    var p := AlignmentPatterns.Point(j, i);
    PlacementsLand(g);
    PopulateCell(g, placements, data, 0, i, j);
    if (i, j) != (0, 0) {
      forall k | 0 <= k < |placements|
        ensures !Touches(placements[k], p)
      {
        ReservedMissed(g, k, p);
      }
      NoHit(placements, data, 0, p);
    }
  }

  /** The loop stops after placement n: the stream is exhausted or no placement is left. */
  predicate StopsAfter(placements: seq<CodewordPlacement>, data: seq<Byte>, n: nat)
  {
    PositionAfter(data, n) == |data| || n + 1 >= |placements|
  }

  /** Two payloads the loop reads alike, and stops on alike, place alike. */
  lemma {:induction false} ReadAlike(g: Grid, placements: seq<CodewordPlacement>, a: seq<Byte>, b: seq<Byte>, k: nat)
    requires IsGrid(g, |g|) && AllLand(|g|, placements)
    requires forall n :: k <= n < |placements| ==> ReadByte(a, n) == ReadByte(b, n)
    requires forall n :: k <= n < |placements| ==> (StopsAfter(placements, a, n) <==> StopsAfter(placements, b, n))
    ensures PopulateFrom(g, placements, a, k) == PopulateFrom(g, placements, b, k)
    decreases |placements| - k
  {
    if k < |placements| {
      var g1 := PlaceCodeword(g, placements[k], ReadByte(a, k));
      assert StopsAfter(placements, a, k) <==> StopsAfter(placements, b, k);
      if k + 1 >= |placements| {
        PopulateAtEnd(g1, placements, a, k + 1);
        PopulateAtEnd(g1, placements, b, k + 1);
      } else {
        ReadAlike(g1, placements, a, b, k + 1);
      }
    }
  }

  /** Only as many bytes as there are placements are read; the rest of the payload is dropped. */
  lemma ExtraBytesIgnored(g: Grid, data: seq<Byte>)
    requires SymbolGrid(g) && |data| > |Mapping.CodewordPlacements(g)|
    ensures PopulateGrid(g, data) == PopulateGrid(g, data[..|Mapping.CodewordPlacements(g)|])
  {
    var placements := Mapping.CodewordPlacements(g);
    var prefix := data[..|placements|];
    PlacementsLand(g);
    forall n | 0 <= n < |placements|
      ensures ReadByte(data, n) == ReadByte(prefix, n)
      ensures StopsAfter(placements, data, n) <==> StopsAfter(placements, prefix, n)
    {
      assert prefix[n] == data[n];
    }
    ReadAlike(g, placements, data, prefix, 0);
  }

  lemma PopulateAtEnd(g: Grid, placements: seq<CodewordPlacement>, data: seq<Byte>, k: nat)
    requires IsGrid(g, |g|) && AllLand(|g|, placements) && k >= |placements|
    ensures PopulateFrom(g, placements, data, k) == g
  {
  }

  /** -1, the value ReadByte returns at the end of the stream, has every bit set. */
  lemma EndOfStreamAllOnes(b: nat)
    ensures BitAt(-1, b)
  {
    Arith.DivUnique(-1, Arith.Pow2(b), -1, Arith.Pow2(b) - 1);
    Arith.ModUnique(-1, 2, -1, 1);
  }

  /**
   * An empty payload is not rejected: the loop reads -1 for the first
   * placement, darkens all eight of its modules, and stops.
   */
  lemma EmptyPayloadDarkensFirstPlacement(g: Grid, i: int, j: int)
    requires SymbolGrid(g) && 0 <= i < |g| && 0 <= j < |g|
    ensures |Mapping.CodewordPlacements(g)| > 0
    ensures PopulateGrid(g, [])[i][j] ==
      Module(g[i][j].dark || Touches(Mapping.CodewordPlacements(g)[0], AlignmentPatterns.Point(j, i)), g[i][j].reserved)
  {
    var placements := Mapping.CodewordPlacements(g);
    PlacementsLand(g);
    PlacementCount(g);
    PopulateCell(g, placements, [], 0, i, j);
    forall b: nat | b < 8
      ensures BitAt(-1, b)
    {
      EndOfStreamAllOnes(b);
    }
  }

  /** A symbol of width at least 7 has at least six placements. */
  lemma PlacementCount(g: Grid)
    requires SymbolGrid(g)
    ensures |Mapping.CodewordPlacements(g)| >= 6
  {
    Mapping.MulLeft(|g|, 7, |g|);
    Mapping.MulLeft(7, 7, |g|);
  }

  /**
   * In a new template every data module starts light, so after placement the
   * module of bit b of byte m is dark exactly when that bit is set.
   */
  lemma DataReadsBack(version: int, data: seq<Byte>, m: int, b: int)
    requires 1 <= version <= 40
    requires 8 * |data| <= |Mapping.BitStreamMapping(NewTemplate(version).modules)|
    requires 0 <= m < |data| && 0 <= b < 8
    ensures var t := NewTemplate(version);
      var p := Mapping.BitStreamMapping(t.modules)[8 * m + 7 - b];
      Mapping.Free(t.modules, p) &&
      PopulateData(t, data).modules[p.y][p.x] == Module(BitAt(data[m], b), false)
  {
    var t := NewTemplate(version);
    TemplateGrid(version);
    PopulateReadsBack(t.modules, data, m, b);
  }

  /** Placement into a new template leaves every function pattern module as it was drawn. */
  lemma FunctionPatternsKept(version: int, data: seq<Byte>, i: int, j: int)
    requires 1 <= version <= 40 && 0 <= i < Width(version) && 0 <= j < Width(version)
    requires NewTemplate(version).modules[i][j].reserved
    ensures PopulateData(NewTemplate(version), data).modules[i][j] == NewTemplate(version).modules[i][j]
  {
    TemplateGrid(version);
    PopulateKeepsReserved(NewTemplate(version).modules, data, i, j);
  }

  /** Symbol widths are odd: 21 + 4 (version - 1). */
  lemma WidthOdd(version: int)
    requires 1 <= version <= 40
    ensures Width(version) % 2 == 1 && Width(version) >= 21
  {
    Arith.ModUnique(Width(version), 2, 10 + 2 * (version - 1), 1);
  }

  /** A new template's grid is a symbol grid whose corner (0, 0) is dark and reserved. */
  lemma TemplateGrid(version: int)
    requires 1 <= version <= 40
    ensures SymbolGrid(NewTemplate(version).modules)
    ensures NewTemplate(version).modules[0][0] == Module(true, true)
  {
    WidthOdd(version);
    CornerDarkReserved(version);
  }
}
