/**
 * Completing a symbol template (section 6.8 and 6.9.1 of ISO/IEC 18004:2006):
 * masking the data modules, choosing the mask with the lowest penalty, and
 * writing the format information for the level and the chosen mask.
 */
module SymbolCompletion {
  import opened Wrappers
  import opened ModuleBlocks
  import opened Skeleton
  import opened SymbolTemplates
  import opened FormatInformation
  import Masking
  import Capacity

  // ------------------------------------------------------------------
  // ApplyMask
  // ------------------------------------------------------------------

  /** A mask pattern applied to a grid, module by module. */
  function ApplyMask(g: Grid, mask: int): (h: Grid)
    requires IsGrid(g, |g|) && 0 <= mask < 8
    ensures IsGrid(h, |g|)
  {
    seq(|g|, i requires 0 <= i < |g| => seq(|g|, j requires 0 <= j < |g| =>
      if !g[i][j].reserved && Masking.MaskCondition(mask, i, j) then Module(!g[i][j].dark, false) else g[i][j]))
  }

  /**
   * Masking changes a module's colour exactly when it is not reserved and the
   * pattern's condition holds at its row and column; reservations never change.
   */
  lemma MaskedModule(g: Grid, mask: int, i: int, j: int)
    requires IsGrid(g, |g|) && 0 <= mask < 8 && 0 <= i < |g| && 0 <= j < |g|
    ensures ApplyMask(g, mask)[i][j].reserved == g[i][j].reserved
    ensures ApplyMask(g, mask)[i][j].dark != g[i][j].dark <==> !g[i][j].reserved && Masking.MaskCondition(mask, i, j)
  {
  }

  /** The source's loop: row by row, column by column, FlipColor where the mask applies. */
  method ApplyMaskSteps(g: Grid, mask: int) returns (h: Grid)
    requires IsGrid(g, |g|) && 0 <= mask < 8
    ensures h == ApplyMask(g, mask)
  {
    var w := |g|;
    h := g;
    var row := 0;
    while row < w
      invariant 0 <= row <= w
      invariant IsGrid(h, w)
      invariant forall i :: 0 <= i < row ==> h[i] == ApplyMask(g, mask)[i]
      invariant forall i :: row <= i < w ==> h[i] == g[i]
    {
      var col := 0;
      while col < w
        invariant 0 <= col <= w
        invariant IsGrid(h, w)
        invariant forall i :: 0 <= i < row ==> h[i] == ApplyMask(g, mask)[i]
        invariant forall i :: row < i < w ==> h[i] == g[i]
        invariant forall j :: 0 <= j < col ==> h[row][j] == ApplyMask(g, mask)[row][j]
        invariant forall j :: col <= j < w ==> h[row][j] == g[row][j]
      {
        if !h[row][col].reserved && Masking.MaskCondition(mask, row, col) {
          h := GridFlip(h, row, col);
        }
        col := col + 1;
      }
      assert h[row] == ApplyMask(g, mask)[row];
      row := row + 1;
    }
  }

  /** Masking twice with the same pattern restores the grid. */
  lemma MaskInvolution(g: Grid, mask: int)
    requires IsGrid(g, |g|) && 0 <= mask < 8
    ensures ApplyMask(ApplyMask(g, mask), mask) == g
  {
    var h := ApplyMask(g, mask);
    var back := ApplyMask(h, mask);
    forall i | 0 <= i < |g|
      ensures back[i] == g[i]
    {
      forall j | 0 <= j < |g|
        ensures back[i][j] == g[i][j]
      {
        MaskedModule(g, mask, i, j);
        MaskedModule(h, mask, i, j);
      }
    }
  }

  // ------------------------------------------------------------------
  // SelectAndApplyMaskingPattern
  // ------------------------------------------------------------------

  /** The length of the mask predicate array: the eight patterns of Table 10. */
  const MaskPredicateCount := 8

  /** CalculatePenaltyScore of a candidate: rules A to D over all its modules. */
  function PenaltyScore(h: Grid): (s: int)
    requires IsGrid(h, |h|) && |h| > 0
    ensures s >= 0
  {
    Masking.Penalty(h).value
  }

  /** The penalty of the grid masked with one pattern. */
  function Score(g: Grid, mask: int): (s: int)
    requires IsGrid(g, |g|) && |g| > 0 && 0 <= mask < 8
    ensures s >= 0
  {
    PenaltyScore(ApplyMask(g, mask))
  }

  /**
   * The index the source's comparison loop settles on: it starts at 0 and
   * moves only to a strictly lower score, so it is the first of the lowest.
   */
  method LowestIndex(scores: seq<int>) returns (m: int)
    requires |scores| > 0
    ensures 0 <= m < |scores|
    ensures forall k :: 0 <= k < |scores| ==> scores[m] <= scores[k]
    ensures forall k :: 0 <= k < m ==> scores[m] < scores[k]
  {
    var lowest := scores[0];
    m := 0;
    var i := 1;
    while i < |scores|
      invariant 1 <= i <= |scores|
      invariant 0 <= m < i && lowest == scores[m]
      invariant forall k :: 0 <= k < i ==> lowest <= scores[k]
      invariant forall k :: 0 <= k < m ==> lowest < scores[k]
    {
      if scores[i] < lowest {
        lowest := scores[i];
        m := i;
      }
      i := i + 1;
    }
  }

  /**
   * The candidates are the grid masked with each pattern but the last (the
   * array has one entry fewer than there are predicates, so pattern 111 is
   * never tried); the first with the lowest penalty wins, since only a
   * strictly lower score replaces it.
   */
  method SelectAndApplyMask(g: Grid) returns (mask: int, h: Grid)
    requires IsGrid(g, |g|) && |g| > 0
    ensures 0 <= mask < MaskPredicateCount - 1
    ensures h == ApplyMask(g, mask)
    ensures forall k :: 0 <= k < MaskPredicateCount - 1 ==> Score(g, mask) <= Score(g, k)
    ensures forall k :: 0 <= k < mask ==> Score(g, mask) < Score(g, k)
  {
    var candidates := MaskCandidates(g);
    var scores := ScoreCandidates(g, candidates);
    mask := LowestIndex(scores);
    h := candidates[mask];
  }

  /** The candidate array: a copy of the grid masked with each of the first seven patterns. */
  method MaskCandidates(g: Grid) returns (candidates: seq<Grid>)
    requires IsGrid(g, |g|)
    ensures |candidates| == MaskPredicateCount - 1
    ensures forall k :: 0 <= k < |candidates| ==> candidates[k] == ApplyMask(g, k)
  {
    candidates := [];
    var i := 0;
    while i < MaskPredicateCount - 1
      invariant 0 <= i <= MaskPredicateCount - 1
      invariant |candidates| == i
      invariant forall k :: 0 <= k < i ==> candidates[k] == ApplyMask(g, k)
    {
      candidates := candidates + [ApplyMask(g, i)];
      i := i + 1;
    }
  }

  /** CalculatePenaltyScore of every candidate, in order. */
  method ScoreCandidates(g: Grid, candidates: seq<Grid>) returns (scores: seq<int>)
    requires IsGrid(g, |g|) && |g| > 0 && |candidates| == MaskPredicateCount - 1
    requires forall k :: 0 <= k < |candidates| ==> candidates[k] == ApplyMask(g, k)
    ensures |scores| == |candidates|
    ensures forall k :: 0 <= k < |scores| ==> scores[k] == Score(g, k)
  {
    scores := [];
    var i := 0;
    while i < |candidates|
      invariant 0 <= i <= |candidates|
      invariant |scores| == i
      invariant forall k :: 0 <= k < i ==> scores[k] == Score(g, k)
    {
      scores := scores + [PenaltyScore(candidates[i])];
      i := i + 1;
    }
  }

  // ------------------------------------------------------------------
  // Complete
  // ------------------------------------------------------------------

  /**
   * The template after masking with `mask` and writing the format information
   * of its level and that mask; a level outside the four fails.
   */
  function Finish(t: Template, mask: int): (r: Result<Template>)
    requires SymbolTemplates.Valid(t) && 0 <= mask < 8
    ensures r.Failure? <==> !Capacity.IsLevel(t.level)
    ensures r.Failure? ==> r.error == InvalidOperation
    ensures r.Success? ==>
      SymbolTemplates.Valid(r.value) && r.value.version == t.version && r.value.width == t.width && r.value.level == t.level
  {
    var indicator :- BinaryIndicator(t.level);
    var bits := FormatEncoding(FormatWord(indicator, mask)) as int;
    Success(t.(modules := ApplyFormat(ApplyMask(t.modules, mask), bits)))
  }

  /**
   * Complete: select and apply the mask, then write the format information;
   * the chosen mask is returned beside the result.
   */
  method Complete(t: Template) returns (r: Result<Template>, mask: int)
    requires SymbolTemplates.Valid(t)
    ensures 0 <= mask < MaskPredicateCount - 1
    ensures forall k :: 0 <= k < MaskPredicateCount - 1 ==> Score(t.modules, mask) <= Score(t.modules, k)
    ensures forall k :: 0 <= k < mask ==> Score(t.modules, mask) < Score(t.modules, k)
    ensures r == Finish(t, mask)
  {
    var masked;
    mask, masked := SelectAndApplyMask(t.modules);
    var indicator :- BinaryIndicator(t.level);
    var bits := FormatEncoding(FormatWord(indicator, mask)) as int;
    var formatted := ApplyFormatSteps(masked, bits);
    r := Success(t.(modules := formatted));
  }

  /** The 15 format bits of a level and a mask: the table entry of (indicator << 3) | mask. */
  function FormatBits(level: int, mask: int): int
    requires Capacity.IsLevel(level) && 0 <= mask < 8
  {
    FormatEncoding(FormatWord(BinaryIndicator(level).value, mask)) as int
  }

  /**
   * In a symbol built the generator's way (a new template, its level set, the
   * data placed, then masked and given its format information), both copies
   * of every format bit show that bit of the table entry and stay reserved,
   * and the dark module is dark.
   */
  lemma FormatReadable(version: int, level: int, data: seq<Byte>, mask: int, b: int)
    requires 1 <= version <= 40 && Capacity.IsLevel(level) && 0 <= mask < 8 && 0 <= b < 15
    ensures var r := Finish(PopulateData(NewTemplate(version).(level := level), data), mask);
      r.Success? && |r.value.modules| == Width(version) &&
      FormatShown(r.value.modules, FormatBits(level, mask), b)
  {
    var w := Width(version);
    var t := PopulateData(NewTemplate(version).(level := level), data);
    var g := PopulateData(NewTemplate(version), data).modules;
    assert t.modules == g;
    PopulatedFormatCells(version, data, b);
    var bits := FormatBits(level, mask);
    var r := Finish(t, mask);
    assert r.value.modules == ApplyFormat(ApplyMask(g, mask), bits);
    FormatAfterMask(g, mask, bits, b);
  }

  /** Both copies of format bit b show it, reserved, and the dark module is dark. */
  predicate FormatShown(g: Grid, bits: int, b: int)
    requires IsGrid(g, |g|) && |g| >= 21 && 0 <= b < 15
  {
    g[LeftCell(b).0][LeftCell(b).1] == Module(BitAt(bits, b), true) &&
    g[SplitCell(|g|, b).0][SplitCell(|g|, b).1] == Module(BitAt(bits, b), true) &&
    g[|g| - 8][8].dark
  }

  /** Both copies of format bit b are light and reserved. */
  predicate FormatCellsBlank(g: Grid, b: int)
    requires IsGrid(g, |g|) && |g| >= 21 && 0 <= b < 15
  {
    g[LeftCell(b).0][LeftCell(b).1] == Module(false, true) &&
    g[SplitCell(|g|, b).0][SplitCell(|g|, b).1] == Module(false, true)
  }

  /** The format cells of a new template are reserved and light, and placing data keeps them so. */
  lemma PopulatedFormatCells(version: int, data: seq<Byte>, b: int)
    requires 1 <= version <= 40 && 0 <= b < 15
    ensures var g := PopulateData(NewTemplate(version), data).modules;
      IsGrid(g, Width(version)) && |g| >= 21 && FormatCellsBlank(g, b)
  {
    var w := Width(version);
    var left := LeftCell(b);
    var split := SplitCell(w, b);
    FormatStripReservedLight(version, left.0, left.1);
    FormatStripReservedLight(version, split.0, split.1);
    FunctionPatternsKept(version, data, left.0, left.1);
    FunctionPatternsKept(version, data, split.0, split.1);
  }

  /** Light reserved format cells keep their colour through masking and then show their bit. */
  lemma FormatAfterMask(g: Grid, mask: int, bits: int, b: int)
    requires IsGrid(g, |g|) && |g| >= 21 && 0 <= mask < 8 && 0 <= b < 15 && FormatCellsBlank(g, b)
    ensures FormatShown(ApplyFormat(ApplyMask(g, mask), bits), bits, b)
  {
    var left := LeftCell(b);
    var split := SplitCell(|g|, b);
    var masked := ApplyMask(g, mask);
    MaskedModule(g, mask, left.0, left.1);
    MaskedModule(g, mask, split.0, split.1);
    FormatReadsBack(masked, bits, b);
    FormatFrame(masked, bits, |g| - 8, 8);
  }
}
