/**
 * Format information (section 6.9.1 and Annex C of ISO/IEC 18004:2006): the
 * five data bits (two for the error correction level, three for the mask),
 * their 15-bit encodings, and the two copies drawn around the finder
 * patterns (Figure 25), plus the dark module beside the lower-left finder.
 */
module FormatInformation {
  import opened Wrappers
  import opened ModuleBlocks
  import opened Skeleton
  import Capacity

  // ------------------------------------------------------------------
  // Data bits
  // ------------------------------------------------------------------

  /**
   * The level indicator of Table 12: L 01, M 00, Q 11, H 10. It is the
   * enum value with its low bit inverted; any other level is an
   * InvalidOperationException.
   */
  function BinaryIndicator(level: int): (r: Result<int>)
    ensures r.Success? <==> Capacity.IsLevel(level)
    ensures r.Failure? ==> r.error == InvalidOperation
    ensures r.Success? ==> 0 <= r.value < 4 && r.value / 2 == level / 2 && r.value % 2 != level % 2
  {
    if level == Capacity.VeryLow then Success(1)
    else if level == Capacity.Low then Success(0)
    else if level == Capacity.Medium then Success(3)
    else if level == Capacity.High then Success(2)
    else Failure(InvalidOperation)
  }

  /** Different levels get different indicators. */
  lemma IndicatorInjective(a: int, b: int)
    requires Capacity.IsLevel(a) && Capacity.IsLevel(b) && a != b
    ensures BinaryIndicator(a).value != BinaryIndicator(b).value
  {
  }

  /** The five data bits `(indicator << 3) | mask`; both parts can be read back. */
  function FormatWord(indicator: int, mask: int): (word: int)
    requires 0 <= indicator < 4 && 0 <= mask < 8
    ensures 0 <= word < 32 && word / 8 == indicator && word % 8 == mask
  {
    indicator * 8 + mask
  }

  // ------------------------------------------------------------------
  // Table C.1
  // ------------------------------------------------------------------

  /** The 15-bit format information for each five-bit data word, already masked with 0x5412. */
  function FormatEncoding(word: int): (bits: bv16)
    requires 0 <= word < 32
    ensures bits < 0x8000
  {
    match word
    case 0 => 0x5412  case 1 => 0x5125  case 2 => 0x5E7C  case 3 => 0x5B4B
    case 4 => 0x45F9  case 5 => 0x40CE  case 6 => 0x4F97  case 7 => 0x4AA0
    case 8 => 0x77C4  case 9 => 0x72F3  case 10 => 0x7DAA case 11 => 0x789D
    case 12 => 0x662F case 13 => 0x6318 case 14 => 0x6C41 case 15 => 0x6976
    case 16 => 0x1689 case 17 => 0x13BE case 18 => 0x1CE7 case 19 => 0x19D0
    case 20 => 0x0762 case 21 => 0x0255 case 22 => 0x0D0C case 23 => 0x083B
    case 24 => 0x355F case 25 => 0x3068 case 26 => 0x3F31 case 27 => 0x3A06
    case 28 => 0x24B4 case 29 => 0x2183 case 30 => 0x2EDA case _ => 0x2BED
  }

  // ------------------------------------------------------------------
  // Figure 25: where each bit goes
  // ------------------------------------------------------------------

  /** The format bit (0 .. 14) the copy around the top-left finder puts at (i, j), or -1. */
  function LeftIndex(i: int, j: int): int
  {
    if i == 8 && 0 <= j <= 5 then 14 - j
    else if i == 8 && j == 7 then 8
    else if i == 8 && j == 8 then 7
    else if i == 7 && j == 8 then 6
    else if 0 <= i <= 5 && j == 8 then i
    else -1
  }

  /** The format bit the copy split between the other two finders puts at (i, j), or -1. */
  function SplitIndex(w: int, i: int, j: int): int
  {
    if j == 8 && w - 7 <= i <= w - 1 then i - (w - 15)
    else if i == 8 && w - 8 <= j <= w - 1 then w - 1 - j
    else -1
  }

  /** The module of bit b in the top-left copy, as (row, column). */
  function LeftCell(b: int): (int, int)
    requires 0 <= b < 15
  {
    if b >= 9 then (8, 14 - b)
    else if b == 8 then (8, 7)
    else if b == 7 then (8, 8)
    else if b == 6 then (7, 8)
    else (b, 8)
  }

  /** The module of bit b in the split copy: bits 14 .. 8 up column 8, bits 7 .. 0 along row 8. */
  function SplitCell(w: int, b: int): (int, int)
    requires 0 <= b < 15
  {
    if b >= 8 then (w - 15 + b, 8) else (8, w - 1 - b)
  }

  /** The dark module: (width - 8, 8), set with the bits. */
  function DarkCell(w: int): (int, int)
  {
    (w - 8, 8)
  }

  /**
   * Each copy holds every bit exactly once: the index functions invert the
   * cell functions, and the three kinds of module never meet.
   */
  lemma CellsRoundTrip(w: int, b: int)
    requires w >= 21 && 0 <= b < 15
    ensures LeftIndex(LeftCell(b).0, LeftCell(b).1) == b && SplitIndex(w, LeftCell(b).0, LeftCell(b).1) == -1
    ensures SplitIndex(w, SplitCell(w, b).0, SplitCell(w, b).1) == b && LeftIndex(SplitCell(w, b).0, SplitCell(w, b).1) == -1
    ensures LeftCell(b) != DarkCell(w) && SplitCell(w, b) != DarkCell(w)
  {
  }

  /** Conversely, every module a copy writes is the cell of its bit. */
  lemma IndicesAreCells(w: int, i: int, j: int)
    requires w >= 21
    ensures LeftIndex(i, j) >= 0 ==> LeftIndex(i, j) < 15 && LeftCell(LeftIndex(i, j)) == (i, j)
    ensures SplitIndex(w, i, j) >= 0 ==> SplitIndex(w, i, j) < 15 && SplitCell(w, SplitIndex(w, i, j)) == (i, j)
  {
  }

  /** The module (i, j) after the format bits are ORed in. */
  function FormatModule(w: int, bits: int, i: int, j: int, before: Module): Module
  {
    var left := LeftIndex(i, j);
    var split := SplitIndex(w, i, j);
    Module(before.dark || (left >= 0 && BitAt(bits, left)) || (split >= 0 && BitAt(bits, split)) ||
           (i, j) == DarkCell(w), before.reserved)
  }

  /** ApplyFormatInformationEncodedBits, module by module. */
  function ApplyFormat(g: Grid, bits: int): (h: Grid)
    requires IsGrid(g, |g|) && |g| >= 21
    ensures IsGrid(h, |g|)
  {
    seq(|g|, i requires 0 <= i < |g| => seq(|g|, j requires 0 <= j < |g| =>
      FormatModule(|g|, bits, i, j, g[i][j])))
  }

  /**
   * The Sets for bit b: its top-left cell, then its split cell, each with the
   * default overwrite = false; after bit 8 also the dark module.
   */
  function WriteBit(g: Grid, bits: int, b: int): (h: Grid)
    requires IsGrid(g, |g|) && |g| >= 21 && 0 <= b < 15
    ensures IsGrid(h, |g|)
  {
    var flag := TypeOfBit(bits, b);
    var left := LeftCell(b);
    var split := SplitCell(|g|, b);
    var g1 := GridSet(g, left.0, left.1, flag, false);
    var g2 := GridSet(g1, split.0, split.1, flag, false);
    if b == 8 then GridSet(g2, |g| - 8, 8, Dark, false) else g2
  }

  lemma WriteBitCell(g: Grid, bits: int, b: int, i: int, j: int)
    requires IsGrid(g, |g|) && |g| >= 21 && 0 <= b < 15 && 0 <= i < |g| && 0 <= j < |g|
    ensures WriteBit(g, bits, b)[i][j] == Module(g[i][j].dark ||
      (LeftIndex(i, j) == b && BitAt(bits, b)) || (SplitIndex(|g|, i, j) == b && BitAt(bits, b)) ||
      (b == 8 && (i, j) == DarkCell(|g|)), g[i][j].reserved)
  {
    IndicesAreCells(|g|, i, j);
    CellsRoundTrip(|g|, b);
  }

  /** The source's Sets, bit 14 down to bit 0, with the dark module after bit 8. */
  method ApplyFormatSteps(g: Grid, bits: int) returns (h: Grid)
    requires IsGrid(g, |g|) && |g| >= 21
    ensures h == ApplyFormat(g, bits)
  {
    var w := |g|;
    h := g;
    var b := 14;
    while b >= 0
      invariant -1 <= b <= 14
      invariant IsGrid(h, w)
      invariant forall i, j {:trigger h[i][j]} :: 0 <= i < w && 0 <= j < w ==>
        h[i][j] == Module(g[i][j].dark ||
          (b < LeftIndex(i, j) && BitAt(bits, LeftIndex(i, j))) ||
          (b < SplitIndex(w, i, j) && BitAt(bits, SplitIndex(w, i, j))) ||
          (b < 8 && (i, j) == DarkCell(w)), g[i][j].reserved)
    {
      var before := h;
      h := WriteBit(h, bits, b);
      forall i, j | 0 <= i < w && 0 <= j < w
        ensures h[i][j] == Module(g[i][j].dark ||
          (b - 1 < LeftIndex(i, j) && BitAt(bits, LeftIndex(i, j))) ||
          (b - 1 < SplitIndex(w, i, j) && BitAt(bits, SplitIndex(w, i, j))) ||
          (b - 1 < 8 && (i, j) == DarkCell(w)), g[i][j].reserved)
      {
        WriteBitCell(before, bits, b, i, j);
      }
      b := b - 1;
    }
    var d := ApplyFormat(g, bits);
    forall i | 0 <= i < w
      ensures h[i] == d[i]
    {
      assert forall j :: 0 <= j < w ==> h[i][j] == d[i][j];
    }
  }

  /**
   * Read back: when a copy's module was light before, it shows its bit
   * afterwards; both copies then agree, and the reservation is kept.
   */
  lemma FormatReadsBack(g: Grid, bits: int, b: int)
    requires IsGrid(g, |g|) && |g| >= 21 && 0 <= b < 15
    requires !g[LeftCell(b).0][LeftCell(b).1].dark && !g[SplitCell(|g|, b).0][SplitCell(|g|, b).1].dark
    ensures ApplyFormat(g, bits)[LeftCell(b).0][LeftCell(b).1] ==
      Module(BitAt(bits, b), g[LeftCell(b).0][LeftCell(b).1].reserved)
    ensures ApplyFormat(g, bits)[SplitCell(|g|, b).0][SplitCell(|g|, b).1] ==
      Module(BitAt(bits, b), g[SplitCell(|g|, b).0][SplitCell(|g|, b).1].reserved)
  {
    CellsRoundTrip(|g|, b);
  }

  /** The dark module is dark whatever the bits, and modules outside both copies are untouched. */
  lemma FormatFrame(g: Grid, bits: int, i: int, j: int)
    requires IsGrid(g, |g|) && |g| >= 21 && 0 <= i < |g| && 0 <= j < |g|
    ensures (i, j) == DarkCell(|g|) ==> ApplyFormat(g, bits)[i][j].dark
    ensures LeftIndex(i, j) < 0 && SplitIndex(|g|, i, j) < 0 && (i, j) != DarkCell(|g|) ==>
      ApplyFormat(g, bits)[i][j] == g[i][j]
  {
  }
}
