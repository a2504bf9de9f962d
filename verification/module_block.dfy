/**
 * The module grid of a symbol. Each module is a 2-bit cell: bit 0 is the
 * colour (1 = dark) and bit 1 marks a reserved (function-pattern) module.
 * The store packs four cells per byte, row-major, cell k in bits 2(k % 4)
 * and 2(k % 4) + 1 of byte k / 4.
 *
 * Two layers: the packed buffer as the source keeps it, and the grid of
 * decoded modules it stands for (View). Every packed operation is proved to
 * act on the view as the matching grid operation, which is what the symbol
 * construction is written against.
 */
module ModuleBlocks {
  import opened Wrappers
  import opened Arith

  /** The values of the flags enumeration: bit 0 dark, bit 1 reserved. */
  const Light: bv8 := 0
  const Dark: bv8 := 1
  const Reserved: bv8 := 2

  // ------------------------------------------------------------------
  // Decoded modules and grids
  // ------------------------------------------------------------------

  datatype Module = Module(dark: bool, reserved: bool)

  /** The module a 2-bit field stands for. */
  function Decode(field: bv8): Module
  {
    Module(field & 1 == 1, field & 2 == 2)
  }

  /** A width x width grid of modules, indexed [row][col]. */
  type Grid = seq<seq<Module>>

  predicate IsGrid(g: Grid, width: int)
  {
    |g| == width && forall row :: 0 <= row < |g| ==> |g[row]| == width
  }

  /** Setting a module: overwrite replaces it with the flag, otherwise the flag is ORed in. */
  function SetModule(current: Module, flag: bv8, overwrite: bool): Module
  {
    var f := Decode(flag & 3);
    if overwrite then f else Module(current.dark || f.dark, current.reserved || f.reserved)
  }

  function GridSet(g: Grid, row: int, col: int, flag: bv8, overwrite: bool): (r: Grid)
    requires 0 <= row < |g| && 0 <= col < |g[row]|
  {
    g[row := g[row][col := SetModule(g[row][col], flag, overwrite)]]
  }

  function GridFlip(g: Grid, row: int, col: int): (r: Grid)
    requires 0 <= row < |g| && 0 <= col < |g[row]|
  {
    g[row := g[row][col := Module(!g[row][col].dark, g[row][col].reserved)]]
  }

  // ------------------------------------------------------------------
  // The packed store
  // ------------------------------------------------------------------

  datatype ModuleBlock = ModuleBlock(buffer: seq<bv8>, width: int)

  /** The buffer holds ceil(width^2 / 4) bytes. */
  predicate Valid(m: ModuleBlock)
  {
    m.width >= 0 && |m.buffer| == (m.width * m.width + 3) / 4
  }

  /** The store does no bounds checks of its own: callers keep to the grid. */
  predicate InBounds(m: ModuleBlock, row: int, col: int)
  {
    0 <= row < m.width && 0 <= col < m.width
  }

  /**
   * A fresh store: every module light and unreserved. The buffer size is
   * computed in checked int32 arithmetic.
   */
  function New(width: int): (r: Result<ModuleBlock>)
    requires 0 <= width
    ensures r.Success? <==> width * width + 3 <= MaxInt32
    ensures r.Failure? ==> r.error == Overflow
    ensures r.Success? ==> Valid(r.value) && r.value.width == width
    ensures r.Success? ==> forall row, col | InBounds(r.value, row, col) :: Field(r.value, row, col) == Light
  {
    if width * width + 3 > MaxInt32 then Failure(Overflow)
    else
      var m := ModuleBlock(seq((width * width + 3) / 4, _ => 0), width);
      Success(m)
  }

  /** The byte and the 2-bit slot of a cell: position / 4 and position % 4. */
  function Offsets(m: ModuleBlock, row: int, col: int): (r: (int, bv8))
    requires Valid(m) && InBounds(m, row, col)
    ensures 0 <= r.0 < |m.buffer| && r.1 < 4
    ensures 4 * r.0 + SlotIndex(r.1) == row * m.width + col
  {
    var position := row * m.width + col;
    CellPositionBound(m.width, row, col);
    (position / 4, SlotOf(position % 4))
  }

  /** A slot number 0 .. 3 as a bit-vector, and back. */
  function SlotOf(k: int): (r: bv8)
    requires 0 <= k < 4
    ensures r < 4 && SlotIndex(r) == k
  {
    if k == 0 then 0 else if k == 1 then 1 else if k == 2 then 2 else 3
  }

  function SlotIndex(slot: bv8): int
  {
    if slot == 0 then 0 else if slot == 1 then 1 else if slot == 2 then 2 else 3
  }

  lemma CellPositionBound(width: int, row: int, col: int)
    requires 0 <= row < width && 0 <= col < width
    ensures 0 <= row * width + col < width * width
    ensures (row * width + col) / 4 < (width * width + 3) / 4
  {
    assert row * width <= (width - 1) * width;
  }

  /** Distinct cells live in distinct slots. */
  lemma OffsetsInjective(m: ModuleBlock, row: int, col: int, row': int, col': int)
    requires Valid(m) && InBounds(m, row, col) && InBounds(m, row', col')
    requires Offsets(m, row, col) == Offsets(m, row', col')
    ensures row == row' && col == col'
  {
    if row < row' {
      RowsApart(row, row', m.width);
    } else if row' < row {
      RowsApart(row', row, m.width);
    }
  }

  lemma RowsApart(a: int, b: int, width: int)
    requires 0 <= a < b && 0 <= width
    ensures a * width + width <= b * width
  {
    assert (b - a) * width >= width by {
      assert b - a >= 1;
    }
  }

  /** The 2-bit field of slot `offset` in a byte. */
  function Slot(b: bv8, offset: bv8): (r: bv8)
    requires offset < 4
  {
    (b >> (2 * offset)) & 3
  }

  /** The cell's 2-bit field. */
  function Field(m: ModuleBlock, row: int, col: int): (r: bv8)
    requires Valid(m) && InBounds(m, row, col)
    ensures r & 3 == r
  {
    var (block, offset) := Offsets(m, row, col);
    SlotBits(m.buffer[block], offset);
    Slot(m.buffer[block], offset)
  }

  lemma SlotBits(b: bv8, offset: bv8)
    requires offset < 4
    ensures Slot(b, offset) & 3 == Slot(b, offset)
  {
  }

  /** The decoded grid. */
  function View(m: ModuleBlock): (g: Grid)
    requires Valid(m)
    ensures IsGrid(g, m.width)
    ensures forall row, col | InBounds(m, row, col) :: g[row][col] == Decode(Field(m, row, col))
  {
    seq(m.width, row requires 0 <= row < m.width =>
      seq(m.width, col requires 0 <= col < m.width => Decode(Field(m, row, col))))
  }

  predicate IsDark(m: ModuleBlock, row: int, col: int)
    requires Valid(m) && InBounds(m, row, col)
  {
    Field(m, row, col) & 1 == 1
  }

  predicate IsLight(m: ModuleBlock, row: int, col: int)
    requires Valid(m) && InBounds(m, row, col)
  {
    !IsDark(m, row, col)
  }

  predicate IsReserved(m: ModuleBlock, row: int, col: int)
    requires Valid(m) && InBounds(m, row, col)
  {
    Field(m, row, col) & 2 == 2
  }

  // ------------------------------------------------------------------
  // Byte-level updates
  // ------------------------------------------------------------------

  /** The three ways a cell's slot is changed. */
  datatype Change = Overwrite(flag: bv8) | OrIn(flag: bv8) | Flip

  /**
   * The byte with slot `offset` changed: overwrite clears the slot and ORs
   * `flag & 3` in; OrIn only ORs it in; Flip XORs the colour bit.
   */
  function Apply(b: bv8, offset: bv8, change: Change): bv8
    requires offset < 4
  {
    match change
    case Overwrite(flag) => (b & !(3 << (2 * offset))) | ((flag & 3) << (2 * offset))
    case OrIn(flag) => b | ((flag & 3) << (2 * offset))
    case Flip => b ^ (1 << (2 * offset))
  }

  lemma UpdateOwnSlot(b: bv8, offset: bv8, change: Change)
    requires offset < 4
    ensures Slot(Apply(b, offset, change), offset) == match change
      case Overwrite(flag) => flag & 3
      case OrIn(flag) => Slot(b, offset) | (flag & 3)
      case Flip => Slot(b, offset) ^ 1
  {
  }

  lemma UpdateOtherSlot(b: bv8, offset: bv8, other: bv8, change: Change)
    requires offset < 4 && other < 4 && other != offset
    ensures Slot(Apply(b, offset, change), other) == Slot(b, other)
  {
  }

  lemma FlipTwice(b: bv8, offset: bv8)
    requires offset < 4
    ensures Apply(Apply(b, offset, Flip), offset, Flip) == b
  {
  }

  /** The store with the slot of (row, col) changed. */
  function Update(m: ModuleBlock, row: int, col: int, change: Change): (r: ModuleBlock)
    requires Valid(m) && InBounds(m, row, col)
    ensures Valid(r) && r.width == m.width
    ensures Field(r, row, col) == match change
      case Overwrite(flag) => flag & 3
      case OrIn(flag) => Field(m, row, col) | (flag & 3)
      case Flip => Field(m, row, col) ^ 1
    ensures forall row', col' | InBounds(m, row', col') && (row', col') != (row, col) ::
      Field(r, row', col') == Field(m, row', col')
  {
    var (block, offset) := Offsets(m, row, col);
    var r := ModuleBlock(m.buffer[block := Apply(m.buffer[block], offset, change)], m.width);
    UpdateOwnSlot(m.buffer[block], offset, change);
    forall row', col' | InBounds(m, row', col') && (row', col') != (row, col)
      ensures Field(r, row', col') == Field(m, row', col')
    {
      var (block', offset') := Offsets(m, row', col');
      if block' == block {
        if offset' == offset {
          OffsetsInjective(m, row, col, row', col');
        } else {
          UpdateOtherSlot(m.buffer[block], offset, offset', change);
        }
      }
    }
    r
  }

  // ------------------------------------------------------------------
  // Cell operations
  // ------------------------------------------------------------------

  /** Set with overwrite replaces the cell with `flag & 3`; without, ORs it in. */
  function Set(m: ModuleBlock, row: int, col: int, flag: bv8, overwrite: bool): (r: ModuleBlock)
    requires Valid(m) && InBounds(m, row, col)
    ensures Valid(r) && r.width == m.width
    ensures Field(r, row, col) == if overwrite then flag & 3 else Field(m, row, col) | (flag & 3)
    ensures forall row', col' | InBounds(m, row', col') && (row', col') != (row, col) ::
      Field(r, row', col') == Field(m, row', col')
  {
    Update(m, row, col, if overwrite then Overwrite(flag) else OrIn(flag))
  }

  /** FlipColor toggles the colour bit of one cell. */
  function FlipColor(m: ModuleBlock, row: int, col: int): (r: ModuleBlock)
    requires Valid(m) && InBounds(m, row, col)
    ensures Valid(r) && r.width == m.width
    ensures Field(r, row, col) == Field(m, row, col) ^ 1
    ensures forall row', col' | InBounds(m, row', col') && (row', col') != (row, col) ::
      Field(r, row', col') == Field(m, row', col')
  {
    Update(m, row, col, Flip)
  }

  // ------------------------------------------------------------------
  // Properties
  // ------------------------------------------------------------------

  /** Set acts on the decoded grid as GridSet. */
  lemma SetRefines(m: ModuleBlock, row: int, col: int, flag: bv8, overwrite: bool)
    requires Valid(m) && InBounds(m, row, col)
    ensures View(Set(m, row, col, flag, overwrite)) == GridSet(View(m), row, col, flag, overwrite)
  {
    var r := Set(m, row, col, flag, overwrite);
    var g, g' := View(m), View(r);
    var expected := GridSet(g, row, col, flag, overwrite);
    DecodeSet(Field(m, row, col), flag, overwrite);
    forall i | 0 <= i < m.width
      ensures g'[i] == expected[i]
    {
      forall j | 0 <= j < m.width
        ensures g'[i][j] == expected[i][j]
      {
        if (i, j) != (row, col) {
          assert Field(r, i, j) == Field(m, i, j);
        }
      }
    }
  }

  lemma DecodeSet(field: bv8, flag: bv8, overwrite: bool)
    requires field & 3 == field
    ensures Decode(if overwrite then flag & 3 else field | (flag & 3)) == SetModule(Decode(field), flag, overwrite)
  {
  }

  /** FlipColor acts on the decoded grid as GridFlip. */
  lemma FlipRefines(m: ModuleBlock, row: int, col: int)
    requires Valid(m) && InBounds(m, row, col)
    ensures View(FlipColor(m, row, col)) == GridFlip(View(m), row, col)
  {
    var r := FlipColor(m, row, col);
    var g, g' := View(m), View(r);
    var expected := GridFlip(g, row, col);
    DecodeFlip(Field(m, row, col));
    forall i | 0 <= i < m.width
      ensures g'[i] == expected[i]
    {
      forall j | 0 <= j < m.width
        ensures g'[i][j] == expected[i][j]
      {
        if (i, j) != (row, col) {
          assert Field(r, i, j) == Field(m, i, j);
        }
      }
    }
  }

  lemma DecodeFlip(field: bv8)
    requires field & 3 == field
    ensures Decode(field ^ 1) == Module(!Decode(field).dark, Decode(field).reserved)
  {
  }

  /** FlipColor toggles IsDark and keeps IsReserved. */
  lemma FlipToggles(m: ModuleBlock, row: int, col: int)
    requires Valid(m) && InBounds(m, row, col)
    ensures IsDark(FlipColor(m, row, col), row, col) <==> !IsDark(m, row, col)
    ensures IsReserved(FlipColor(m, row, col), row, col) <==> IsReserved(m, row, col)
  {
    DecodeFlip(Field(m, row, col));
  }

  /** Flipping a cell twice restores the store exactly. */
  lemma FlipInvolution(m: ModuleBlock, row: int, col: int)
    requires Valid(m) && InBounds(m, row, col)
    ensures FlipColor(FlipColor(m, row, col), row, col) == m
  {
    var (block, offset) := Offsets(m, row, col);
    var once := FlipColor(m, row, col);
    assert Offsets(once, row, col) == (block, offset);
    FlipTwice(m.buffer[block], offset);
  }

  /** Setting without overwrite never clears the dark or the reserved bit. */
  lemma OrNeverClears(m: ModuleBlock, row: int, col: int, flag: bv8)
    requires Valid(m) && InBounds(m, row, col)
    ensures IsDark(m, row, col) ==> IsDark(Set(m, row, col, flag, false), row, col)
    ensures IsReserved(m, row, col) ==> IsReserved(Set(m, row, col, flag, false), row, col)
  {
    OrKeepsBits(Field(m, row, col), flag);
  }

  lemma OrKeepsBits(field: bv8, flag: bv8)
    ensures field & 1 == 1 ==> (field | (flag & 3)) & 1 == 1
    ensures field & 2 == 2 ==> (field | (flag & 3)) & 2 == 2
  {
  }
}
