/**
 * Version selection and the final message sequence (section 6.6 of
 * ISO/IEC 18004:2006): the data is zero-padded to the symbol's data capacity,
 * cut into consecutive blocks, each block gets its Reed-Solomon codewords, and
 * the data blocks and then the error blocks are interleaved column by column.
 */
module ErrorCorrection {
  import opened Wrappers
  import opened Arith
  import opened GaloisField
  import opened ReedSolomon
  import opened Capacity

  // ------------------------------------------------------------------
  // Version selection
  // ------------------------------------------------------------------

  /** The 40 rows of Table 9, in version order. */
  function Versions(): (table: seq<CodeVersion>)
    ensures IsTable(table)
  {
    TableIsComplete();
    seq(40, i requires 0 <= i < 40 => VersionRow(i))
  }

  lemma TableIsComplete()
    ensures forall i | 0 <= i < 40 :: TableVersion(VersionRow(i))
  {
    forall i | 0 <= i < 40 {
      TableIsWellFormed(i);
    }
  }

  /** A table of 40 versions whose every row is well formed. */
  predicate IsTable(table: seq<CodeVersion>)
  {
    |table| == 40 && forall i :: 0 <= i < 40 ==> TableVersion(table[i])
  }

  /** TotalDataBytes of a version (1 .. 40) at a level. */
  function DataCapacity(table: seq<CodeVersion>, version: int, level: int): int
    requires |table| == 40 && 1 <= version <= 40 && IsLevel(level)
  {
    CorrectionInfo(table[version - 1], level).value.totalDataBytes
  }

  /** The chosen shape: the version number and the level actually achieved. */
  datatype Selection = Selection(info: ErrorCorrectionInfo, version: int, level: int)

  /** Within a version, the first of High, Medium, Low whose data capacity holds the input, else VeryLow. */
  function StrongestFit(row: CodeVersion, inputBytes: int): (level: int)
    ensures IsLevel(level)
    ensures level == VeryLow || CorrectionInfo(row, level).value.totalDataBytes >= inputBytes
    ensures forall stronger | level < stronger <= High :: CorrectionInfo(row, stronger).value.totalDataBytes < inputBytes
  {
    if row.h.totalDataBytes >= inputBytes then High
    else if row.q.totalDataBytes >= inputBytes then Medium
    else if row.m.totalDataBytes >= inputBytes then Low
    else VeryLow
  }

  /**
   * A selection for a version whose capacity at the desired level holds the
   * input: the level is at least the desired one, its info is that table
   * entry and holds the input, and every stronger level of the version is too small.
   */
  predicate Fits(table: seq<CodeVersion>, s: Selection, inputBytes: int, desired: int)
    requires |table| == 40
  {
    && 1 <= s.version <= 40 && IsLevel(desired) && IsLevel(s.level) && desired <= s.level
    && DataCapacity(table, s.version, desired) >= inputBytes
    && s.info == CorrectionInfo(table[s.version - 1], s.level).value
    && s.info.totalDataBytes >= inputBytes && WellFormed(s.info)
    && forall stronger | s.level < stronger <= High :: DataCapacity(table, s.version, stronger) < inputBytes
  }

  /** The level choice once a version's capacity at the desired level holds the input. */
  function ChooseLevel(table: seq<CodeVersion>, index: int, inputBytes: int, desired: int): (s: Selection)
    requires IsTable(table) && 0 <= index < 40 && IsLevel(desired)
    requires DataCapacity(table, index + 1, desired) >= inputBytes
    ensures s.version == index + 1 && Fits(table, s, inputBytes, desired)
  {
    var row := table[index];
    var level := StrongestFit(row, inputBytes);
    assert TableVersion(row);
    Selection(CorrectionInfo(row, level).value, index + 1, level)
  }

  /**
   * The selection loop from table index `index` on. The desired level is looked
   * up first, so an undefined level fails on the first row.
   */
  function SelectFrom(table: seq<CodeVersion>, index: int, inputBytes: int, desired: int): (r: Result<Selection>)
    requires IsTable(table) && 0 <= index <= 40
    requires index > 0 ==> IsLevel(desired)
    ensures r == Failure(ArgumentOutOfRange) <==> !IsLevel(desired)
    ensures r.Failure? ==> r.error == ArgumentOutOfRange || r.error == InputTooLong
    ensures r.Success? ==> index < r.value.version && Fits(table, r.value, inputBytes, desired)
    decreases 40 - index
  {
    if index == 40 then Failure(InputTooLong)
    else
      var desiredInfo :- CorrectionInfo(table[index], desired);
      if desiredInfo.totalDataBytes < inputBytes then SelectFrom(table, index + 1, inputBytes, desired)
      else Success(ChooseLevel(table, index, inputBytes, desired))
  }

  /** The loop runs out of versions exactly when none from index + 1 on holds the input. */
  lemma {:induction false} SelectFromExhausted(table: seq<CodeVersion>, index: int, inputBytes: int, desired: int)
    requires IsTable(table) && 0 <= index <= 40
    requires index > 0 ==> IsLevel(desired)
    ensures SelectFrom(table, index, inputBytes, desired) == Failure(InputTooLong)
        <==> IsLevel(desired) && forall v | index < v <= 40 :: DataCapacity(table, v, desired) < inputBytes
    decreases 40 - index
  {
    if index < 40 && IsLevel(desired) {
      var info := CorrectionInfo(table[index], desired).value;
      assert info.totalDataBytes == DataCapacity(table, index + 1, desired);
      if info.totalDataBytes < inputBytes {
        assert SelectFrom(table, index, inputBytes, desired) == SelectFrom(table, index + 1, inputBytes, desired);
        SelectFromExhausted(table, index + 1, inputBytes, desired);
        if forall v | index + 1 < v <= 40 :: DataCapacity(table, v, desired) < inputBytes {
          forall v | index < v <= 40
            ensures DataCapacity(table, v, desired) < inputBytes
          {
          }
        }
      } else {
        assert SelectFrom(table, index, inputBytes, desired).Success?;
        assert !(DataCapacity(table, index + 1, desired) < inputBytes);
      }
    }
  }

  /** The loop stops at the first version from index + 1 on that holds the input: every version it passes is too small. */
  lemma {:induction false} SelectFromFirst(table: seq<CodeVersion>, index: int, inputBytes: int, desired: int, v: int)
    requires IsTable(table) && 0 <= index <= 40
    requires index > 0 ==> IsLevel(desired)
    requires SelectFrom(table, index, inputBytes, desired).Success?
    requires index < v < SelectFrom(table, index, inputBytes, desired).value.version
    ensures DataCapacity(table, v, desired) < inputBytes
    decreases 40 - index
  {
    if index < 40 && IsLevel(desired) {
      var info := CorrectionInfo(table[index], desired).value;
      assert info.totalDataBytes == DataCapacity(table, index + 1, desired);
      if info.totalDataBytes < inputBytes {
        assert SelectFrom(table, index, inputBytes, desired) == SelectFrom(table, index + 1, inputBytes, desired);
        if v > index + 1 {
          SelectFromFirst(table, index + 1, inputBytes, desired, v);
        }
      }
    }
  }

  /** The selection from the first table entry passes only versions too small for the input. */
  lemma SelectedIsFirst(inputBytes: int, desired: int)
    ensures var r := SelectFrom(Versions(), 0, inputBytes, desired);
      r.Success? ==> forall v | 1 <= v < r.value.version :: DataCapacity(Versions(), v, desired) < inputBytes
  {
    var r := SelectFrom(Versions(), 0, inputBytes, desired);
    if r.Success? {
      forall v | 1 <= v < r.value.version
        ensures DataCapacity(Versions(), v, desired) < inputBytes
      {
        SelectFromFirst(Versions(), 0, inputBytes, desired, v);
      }
    }
  }

  /**
   * GetErrorCorrectionInfo: the smallest version whose capacity at the desired
   * level holds the input, then the strongest level of that version that
   * still holds it. No fitting version fails with InputTooLong.
   */
  function SelectErrorCorrection(inputBytes: int, desired: int): (r: Result<Selection>)
    ensures r == Failure(ArgumentOutOfRange) <==> !IsLevel(desired)
    ensures r.Failure? ==> r.error == ArgumentOutOfRange || r.error == InputTooLong
    ensures r == Failure(InputTooLong)
        <==> IsLevel(desired) && forall v | 1 <= v <= 40 :: DataCapacity(Versions(), v, desired) < inputBytes
    ensures r.Success? ==> Fits(Versions(), r.value, inputBytes, desired)
    ensures r.Success? ==> forall v | 1 <= v < r.value.version :: DataCapacity(Versions(), v, desired) < inputBytes
  {
    SelectFromExhausted(Versions(), 0, inputBytes, desired);
    SelectedIsFirst(inputBytes, desired);
    SelectFrom(Versions(), 0, inputBytes, desired)
  }

  // ------------------------------------------------------------------
  // Block layout
  // ------------------------------------------------------------------

  /** The block shapes in order: each group's shape, BlockCount times. */
  function Layout(groups: seq<BlockCountInfo>): seq<BlockInfo>
  {
    if |groups| == 0 then []
    else
      var g := groups[0];
      seq(if g.blockCount < 0 then 0 else g.blockCount, _ => g.blockInfo) + Layout(groups[1..])
  }

  function SumData(layout: seq<BlockInfo>): int
  {
    if |layout| == 0 then 0 else layout[0].dataBytes + SumData(layout[1..])
  }

  function SumError(layout: seq<BlockInfo>): int
  {
    if |layout| == 0 then 0 else layout[0].ErrorBytes() + SumError(layout[1..])
  }

  lemma {:induction false} SumsAppend(a: seq<BlockInfo>, b: seq<BlockInfo>)
    ensures SumData(a + b) == SumData(a) + SumData(b)
    ensures SumError(a + b) == SumError(a) + SumError(b)
    decreases |a|
  {
    if |a| == 0 {
      assert a + b == b;
    } else {
      assert (a + b)[0] == a[0];
      assert (a + b)[1..] == a[1..] + b;
      SumsAppend(a[1..], b);
    }
  }

  lemma {:induction false} SumsRepeat(shape: BlockInfo, n: nat)
    ensures SumData(seq(n, _ => shape)) == n * shape.dataBytes
    ensures SumError(seq(n, _ => shape)) == n * shape.ErrorBytes()
    decreases n
  {
    if n > 0 {
      assert seq(n, _ => shape)[1..] == seq(n - 1, _ => shape);
      SumsRepeat(shape, n - 1);
    }
  }

  /** The per-block shapes add up to the group totals of the constructor. */
  lemma {:induction false} LayoutSums(groups: seq<BlockCountInfo>)
    requires forall i :: 0 <= i < |groups| ==> 0 <= groups[i].blockCount
    ensures SumData(Layout(groups)) == DataSum(groups)
    ensures SumError(Layout(groups)) == ErrorSum(groups)
    decreases |groups|
  {
    if |groups| > 0 {
      var g := groups[0];
      assert 0 <= g.blockCount;
      SumsAppend(seq(g.blockCount, _ => g.blockInfo), Layout(groups[1..]));
      SumsRepeat(g.blockInfo, g.blockCount);
      assert forall i :: 0 <= i < |groups[1..]| ==> 0 <= groups[1..][i].blockCount by {
        assert forall i :: 0 <= i < |groups[1..]| ==> groups[1..][i] == groups[i + 1];
      }
      LayoutSums(groups[1..]);
    }
  }

  /** Every block of a table info has a shape from the table. */
  lemma {:induction false} LayoutShapes(groups: seq<BlockCountInfo>)
    requires forall i :: 0 <= i < |groups| ==> TableGroup(groups[i])
    ensures forall j :: 0 <= j < |Layout(groups)| ==> TableShape(Layout(groups)[j])
    decreases |groups|
  {
    if |groups| > 0 {
      assert TableGroup(groups[0]);
      assert forall i :: 0 <= i < |groups[1..]| ==> TableGroup(groups[1..][i]) by {
        assert forall i :: 0 <= i < |groups[1..]| ==> groups[1..][i] == groups[i + 1];
      }
      LayoutShapes(groups[1..]);
    }
  }

  /** A block shape of the table: 1 .. 255 data bytes and 1 .. 127 error bytes. */
  predicate TableShape(shape: BlockInfo)
  {
    1 <= shape.dataBytes <= 255 && 1 <= shape.ErrorBytes() <= 127
  }

  function Concat(blocks: seq<seq<bv8>>): seq<bv8>
  {
    if |blocks| == 0 then [] else blocks[0] + Concat(blocks[1..])
  }

  /** The data blocks: consecutive slices of the padded data, one per shape. */
  function Split(data: seq<bv8>, layout: seq<BlockInfo>): (r: seq<seq<bv8>>)
    requires forall j :: 0 <= j < |layout| ==> 0 <= layout[j].dataBytes
    requires SumData(layout) == |data|
    ensures |r| == |layout|
    ensures forall j :: 0 <= j < |r| ==> |r[j]| == layout[j].dataBytes
    ensures Concat(r) == data
    decreases |layout|
  {
    if |layout| == 0 then []
    else
      var n := layout[0].dataBytes;
      SumDataNonNegative(layout[1..]);
      [data[..n]] + Split(data[n..], layout[1..])
  }

  lemma {:induction false} SumDataNonNegative(layout: seq<BlockInfo>)
    requires forall j :: 0 <= j < |layout| ==> 0 <= layout[j].dataBytes
    ensures 0 <= SumData(layout)
    decreases |layout|
  {
    if |layout| > 0 {
      assert 0 <= layout[0].dataBytes;
      SumDataNonNegative(layout[1..]);
    }
  }

  /**
   * The Reed-Solomon codewords of one data block of a table shape: as many as
   * the shape's ErrorBytes, and the block followed by them is divisible by the generator.
   */
  function Codewords(block: seq<bv8>, shape: BlockInfo): (r: seq<bv8>)
    requires TableShape(shape) && |block| == shape.dataBytes
    ensures ErrorCorrectionBytes(block, shape.ErrorBytes()) == Success(r)
    ensures |r| == shape.ErrorBytes()
    ensures PolynomialMod(block + r, Generator(shape.ErrorBytes()).value) == Success(Zeros(shape.ErrorBytes()))
  {
    ErrorBytesCompleteCodeword(block, shape.ErrorBytes());
    ErrorCorrectionBytes(block, shape.ErrorBytes()).value
  }

  /** The error blocks: the codewords of each data block, in block order. */
  function ErrorBlocks(dataBlocks: seq<seq<bv8>>, layout: seq<BlockInfo>): (r: seq<seq<bv8>>)
    requires |dataBlocks| == |layout|
    requires forall j :: 0 <= j < |layout| ==> TableShape(layout[j]) && |dataBlocks[j]| == layout[j].dataBytes
    ensures |r| == |layout|
    ensures forall j :: 0 <= j < |r| ==> r[j] == Codewords(dataBlocks[j], layout[j])
  {
    seq(|layout|, j requires 0 <= j < |layout| => Codewords(dataBlocks[j], layout[j]))
  }

  // ------------------------------------------------------------------
  // Interleaving (FlushBlocks)
  // ------------------------------------------------------------------

  /** One pass of the outer loop: byte i of every block longer than i, in block order. */
  function Round(blocks: seq<seq<bv8>>, i: nat): seq<bv8>
  {
    if |blocks| == 0 then []
    else (if i < |blocks[0]| then [blocks[0][i]] else []) + Round(blocks[1..], i)
  }

  /** What is still to be written once passes 0 .. i - 1 are done: each block from byte i on. */
  function Tails(blocks: seq<seq<bv8>>, i: nat): seq<bv8>
  {
    if |blocks| == 0 then []
    else (if i < |blocks[0]| then blocks[0][i..] else []) + Tails(blocks[1..], i)
  }

  function MaxLength(blocks: seq<seq<bv8>>): nat
  {
    if |blocks| == 0 then 0
    else if |blocks[0]| > MaxLength(blocks[1..]) then |blocks[0]| else MaxLength(blocks[1..])
  }

  /** A pass that writes nothing means every block is exhausted; one that writes something is below the longest block. */
  lemma {:induction false} RoundEmpty(blocks: seq<seq<bv8>>, i: nat)
    ensures Round(blocks, i) == [] <==> Tails(blocks, i) == []
    ensures Round(blocks, i) != [] ==> i < MaxLength(blocks)
    decreases |blocks|
  {
    if |blocks| > 0 {
      RoundEmpty(blocks[1..], i);
    }
  }

  /** One pass moves byte i of every block from the pending tails to the output. */
  lemma {:induction false} RoundTakesHeads(blocks: seq<seq<bv8>>, i: nat)
    ensures multiset(Round(blocks, i)) + multiset(Tails(blocks, i + 1)) == multiset(Tails(blocks, i))
    decreases |blocks|
  {
    if |blocks| > 0 {
      RoundTakesHeads(blocks[1..], i);
      var b := blocks[0];
      var rest := blocks[1..];
      if i < |b| {
        assert b[i..] == [b[i]] + b[i + 1..];
        assert Round(blocks, i) == [b[i]] + Round(rest, i);
        assert Tails(blocks, i) == b[i..] + Tails(rest, i);
        if i + 1 < |b| {
          assert Tails(blocks, i + 1) == b[i + 1..] + Tails(rest, i + 1);
        } else {
          assert b[i + 1..] == [];
          assert Tails(blocks, i + 1) == Tails(rest, i + 1);
        }
      } else {
        assert Round(blocks, i) == Round(rest, i);
        assert Tails(blocks, i) == Tails(rest, i);
        assert Tails(blocks, i + 1) == Tails(rest, i + 1);
      }
    }
  }

  /** The passes from i on, stopping after the first pass that writes nothing. */
  function FlushFrom(blocks: seq<seq<bv8>>, i: nat): seq<bv8>
    decreases MaxLength(blocks) - i
  {
    var round := Round(blocks, i);
    RoundEmpty(blocks, i);
    if round == [] then [] else round + FlushFrom(blocks, i + 1)
  }

  /** The passes from i on write every byte at index i or later of every block, each exactly once. */
  lemma {:induction false} FlushFromTails(blocks: seq<seq<bv8>>, i: nat)
    ensures multiset(FlushFrom(blocks, i)) == multiset(Tails(blocks, i))
    decreases MaxLength(blocks) - i
  {
    RoundEmpty(blocks, i);
    RoundTakesHeads(blocks, i);
    if Round(blocks, i) != [] {
      FlushFromTails(blocks, i + 1);
    }
  }

  lemma {:induction false} TailsFromStart(blocks: seq<seq<bv8>>)
    ensures Tails(blocks, 0) == Concat(blocks)
    decreases |blocks|
  {
    if |blocks| > 0 {
      TailsFromStart(blocks[1..]);
      assert blocks[0][0..] == blocks[0];
    }
  }

  /** FlushBlocks: every byte of every block is written exactly once. */
  function FlushBlocks(blocks: seq<seq<bv8>>): (r: seq<bv8>)
    ensures multiset(r) == multiset(Concat(blocks))
    ensures |r| == |Concat(blocks)|
  {
    TailsFromStart(blocks);
    FlushFromTails(blocks, 0);
    var r := FlushFrom(blocks, 0);
    assert |multiset(r)| == |multiset(Concat(blocks))|;
    r
  }

  /** The first pass writes the first byte of every non-empty block, in block order. */
  lemma {:induction false} FirstPass(blocks: seq<seq<bv8>>)
    requires forall j :: 0 <= j < |blocks| ==> |blocks[j]| > 0
    ensures Round(blocks, 0) == seq(|blocks|, j requires 0 <= j < |blocks| => blocks[j][0])
    decreases |blocks|
  {
    if |blocks| > 0 {
      FirstPass(blocks[1..]);
    }
  }

  /** A pass below every block's length writes byte i of every block, in block order. */
  lemma {:induction false} FullPass(blocks: seq<seq<bv8>>, i: nat)
    requires forall j :: 0 <= j < |blocks| ==> i < |blocks[j]|
    ensures Round(blocks, i) == Column(blocks, i)
    decreases |blocks|
  {
    if |blocks| > 0 {
      FullPass(blocks[1..], i);
      assert Column(blocks, i) == [blocks[0][i]] + Column(blocks[1..], i);
    }
  }

  /** Byte i of every block, in block order. */
  function Column(blocks: seq<seq<bv8>>, i: nat): (r: seq<bv8>)
    requires forall j :: 0 <= j < |blocks| ==> i < |blocks[j]|
    ensures |r| == |blocks|
  {
    seq(|blocks|, j requires 0 <= j < |blocks| => blocks[j][i])
  }

  /** Byte L of blocks s, s + 1, ..., in block order. */
  function Extras(blocks: seq<seq<bv8>>, s: nat, L: nat): (r: seq<bv8>)
    requires s <= |blocks| && forall j :: s <= j < |blocks| ==> L < |blocks[j]|
    ensures |r| == |blocks| - s
  {
    seq(|blocks| - s, j requires 0 <= j < |blocks| - s => blocks[s + j][L])
  }

  /** A pass at or beyond every block's length writes nothing. */
  lemma {:induction false} PassBeyond(blocks: seq<seq<bv8>>, i: nat)
    requires forall j :: 0 <= j < |blocks| ==> |blocks[j]| <= i
    ensures Round(blocks, i) == []
    decreases |blocks|
  {
    if |blocks| > 0 {
      PassBeyond(blocks[1..], i);
    }
  }

  /**
   * The block shapes of a symbol: the first s blocks hold L bytes and the
   * rest L + 1 (section 6.6 of ISO/IEC 18004:2006; the error blocks are
   * the case s = |blocks|).
   */
  predicate Shaped(blocks: seq<seq<bv8>>, s: nat, L: nat)
  {
    s <= |blocks| && forall j :: 0 <= j < |blocks| ==> |blocks[j]| == (if j < s then L else L + 1)
  }

  /** Pass L writes the extra byte of each long block, in block order. */
  lemma {:induction false} LastPass(blocks: seq<seq<bv8>>, s: nat, L: nat)
    requires Shaped(blocks, s, L)
    ensures Round(blocks, L) == Extras(blocks, s, L)
    decreases |blocks|
  {
    if s == 0 {
      FullPass(blocks, L);
      assert Column(blocks, L) == Extras(blocks, 0, L);
    } else {
      assert Shaped(blocks[1..], s - 1, L);
      LastPass(blocks[1..], s - 1, L);
      assert Extras(blocks, s, L) == Extras(blocks[1..], s - 1, L);
    }
  }

  /** From pass L on, the flush writes the extra bytes of the long blocks and stops. */
  lemma FlushTail(blocks: seq<seq<bv8>>, s: nat, L: nat)
    requires Shaped(blocks, s, L)
    ensures FlushFrom(blocks, L) == Extras(blocks, s, L)
  {
    LastPass(blocks, s, L);
    PassBeyond(blocks, L + 1);
  }

  /** A pass below L writes byte i of every block, then the flush goes on. */
  lemma FlushStep(blocks: seq<seq<bv8>>, s: nat, L: nat, i: nat)
    requires Shaped(blocks, s, L) && i < L
    ensures FlushFrom(blocks, i) == Column(blocks, i) + FlushFrom(blocks, i + 1)
  {
    FullPass(blocks, i);
    if |blocks| == 0 {
      assert FlushFrom(blocks, i + 1) == [];
    }
  }

  /** m rows of n bytes, counted by addition. */
  function Rows(m: nat, n: nat): nat
  {
    if m == 0 then 0 else n + Rows(m - 1, n)
  }

  lemma {:induction false} RowsProduct(m: nat, n: nat)
    ensures Rows(m, n) == m * n
  {
    if m > 0 {
      RowsProduct(m - 1, n);
    }
  }

  /** The column-wise reading of shaped blocks from pass k on: byte k of every block, ..., then the extra bytes. */
  function Interleave(blocks: seq<seq<bv8>>, s: nat, L: nat, k: nat): seq<bv8>
    requires Shaped(blocks, s, L) && k <= L
    decreases L - k
  {
    if k == L then Extras(blocks, s, L)
    else Column(blocks, k) + Interleave(blocks, s, L, k + 1)
  }

  /** The flush of shaped blocks from pass k on is their column-wise reading. */
  lemma {:induction false} FlushIsInterleave(blocks: seq<seq<bv8>>, s: nat, L: nat, k: nat)
    requires Shaped(blocks, s, L) && k <= L
    ensures FlushFrom(blocks, k) == Interleave(blocks, s, L, k)
    decreases L - k
  {
    if k < L {
      FlushIsInterleave(blocks, s, L, k + 1);
      InterleaveStep(blocks, s, L, k);
    } else {
      InterleaveEnd(blocks, s, L);
    }
  }

  /** One pass of the induction: if the flush from pass k + 1 on is the reading from k + 1 on, so it is from k. */
  lemma InterleaveStep(blocks: seq<seq<bv8>>, s: nat, L: nat, k: nat)
    requires Shaped(blocks, s, L) && k < L
    requires FlushFrom(blocks, k + 1) == Interleave(blocks, s, L, k + 1)
    ensures FlushFrom(blocks, k) == Interleave(blocks, s, L, k)
  {
    FlushStep(blocks, s, L, k);
  }

  /** The base of the induction: the last pass is the extra bytes. */
  lemma InterleaveEnd(blocks: seq<seq<bv8>>, s: nat, L: nat)
    requires Shaped(blocks, s, L)
    ensures FlushFrom(blocks, L) == Interleave(blocks, s, L, L)
  {
    FlushTail(blocks, s, L);
  }

  lemma {:induction false} InterleaveLength(blocks: seq<seq<bv8>>, s: nat, L: nat, k: nat)
    requires Shaped(blocks, s, L) && k <= L
    ensures |Interleave(blocks, s, L, k)| == Rows(L - k, |blocks|) + (|blocks| - s)
    decreases L - k
  {
    if k < L {
      InterleaveLength(blocks, s, L, k + 1);
    }
  }

  /** From pass k on, the row of pass i (i < L) starts after i - k rows. */
  lemma {:induction false} InterleaveRowFrom(blocks: seq<seq<bv8>>, s: nat, L: nat, k: nat, i: nat)
    requires Shaped(blocks, s, L) && k <= i < L
    ensures Rows(i - k, |blocks|) + |blocks| <= |Interleave(blocks, s, L, k)|
    ensures Interleave(blocks, s, L, k)[Rows(i - k, |blocks|)..Rows(i - k, |blocks|) + |blocks|] == Column(blocks, i)
    decreases i - k
  {
    var rest := Interleave(blocks, s, L, k + 1);
    if k < i {
      InterleaveRowFrom(blocks, s, L, k + 1, i);
      SliceAfter(Column(blocks, k), rest, Rows(i - (k + 1), |blocks|), Rows(i - (k + 1), |blocks|) + |blocks|);
    } else {
      assert Interleave(blocks, s, L, k)[0..|blocks|] == Column(blocks, k);
    }
  }

  /** From pass k on, the extra bytes start after L - k rows and run to the end. */
  lemma {:induction false} InterleaveTailFrom(blocks: seq<seq<bv8>>, s: nat, L: nat, k: nat)
    requires Shaped(blocks, s, L) && k <= L
    ensures Rows(L - k, |blocks|) <= |Interleave(blocks, s, L, k)|
    ensures Interleave(blocks, s, L, k)[Rows(L - k, |blocks|)..] == Extras(blocks, s, L)
    decreases L - k
  {
    if k < L {
      var rest := Interleave(blocks, s, L, k + 1);
      InterleaveTailFrom(blocks, s, L, k + 1);
      SliceAfter(Column(blocks, k), rest, Rows(L - (k + 1), |blocks|), |rest|);
    } else {
      assert Interleave(blocks, s, L, k)[0..] == Extras(blocks, s, L);
    }
  }

  /** A slice of x + y lying past x is the slice of y shifted by |x|. */
  lemma SliceAfter(x: seq<bv8>, y: seq<bv8>, a: int, b: int)
    requires 0 <= a <= b <= |y|
    ensures (x + y)[|x| + a..|x| + b] == y[a..b]
  {
  }

  /** The column-wise reading holds L rows of |blocks| bytes and then the extra bytes. */
  lemma InterleaveSize(blocks: seq<seq<bv8>>, s: nat, L: nat)
    requires Shaped(blocks, s, L)
    ensures |Interleave(blocks, s, L, 0)| == L * |blocks| + (|blocks| - s)
  {
    InterleaveLength(blocks, s, L, 0);
    RowsProduct(L, |blocks|);
  }

  /** Row i of the column-wise reading, the bytes from i * |blocks| on, is byte i of every block in block order. */
  lemma InterleaveRow(blocks: seq<seq<bv8>>, s: nat, L: nat, i: nat)
    requires Shaped(blocks, s, L) && i < L
    ensures (i + 1) * |blocks| <= |Interleave(blocks, s, L, 0)|
    ensures Interleave(blocks, s, L, 0)[i * |blocks|..(i + 1) * |blocks|] == Column(blocks, i)
  {
    InterleaveRowFrom(blocks, s, L, 0, i);
    RowsProduct(i, |blocks|);
    NextRow(i, |blocks|);
  }

  lemma NextRow(i: nat, n: nat)
    ensures (i + 1) * n == i * n + n
  {
  }

  /** After the L rows come the extra bytes of the long blocks, in block order. */
  lemma InterleaveExtras(blocks: seq<seq<bv8>>, s: nat, L: nat)
    requires Shaped(blocks, s, L)
    ensures L * |blocks| <= |Interleave(blocks, s, L, 0)|
    ensures Interleave(blocks, s, L, 0)[L * |blocks|..] == Extras(blocks, s, L)
  {
    InterleaveTailFrom(blocks, s, L, 0);
    RowsProduct(L, |blocks|);
  }

  /** Column i holds byte i of block j at position j. */
  lemma ColumnAt(blocks: seq<seq<bv8>>, i: nat, j: nat)
    requires (forall j :: 0 <= j < |blocks| ==> i < |blocks[j]|) && j < |blocks|
    ensures Column(blocks, i)[j] == blocks[j][i]
  {
  }

  /**
   * The interleave of section 6.6: for blocks of L and then L + 1 bytes the
   * flush is their column-wise reading, laid out as InterleaveSize,
   * InterleaveRow and InterleaveExtras state.
   */
  lemma FlushInterleaves(blocks: seq<seq<bv8>>, s: nat, L: nat)
    requires Shaped(blocks, s, L)
    ensures FlushBlocks(blocks) == Interleave(blocks, s, L, 0)
  {
    FlushIsInterleave(blocks, s, L, 0);
  }

  /** Byte i < L of block j is written at position i * |blocks| + j. */
  lemma FlushOrder(blocks: seq<seq<bv8>>, s: nat, L: nat, i: nat, j: nat)
    requires Shaped(blocks, s, L) && i < L && j < |blocks|
    ensures i * |blocks| + j < |FlushBlocks(blocks)|
    ensures FlushBlocks(blocks)[i * |blocks| + j] == blocks[j][i]
  {
    FlushInterleaves(blocks, s, L);
    InterleaveRow(blocks, s, L, i);
    NextRow(i, |blocks|);
    SliceAt(FlushBlocks(blocks), i * |blocks|, |blocks|, Column(blocks, i), j);
    ColumnAt(blocks, i, j);
  }

  /** The extra byte L of a long block j >= s is written at position L * |blocks| + (j - s), after the L rows. */
  lemma FlushExtraOrder(blocks: seq<seq<bv8>>, s: nat, L: nat, j: nat)
    requires Shaped(blocks, s, L) && s <= j < |blocks|
    ensures |FlushBlocks(blocks)| == L * |blocks| + (|blocks| - s)
    ensures FlushBlocks(blocks)[L * |blocks| + (j - s)] == blocks[j][L]
  {
    FlushInterleaves(blocks, s, L);
    InterleaveSize(blocks, s, L);
    InterleaveExtras(blocks, s, L);
    SuffixAt(FlushBlocks(blocks), L * |blocks|, Extras(blocks, s, L), j - s);
  }

  /** Element k of a slice of length n starting at a is element a + k of the whole. */
  lemma SliceAt(r: seq<bv8>, a: nat, n: nat, t: seq<bv8>, k: nat)
    requires a + n <= |r| && r[a..a + n] == t && k < n
    ensures a + k < |r| && r[a + k] == t[k]
  {
    assert r[a + k] == r[a..a + n][k];
  }

  /** Element k of the suffix from a is element a + k of the whole. */
  lemma SuffixAt(r: seq<bv8>, a: nat, t: seq<bv8>, k: nat)
    requires a <= |r| && r[a..] == t && k < |t|
    ensures a + k < |r| && r[a + k] == t[k]
  {
    assert r[a + k] == r[a..][k];
  }

  // ------------------------------------------------------------------
  // The message sequence
  // ------------------------------------------------------------------

  /** The final codewords and the version and level they were built for. */
  datatype Message = Message(codewords: seq<bv8>, version: int, level: int)

  /** The data and error blocks of a padded message. */
  datatype Blocks = Blocks(data: seq<seq<bv8>>, error: seq<seq<bv8>>)

  /**
   * The blocks of a well-formed info: consecutive data slices of the padded
   * input, and the Reed-Solomon codewords of each.
   */
  function MakeBlocks(padded: seq<bv8>, info: ErrorCorrectionInfo): (r: Blocks)
    requires WellFormed(info) && |padded| == info.totalDataBytes
    ensures |r.data| == |r.error| == |Layout(info.blockCountInfos)|
    ensures Concat(r.data) == padded
    ensures |Concat(r.error)| == info.totalErrorBytes
    ensures forall j :: 0 <= j < |r.data| ==> TableShape(Layout(info.blockCountInfos)[j])
    ensures forall j :: 0 <= j < |r.data| ==> |r.data[j]| == Layout(info.blockCountInfos)[j].dataBytes
    ensures forall j :: 0 <= j < |r.data| ==> r.error[j] == Codewords(r.data[j], Layout(info.blockCountInfos)[j])
  {
    var groups := info.blockCountInfos;
    assert forall i :: 0 <= i < |groups| ==> 0 <= groups[i].blockCount by {
      assert forall i :: 0 <= i < |groups| ==> TableGroup(groups[i]);
    }
    LayoutSums(groups);
    var layout := Layout(groups);
    LayoutShapes(groups);
    var data := Split(padded, layout);
    var error := ErrorBlocks(data, layout);
    ErrorLengths(error, layout);
    Blocks(data, error)
  }

  lemma {:induction false} ErrorLengths(error: seq<seq<bv8>>, layout: seq<BlockInfo>)
    requires |error| == |layout|
    requires forall j :: 0 <= j < |error| ==> |error[j]| == layout[j].ErrorBytes()
    ensures |Concat(error)| == SumError(layout)
    decreases |layout|
  {
    if |layout| > 0 {
      ErrorLengths(error[1..], layout[1..]);
    }
  }

  /**
   * GetMessageSequence: select the shape, pad the input with zero bytes to the
   * data capacity, build the blocks, then write the interleaved data blocks
   * followed by the interleaved error blocks.
   */
  function MessageSequence(input: seq<bv8>, desired: int): (r: Result<Message>)
    ensures r.Failure? <==> SelectErrorCorrection(|input|, desired).Failure?
    ensures r.Failure? ==> r.error == SelectErrorCorrection(|input|, desired).error
    ensures r.Success? ==>
              var s := SelectErrorCorrection(|input|, desired).value;
              && r.value.version == s.version && r.value.level == s.level
              && |r.value.codewords| == s.info.totalDataBytes + s.info.totalErrorBytes == s.info.totalBytes
              && var blocks := MakeBlocks(input + Zeros(s.info.totalDataBytes - |input|), s.info);
                 r.value.codewords == FlushBlocks(blocks.data) + FlushBlocks(blocks.error)
  {
    var selection :- SelectErrorCorrection(|input|, desired);
    var info := selection.info;
    WellFormedIsConstructed(info);
    var padded := input + Zeros(info.totalDataBytes - |input|);
    var blocks := MakeBlocks(padded, info);
    Success(Message(FlushBlocks(blocks.data) + FlushBlocks(blocks.error), selection.version, selection.level))
  }

  /** The message holds the padded input and the error codewords, each byte once. */
  lemma MessageIsPermutation(input: seq<bv8>, desired: int)
    requires MessageSequence(input, desired).Success?
    ensures var s := SelectErrorCorrection(|input|, desired).value;
            var padded := input + Zeros(s.info.totalDataBytes - |input|);
            multiset(MessageSequence(input, desired).value.codewords)
              == multiset(padded) + multiset(Concat(MakeBlocks(padded, s.info).error))
  {
  }

  /**
   * Because row 13 repeats row 12, whatever fits version 13 at a level already
   * fits version 12, which the scan reaches first: version 13 is never chosen.
   */
  lemma Version13NeverSelected(inputBytes: int, desired: int)
    requires SelectErrorCorrection(inputBytes, desired).Success?
    ensures SelectErrorCorrection(inputBytes, desired).value.version != 13
  {
    var s := SelectErrorCorrection(inputBytes, desired).value;
    Version13RepeatsVersion12();
    assert Versions()[12] == Versions()[11];
    assert IsLevel(desired) ==> DataCapacity(Versions(), 13, desired) == DataCapacity(Versions(), 12, desired);
  }
}
