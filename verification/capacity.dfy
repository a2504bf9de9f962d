/**
 * The capacity table of QR symbols (Table 9 of ISO/IEC 18004:2006): for each
 * of the 40 versions and each of the four error-correction levels, the
 * groups of Reed-Solomon blocks, each group a block count and a block shape.
 */
module Capacity {
  import opened Wrappers
  import opened Arith

  // ------------------------------------------------------------------
  // Error tolerance levels (the enum's underlying values)
  // ------------------------------------------------------------------

  const VeryLow: int := 0
  const Low: int := 1
  const Medium: int := 2
  const High: int := 3

  /** The named members of the tolerance enum; any other int is a valid C# enum value too. */
  predicate IsLevel(level: int)
  {
    VeryLow <= level <= High
  }

  // ------------------------------------------------------------------
  // Block records
  // ------------------------------------------------------------------

  /** One Reed-Solomon block shape: its codeword count and how many of them are data. */
  datatype BlockInfo = BlockInfo(totalBytes: int, dataBytes: int)
  {
    /** Computed by the constructor; every shape in the table has data <= total <= 256. */
    function ErrorBytes(): int
    {
      totalBytes - dataBytes
    }
  }

  /** A group of equally shaped blocks. */
  datatype BlockCountInfo = BlockCountInfo(blockCount: int, blockInfo: BlockInfo)

  /** The block groups of one (version, level) pair and their totals. */
  datatype ErrorCorrectionInfo = ErrorCorrectionInfo(
    blockCountInfos: seq<BlockCountInfo>,
    totalDataBytes: int,
    totalErrorBytes: int,
    totalBytes: int)

  /** The shapes of the four levels of one version. */
  datatype CodeVersion = CodeVersion(l: ErrorCorrectionInfo, m: ErrorCorrectionInfo,
                                     q: ErrorCorrectionInfo, h: ErrorCorrectionInfo)

  // ------------------------------------------------------------------
  // Totals
  // ------------------------------------------------------------------

  /** Reference sum of BlockCount * DataBytes over the groups. */
  function DataSum(groups: seq<BlockCountInfo>): int
  {
    if |groups| == 0 then 0
    else groups[0].blockCount * groups[0].blockInfo.dataBytes + DataSum(groups[1..])
  }

  /** Reference sum of BlockCount * ErrorBytes over the groups. */
  function ErrorSum(groups: seq<BlockCountInfo>): int
  {
    if |groups| == 0 then 0
    else groups[0].blockCount * groups[0].blockInfo.ErrorBytes() + ErrorSum(groups[1..])
  }

  /** Reference sum of BlockCount * TotalBytes over the groups. */
  function CodewordSum(groups: seq<BlockCountInfo>): int
  {
    if |groups| == 0 then 0
    else groups[0].blockCount * groups[0].blockInfo.totalBytes + CodewordSum(groups[1..])
  }

  /**
   * The checked accumulation loop: per group, the data product and sum, then
   * the error product and sum, each failing with Overflow outside int32.
   */
  function Accumulate(groups: seq<BlockCountInfo>, data: int, error: int): (r: Result<(int, int)>)
    requires IsInt32(data) && IsInt32(error)
    ensures r.Success? ==> r.value == (data + DataSum(groups), error + ErrorSum(groups))
    ensures r.Success? ==> IsInt32(r.value.0) && IsInt32(r.value.1)
    ensures r.Failure? ==> r.error == Overflow
    decreases |groups|
  {
    if |groups| == 0 then Success((data, error))
    else
      var g := groups[0];
      var d := g.blockCount * g.blockInfo.dataBytes;
      if !IsInt32(d) || !IsInt32(data + d) then Failure(Overflow)
      else
        var e := g.blockCount * g.blockInfo.ErrorBytes();
        if !IsInt32(e) || !IsInt32(error + e) then Failure(Overflow)
        else Accumulate(groups[1..], data + d, error + e)
  }

  /**
   * The params constructor: keeps the groups, sums data and error bytes in a
   * checked context, and adds the two sums unchecked.
   */
  function NewErrorCorrectionInfo(groups: seq<BlockCountInfo>): (r: Result<ErrorCorrectionInfo>)
    ensures r.Success? ==> r.value.blockCountInfos == groups
    ensures r.Success? ==> r.value.totalDataBytes == DataSum(groups) && r.value.totalErrorBytes == ErrorSum(groups)
    ensures r.Success? ==> IsInt32(DataSum(groups)) && IsInt32(ErrorSum(groups))
    ensures r.Success? ==> r.value.totalBytes == WrapInt32(DataSum(groups) + ErrorSum(groups))
    ensures r.Failure? ==> r.error == Overflow
  {
    var sums :- Accumulate(groups, 0, 0);
    Success(ErrorCorrectionInfo(groups, sums.0, sums.1, WrapInt32(sums.0 + sums.1)))
  }

  /** A group whose fields are non-negative and whose error bytes do not wrap. */
  predicate NonNegativeGroup(g: BlockCountInfo)
  {
    0 <= g.blockCount && 0 <= g.blockInfo.dataBytes <= g.blockInfo.totalBytes <= MaxInt32
  }

  lemma MulNonNegative(a: int, b: int)
    requires 0 <= a && 0 <= b
    ensures 0 <= a * b
  {
  }

  /**
   * With non-negative groups the partial sums only grow, so the checked loop
   * succeeds exactly when the two final sums fit in int32.
   */
  lemma {:induction false} AccumulateSucceeds(groups: seq<BlockCountInfo>, data: int, error: int)
    requires 0 <= data <= MaxInt32 && 0 <= error <= MaxInt32
    requires forall i :: 0 <= i < |groups| ==> NonNegativeGroup(groups[i])
    ensures 0 <= DataSum(groups) && 0 <= ErrorSum(groups)
    ensures Accumulate(groups, data, error).Success?
         <==> data + DataSum(groups) <= MaxInt32 && error + ErrorSum(groups) <= MaxInt32
    decreases |groups|
  {
    if |groups| > 0 {
      var g := groups[0];
      assert NonNegativeGroup(g);
      MulNonNegative(g.blockCount, g.blockInfo.dataBytes);
      MulNonNegative(g.blockCount, g.blockInfo.ErrorBytes());
      var d, e := g.blockCount * g.blockInfo.dataBytes, g.blockCount * g.blockInfo.ErrorBytes();
      AccumulateSucceeds(groups[1..], 0, 0);
      if data + d <= MaxInt32 && error + e <= MaxInt32 {
        AccumulateSucceeds(groups[1..], data + d, error + e);
      }
    }
  }

  /** For non-negative groups, data plus error bytes is the sum of BlockCount * TotalBytes. */
  lemma {:induction false} SumsAddUp(groups: seq<BlockCountInfo>)
    requires forall i :: 0 <= i < |groups| ==> NonNegativeGroup(groups[i])
    ensures DataSum(groups) + ErrorSum(groups) == CodewordSum(groups)
    decreases |groups|
  {
    if |groups| > 0 {
      var g := groups[0];
      assert NonNegativeGroup(g);
      assert g.blockCount * g.blockInfo.dataBytes + g.blockCount * g.blockInfo.ErrorBytes()
          == g.blockCount * g.blockInfo.totalBytes;
      SumsAddUp(groups[1..]);
    }
  }

  // ------------------------------------------------------------------
  // The 3- and 6-argument constructors used by the table
  // ------------------------------------------------------------------

  /**
   * The shapes that occur in the table: at least one block, at least one data
   * byte, 1 to 127 error bytes (the generator cache), at most 256 codewords.
   */
  predicate TableGroup(g: BlockCountInfo)
  {
    1 <= g.blockCount <= 128 && 1 <= g.blockInfo.dataBytes < g.blockInfo.totalBytes <= 256
    && g.blockInfo.totalBytes - g.blockInfo.dataBytes <= 127
  }

  /** An ErrorCorrectionInfo of the table: one or two table groups with the reference totals. */
  predicate WellFormed(info: ErrorCorrectionInfo)
  {
    && 1 <= |info.blockCountInfos| <= 2
    && (forall i :: 0 <= i < |info.blockCountInfos| ==> TableGroup(info.blockCountInfos[i]))
    && info == Info(info.blockCountInfos)
  }

  lemma MulBounded(a: int, b: int, c: int, d: int)
    requires 0 <= a <= c && 0 <= b <= d
    ensures a * b <= c * d
  {
    assert a * b <= c * b;
  }

  /**
   * A well-formed info is what the checked constructor builds from its groups:
   * a table group holds at most 128 * 256 codewords, so nothing overflows.
   */
  lemma WellFormedIsConstructed(info: ErrorCorrectionInfo)
    requires WellFormed(info)
    ensures NewErrorCorrectionInfo(info.blockCountInfos) == Success(info)
    ensures info.totalBytes == CodewordSum(info.blockCountInfos) == info.totalDataBytes + info.totalErrorBytes
  {
    var groups := info.blockCountInfos;
    assert forall i :: 0 <= i < |groups| ==> NonNegativeGroup(groups[i]);
    var g := groups[0];
    assert TableGroup(g);
    MulBounded(g.blockCount, g.blockInfo.totalBytes, 128, 256);
    if |groups| == 2 {
      var h := groups[1];
      assert TableGroup(h);
      MulBounded(h.blockCount, h.blockInfo.totalBytes, 128, 256);
      assert groups[1..][1..] == [];
      assert CodewordSum(groups[1..]) == h.blockCount * h.blockInfo.totalBytes;
    } else {
      assert groups[1..] == [];
    }
    assert CodewordSum(groups) == g.blockCount * g.blockInfo.totalBytes + CodewordSum(groups[1..]);
    ConstructorAgrees(groups);
  }

  /** The constructor's value when no sum overflows: the reference totals. */
  function Info(groups: seq<BlockCountInfo>): ErrorCorrectionInfo
  {
    var data, error := DataSum(groups), ErrorSum(groups);
    ErrorCorrectionInfo(groups, data, error, data + error)
  }

  /** The 3-argument constructor: a single group. */
  function Info3(count: int, total: int, data: int): (r: ErrorCorrectionInfo)
    requires TableGroup(BlockCountInfo(count, BlockInfo(total, data)))
    ensures r.blockCountInfos == [BlockCountInfo(count, BlockInfo(total, data))]
    ensures WellFormed(r)
    ensures r.totalBytes == count * total
    ensures r.totalDataBytes == count * data
  {
    var groups := [BlockCountInfo(count, BlockInfo(total, data))];
    assert groups[1..] == [];
    assert TableGroup(groups[0]);
    assert DataSum(groups) == count * data + DataSum(groups[1..]);
    assert ErrorSum(groups) == count * (total - data) + ErrorSum(groups[1..]);
    Distribute(count, data, total - data);
    Info(groups)
  }

  /** The 6-argument constructor: two groups, A then B. */
  function Info6(countA: int, totalA: int, dataA: int, countB: int, totalB: int, dataB: int): (r: ErrorCorrectionInfo)
    requires TableGroup(BlockCountInfo(countA, BlockInfo(totalA, dataA)))
    requires TableGroup(BlockCountInfo(countB, BlockInfo(totalB, dataB)))
    ensures WellFormed(r)
    ensures r.blockCountInfos == [BlockCountInfo(countA, BlockInfo(totalA, dataA)), BlockCountInfo(countB, BlockInfo(totalB, dataB))]
    ensures r.totalBytes == countA * totalA + countB * totalB
    ensures r.totalDataBytes == countA * dataA + countB * dataB
  {
    var groups := [BlockCountInfo(countA, BlockInfo(totalA, dataA)), BlockCountInfo(countB, BlockInfo(totalB, dataB))];
    assert groups[1..][1..] == [];
    assert TableGroup(groups[0]) && TableGroup(groups[1]);
    assert DataSum(groups[1..]) == countB * dataB + DataSum(groups[1..][1..]);
    assert ErrorSum(groups[1..]) == countB * (totalB - dataB) + ErrorSum(groups[1..][1..]);
    Distribute(countA, dataA, totalA - dataA);
    Distribute(countB, dataB, totalB - dataB);
    Info(groups)
  }

  lemma Distribute(a: int, b: int, c: int)
    ensures a * b + a * c == a * (b + c)
  {
  }

  /**
   * For non-negative groups whose codeword total fits in int32, the checked
   * constructor succeeds with the reference totals, and TotalBytes does not wrap.
   */
  lemma ConstructorAgrees(groups: seq<BlockCountInfo>)
    requires forall i :: 0 <= i < |groups| ==> NonNegativeGroup(groups[i])
    requires CodewordSum(groups) <= MaxInt32
    ensures NewErrorCorrectionInfo(groups) == Success(Info(groups))
    ensures Info(groups).totalBytes == CodewordSum(groups)
  {
    SumsAddUp(groups);
    AccumulateSucceeds(groups, 0, 0);
  }

  // ------------------------------------------------------------------
  // CodeVersion
  // ------------------------------------------------------------------

  /** The four levels of a version hold the same number of codewords. */
  predicate SameTotal(version: CodeVersion)
  {
    version.l.totalBytes == version.m.totalBytes == version.q.totalBytes == version.h.totalBytes
  }

  /** The constructor; its debug assertion becomes a precondition. */
  function NewCodeVersion(l: ErrorCorrectionInfo, m: ErrorCorrectionInfo,
                          q: ErrorCorrectionInfo, h: ErrorCorrectionInfo): (r: CodeVersion)
    requires l.totalBytes == m.totalBytes == q.totalBytes == h.totalBytes
    ensures SameTotal(r)
    ensures forall level | IsLevel(level) :: CorrectionInfo(r, level).Success?
    ensures CorrectionInfo(r, VeryLow) == Success(l) && CorrectionInfo(r, Low) == Success(m)
    ensures CorrectionInfo(r, Medium) == Success(q) && CorrectionInfo(r, High) == Success(h)
  {
    CodeVersion(l, m, q, h)
  }

  /** GetCorrectionInfo: VeryLow, Low, Medium, High select L, M, Q, H; any other value fails. */
  function CorrectionInfo(version: CodeVersion, level: int): (r: Result<ErrorCorrectionInfo>)
    ensures r.Success? <==> IsLevel(level)
    ensures r.Failure? ==> r.error == ArgumentOutOfRange
    ensures r.Success? ==> r.value in {version.l, version.m, version.q, version.h}
  {
    if level == VeryLow then Success(version.l)
    else if level == Low then Success(version.m)
    else if level == Medium then Success(version.q)
    else if level == High then Success(version.h)
    else Failure(ArgumentOutOfRange)
  }

  /** Every level of a table version is well formed, and all levels share one total. */
  predicate TableVersion(version: CodeVersion)
  {
    SameTotal(version)
    && WellFormed(version.l) && WellFormed(version.m) && WellFormed(version.q) && WellFormed(version.h)
  }

  // ------------------------------------------------------------------
  // The table
  // ------------------------------------------------------------------

  /**
   * Row `index` of Table 9 as the source transcribes it, for version index + 1;
   * the version-13 row repeats version 12. Split in blocks of five rows.
   */
  function VersionRow(index: int): CodeVersion
    requires 0 <= index < 40
  {
    if index < 20 then
      if index < 10 then
        if index < 5 then
          VersionRows1To5(index)
        else
          VersionRows6To10(index)
      else
        if index < 15 then
          VersionRows11To15(index)
        else
          VersionRows16To20(index)
    else
      if index < 30 then
        if index < 25 then
          VersionRows21To25(index)
        else
          VersionRows26To30(index)
      else
        if index < 35 then
          VersionRows31To35(index)
        else
          VersionRows36To40(index)
  }

  function VersionRows1To5(index: int): CodeVersion
    requires 0 <= index < 5
  {
    if index < 2 then
      if index < 1 then
        // version 1
        NewCodeVersion(Info3(1, 26, 19), Info3(1, 26, 16), Info3(1, 26, 13), Info3(1, 26, 9))
      else
        // version 2
        NewCodeVersion(Info3(1, 44, 34), Info3(1, 44, 28), Info3(1, 44, 22), Info3(1, 44, 16))
    else
      if index < 3 then
        // version 3
        NewCodeVersion(Info3(1, 70, 55), Info3(1, 70, 44), Info3(2, 35, 17), Info3(2, 35, 13))
      else
        if index < 4 then
          // version 4
          NewCodeVersion(Info3(1, 100, 80), Info3(2, 50, 32), Info3(2, 50, 24), Info3(4, 25, 9))
        else
          // version 5
          NewCodeVersion(Info3(1, 134, 108), Info3(2, 67, 43), Info6(2, 33, 15, 2, 34, 16), Info6(2, 33, 11, 2, 34, 12))
  }

  function VersionRows6To10(index: int): CodeVersion
    requires 5 <= index < 10
  {
    if index < 7 then
      if index < 6 then
        // version 6
        NewCodeVersion(Info3(2, 86, 68), Info3(4, 43, 27), Info3(4, 43, 19), Info3(4, 43, 15))
      else
        // version 7
        NewCodeVersion(Info3(2, 98, 78), Info3(4, 49, 31), Info6(2, 32, 14, 4, 33, 15), Info6(4, 39, 13, 1, 40, 14))
    else
      if index < 8 then
        // version 8
        NewCodeVersion(Info3(2, 121, 97), Info6(2, 60, 38, 2, 61, 39), Info6(4, 40, 18, 2, 41, 19), Info6(4, 40, 14, 2, 41, 15))
      else
        if index < 9 then
          // version 9
          NewCodeVersion(Info3(2, 146, 116), Info6(3, 58, 36, 2, 59, 37), Info6(4, 36, 16, 4, 37, 17), Info6(4, 36, 12, 4, 37, 13))
        else
          // version 10
          NewCodeVersion(Info6(2, 86, 68, 2, 87, 69), Info6(4, 69, 43, 1, 70, 44), Info6(6, 43, 19, 2, 44, 20), Info6(6, 43, 15, 2, 44, 16))
  }

  function VersionRows11To15(index: int): CodeVersion
    requires 10 <= index < 15
  {
    if index < 12 then
      if index < 11 then
        // version 11
        NewCodeVersion(Info3(4, 101, 81), Info6(1, 80, 50, 4, 81, 51), Info6(4, 50, 22, 4, 51, 23), Info6(3, 36, 12, 8, 37, 13))
      else
        // version 12
        NewCodeVersion(Info6(2, 116, 92, 2, 117, 93), Info6(6, 58, 36, 2, 59, 37), Info6(4, 46, 20, 6, 47, 21), Info6(7, 42, 14, 4, 43, 15))
    else
      if index < 13 then
        // version 13
        NewCodeVersion(Info6(2, 116, 92, 2, 117, 93), Info6(6, 58, 36, 2, 59, 37), Info6(4, 46, 20, 6, 47, 21), Info6(7, 42, 14, 4, 43, 15))
      else
        if index < 14 then
          // version 14
          NewCodeVersion(Info6(3, 145, 115, 1, 146, 116), Info6(4, 64, 40, 5, 65, 41), Info6(11, 36, 16, 5, 37, 17), Info6(11, 36, 12, 5, 37, 13))
        else
          // version 15
          NewCodeVersion(Info6(5, 109, 87, 1, 110, 88), Info6(5, 65, 41, 5, 66, 42), Info6(5, 54, 24, 7, 55, 25), Info6(11, 36, 12, 7, 37, 13))
  }

  function VersionRows16To20(index: int): CodeVersion
    requires 15 <= index < 20
  {
    if index < 17 then
      if index < 16 then
        // version 16
        NewCodeVersion(Info6(5, 122, 98, 1, 123, 99), Info6(7, 73, 45, 3, 74, 46), Info6(15, 43, 19, 2, 44, 20), Info6(3, 45, 15, 13, 46, 16))
      else
        // version 17
        NewCodeVersion(Info6(1, 135, 107, 5, 136, 108), Info6(10, 74, 46, 1, 75, 47), Info6(1, 50, 22, 15, 51, 23), Info6(2, 42, 14, 17, 43, 15))
    else
      if index < 18 then
        // version 18
        NewCodeVersion(Info6(5, 150, 120, 1, 151, 121), Info6(9, 69, 43, 4, 70, 44), Info6(17, 50, 22, 1, 51, 23), Info6(2, 42, 14, 19, 43, 15))
      else
        if index < 19 then
          // version 19
          NewCodeVersion(Info6(3, 141, 113, 4, 142, 114), Info6(3, 70, 44, 11, 71, 45), Info6(17, 47, 21, 4, 48, 22), Info6(9, 39, 13, 16, 40, 14))
        else
          // version 20
          NewCodeVersion(Info6(3, 135, 107, 5, 136, 108), Info6(3, 67, 41, 13, 68, 42), Info6(15, 54, 24, 5, 55, 25), Info6(15, 43, 15, 10, 44, 16))
  }

  function VersionRows21To25(index: int): CodeVersion
    requires 20 <= index < 25
  {
    if index < 22 then
      if index < 21 then
        // version 21
        NewCodeVersion(Info6(4, 144, 116, 4, 145, 117), Info3(17, 68, 42), Info6(17, 50, 22, 6, 51, 23), Info6(19, 46, 16, 6, 47, 17))
      else
        // version 22
        NewCodeVersion(Info6(2, 139, 111, 7, 140, 112), Info3(17, 74, 46), Info6(7, 54, 24, 16, 55, 25), Info3(34, 37, 13))
    else
      if index < 23 then
        // version 23
        NewCodeVersion(Info6(4, 151, 121, 5, 152, 122), Info6(4, 75, 47, 14, 76, 48), Info6(11, 54, 24, 14, 55, 25), Info6(16, 45, 15, 14, 46, 16))
      else
        if index < 24 then
          // version 24
          NewCodeVersion(Info6(6, 147, 117, 4, 148, 118), Info6(6, 73, 45, 14, 74, 46), Info6(11, 54, 24, 16, 55, 25), Info6(30, 46, 16, 2, 47, 17))
        else
          // version 25
          NewCodeVersion(Info6(8, 132, 106, 4, 133, 107), Info6(8, 75, 47, 13, 76, 48), Info6(7, 54, 24, 22, 55, 25), Info6(22, 45, 15, 13, 46, 16))
  }

  function VersionRows26To30(index: int): CodeVersion
    requires 25 <= index < 30
  {
    if index < 27 then
      if index < 26 then
        // version 26
        NewCodeVersion(Info6(10, 142, 114, 2, 143, 115), Info6(19, 74, 46, 4, 75, 47), Info6(28, 50, 22, 6, 51, 23), Info6(33, 46, 16, 4, 47, 17))
      else
        // version 27
        NewCodeVersion(Info6(8, 152, 122, 4, 153, 123), Info6(22, 73, 45, 3, 74, 46), Info6(8, 53, 23, 26, 54, 24), Info6(12, 45, 15, 28, 46, 16))
    else
      if index < 28 then
        // version 28
        NewCodeVersion(Info6(3, 147, 117, 10, 148, 118), Info6(3, 73, 45, 23, 74, 46), Info6(4, 54, 24, 31, 55, 25), Info6(11, 45, 15, 31, 46, 16))
      else
        if index < 29 then
          // version 29
          NewCodeVersion(Info6(7, 146, 116, 7, 147, 117), Info6(21, 73, 45, 7, 74, 46), Info6(1, 53, 23, 37, 54, 24), Info6(19, 45, 15, 26, 46, 16))
        else
          // version 30
          NewCodeVersion(Info6(5, 145, 115, 10, 146, 116), Info6(19, 75, 47, 10, 76, 48), Info6(15, 54, 24, 25, 55, 25), Info6(23, 45, 15, 25, 46, 16))
  }

  function VersionRows31To35(index: int): CodeVersion
    requires 30 <= index < 35
  {
    if index < 32 then
      if index < 31 then
        // version 31
        NewCodeVersion(Info6(13, 145, 115, 3, 146, 116), Info6(2, 74, 46, 29, 75, 47), Info6(42, 54, 24, 1, 55, 25), Info6(23, 45, 15, 28, 46, 16))
      else
        // version 32
        NewCodeVersion(Info3(17, 145, 115), Info6(10, 74, 46, 23, 75, 47), Info6(10, 54, 24, 35, 55, 25), Info6(19, 45, 15, 35, 46, 16))
    else
      if index < 33 then
        // version 33
        NewCodeVersion(Info6(17, 145, 115, 1, 146, 116), Info6(14, 74, 46, 21, 75, 47), Info6(29, 54, 24, 19, 55, 25), Info6(11, 45, 15, 46, 46, 16))
      else
        if index < 34 then
          // version 34
          NewCodeVersion(Info6(13, 145, 115, 6, 146, 116), Info6(14, 74, 46, 23, 75, 47), Info6(44, 54, 24, 7, 55, 25), Info6(59, 46, 16, 1, 47, 17))
        else
          // version 35
          NewCodeVersion(Info6(12, 151, 121, 7, 152, 122), Info6(12, 75, 47, 26, 76, 48), Info6(39, 54, 24, 14, 55, 25), Info6(22, 45, 15, 41, 46, 16))
  }

  function VersionRows36To40(index: int): CodeVersion
    requires 35 <= index < 40
  {
    if index < 37 then
      if index < 36 then
        // version 36
        NewCodeVersion(Info6(6, 151, 121, 14, 152, 122), Info6(6, 75, 47, 34, 76, 48), Info6(46, 54, 24, 10, 55, 25), Info6(2, 45, 15, 64, 46, 16))
      else
        // version 37
        NewCodeVersion(Info6(17, 152, 122, 4, 153, 123), Info6(29, 74, 46, 14, 75, 47), Info6(49, 54, 24, 10, 55, 25), Info6(24, 45, 15, 46, 46, 16))
    else
      if index < 38 then
        // version 38
        NewCodeVersion(Info6(4, 152, 122, 18, 153, 123), Info6(13, 74, 46, 32, 75, 47), Info6(48, 54, 24, 14, 55, 25), Info6(42, 45, 15, 32, 46, 16))
      else
        if index < 39 then
          // version 39
          NewCodeVersion(Info6(20, 147, 117, 4, 148, 118), Info6(40, 75, 47, 7, 76, 48), Info6(43, 54, 24, 22, 55, 25), Info6(10, 45, 15, 67, 46, 16))
        else
          // version 40
          NewCodeVersion(Info6(19, 148, 118, 6, 149, 119), Info6(18, 75, 47, 31, 76, 48), Info6(34, 54, 24, 34, 55, 25), Info6(20, 45, 15, 61, 46, 16))
  }


  /** The row for version 13 repeats the row for version 12 verbatim. */
  lemma Version13RepeatsVersion12()
    ensures VersionRow(12) == VersionRow(11)
  {
  }

  /** GetQuickResponseCodeVersionInfo: row version - 1 of the table. */
  function VersionInfo(version: int): (r: Result<CodeVersion>)
    ensures r.Success? <==> 1 <= version <= 40
    ensures r.Failure? ==> r.error == IndexOutOfRange
    ensures r.Success? ==> TableVersion(r.value)
  {
    if 1 <= version <= 40 then
      TableIsWellFormed(version - 1);
      Success(VersionRow(version - 1))
    else Failure(IndexOutOfRange)
  }

  /** The CodeVersion debug assertion and the constructors' bounds hold on every row. */
  lemma TableIsWellFormed(i: int)
    requires 0 <= i < 40
    ensures TableVersion(VersionRow(i))
  {
    if i < 4 { TableRows0(i); }
    else if i < 8 { TableRows4(i); }
    else if i < 12 { TableRows8(i); }
    else if i < 16 { TableRows12(i); }
    else if i < 20 { TableRows16(i); }
    else if i < 24 { TableRows20(i); }
    else if i < 28 { TableRows24(i); }
    else if i < 32 { TableRows28(i); }
    else if i < 36 { TableRows32(i); }
    else { TableRows36(i); }
  }

  lemma TableRows0(i: int)
    requires 0 <= i < 4
    ensures TableVersion(VersionRow(i))
  {
  }

  lemma TableRows4(i: int)
    requires 4 <= i < 8
    ensures TableVersion(VersionRow(i))
  {
  }

  lemma TableRows8(i: int)
    requires 8 <= i < 12
    ensures TableVersion(VersionRow(i))
  {
  }

  lemma TableRows12(i: int)
    requires 12 <= i < 16
    ensures TableVersion(VersionRow(i))
  {
  }

  lemma TableRows16(i: int)
    requires 16 <= i < 20
    ensures TableVersion(VersionRow(i))
  {
  }

  lemma TableRows20(i: int)
    requires 20 <= i < 24
    ensures TableVersion(VersionRow(i))
  {
  }

  lemma TableRows24(i: int)
    requires 24 <= i < 28
    ensures TableVersion(VersionRow(i))
  {
  }

  lemma TableRows28(i: int)
    requires 28 <= i < 32
    ensures TableVersion(VersionRow(i))
  {
  }

  lemma TableRows32(i: int)
    requires 32 <= i < 36
    ensures TableVersion(VersionRow(i))
  {
  }

  lemma TableRows36(i: int)
    requires 36 <= i < 40
    ensures TableVersion(VersionRow(i))
  {
  }
}
