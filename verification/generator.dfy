/**
 * The encoder's entry point: the argument checks, payload validation, the
 * byte-mode frame of section 6.4.5 of ISO/IEC 18004:2006 (mode indicator 0100,
 * the character count, the data, the terminator 0000) and the assembly of the
 * finished symbol from the message sequence.
 */
module Generator {
  import opened Wrappers
  import opened Arith
  import opened Capacity
  import opened ErrorCorrection
  import opened DataMatrix
  import SymbolTemplates
  import SymbolCompletion

  // ------------------------------------------------------------------
  // Argument checks and validation
  // ------------------------------------------------------------------

  /** CodeImageFormat's two members, in declaration order. */
  const Jpeg: int := 0
  const Png: int := 1

  /** The bytes a payload may hold: U+0020 .. U+007E. */
  predicate Printable(b: Byte)
  {
    0x20 <= b <= 0x7E
  }

  /** The index of the first byte that is not printable, or |s| if every byte is. */
  function FirstUnprintable(s: seq<Byte>): (k: int)
    ensures 0 <= k <= |s|
    ensures forall i :: 0 <= i < k ==> Printable(s[i])
    ensures k < |s| ==> !Printable(s[k])
  {
    if |s| == 0 then 0
    else if !Printable(s[0]) then 0
    else 1 + FirstUnprintable(s[1..])
  }

  /**
   * ValidateInputData: a null payload is ArgumentNull, a payload with a byte
   * outside 0x20 .. 0x7E is Argument, and anything else, the empty payload
   * included, is accepted as it is.
   */
  function ValidateInputData(data: Option<seq<Byte>>): (r: Result<seq<Byte>>)
    ensures data.None? ==> r == Failure(ArgumentNull)
    ensures data.Some? ==>
      (r == Success(data.value) <==> forall i :: 0 <= i < |data.value| ==> Printable(data.value[i]))
    ensures data.Some? && r.Failure? ==>
      r.error == Argument && exists i :: 0 <= i < |data.value| && !Printable(data.value[i])
  {
    if data.None? then Failure(ArgumentNull)
    else if FirstUnprintable(data.value) < |data.value| then Failure(Argument)
    else Success(data.value)
  }

  /** The empty payload passes validation. */
  lemma EmptyPayloadAccepted()
    ensures ValidateInputData(Some([])) == Success([])
  {
  }

  /**
   * The range checks, in the order they are made: the tolerance first, then
   * the image format; either out of range is ArgumentOutOfRange.
   */
  function CheckArguments(level: int, imageFormat: int): (r: Result<int>)
    ensures r.Success? <==> IsLevel(level) && Jpeg <= imageFormat <= Png
    ensures r.Success? ==> r.value == level
    ensures r.Failure? ==> r.error == ArgumentOutOfRange
  {
    if level < VeryLow || level > High then Failure(ArgumentOutOfRange)
    else if imageFormat < Jpeg || imageFormat > Png then Failure(ArgumentOutOfRange)
    else Success(level)
  }

  // ------------------------------------------------------------------
  // The character count's width
  // ------------------------------------------------------------------

  /**
   * The count gets 16 bits when the payload and its two frame bytes do not fit
   * the version-9 capacity at the desired level.
   */
  function Requires16BitLength(n: int, level: int): bool
    requires IsLevel(level)
  {
    DataCapacity(Versions(), 9, level) - 2 < n
  }

  /** Version 9's data capacity at each level (Table 7). */
  lemma Version9Capacity(level: int)
    requires IsLevel(level)
    ensures DataCapacity(Versions(), 9, level) ==
      if level == VeryLow then 232 else if level == Low then 182 else if level == Medium then 132 else 100
  {
    assert Versions()[8] == VersionRow(8);
  }

  lemma RowsOneToFive(index: int)
    requires 0 <= index < 5
    ensures VersionRow(index).l.totalDataBytes <= 232 && VersionRow(index).m.totalDataBytes <= 182
    ensures VersionRow(index).q.totalDataBytes <= 132 && VersionRow(index).h.totalDataBytes <= 100
  {
  }

  lemma RowsSixToNine(index: int)
    requires 5 <= index < 9
    ensures VersionRow(index).l.totalDataBytes <= 232 && VersionRow(index).m.totalDataBytes <= 182
    ensures VersionRow(index).q.totalDataBytes <= 132 && VersionRow(index).h.totalDataBytes <= 100
  {
  }

  /** No version below 10 holds more than version 9, at any level. */
  lemma EarlyCapacity(version: int, level: int)
    requires 1 <= version <= 9 && IsLevel(level)
    ensures DataCapacity(Versions(), version, level) <= DataCapacity(Versions(), 9, level)
  {
    Version9Capacity(level);
    assert Versions()[version - 1] == VersionRow(version - 1);
    if version <= 5 {
      RowsOneToFive(version - 1);
    } else {
      RowsSixToNine(version - 1);
    }
  }

  /** With the 8-bit count the payload has fewer than 256 bytes, so (byte) does not truncate it. */
  lemma NarrowCountExact(n: int, level: int)
    requires IsLevel(level) && 0 <= n && !Requires16BitLength(n, level)
    ensures n < 256
  {
    Version9Capacity(level);
  }

  // ------------------------------------------------------------------
  // The frame
  // ------------------------------------------------------------------

  /** The count field's width: 16 bits for versions 10 and above, else 8. */
  function CountBits(wide: bool): nat
  {
    if wide then 16 else 8
  }

  /** The count as the (ushort) and (byte) casts leave it. */
  function CountField(n: nat, wide: bool): (c: int)
    ensures 0 <= c < Pow2(CountBits(wide))
  {
    Pow2Of8();
    Pow2Of16();
    if wide then n % 0x1_0000 else n % 0x100
  }

  lemma Pow2Of16()
    ensures Pow2(16) == 0x1_0000
  {
    Pow2Of8();
    Pow2Add(8, 8);
  }

  /** The frame's bits: mode 0100, the count, the payload, terminator 0000. */
  function FrameBits(data: seq<Byte>, wide: bool): seq<bool>
  {
    Bits(4, 4) + Bits(CountField(|data|, wide), CountBits(wide)) + BytesBits(data) + Bits(0, 4)
  }

  /**
   * GetTemplate's writer: the frame's bits come out as whole bytes, n + 2 of
   * them with the 8-bit count and n + 3 with the 16-bit one, so ToArray drops
   * nothing.
   */
  method Frame(data: seq<Byte>, wide: bool) returns (bytes: seq<Byte>)
    ensures |bytes| == |data| + (if wide then 3 else 2)
    ensures BytesBits(bytes) == FrameBits(data, wide)
  {
    var w := FrameWriter(data, wide);
    assert |Stream(w)| == 8 * (|data| + (if wide then 3 else 2));
    bytes := ToArray(w);
  }

  /** The writer after the four writes of the frame. */
  method FrameWriter(data: seq<Byte>, wide: bool) returns (w: Writer)
    ensures Valid(w) && Stream(w) == FrameBits(data, wide)
  {
    var mode, count := Bits(4, 4), Bits(CountField(|data|, wide), CountBits(wide));
    assert Stream(Empty) == [];
    w := WriteNibble(Empty, 4);
    assert Stream(w) == mode;
    if wide {
      w := WriteWord(w, CountField(|data|, true));
    } else {
      w := WriteByte(w, CountField(|data|, false));
    }
    assert Stream(w) == mode + count;
    w := WriteBytes(w, data);
    w := WriteNibble(w, 0);
  }

  /** The value of a bit string read most significant bit first. */
  function BitsValue(bits: seq<bool>): (v: nat)
  {
    if |bits| == 0 then 0
    else 2 * BitsValue(bits[..|bits| - 1]) + (if bits[|bits| - 1] then 1 else 0)
  }

  /** Reading the low n bits back gives the value, when it fits in n bits. */
  lemma {:induction false} BitsValueOfBits(v: int, n: nat)
    requires 0 <= v < Pow2(n)
    ensures BitsValue(Bits(v, n)) == v
    decreases n
  {
    if n > 0 {
      var s := Bits(v, n);
      assert s[..|s| - 1] == Bits(v / 2, n - 1);
      BitsValueOfBits(v / 2, n - 1);
    }
  }

  /**
   * A reader of the frame finds each field where it was written: the mode
   * indicator 4, the count as cast, the payload's bits, and the terminator.
   */
  lemma FrameReadsBack(data: seq<Byte>, wide: bool)
    ensures var bits := FrameBits(data, wide);
      var k := CountBits(wide);
      && |bits| == 8 * |data| + 8 + k
      && BitsValue(bits[..4]) == 4
      && BitsValue(bits[4..4 + k]) == CountField(|data|, wide)
      && bits[4 + k..4 + k + 8 * |data|] == BytesBits(data)
      && BitsValue(bits[4 + k + 8 * |data|..]) == 0
  {
    var k := CountBits(wide);
    var mode, count, payload, terminator := Bits(4, 4), Bits(CountField(|data|, wide), k), BytesBits(data), Bits(0, 4);
    var bits := FrameBits(data, wide);
    assert bits == mode + count + payload + terminator;
    FourFields(mode, count, payload, terminator);
    Pow2Of8();
    assert Pow2(4) == 16;
    BitsValueOfBits(4, 4);
    BitsValueOfBits(CountField(|data|, wide), k);
    BitsValueOfBits(0, 4);
  }

  /** The four parts of a concatenation can be cut out again by their lengths. */
  lemma FourFields(a: seq<bool>, b: seq<bool>, c: seq<bool>, d: seq<bool>)
    ensures var s := a + b + c + d;
      && s[..|a|] == a && s[|a|..|a| + |b|] == b
      && s[|a| + |b|..|a| + |b| + |c|] == c && s[|a| + |b| + |c|..] == d
  {
  }

  // ------------------------------------------------------------------
  // Assembly
  // ------------------------------------------------------------------

  /** The writer's bytes as the field elements the error correction works on. */
  function ToCodewords(bytes: seq<Byte>): (c: seq<bv8>)
    ensures |c| == |bytes|
  {
    seq(|bytes|, i requires 0 <= i < |bytes| => bytes[i] as bv8)
  }

  /** Codewords as the bytes PopulateData places. */
  function FromCodewords(c: seq<bv8>): (bytes: seq<Byte>)
    ensures |bytes| == |c|
  {
    seq(|c|, i requires 0 <= i < |c| => c[i] as int)
  }

  /**
   * The template for the framed bytes before completion: the version chosen
   * for them, the achieved level (not the requested one), and the message
   * sequence placed in it.
   */
  function Populated(framed: seq<Byte>, level: int): (r: Result<SymbolTemplates.Template>)
    ensures r.Failure? <==> SelectErrorCorrection(|framed|, level).Failure?
    ensures r.Failure? ==> r.error == SelectErrorCorrection(|framed|, level).error
    ensures r.Success? ==>
      var s := SelectErrorCorrection(|framed|, level).value;
      && SymbolTemplates.Valid(r.value) && |r.value.modules| > 0
      && r.value.version == s.version && r.value.level == s.level && IsLevel(r.value.level)
  {
    var message :- MessageSequence(ToCodewords(framed), level);
    var t := SymbolTemplates.NewTemplate(message.version).(level := message.level);
    Success(SymbolTemplates.PopulateData(t, FromCodewords(message.codewords)))
  }

  /**
   * The second half of GetTemplate: the populated template for the framed
   * bytes, completed with the mask of least penalty among those tried. The
   * only failure is a frame too long for every version.
   */
  method Assemble(framed: seq<Byte>, level: int) returns (r: Result<SymbolTemplates.Template>, mask: int)
    requires IsLevel(level)
    ensures r.Failure? <==> SelectErrorCorrection(|framed|, level).Failure?
    ensures r.Failure? ==> r.error == InputTooLong
    ensures r.Success? ==>
      var s := SelectErrorCorrection(|framed|, level).value;
      && SymbolTemplates.Valid(r.value)
      && r.value.version == s.version && r.value.level == s.level && level <= r.value.level
    ensures r.Success? ==>
      && 0 <= mask < SymbolCompletion.MaskPredicateCount - 1
      && var p := Populated(framed, level).value;
         && r == SymbolCompletion.Finish(p, mask)
         && forall k :: 0 <= k < SymbolCompletion.MaskPredicateCount - 1 ==>
              SymbolCompletion.Score(p.modules, mask) <= SymbolCompletion.Score(p.modules, k)
  {
    var populated := Populated(framed, level);
    if populated.Failure? {
      r, mask := Failure(populated.error), 0;
      return;
    }
    var template := populated.value;
    r, mask := SymbolCompletion.Complete(template);
  }

  /**
   * GetTemplate: frame the payload, with the 16-bit count exactly when it does
   * not fit version 9, then assemble the symbol. The 8-bit count always fits
   * and never truncates, and the wide count goes with exactly the versions
   * from 10 on.
   */
  method GetTemplate(data: seq<Byte>, level: int) returns (r: Result<SymbolTemplates.Template>, framed: seq<Byte>, mask: int)
    requires IsLevel(level)
    ensures var wide := Requires16BitLength(|data|, level);
      && |framed| == |data| + (if wide then 3 else 2)
      && BytesBits(framed) == FrameBits(data, wide)
    ensures r.Failure? <==> SelectErrorCorrection(|framed|, level).Failure?
    ensures r.Failure? ==> r.error == InputTooLong
    ensures !Requires16BitLength(|data|, level) ==> r.Success? && |data| < 256
    ensures r.Success? ==> SymbolTemplates.Valid(r.value) && level <= r.value.level
    ensures r.Success? ==> (Requires16BitLength(|data|, level) <==> r.value.version >= 10)
    ensures r.Success? ==>
      && 0 <= mask < SymbolCompletion.MaskPredicateCount - 1
      && r == SymbolCompletion.Finish(Populated(framed, level).value, mask)
  {
    framed := FramePayload(data, level);
    r, mask := Assemble(framed, level);
  }

  /**
   * The first half of GetTemplate: the frame, with the count width chosen by
   * the version-9 capacity. A narrow frame is always selected for, and a
   * selected frame lands at version 10 or later exactly when its count is wide.
   */
  method FramePayload(data: seq<Byte>, level: int) returns (framed: seq<Byte>)
    requires IsLevel(level)
    ensures var wide := Requires16BitLength(|data|, level);
      && |framed| == |data| + (if wide then 3 else 2)
      && BytesBits(framed) == FrameBits(data, wide)
    ensures !Requires16BitLength(|data|, level) ==> SelectErrorCorrection(|framed|, level).Success? && |data| < 256
    ensures SelectErrorCorrection(|framed|, level).Success? ==>
      (Requires16BitLength(|data|, level) <==> SelectErrorCorrection(|framed|, level).value.version >= 10)
  {
    var wide := Requires16BitLength(|data|, level);
    framed := Frame(data, wide);
    if !wide {
      NarrowFrameFits(|data|, level);
    }
    if SelectErrorCorrection(|framed|, level).Success? {
      WideMeansLateVersion(|data|, |framed|, level);
    }
  }

  /** A frame with the 8-bit count fits version 9, so some version is selected. */
  lemma NarrowFrameFits(n: int, level: int)
    requires IsLevel(level) && 0 <= n && !Requires16BitLength(n, level)
    ensures n < 256 && SelectErrorCorrection(n + 2, level).Success?
  {
    NarrowCountExact(n, level);
    assert DataCapacity(Versions(), 9, level) >= n + 2;
  }

  /**
   * The selection for the framed length is at version 10 or later exactly when
   * the count is wide: a narrow frame fits version 9, a wide one fits no
   * version below 10.
   */
  lemma WideMeansLateVersion(n: int, framed: int, level: int)
    requires IsLevel(level) && 0 <= n
    requires framed == n + (if Requires16BitLength(n, level) then 3 else 2)
    requires SelectErrorCorrection(framed, level).Success?
    ensures Requires16BitLength(n, level) <==> SelectErrorCorrection(framed, level).value.version >= 10
  {
    var s := SelectErrorCorrection(framed, level).value;
    if Requires16BitLength(n, level) {
      if s.version <= 9 {
        EarlyCapacity(s.version, level);
        assert false;
      }
    } else {
      if s.version >= 10 {
        assert false;
      }
    }
  }

  /**
   * GetQuickResponseCodeAsync up to the image: the range checks, then
   * validation, then the template.
   */
  method Generate(data: Option<seq<Byte>>, level: int, imageFormat: int) returns (r: Result<SymbolTemplates.Template>)
    ensures !IsLevel(level) ==> r == Failure(ArgumentOutOfRange)
    ensures IsLevel(level) && !(Jpeg <= imageFormat <= Png) ==> r == Failure(ArgumentOutOfRange)
    ensures CheckArguments(level, imageFormat).Success? ==>
      (data.None? ==> r == Failure(ArgumentNull)) &&
      (ValidateInputData(data).Failure? ==> r == ValidateInputData(data).PropagateFailure())
    ensures r.Success? ==> CheckArguments(level, imageFormat).Success? && ValidateInputData(data).Success?
    ensures r.Success? ==> SymbolTemplates.Valid(r.value) && level <= r.value.level
  {
    var checked := CheckArguments(level, imageFormat);
    if checked.Failure? {
      return Failure(checked.error);
    }
    var payload := ValidateInputData(data);
    if payload.Failure? {
      return Failure(payload.error);
    }
    var framed, mask;
    r, framed, mask := GetTemplate(payload.value, level);
  }
}
