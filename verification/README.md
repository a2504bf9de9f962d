# A verified model of the Vecc.QuickResponseCodes encoder core

This project is a Dafny model of the encoding core of Vecc.QuickResponseCodes.
That library turns a byte payload into a QR symbol following ISO/IEC
18004:2006, using byte mode only. The model follows the library's own
structure, one module per class or concern:

- `GaloisField`: GF(2^8) tables, multiplication, powers, and polynomial
  product and remainder.
- `ReedSolomon`: generator polynomials and error correction codewords.
- `Capacity`: the block records, their totals, and the 40-row capacity table
  (Table 9 of the standard).
- `ErrorCorrection`: version and level selection, block splitting, and
  column-wise interleaving into the final message.
- `DataMatrix`: the MSB-first bit writer.
- `ModuleBlocks`: the packed two-bit module grid, plus the abstract
  `Grid` view the rest of the model draws on.
- `AlignmentPatterns`, `FinderPatterns`, `Mapping`, `Masking`: the
  alignment coordinate table, the finder-pattern shift register, the zig-zag
  placement order, and the mask conditions and penalty scores.
- `Skeleton`, `SymbolTemplates`, `FormatInformation`, `Bch`,
  `SymbolCompletion`: the function patterns, data placement, format
  information, mask selection and completion of a symbol.
- `Generator`: argument checks, framing of the payload and the whole
  pipeline.
- `Imaging`: the colour buffer `ToImage` fills before it builds a bitmap.

Operations are pure functions over immutable datatypes where the source
mutates an object. Loops that matter to a property (bit writer chunks,
mask application, format bits, version blocks, rectangle fills) are
methods whose loop invariants connect them to a declarative definition.
An exception in the source is a `Failure` of the `Result` type in
`Wrappers`, carrying the exception's kind.

The model reproduces the library's behaviour where it departs from the
standard:

- Row 13 of the capacity table repeats row 12.
- The payload is padded with zero bytes, not the 0xEC/0x11 pad codewords.
- Only masks 0 to 6 are scored.
- Version-information module i shows bit i + 1 of the encoding.
- `DrawRect` treats `xor = true` as OR and its default as overwrite.
- Data and format bits are ORed into the grid.
- The placement array has width²/8 entries.
- The guard `thisByte > byte.MaxValue` in `PopulateData` never fires: the
  end-of-stream value -1 is below it. The loop stops after placing the last
  byte, so an empty payload ORs the eight one-bits of -1 into the first
  placement.

The library's written description says that an empty payload is
rejected. The code accepts it (`ValidateInputData` only checks for null
and for unprintable bytes), and the model follows the code
(`Generator.EmptyPayloadAccepted`).

## Model

| member | source | states |
|---|---|---|
| `GaloisField.Fill` | src/Vecc.QuickResponseCodes/Internal/Utils/GaloisField.cs:23-34 | the construction loop from iteration i on: it succeeds exactly when every later accumulator stays below 256; otherwise the log-table store fails with IndexOutOfRange. On success exp[k] is the k-th accumulator and log[a] is the last iteration that produced a |
| `GaloisField.NewTables` | src/Vecc.QuickResponseCodes/Internal/Utils/GaloisField.cs:15-35 | the constructor for any reducer: 255 exp entries and 256 log entries, exp[0] = 1, each entry the previous one doubled and reduced when bit 8 is set, log[a] the last exponent that produced a (0 when none did); IndexOutOfRange exactly when some accumulator reaches 256 |
| `GaloisField.ExpAtIsByte` | src/Vecc.QuickResponseCodes/Internal/Utils/GaloisField.cs:22-31 | for a reducer of degree 8 (0x100 .. 0x1FF) every accumulator value is below 256 |
| `GaloisField.DegreeEightReducerBuilds` | src/Vecc.QuickResponseCodes/Internal/Utils/GaloisField.cs:15-35 | the constructor never fails for a reducer of degree 8, 0x11D among them |
| `GaloisField.StepIsDoubling` | src/Vecc.QuickResponseCodes/Internal/Utils/GaloisField.cs:25-29 | for 0x11D, one loop step on a byte accumulator is doubling in GF(2^8) |
| `GaloisField.QrExpAt` | src/Vecc.QuickResponseCodes/Internal/Utils/GaloisField.cs:22-31 | for 0x11D the i-th accumulator is 2^i in GF(2^8) |
| `GaloisField.QrLastWrite` | src/Vecc.QuickResponseCodes/Internal/Utils/GaloisField.cs:33 | for 0x11D the log entry of b after iteration i is the discrete log of b when that is between 1 and i, else the initial 0 |
| `GaloisField.QrTablesAreBuilt` | src/Vecc.QuickResponseCodes/Internal/Utils/GaloisField.cs:15-35 | the tables built for 0x11D are exactly the exponentiation and discrete-log functions the field operations use |
| `GaloisField.ExpIsListed` | src/Vecc.QuickResponseCodes/Internal/Utils/GaloisField.cs:22-31 | the recurrence agrees, entry by entry, with an independently listed table of the powers of 2 |
| `GaloisField.ExpInjective` | src/Vecc.QuickResponseCodes/Internal/Utils/GaloisField.cs:22-31 | the 255 powers of 2 are non-zero and pairwise distinct, so 2 generates the field |
| `GaloisField.ExpOnto` | src/Vecc.QuickResponseCodes/Internal/Utils/GaloisField.cs:22-31 | every non-zero byte is a power of 2 with exponent below 255 |
| `GaloisField.LogOfExp` | src/Vecc.QuickResponseCodes/Internal/Utils/GaloisField.cs:22-34 | log[exp[i]] = i for every i in 0 .. 254 |
| `GaloisField.ExpOfLog` | src/Vecc.QuickResponseCodes/Internal/Utils/GaloisField.cs:22-34 | exp[log[a]] = a for every non-zero a |
| `GaloisField.LogInjective` | src/Vecc.QuickResponseCodes/Internal/Utils/GaloisField.cs:22-34 | two non-zero bytes with the same log are equal |
| `GaloisField.LogOfZero` | src/Vecc.QuickResponseCodes/Internal/Utils/GaloisField.cs:19 | log[0] is never written and stays 0 |
| `GaloisField.LogOfOne` | src/Vecc.QuickResponseCodes/Internal/Utils/GaloisField.cs:22-34 | log[1] is 0: 2^0 is not stored by the loop and no later power is 1 |
| `GaloisField.LogOfTwo` | src/Vecc.QuickResponseCodes/Internal/Utils/GaloisField.cs:22-34 | log[2] is 1 |
| `GaloisField.Mod255` | src/Vecc.QuickResponseCodes/Internal/Utils/GaloisField.cs:94-106 | the truncated remainder, moved up by 255 when negative, lies in 0 .. 254 and is the mathematical residue modulo 255, negative inputs included |
| `GaloisField.AddExponentsIsMod` | src/Vecc.QuickResponseCodes/Internal/Utils/GaloisField.cs:117 | adding two exponent residues and wrapping once is addition modulo 255 |
| `GaloisField.Mul` | src/Vecc.QuickResponseCodes/Internal/Utils/GaloisField.cs:108-118 | the product is zero exactly when an operand is zero; otherwise its log is the sum of the operands' logs modulo 255 |
| `GaloisField.MulCommutative` | src/Vecc.QuickResponseCodes/Internal/Utils/GaloisField.cs:108-118 | Mul(a, b) = Mul(b, a) |
| `GaloisField.MulOne` | src/Vecc.QuickResponseCodes/Internal/Utils/GaloisField.cs:108-118 | 1 is the identity of Mul on both sides |
| `GaloisField.MulZero` | src/Vecc.QuickResponseCodes/Internal/Utils/GaloisField.cs:111-114 | 0 times anything is 0 |
| `GaloisField.MulAssociative` | src/Vecc.QuickResponseCodes/Internal/Utils/GaloisField.cs:108-118 | Mul is associative |
| `GaloisField.MulByTwo` | src/Vecc.QuickResponseCodes/Internal/Utils/GaloisField.cs:25-29 | multiplying by 2 through the tables is the shift-and-reduce step of the construction loop |
| `GaloisField.ExpWraps` | src/Vecc.QuickResponseCodes/Internal/Utils/GaloisField.cs:18 | doubling the last table entry gives back exp[0] = 1, so 255 entries are the whole cycle |
| `GaloisField.MulByExp` | src/Vecc.QuickResponseCodes/Internal/Utils/GaloisField.cs:108-118 | multiplying by 2^k is doubling k times |
| `GaloisField.MulDistributes` | src/Vecc.QuickResponseCodes/Internal/Utils/GaloisField.cs:108-118 | Mul distributes over XOR on the right operand |
| `GaloisField.MulDistributesRight` | src/Vecc.QuickResponseCodes/Internal/Utils/GaloisField.cs:108-118 | Mul distributes over XOR on the left operand |
| `GaloisField.Pow` | src/Vecc.QuickResponseCodes/Internal/Utils/GaloisField.cs:37-56 | Pow(0, 0) fails with DivideByZero; Pow(0, b) = 0 for b ≠ 0; Pow(a, 0) = 1 for a ≠ 0; otherwise the result is non-zero with log equal to log(a)·b modulo 255, negative b included |
| `GaloisField.PowLog` | src/Vecc.QuickResponseCodes/Internal/Utils/GaloisField.cs:49-55 | for a ≠ 0 and every b, including 0, a^b succeeds and its log is log(a)·b modulo 255 |
| `GaloisField.PowOfTwo` | src/Vecc.QuickResponseCodes/Internal/Utils/GaloisField.cs:55 | Pow(2, k) = exp[k mod 255] for every int k |
| `GaloisField.PowAdds` | src/Vecc.QuickResponseCodes/Internal/Utils/GaloisField.cs:55 | a^m · a^n = a^(m+n) for a ≠ 0 |
| `GaloisField.PowOrder` | src/Vecc.QuickResponseCodes/Internal/Utils/GaloisField.cs:55 | a^255 = 1 for a ≠ 0 |
| `GaloisField.PowInverse` | src/Vecc.QuickResponseCodes/Internal/Utils/GaloisField.cs:55 | a negative exponent is normalised by Mod255: a · a^-1 = 1 for a ≠ 0 |
| `GaloisField.MultiplyColumns` | src/Vecc.QuickResponseCodes/Internal/Utils/GaloisField.cs:67-72 | the inner loop for row i XORs a[i]·b[k-i] into exactly the positions k = i .. i + len(b) - 1 and leaves the others alone |
| `GaloisField.MultiplyRows` | src/Vecc.QuickResponseCodes/Internal/Utils/GaloisField.cs:63-73 | after rows i .. len(a) - 1, position k has gained the XOR of a[i']·b[j] over the rows i' ≥ i with i' + j = k |
| `GaloisField.MultiplyPolynomial` | src/Vecc.QuickResponseCodes/Internal/Utils/GaloisField.cs:58-76 | the product has length len(a) + len(b) - 1 and coefficient k is the XOR of Mul(a[i], b[j]) over i + j = k; two empty operands make the length -1, which fails |
| `GaloisField.EliminateAt` | src/Vecc.QuickResponseCodes/Internal/Utils/GaloisField.cs:85-86 | one division step adds factor · divisor, aligned at row i, to the dividend and changes nothing else |
| `GaloisField.EliminateIsRowUpdate` | src/Vecc.QuickResponseCodes/Internal/Utils/GaloisField.cs:85-86 | the in-place inner loop equals the whole-row update it stands for |
| `GaloisField.PolynomialMod` | src/Vecc.QuickResponseCodes/Internal/Utils/GaloisField.cs:78-92 | the remainder has len(divisor) - 1 coefficients; an empty divisor fails with IndexOutOfRange and a dividend shorter than the remainder fails with ArgumentOutOfRange in the final copy |
| `GaloisField.ReduceKeepsDone` | src/Vecc.QuickResponseCodes/Internal/Utils/GaloisField.cs:82-87 | rows already processed are not changed by later rows |
| `GaloisField.ReduceClearsHead` | src/Vecc.QuickResponseCodes/Internal/Utils/GaloisField.cs:82-87 | with a monic divisor, every processed leading position ends up zero |
| `GaloisField.DivisionClearsQuotientPositions` | src/Vecc.QuickResponseCodes/Internal/Utils/GaloisField.cs:82-87 | with a monic divisor the loop zeroes every position i with i + len(divisor) - 1 < len(dividend) |
| `GaloisField.ReduceOfZeroHead` | src/Vecc.QuickResponseCodes/Internal/Utils/GaloisField.cs:82-87 | a dividend whose leading positions are already zero is left unchanged |
| `GaloisField.PolynomialModOfLowDegree` | src/Vecc.QuickResponseCodes/Internal/Utils/GaloisField.cs:78-92 | a dividend of lower degree than the divisor, after leading zeros, is its own remainder |
| `GaloisField.EliminateLinear` | src/Vecc.QuickResponseCodes/Internal/Utils/GaloisField.cs:84-86 | one division step is linear over XOR of dividends |
| `GaloisField.ReduceLinear` | src/Vecc.QuickResponseCodes/Internal/Utils/GaloisField.cs:82-87 | the division loop is linear over XOR of dividends |
| `GaloisField.PolynomialModLinear` | src/Vecc.QuickResponseCodes/Internal/Utils/GaloisField.cs:78-92 | the remainder of an XOR of two dividends is the XOR of their remainders |
| `ReedSolomon.Generator` | src/Vecc.QuickResponseCodes/Internal/Utils/ReedSolomon.cs:29-57 | g_1 = [1, 1] and g_n = g_(n-1) · [1, 2^(n-1)]: defined exactly for degrees 1 .. 127 (degree 0 or below recurses past the cache to index -1, 128 or more is outside the 128-slot cache, both IndexOutOfRange), with n + 1 coefficients and leading coefficient 1 |
| `ReedSolomon.LinearProductFrom` | src/Vecc.QuickResponseCodes/Internal/Utils/GaloisField.cs:58-76 | multiplying by x + c adds c times the shifted polynomial to the polynomial |
| `ReedSolomon.LinearProductHead` | src/Vecc.QuickResponseCodes/Internal/Utils/ReedSolomon.cs:45-52 | multiplying a monic polynomial by [1, c] keeps it monic |
| `ReedSolomon.ErrorCorrectionBytes` | src/Vecc.QuickResponseCodes/Internal/Utils/ReedSolomon.cs:59-68 | n error bytes, the remainder of the input followed by n zero bytes divided by g_n; failures for n outside 1 .. 127 and for an int32 overflow of the shifted length |
| `ReedSolomon.ErrorBytesCompleteCodeword` | src/Vecc.QuickResponseCodes/Internal/Utils/ReedSolomon.cs:59-68 | the data followed by its n error bytes is a multiple of g_n: its remainder is n zero bytes |
| `ReedSolomon.RemainderCompletesCodeword` | src/Vecc.QuickResponseCodes/Internal/Utils/ReedSolomon.cs:59-68 | replacing the appended zeros by the remainder gives a polynomial divisible by the divisor |
| `ReedSolomon.CodewordIsDivisible` | src/Vecc.QuickResponseCodes/Internal/Utils/ReedSolomon.cs:59-68 | data followed by its error bytes has remainder zero modulo the generator |
| `Capacity.Accumulate` | src/Vecc.QuickResponseCodes/Internal/Models/ErrorCorrectionInfo.cs:16-23 | the checked loop either fails with Overflow or returns the running totals plus the reference sums of BlockCount·DataBytes and BlockCount·ErrorBytes, both within int32 |
| `Capacity.NewErrorCorrectionInfo` | src/Vecc.QuickResponseCodes/Internal/Models/ErrorCorrectionInfo.cs:10-26 | the groups are kept as given; TotalDataBytes and TotalErrorBytes are the reference sums, checked; TotalBytes is their unchecked int32 sum; any checked overflow is an OverflowException |
| `Capacity.AccumulateSucceeds` | src/Vecc.QuickResponseCodes/Internal/Models/ErrorCorrectionInfo.cs:16-23 | for non-negative groups the checked loop succeeds exactly when both final sums fit in int32 |
| `Capacity.SumsAddUp` | src/Vecc.QuickResponseCodes/Internal/Models/ErrorCorrectionInfo.cs:25 | TotalDataBytes + TotalErrorBytes is the sum of BlockCount · block TotalBytes |
| `Capacity.ConstructorAgrees` | src/Vecc.QuickResponseCodes/Internal/Models/ErrorCorrectionInfo.cs:10-26 | for non-negative groups whose codeword total fits in int32, the checked constructor succeeds and TotalBytes equals the codeword sum |
| `Capacity.WellFormedIsConstructed` | src/Vecc.QuickResponseCodes/Internal/Models/ErrorCorrectionInfo.cs:10-26 | a table entry is exactly what the checked constructor builds from its groups, and its TotalBytes is data plus error bytes |
| `Capacity.Info3` | src/Vecc.QuickResponseCodes/Internal/Models/ErrorCorrectionInfo.cs:28-31 | the 3-argument constructor yields the single group (count, total, data), with totals count·total and count·data |
| `Capacity.Info6` | src/Vecc.QuickResponseCodes/Internal/Models/ErrorCorrectionInfo.cs:33-38 | the 6-argument constructor yields group A then group B, with totals summed over both |
| `Capacity.NewCodeVersion` | src/Vecc.QuickResponseCodes/Internal/Models/CodeVersion.cs:14-22 | the constructor stores L, M, Q and H unchanged, each readable back by its level; the debug assertion that all four have the same TotalBytes is its precondition |
| `Capacity.CorrectionInfo` | src/Vecc.QuickResponseCodes/Internal/Models/CodeVersion.cs:24-39 | VeryLow, Low, Medium and High select L, M, Q and H; any other level fails with ArgumentOutOfRange |
| `Capacity.TableIsWellFormed` | src/Vecc.QuickResponseCodes/Internal/Utils/ErrorCorrection.cs:112-358 | every one of the 40 rows satisfies the CodeVersion assertion (equal totals at the four levels) and its entries are well-formed constructor results |
| `Capacity.Version13RepeatsVersion12` | src/Vecc.QuickResponseCodes/Internal/Utils/ErrorCorrection.cs:183-193 | the row stored for version 13 is identical to the row for version 12 |
| `Capacity.VersionInfo` | src/Vecc.QuickResponseCodes/Internal/Utils/ErrorCorrection.cs:25-28 | GetQuickResponseCodeVersionInfo(v) is row v - 1, defined for 1 ≤ v ≤ 40; any other v is an IndexOutOfRangeException |
| `ErrorCorrection.Versions` | src/Vecc.QuickResponseCodes/Internal/Utils/ErrorCorrection.cs:112-358 | the table has 40 rows, all well formed |
| `ErrorCorrection.StrongestFit` | src/Vecc.QuickResponseCodes/Internal/Utils/ErrorCorrection.cs:46-65 | within a version the first of H, Q, M whose data capacity holds the input, else L: the chosen level holds the input (or is L) and no stronger level does |
| `ErrorCorrection.ChooseLevel` | src/Vecc.QuickResponseCodes/Internal/Utils/ErrorCorrection.cs:43-65 | once the desired level of a version holds the input, the selection has that version, a level at least the desired one, that level's table entry, and no stronger level that fits |
| `ErrorCorrection.SelectFrom` | src/Vecc.QuickResponseCodes/Internal/Utils/ErrorCorrection.cs:35-68 | the scan from index i: an undefined level fails with ArgumentOutOfRange, the only other failure is InputTooLong, and a success is a later version whose desired-level capacity holds the input, with the strongest level that still holds it |
| `ErrorCorrection.SelectFromExhausted` | src/Vecc.QuickResponseCodes/Internal/Utils/ErrorCorrection.cs:35-68 | the scan from index i fails with InputTooLong exactly when the level is defined and no version after i holds the input at it |
| `ErrorCorrection.SelectFromFirst` | src/Vecc.QuickResponseCodes/Internal/Utils/ErrorCorrection.cs:35-68 | every version the scan passes before the one it selects is too small for the input at the desired level |
| `ErrorCorrection.SelectErrorCorrection` | src/Vecc.QuickResponseCodes/Internal/Utils/ErrorCorrection.cs:30-69 | GetErrorCorrectionInfo: the smallest version whose desired-level capacity holds the input, the strongest level of it that still holds the input (so at least the desired one), InputTooLong exactly when no version 1 .. 40 fits |
| `ErrorCorrection.Version13NeverSelected` | src/Vecc.QuickResponseCodes/Internal/Utils/ErrorCorrection.cs:35-44 | because row 13 repeats row 12, the scan never selects version 13 |
| `ErrorCorrection.SumsAppend` | src/Vecc.QuickResponseCodes/Internal/Models/ErrorCorrectionInfo.cs:18-22 | the data and error sums of a block list are additive over concatenation |
| `ErrorCorrection.SumsRepeat` | src/Vecc.QuickResponseCodes/Internal/Models/ErrorCorrectionInfo.cs:20-21 | n blocks of one shape hold n·DataBytes data and n·ErrorBytes error bytes |
| `ErrorCorrection.LayoutSums` | src/Vecc.QuickResponseCodes/Internal/Utils/ErrorCorrection.cs:87-101 | the blocks the nested loop creates, group by group and BlockCount times each, hold TotalDataBytes data and TotalErrorBytes error bytes |
| `ErrorCorrection.LayoutShapes` | src/Vecc.QuickResponseCodes/Internal/Utils/ErrorCorrection.cs:87-101 | every block created for a table entry has a table shape (1 .. 127 error bytes, at most 256 codewords) |
| `ErrorCorrection.Split` | src/Vecc.QuickResponseCodes/Internal/Utils/ErrorCorrection.cs:83-95 | data blocks are consecutive slices of the padded input, one per block in group order, each of its group's DataBytes length, together exactly the padded input |
| `ErrorCorrection.Codewords` | src/Vecc.QuickResponseCodes/Internal/Utils/ErrorCorrection.cs:98 | the error block of a data block is its Reed-Solomon remainder: ErrorBytes long, and data plus error block is divisible by the generator |
| `ErrorCorrection.ErrorBlocks` | src/Vecc.QuickResponseCodes/Internal/Utils/ErrorCorrection.cs:96-100 | one error block per data block, in the same order |
| `ErrorCorrection.MakeBlocks` | src/Vecc.QuickResponseCodes/Internal/Utils/ErrorCorrection.cs:79-101 | the data blocks concatenate to the padded input, each error block has its group's ErrorBytes length and is the remainder of its data block, and the error blocks total TotalErrorBytes |
| `ErrorCorrection.ErrorLengths` | src/Vecc.QuickResponseCodes/Internal/Utils/ErrorCorrection.cs:96-100 | error blocks of the layout's lengths concatenate to the layout's error total |
| `ErrorCorrection.RoundEmpty` | src/Vecc.QuickResponseCodes/Internal/Utils/ErrorCorrection.cs:364-379 | a pass writes nothing exactly when no block is longer than the pass index, which is then where the loop returns |
| `ErrorCorrection.RoundTakesHeads` | src/Vecc.QuickResponseCodes/Internal/Utils/ErrorCorrection.cs:362-380 | pass i writes byte i of every block longer than i; what it writes plus what is left after it is what was left before it |
| `ErrorCorrection.FirstPass` | src/Vecc.QuickResponseCodes/Internal/Utils/ErrorCorrection.cs:365-374 | with non-empty blocks, the first pass writes the first byte of every block in block order |
| `ErrorCorrection.FlushFromTails` | src/Vecc.QuickResponseCodes/Internal/Utils/ErrorCorrection.cs:362-380 | the passes from i on write every byte at index i or later of every block, each exactly once |
| `ErrorCorrection.TailsFromStart` | src/Vecc.QuickResponseCodes/Internal/Utils/ErrorCorrection.cs:362-380 | the bytes at index 0 or later of all blocks are the blocks' concatenation |
| `ErrorCorrection.FlushBlocks` | src/Vecc.QuickResponseCodes/Internal/Utils/ErrorCorrection.cs:360-381 | the interleaved output is a permutation of the blocks' concatenation: every byte is written exactly once, and the loop terminates |
| `ErrorCorrection.FullPass` | src/Vecc.QuickResponseCodes/Internal/Utils/ErrorCorrection.cs:365-374 | a pass below every block's length writes byte i of every block, in block order |
| `ErrorCorrection.PassBeyond` | src/Vecc.QuickResponseCodes/Internal/Utils/ErrorCorrection.cs:365-374 | a pass at or beyond every block's length writes nothing |
| `ErrorCorrection.LastPass` | src/Vecc.QuickResponseCodes/Internal/Utils/ErrorCorrection.cs:365-374 | for blocks of L and then L + 1 bytes (the two groups of section 6.6 of ISO/IEC 18004:2006), pass L writes byte L of each long block, in block order |
| `ErrorCorrection.FlushTail` | src/Vecc.QuickResponseCodes/Internal/Utils/ErrorCorrection.cs:362-380 | for such blocks the flush from pass L on is the long blocks' extra bytes, after which the loop returns |
| `ErrorCorrection.FlushStep` | src/Vecc.QuickResponseCodes/Internal/Utils/ErrorCorrection.cs:362-380 | for such blocks a pass i < L writes byte i of every block and the loop goes on to pass i + 1 |
| `ErrorCorrection.InterleaveStep` | src/Vecc.QuickResponseCodes/Internal/Utils/ErrorCorrection.cs:362-380 | the step of the induction: if the flush from pass k + 1 on is the column-wise reading from k + 1 on, so it is from k |
| `ErrorCorrection.InterleaveEnd` | src/Vecc.QuickResponseCodes/Internal/Utils/ErrorCorrection.cs:362-380 | the base of the induction: the flush from pass L on is the column-wise reading from L on |
| `ErrorCorrection.FlushIsInterleave` | src/Vecc.QuickResponseCodes/Internal/Utils/ErrorCorrection.cs:362-380 | for such blocks the flush from any pass k <= L on is their column-wise reading from k on |
| `ErrorCorrection.InterleaveLength` | src/Vecc.QuickResponseCodes/Internal/Utils/ErrorCorrection.cs:362-380 | the column-wise reading from pass k on holds L - k rows of one byte per block and then one byte per long block |
| `ErrorCorrection.InterleaveRowFrom` | src/Vecc.QuickResponseCodes/Internal/Utils/ErrorCorrection.cs:365-374 | from pass k on, the bytes written by pass i < L are byte i of every block and start after i - k rows |
| `ErrorCorrection.InterleaveTailFrom` | src/Vecc.QuickResponseCodes/Internal/Utils/ErrorCorrection.cs:365-374 | from pass k on, the last bytes written are the long blocks' extra bytes, after L - k rows |
| `ErrorCorrection.InterleaveSize` | src/Vecc.QuickResponseCodes/Internal/Utils/ErrorCorrection.cs:360-381 | the column-wise reading holds L * blocks + long-blocks bytes |
| `ErrorCorrection.InterleaveRow` | src/Vecc.QuickResponseCodes/Internal/Utils/ErrorCorrection.cs:365-374 | positions i * blocks to (i + 1) * blocks of the column-wise reading are byte i of every block, in block order |
| `ErrorCorrection.InterleaveExtras` | src/Vecc.QuickResponseCodes/Internal/Utils/ErrorCorrection.cs:365-374 | from position L * blocks on the column-wise reading is the long blocks' extra bytes, in block order |
| `ErrorCorrection.FlushInterleaves` | src/Vecc.QuickResponseCodes/Internal/Utils/ErrorCorrection.cs:360-381 | for blocks of L and then L + 1 bytes the whole flush equals the column-wise reading |
| `ErrorCorrection.FlushOrder` | src/Vecc.QuickResponseCodes/Internal/Utils/ErrorCorrection.cs:360-381 | for such blocks, byte i < L of block j is written at position i * blocks + j |
| `ErrorCorrection.FlushExtraOrder` | src/Vecc.QuickResponseCodes/Internal/Utils/ErrorCorrection.cs:360-381 | for such blocks the output has L * blocks + long-blocks bytes, and the extra byte L of long block j is written at position L * blocks + (j - s), s being the number of short blocks |
| `ErrorCorrection.MessageSequence` | src/Vecc.QuickResponseCodes/Internal/Utils/ErrorCorrection.cs:71-110 | fails exactly as the selection fails; otherwise it reports the selected version and achieved level and returns the interleaved data blocks of the zero-padded input followed by the interleaved error blocks, TotalDataBytes + TotalErrorBytes = TotalBytes codewords |
| `ErrorCorrection.MessageIsPermutation` | src/Vecc.QuickResponseCodes/Internal/Utils/ErrorCorrection.cs:79-108 | the message holds the zero-padded input and all error codewords, each exactly once |
| `DataMatrix.BitsConcat` | src/Vecc.QuickResponseCodes/Internal/Utils/DataMatrix.cs:71 | shifting a value left by k and ORing in a k-bit value appends the k bits to its bit string |
| `DataMatrix.BitsSplit` | src/Vecc.QuickResponseCodes/Internal/Utils/DataMatrix.cs:50-60 | the low n + k bits of v are the low n bits of v >> k followed by the low k bits of v |
| `DataMatrix.BitsLow` | src/Vecc.QuickResponseCodes/Internal/Utils/DataMatrix.cs:70 | masking a value to its low n bits leaves its n-bit string unchanged |
| `DataMatrix.BytesBitsAppend` | src/Vecc.QuickResponseCodes/Internal/Utils/DataMatrix.cs:78 | emitting one more byte appends its eight bits, MSB first, to the emitted stream |
| `DataMatrix.ShiftIn` | src/Vecc.QuickResponseCodes/Internal/Utils/DataMatrix.cs:70-72 | the new buffer, the old one shifted up by bits and ORed with the masked value, holds count + bits pending bits: the old ones followed by the low bits of the value |
| `DataMatrix.EmitByte` | src/Vecc.QuickResponseCodes/Internal/Utils/DataMatrix.cs:74-81 | with eight or more pending bits, the emitted byte is the top eight of them and the kept remainder is the rest, so the stream is unchanged |
| `DataMatrix.Settle` | src/Vecc.QuickResponseCodes/Internal/Utils/DataMatrix.cs:74-86 | after settling, fewer than eight bits are pending and the logical stream is unchanged; at most one byte is emitted and earlier bytes are kept |
| `Arith.BitsAt` | src/Vecc.QuickResponseCodes/Internal/Utils/DataMatrix.cs:70-71 | entry i of the n-bit string the writer appends is the bit of weight 2^(n - 1 - i) of the value: the low n bits, most significant first, as `value & mask` then `<< bits` lay them out |
| `DataMatrix.WriteBitsImpl` | src/Vecc.QuickResponseCodes/Internal/Utils/DataMatrix.cs:63-87 | the writer invariant (0 .. 7 pending bits, buffer below 2^count) is kept; the low `bits` bits of the value are appended MSB-first to the logical stream; at most one byte is emitted and none is changed |
| `DataMatrix.WriteChunk` | src/Vecc.QuickResponseCodes/Internal/Utils/DataMatrix.cs:48-60 | one guarded call of WriteBits writes the next chunk (at most eight bits) of the value, top chunk first |
| `DataMatrix.WriteBits` | src/Vecc.QuickResponseCodes/Internal/Utils/DataMatrix.cs:46-61 | for 0 ≤ n ≤ 32 the low n bits of the value are appended MSB-first, in chunks of at most eight bits; emitted bytes are never changed |
| `DataMatrix.WriteByte` | src/Vecc.QuickResponseCodes/Internal/Utils/DataMatrix.cs:12-15 | appends the eight bits of a byte |
| `DataMatrix.WriteNibble` | src/Vecc.QuickResponseCodes/Internal/Utils/DataMatrix.cs:25-28 | appends the low four bits of a byte |
| `DataMatrix.WriteWord` | src/Vecc.QuickResponseCodes/Internal/Utils/DataMatrix.cs:30-33 | appends the sixteen bits of a ushort |
| `DataMatrix.WriteBytes` | src/Vecc.QuickResponseCodes/Internal/Utils/DataMatrix.cs:17-23 | appends the bits of every byte, in order |
| `DataMatrix.ToArray` | src/Vecc.QuickResponseCodes/Internal/Utils/DataMatrix.cs:35-38 | returns floor(stream length / 8) bytes whose bits are the start of the stream; the up to seven pending bits are dropped, not padded |
| `ModuleBlocks.New` | src/Vecc.QuickResponseCodes/Internal/ModuleBlock.cs:12-17 | a fresh store of ceil(width² / 4) bytes (checked: Overflow when width² + 3 leaves int32) whose every module is light and unreserved |
| `ModuleBlocks.Offsets` | src/Vecc.QuickResponseCodes/Internal/ModuleBlock.cs:99-104 | cell (r, c) lives in byte (r·w + c) / 4, slot (r·w + c) mod 4, and that byte is inside the buffer |
| `ModuleBlocks.CellPositionBound` | src/Vecc.QuickResponseCodes/Internal/ModuleBlock.cs:15 | every in-range cell's byte index is below ceil(w² / 4) |
| `ModuleBlocks.OffsetsInjective` | src/Vecc.QuickResponseCodes/Internal/ModuleBlock.cs:99-104 | two different cells never share a byte and slot |
| `ModuleBlocks.Field` | src/Vecc.QuickResponseCodes/Internal/ModuleBlock.cs:106-109 | the flag read for a cell is a 2-bit value |
| `ModuleBlocks.View` | src/Vecc.QuickResponseCodes/Internal/ModuleBlock.cs:51-66 | the grid the store stands for: module (r, c) is dark when bit 0 of its field is set and reserved when bit 1 is |
| `ModuleBlocks.UpdateOwnSlot` | src/Vecc.QuickResponseCodes/Internal/ModuleBlock.cs:43-49 | an overwrite replaces the slot with flag & 3, an OR adds flag & 3, a flip toggles bit 0 |
| `ModuleBlocks.UpdateOtherSlot` | src/Vecc.QuickResponseCodes/Internal/ModuleBlock.cs:80-97 | updating one slot of a byte leaves its other three slots unchanged |
| `ModuleBlocks.FlipTwice` | src/Vecc.QuickResponseCodes/Internal/ModuleBlock.cs:48 | flipping a slot twice restores the byte |
| `ModuleBlocks.Update` | src/Vecc.QuickResponseCodes/Internal/ModuleBlock.cs:80-97 | the common shape of Set and FlipColor: the cell's field changes as requested and every other cell keeps its field |
| `ModuleBlocks.Set` | src/Vecc.QuickResponseCodes/Internal/ModuleBlock.cs:68-97 | with overwrite the cell's field becomes flag & 3, otherwise flag & 3 is ORed in; every other cell is unchanged |
| `ModuleBlocks.FlipColor` | src/Vecc.QuickResponseCodes/Internal/ModuleBlock.cs:43-49 | XORs bit 0 of the cell's field and leaves every other cell unchanged |
| `ModuleBlocks.SetRefines` | src/Vecc.QuickResponseCodes/Internal/ModuleBlock.cs:68-97 | Set on the packed store is the grid-level set on its view |
| `ModuleBlocks.DecodeSet` | src/Vecc.QuickResponseCodes/Internal/ModuleBlock.cs:84-96 | decoding an overwritten or ORed field gives the grid-level module update |
| `ModuleBlocks.FlipRefines` | src/Vecc.QuickResponseCodes/Internal/ModuleBlock.cs:43-49 | FlipColor on the packed store is the grid-level colour flip on its view |
| `ModuleBlocks.DecodeFlip` | src/Vecc.QuickResponseCodes/Internal/ModuleBlock.cs:48 | toggling bit 0 toggles the colour and keeps the reservation |
| `ModuleBlocks.FlipToggles` | src/Vecc.QuickResponseCodes/Internal/ModuleBlock.cs:43-66 | after FlipColor, IsDark is negated and IsReserved is kept |
| `ModuleBlocks.FlipInvolution` | src/Vecc.QuickResponseCodes/Internal/ModuleBlock.cs:43-49 | flipping a cell twice restores the whole store |
| `ModuleBlocks.OrNeverClears` | src/Vecc.QuickResponseCodes/Internal/ModuleBlock.cs:93-96 | Set without overwrite never clears dark or reserved |
| `ModuleBlocks.OrKeepsBits` | src/Vecc.QuickResponseCodes/Internal/ModuleBlock.cs:95 | ORing a flag into a field keeps its set bits |
| `AlignmentPatterns.FirstVersionHasNone` | src/Vecc.QuickResponseCodes/Internal/Utils/AlignmentPattern.cs:42 | version 1 has no alignment coordinates |
| `AlignmentPatterns.RowsSpanSymbol` | src/Vecc.QuickResponseCodes/Internal/Utils/AlignmentPattern.cs:43-81 | for versions 2 to 40 the coordinate row starts at 6, is strictly increasing and ends at 10 + 4v, seven modules before the far edge of a symbol of width 17 + 4v |
| `AlignmentPatterns.RowsSpaced` | src/Vecc.QuickResponseCodes/Internal/Utils/AlignmentPattern.cs:43-81 | in every row each coordinate is even and any two differ by at least 12 |
| `AlignmentPatterns.GetCoordinates` | src/Vecc.QuickResponseCodes/Internal/Utils/AlignmentPattern.cs:15-35 | succeeds exactly for versions 1 to 40 (otherwise the array index fails); version 1 gives no centres; otherwise there are n² - 3 centres for a row of n coordinates, and a point is returned exactly when it is (row[x], row[y]) for a pair other than the three finder corners |
| `AlignmentPatterns.CentresCounted` | src/Vecc.QuickResponseCodes/Internal/Utils/AlignmentPattern.cs:20-32 | the nested loops skip exactly three of the n² pairs |
| `AlignmentPatterns.ColumnsCount` | src/Vecc.QuickResponseCodes/Internal/Utils/AlignmentPattern.cs:20-32 | the outer loop from column x yields (n - x)·n points less the corner pairs still ahead of it |
| `AlignmentPatterns.ColumnsMembers` | src/Vecc.QuickResponseCodes/Internal/Utils/AlignmentPattern.cs:20-32 | a point comes out of the loops from column x on exactly when it is (row[x'], row[y]) with x' >= x and (x', y) not a skipped corner |
| `AlignmentPatterns.ColumnShape` | src/Vecc.QuickResponseCodes/Internal/Utils/AlignmentPattern.cs:21-31 | the inner loop for column x yields, in order, all (row[x], row[y]) except y = n - 1 in the first column and y = 0 in the first and last |
| `AlignmentPatterns.CentreShape` | src/Vecc.QuickResponseCodes/Internal/Utils/AlignmentPattern.cs:15-35 | every returned centre lies on even coordinates between 6 and width - 7, and a centre on row or column 6 stays at least 12 modules from the finder corners |
| `AlignmentPatterns.CentresApart` | src/Vecc.QuickResponseCodes/Internal/Utils/AlignmentPattern.cs:15-35 | two different centres are at least 12 modules apart in one coordinate, so the 5×5 patterns never overlap |
| `FinderPatterns.ShiftIn` | src/Vecc.QuickResponseCodes/Internal/Models/FinderPatternDetector.cs:15-26 | the register stays a 32-bit pattern, the shift count grows by one, and the found count grows by at most one and not at all before 11 modules have gone in |
| `FinderPatterns.Run` | src/Vecc.QuickResponseCodes/Internal/Models/FinderPatternDetector.cs:15-26 | after shifting a line into a fresh detector, the shift count is the line's length |
| `FinderPatterns.Matches` | src/Vecc.QuickResponseCodes/Internal/Models/FinderPatternDetector.cs:18-24 | the reference count of finder windows is at most the number of 11-module windows of the line |
| `FinderPatterns.PackInjective` | src/Vecc.QuickResponseCodes/Internal/Models/FinderPatternDetector.cs:20-21 | two module sequences of equal length with equal packed value are equal |
| `FinderPatterns.PackUnpack` | src/Vecc.QuickResponseCodes/Internal/Models/FinderPatternDetector.cs:20-21 | unpacking a value below 2^n into n modules and packing it again gives the value back |
| `FinderPatterns.PackedWindows` | src/Vecc.QuickResponseCodes/Internal/Models/FinderPatternDetector.cs:5-6 | 0x5D0 and 0x5D are the packed forms of dark-light-dark-dark-dark-light-dark followed, or preceded, by four light modules |
| `FinderPatterns.WindowMatches` | src/Vecc.QuickResponseCodes/Internal/Models/FinderPatternDetector.cs:20-21 | an 11-module window packs to PatternA or PatternB exactly when it is one of the two finder windows |
| `FinderPatterns.Tracks` | src/Vecc.QuickResponseCodes/Internal/Models/FinderPatternDetector.cs:17-20 | the low 11 bits of the register are always the last (at most 11) modules shifted in |
| `FinderPatterns.Detects` | src/Vecc.QuickResponseCodes/Internal/Models/FinderPatternDetector.cs:13-26 | the found count after a line equals the number of its 11-module windows that are finder windows |
| `FinderPatterns.NothingBeforeEleven` | src/Vecc.QuickResponseCodes/Internal/Models/FinderPatternDetector.cs:18 | a line shorter than 11 modules never counts a pattern |
| `FinderPatterns.DetectsPattern` | src/Vecc.QuickResponseCodes/Internal/Models/FinderPatternDetector.cs:5-26 | each finder window, shifted into a fresh detector, is counted once |
| `Masking.RunEnding` | src/Vecc.QuickResponseCodes/Internal/Utils/SymbolTemplate.Masking.cs:59-74 | the run ending at position i has length between 1 and i + 1, all its modules share the colour of position i, and the module just before it has the other colour |
| `Masking.ScanLine` | src/Vecc.QuickResponseCodes/Internal/Utils/SymbolTemplate.Masking.cs:51-82 | the single-pass scan with its running run length scores exactly the reference penalty: the sum, over the maximal runs of the line, of n - 2 for each run of n >= 5 modules |
| `Masking.RunsPartitionLine` | src/Vecc.QuickResponseCodes/Internal/Utils/SymbolTemplate.Masking.cs:59-80 | the maximal runs the scan scores cover the line: their lengths add up to its length |
| `Masking.UniformLineScore` | src/Vecc.QuickResponseCodes/Internal/Utils/SymbolTemplate.Masking.cs:51-82 | a line of one colour is one run and scores its length minus 2 once it has at least five modules |
| `Masking.ShortRunsScoreNothing` | src/Vecc.QuickResponseCodes/Internal/Utils/SymbolTemplate.Masking.cs:68-80 | a line whose runs are all shorter than five modules scores nothing |
| `Masking.SquaresInRow` | src/Vecc.QuickResponseCodes/Internal/Utils/SymbolTemplate.Masking.cs:128-137 | the 2×2 squares counted along one row are at most the number of positions scanned |
| `Masking.PenaltyB` | src/Vecc.QuickResponseCodes/Internal/Utils/SymbolTemplate.Masking.cs:120-141 | rule B is at most 3·(W - 1)², three points for each 2×2 position |
| `Masking.UniformPenaltyB` | src/Vecc.QuickResponseCodes/Internal/Utils/SymbolTemplate.Masking.cs:120-141 | a grid of one colour scores the full 3·(W - 1)² under rule B |
| `Masking.BlocksInRowCount` | src/Vecc.QuickResponseCodes/Internal/Utils/SymbolTemplate.Masking.cs:128-137 | the count along one row is the number of distinct corners (row, c), c below n, whose 2×2 block is one colour |
| `Masking.BlocksAboveCount` | src/Vecc.QuickResponseCodes/Internal/Utils/SymbolTemplate.Masking.cs:126-139 | the count over the first m rows is the number of distinct corners of one-colour 2×2 blocks in those rows |
| `Masking.PenaltyBCountsBlocks` | src/Vecc.QuickResponseCodes/Internal/Utils/SymbolTemplate.Masking.cs:120-141 | rule B is exactly three times the number of one-colour 2×2 blocks in the symbol, overlapping blocks each counted once, so it depends on nothing else |
| `Masking.DetectorSum` | src/Vecc.QuickResponseCodes/Internal/Utils/SymbolTemplate.Masking.cs:146-173 | over any number of rows and columns, the counts of the fresh detectors equal the numbers of finder windows in those lines |
| `Masking.PenaltyCCountsWindows` | src/Vecc.QuickResponseCodes/Internal/Utils/SymbolTemplate.Masking.cs:146-173 | rule C is forty points for every 11-module finder window in every row and every column |
| `Masking.DarkCount` | src/Vecc.QuickResponseCodes/Internal/Utils/SymbolTemplate.Masking.cs:180-192 | the dark modules in the first m rows number at most m·W |
| `Masking.PenaltyD` | src/Vecc.QuickResponseCodes/Internal/Utils/SymbolTemplate.Masking.cs:194-196 | with no modules the percentage divides by zero; otherwise the score is a multiple of 10 between 0 and 100, and the majority share lies in the 5% step the score names |
| `Masking.Penalty` | src/Vecc.QuickResponseCodes/Internal/Utils/SymbolTemplate.Masking.cs:28-35 | the total fails exactly on an empty grid; otherwise it is at least rules A + B + C and at most 100 more |
| `Mapping.PairColumns` | src/Vecc.QuickResponseCodes/Internal/Utils/Mapping.cs:41-47 | the right-hand columns of the pairs lie between 1 and the start column, never 6, descend by at least two, and number at most (col + 1) / 2 |
| `Mapping.PairsCoverColumns` | src/Vecc.QuickResponseCodes/Internal/Utils/Mapping.cs:41-47 | started from an even column of at least 6, the pairs cover exactly the columns 0 to col other than the timing column 6 |
| `Mapping.LeftmostPairs` | src/Vecc.QuickResponseCodes/Internal/Utils/Mapping.cs:44-47 | once column 6 is replaced by 5, the remaining pairs cover exactly columns 0 to 5 |
| `Mapping.Upward` | src/Vecc.QuickResponseCodes/Internal/Utils/Mapping.cs:51-63 | an upward pass from row r records at most two modules per row |
| `Mapping.Downward` | src/Vecc.QuickResponseCodes/Internal/Utils/Mapping.cs:67-80 | a downward pass from row r records at most two modules per remaining row |
| `Mapping.UpwardMember` | src/Vecc.QuickResponseCodes/Internal/Utils/Mapping.cs:51-63 | the upward pass records a module exactly when it lies in the pair's two columns, at or above the start row, and is not reserved |
| `Mapping.UpwardDistinct` | src/Vecc.QuickResponseCodes/Internal/Utils/Mapping.cs:51-63 | the upward pass records no module twice |
| `Mapping.DownwardMember` | src/Vecc.QuickResponseCodes/Internal/Utils/Mapping.cs:67-80 | the downward pass records a module exactly when it lies in the pair's two columns, at or below the start row, and is not reserved |
| `Mapping.DownwardDistinct` | src/Vecc.QuickResponseCodes/Internal/Utils/Mapping.cs:67-80 | the downward pass records no module twice |
| `Mapping.ZigzagMembers` | src/Vecc.QuickResponseCodes/Internal/Utils/Mapping.cs:41-84 | over descending pairs with alternating direction, the traversal records exactly the unreserved modules of the pairs' columns, each once |
| `Mapping.BitStreamMapping` | src/Vecc.QuickResponseCodes/Internal/Utils/Mapping.cs:31-87 | the traversal records at most width² modules, so it fits the width² array |
| `Mapping.BitStreamCoversFreeModules` | src/Vecc.QuickResponseCodes/Internal/Utils/Mapping.cs:31-87 | for an odd width of at least 7, the traversal visits every unreserved module outside column 6 exactly once and nothing else |
| `Mapping.Padded` | src/Vecc.QuickResponseCodes/Internal/Utils/Mapping.cs:37 | entries the traversal did not write keep the default point (0, 0) |
| `Mapping.CodewordPlacements` | src/Vecc.QuickResponseCodes/Internal/Utils/Mapping.cs:8-29 | the placement array has width²/8 entries |
| `Mapping.OddWidthFillsAll` | src/Vecc.QuickResponseCodes/Internal/Utils/Mapping.cs:16-18 | for an odd width every one of the width²/8 groups starts before width² - 8, so the loop writes every entry |
| `Mapping.LastGroupOfMultipleUnfilled` | src/Vecc.QuickResponseCodes/Internal/Utils/Mapping.cs:16-18 | when the array length is a multiple of eight, the loop's bound leaves the last entry unwritten |
| `Skeleton.Blank` | src/Vecc.QuickResponseCodes/Internal/Utils/SymbolTemplate.cs:33 | a new store of the symbol's width holds only light, unreserved modules |
| `Skeleton.TypeOfBit` | src/Vecc.QuickResponseCodes/Internal/Utils/SymbolTemplate.cs:420-423 | the flag is Dark exactly when the chosen bit of the value is set, Light exactly when it is clear |
| `Skeleton.DrawRectLoop` | src/Vecc.QuickResponseCodes/Internal/Utils/SymbolTemplate.cs:248-254 | the nested loops, one Set per cell row by row, draw the same picture as the declarative rectangle: the negated xor flag is applied to every cell inside the rectangle and to nothing else |
| `Skeleton.FlagEffects` | src/Vecc.QuickResponseCodes/Internal/Utils/SymbolTemplate.cs:186-204 | overwriting with Reserved+Dark gives a reserved dark module, with Reserved+Light a reserved light one, and ORing in Reserved keeps the colour and reserves |
| `Skeleton.TimingFrom` | src/Vecc.QuickResponseCodes/Internal/Utils/SymbolTemplate.cs:162-167 | the timing loop from i on sets (a, 6) for a >= i and then (6, b) for b >= i to reserved modules dark on even positions, and leaves every other cell as it was |
| `Skeleton.TopLeftFinderDrawn` | src/Vecc.QuickResponseCodes/Internal/Utils/SymbolTemplate.cs:185-190 | the top-left 9×9 corner shows the 7×7 finder (light only on the ring at distance 2 from its centre), the light separator, and the format strip reserved with its colour kept; nothing else changes |
| `Skeleton.TopRightFinderDrawn` | src/Vecc.QuickResponseCodes/Internal/Utils/SymbolTemplate.cs:192-197 | the top-right corner is the mirror image of the top-left one, with its format strip along row 8 only |
| `Skeleton.BottomLeftFinderDrawn` | src/Vecc.QuickResponseCodes/Internal/Utils/SymbolTemplate.cs:199-204 | the bottom-left corner is the top-left one mirrored vertically, with its format strip along column 8 only |
| `Skeleton.FindersDrawn` | src/Vecc.QuickResponseCodes/Internal/Utils/SymbolTemplate.cs:179-205 | from width 17 on the three corners do not overlap, so every cell shows the picture of the corner it lies in, or keeps its module |
| `Skeleton.AlignmentAt` | src/Vecc.QuickResponseCodes/Internal/Utils/SymbolTemplate.cs:213-215 | the three overwriting squares give every cell of the 5×5 square around the centre a reserved module, light exactly on the ring at distance 1, and leave all other cells alone |
| `Skeleton.Alignments` | src/Vecc.QuickResponseCodes/Internal/Utils/SymbolTemplate.cs:211-216 | cells away from every centre keep their module |
| `Skeleton.AlignmentsDrawn` | src/Vecc.QuickResponseCodes/Internal/Utils/SymbolTemplate.cs:211-216 | when the 5×5 squares of the centres do not meet, every cell near a centre shows that centre's pattern, whatever order they are drawn in |
| `Skeleton.CentresFit` | src/Vecc.QuickResponseCodes/Internal/Utils/SymbolTemplate.cs:211-216 | every centre GetCoordinates returns has its 5×5 square inside the symbol, and no two squares meet |
| `Skeleton.Centres` | src/Vecc.QuickResponseCodes/Internal/Utils/SymbolTemplate.cs:211 | every centre drawn is a centre of the version's coordinate row, and only versions from 2 on have any |
| `Skeleton.VersionStepCell` | src/Vecc.QuickResponseCodes/Internal/Utils/SymbolTemplate.cs:233-240 | loop iteration i overwrites module i at (i / 3, width - 11 + i % 3) and at its transpose, and nothing else |
| `Skeleton.VersionBlocksLoop` | src/Vecc.QuickResponseCodes/Internal/Utils/SymbolTemplate.cs:233-240 | the 18 iterations of the loop draw exactly the two version blocks: module i in the upper right and its transpose in the lower left |
| `Skeleton.VersionInformation` | src/Vecc.QuickResponseCodes/Internal/Utils/SymbolTemplate.cs:225-228 | below version 7 nothing is drawn |
| `Skeleton.VersionBlocksTransposed` | src/Vecc.QuickResponseCodes/Internal/Utils/SymbolTemplate.cs:236-239 | the lower-left block is the transpose of the upper-right one, and its cell (row, col) holds module 3·row + col - (width - 11) |
| `Skeleton.VersionBitIsNextBit` | src/Vecc.QuickResponseCodes/Internal/Utils/SymbolTemplate.cs:235 | the colour test shifts by i and masks with 0x2, so module i shows bit i + 1 of the information, not bit i |
| `Skeleton.VersionEncodingCarriesVersion` | src/Vecc.QuickResponseCodes/Internal/Utils/SymbolTemplate.cs:259-295 | every Annex D entry for versions 7 to 40 is an 18-bit value whose top six bits are the version |
| `Skeleton.LastVersionModuleLight` | src/Vecc.QuickResponseCodes/Internal/Utils/SymbolTemplate.cs:233-240 | because of the off-by-one bit, module 17 reads bit 18 of an 18-bit value and is always light |
| `Skeleton.ReservedModules` | src/Vecc.QuickResponseCodes/Internal/Utils/SymbolTemplate.cs:155-177 | a new template is a grid of the version's width |
| `Skeleton.TimingPatternsSurvive` | src/Vecc.QuickResponseCodes/Internal/Utils/SymbolTemplate.cs:155-177 | between the finders, (6, k) and (k, 6) stay reserved and dark exactly for even k after everything drawn later; alignment patterns over them agree |
| `Skeleton.AlignmentOverTiming` | src/Vecc.QuickResponseCodes/Internal/Utils/SymbolTemplate.cs:213-215 | an alignment pattern centred on even coordinates shows, on row or column 6, the same module as the timing pattern |
| `Skeleton.ReservedOrBlank` | src/Vecc.QuickResponseCodes/Internal/Utils/SymbolTemplate.cs:155-177 | every module of a new template is reserved or still light and unreserved |
| `Skeleton.FinderReservedOrKept` | src/Vecc.QuickResponseCodes/Internal/Utils/SymbolTemplate.cs:179-205 | the finder patterns only change modules by reserving them |
| `Skeleton.VersionReservedOrKept` | src/Vecc.QuickResponseCodes/Internal/Utils/SymbolTemplate.cs:219-241 | the version information only changes modules by reserving them |
| `Skeleton.AlignedReservedOrKept` | src/Vecc.QuickResponseCodes/Internal/Utils/SymbolTemplate.cs:207-217 | the alignment patterns only change modules by reserving them |
| `Skeleton.CornerDarkReserved` | src/Vecc.QuickResponseCodes/Internal/Utils/SymbolTemplate.cs:188 | module (0, 0) of every new template is dark and reserved |
| `Skeleton.FormatStripReservedLight` | src/Vecc.QuickResponseCodes/Internal/Utils/SymbolTemplate.cs:186-204 | the format strips next to the finders, the timing crossings excepted, are reserved and light in a new template |
| `Skeleton.VersionInformationFrame` | src/Vecc.QuickResponseCodes/Internal/Utils/SymbolTemplate.cs:233-240 | the version information leaves every cell outside its two blocks unchanged |
| `Skeleton.CornerKeptByAlignment` | src/Vecc.QuickResponseCodes/Internal/Utils/SymbolTemplate.cs:211-216 | no alignment pattern reaches module (0, 0) |
| `Skeleton.StripKeptByAlignment` | src/Vecc.QuickResponseCodes/Internal/Utils/SymbolTemplate.cs:211-216 | no alignment pattern reaches the format strips |
| `SymbolTemplates.NewTemplate` | src/Vecc.QuickResponseCodes/Internal/Utils/SymbolTemplate.cs:27-35 | a new template has width 21 + 4(v - 1), the default level, and every module either reserved by a function pattern or light and unreserved |
| `SymbolTemplates.ReadByte` | src/Vecc.QuickResponseCodes/Internal/Utils/SymbolTemplate.cs:110 | reading the stream at position k gives a byte, or -1 exactly when k is past the end |
| `SymbolTemplates.PlaceCodewordCell` | src/Vecc.QuickResponseCodes/Internal/Utils/SymbolTemplate.cs:115-122 | after one placement a module is darkened exactly when a set bit of the value lands on it, and keeps its reservation |
| `SymbolTemplates.OrBitAt` | src/Vecc.QuickResponseCodes/Internal/Utils/SymbolTemplate.cs:115-122 | one Set with the default overwrite = false ORs the bit's flag into its module only |
| `SymbolTemplates.PopulateCell` | src/Vecc.QuickResponseCodes/Internal/Utils/SymbolTemplate.cs:108-128 | the placement loop from placement k on only darkens modules, exactly those some reached placement's set bits land on, and keeps every reservation |
| `SymbolTemplates.NoHit` | src/Vecc.QuickResponseCodes/Internal/Utils/SymbolTemplate.cs:108-128 | a module that no placement from k on touches is never darkened |
| `SymbolTemplates.OnlyHit` | src/Vecc.QuickResponseCodes/Internal/Utils/SymbolTemplate.cs:108-128 | a module only placement m touches is darkened exactly as the byte read for m says |
| `SymbolTemplates.PlacementIsGroup` | src/Vecc.QuickResponseCodes/Internal/Utils/SymbolTemplate.cs:108 | for symbol widths, placement k is the k-th group of eight points of the traversal |
| `SymbolTemplates.TraversalPoint` | src/Vecc.QuickResponseCodes/Internal/Utils/SymbolTemplate.cs:108 | each point of the bit-stream array is a free module of the grid, or the padding point (0, 0) |
| `SymbolTemplates.GroupPoint` | src/Vecc.QuickResponseCodes/Internal/Utils/SymbolTemplate.cs:115-122 | bit b of placement k is the traversal point 8k + 7 - b, or (0, 0) in the padding |
| `SymbolTemplates.PlacementsLand` | src/Vecc.QuickResponseCodes/Internal/Utils/SymbolTemplate.cs:108-122 | every point of every placement of a symbol lies in its grid, so the Sets stay inside the store |
| `SymbolTemplates.PopulateData` | src/Vecc.QuickResponseCodes/Internal/Utils/SymbolTemplate.cs:104-131 | placement keeps version, width, level and every reservation, and never lightens a module |
| `SymbolTemplates.DarkHitSingle` | src/Vecc.QuickResponseCodes/Internal/Utils/SymbolTemplate.cs:115-122 | a placement darkens a module reached only by bit b exactly when bit b of the value is set |
| `SymbolTemplates.GroupMisses` | src/Vecc.QuickResponseCodes/Internal/Utils/SymbolTemplate.cs:108-122 | placement k touches no traversal point outside its own eight |
| `SymbolTemplates.ReservedMissed` | src/Vecc.QuickResponseCodes/Internal/Utils/SymbolTemplate.cs:108-122 | no placement touches a reserved module other than the padding corner (0, 0) |
| `SymbolTemplates.OwnGroupHit` | src/Vecc.QuickResponseCodes/Internal/Utils/SymbolTemplate.cs:115-122 | within its own placement a traversal point is darkened exactly by its own bit |
| `SymbolTemplates.PopulateReadsBack` | src/Vecc.QuickResponseCodes/Internal/Utils/SymbolTemplate.cs:104-131 | when the payload fits the free modules, bit b of byte m lands on traversal point 8m + 7 - b, a free module that ends up dark exactly when it was already dark or the bit is set |
| `SymbolTemplates.PopulateKeepsReserved` | src/Vecc.QuickResponseCodes/Internal/Utils/SymbolTemplate.cs:104-131 | placement leaves every reserved module as it was, the corner (0, 0) provided it is already dark |
| `SymbolTemplates.ReadAlike` | src/Vecc.QuickResponseCodes/Internal/Utils/SymbolTemplate.cs:108-128 | two payloads read alike and stopping alike from placement k on place alike |
| `SymbolTemplates.ExtraBytesIgnored` | src/Vecc.QuickResponseCodes/Internal/Utils/SymbolTemplate.cs:108-128 | bytes beyond the number of placements are never read: the result equals that of the truncated payload |
| `SymbolTemplates.PopulateAtEnd` | src/Vecc.QuickResponseCodes/Internal/Utils/SymbolTemplate.cs:108 | with no placements left the grid is unchanged |
| `SymbolTemplates.EndOfStreamAllOnes` | src/Vecc.QuickResponseCodes/Internal/Utils/SymbolTemplate.cs:110-115 | the end-of-stream value -1 has every bit set, so the guard against values above 255 never stops the loop |
| `SymbolTemplates.EmptyPayloadDarkensFirstPlacement` | src/Vecc.QuickResponseCodes/Internal/Utils/SymbolTemplate.cs:104-131 | an empty payload is not rejected: the first placement reads -1, darkens its eight modules, and the loop stops |
| `SymbolTemplates.PlacementCount` | src/Vecc.QuickResponseCodes/Internal/Utils/Mapping.cs:16 | a symbol grid has at least six placements, width²/8 with width >= 7 |
| `SymbolTemplates.DataReadsBack` | src/Vecc.QuickResponseCodes/Internal/Utils/SymbolTemplate.cs:104-131 | in a new template the module of bit b of byte m is dark exactly when that bit is set, and is a free module |
| `SymbolTemplates.FunctionPatternsKept` | src/Vecc.QuickResponseCodes/Internal/Utils/SymbolTemplate.cs:104-131 | placement into a new template leaves every function-pattern module as drawn |
| `SymbolTemplates.WidthOdd` | src/Vecc.QuickResponseCodes/Internal/Utils/SymbolTemplate.cs:32 | symbol widths are odd and at least 21 |
| `SymbolTemplates.TemplateGrid` | src/Vecc.QuickResponseCodes/Internal/Utils/SymbolTemplate.cs:27-35 | a new template's grid is a symbol grid whose corner (0, 0) is dark and reserved |
| `FormatInformation.BinaryIndicator` | src/Vecc.QuickResponseCodes/Internal/Utils/SymbolTemplate.cs:425-441 | the indicator exists exactly for the four levels (anything else is an InvalidOperationException); it is below 4 and is the level's enum value with its low bit inverted |
| `FormatInformation.IndicatorInjective` | src/Vecc.QuickResponseCodes/Internal/Utils/SymbolTemplate.cs:428-438 | different levels get different indicators |
| `FormatInformation.FormatWord` | src/Vecc.QuickResponseCodes/Internal/Utils/SymbolTemplate.cs:53 | the five data bits are below 32 and give back the indicator as their top two bits and the mask as their low three |
| `FormatInformation.FormatEncoding` | src/Vecc.QuickResponseCodes/Internal/Utils/SymbolTemplate.cs:298-336 | every entry of Table C.1 is a 15-bit value |
| `FormatInformation.CellsRoundTrip` | src/Vecc.QuickResponseCodes/Internal/Utils/SymbolTemplate.cs:354-418 | the module chosen for bit b in each copy maps back to bit b in that copy and to no bit of the other, and is never the dark module |
| `FormatInformation.IndicesAreCells` | src/Vecc.QuickResponseCodes/Internal/Utils/SymbolTemplate.cs:354-418 | every module a copy writes is the module chosen for its bit |
| `FormatInformation.WriteBitCell` | src/Vecc.QuickResponseCodes/Internal/Utils/SymbolTemplate.cs:358-417 | the Sets for bit b OR that bit into its two modules, and after bit 8 the dark module too; no other module changes and reservations are kept |
| `FormatInformation.ApplyFormatSteps` | src/Vecc.QuickResponseCodes/Internal/Utils/SymbolTemplate.cs:354-418 | the fifteen pairs of Sets, bit 14 down to 0 with the dark module after bit 8, give the module-by-module picture in which each copy's module is ORed with its bit |
| `FormatInformation.FormatReadsBack` | src/Vecc.QuickResponseCodes/Internal/Utils/SymbolTemplate.cs:354-418 | a copy module that was light shows its bit afterwards, so both copies carry the same bit, and the reservation is kept |
| `FormatInformation.FormatFrame` | src/Vecc.QuickResponseCodes/Internal/Utils/SymbolTemplate.cs:385 | the module at (width - 8, 8) is dark whatever the bits, and modules outside both copies are untouched |
| `Bch.RemainderBelowData` | src/Vecc.QuickResponseCodes/Internal/Utils/SymbolTemplate.cs:298-336 | the remainder of a five-bit word shifted up by ten has degree below ten, so it does not overlap the data bits |
| `Bch.CodewordDivides` | src/Vecc.QuickResponseCodes/Internal/Utils/SymbolTemplate.cs:298-336 | the unmasked codeword is a multiple of the generator 0x537 |
| `Bch.DataBitsRecovered` | src/Vecc.QuickResponseCodes/Internal/Utils/SymbolTemplate.cs:298-336 | the top five bits of a codeword, with the mask undone, are the data word |
| `Bch.FormatTableIsBch` | src/Vecc.QuickResponseCodes/Internal/Utils/SymbolTemplate.cs:298-336 | each entry of Table C.1 is the (15, 5) BCH codeword of its index, masked with 0x5412 |
| `Bch.FormatEntryCarriesWord` | src/Vecc.QuickResponseCodes/Internal/Utils/SymbolTemplate.cs:298-336 | reading the top five bits of an entry and undoing the mask gives back the index it was looked up with |
| `SymbolCompletion.MaskedModule` | src/Vecc.QuickResponseCodes/Internal/Utils/SymbolTemplate.cs:473-481 | masking changes a module's colour exactly when it is not reserved and the pattern's condition holds at its row and column, and never changes a reservation |
| `SymbolCompletion.ApplyMaskSteps` | src/Vecc.QuickResponseCodes/Internal/Utils/SymbolTemplate.cs:473-481 | the row-by-row loop of FlipColor calls gives the module-by-module masked grid |
| `SymbolCompletion.MaskInvolution` | src/Vecc.QuickResponseCodes/Internal/Utils/SymbolTemplate.cs:473-481 | masking twice with the same pattern gives back the grid |
| `SymbolCompletion.PenaltyScore` | src/Vecc.QuickResponseCodes/Internal/Utils/SymbolTemplate.Masking.cs:28-35 | the penalty of a non-empty grid is defined and never negative |
| `SymbolCompletion.LowestIndex` | src/Vecc.QuickResponseCodes/Internal/Utils/SymbolTemplate.cs:456-466 | the comparison loop returns an index whose score is the lowest, and every earlier index scores strictly more: the first of the lowest |
| `SymbolCompletion.MaskCandidates` | src/Vecc.QuickResponseCodes/Internal/Utils/SymbolTemplate.cs:448-454 | there are seven candidates, one fewer than the eight predicates, and candidate k is the grid masked with pattern k |
| `SymbolCompletion.ScoreCandidates` | src/Vecc.QuickResponseCodes/Internal/Utils/SymbolTemplate.cs:456-466 | the score of candidate k is the penalty of the grid masked with pattern k |
| `SymbolCompletion.SelectAndApplyMask` | src/Vecc.QuickResponseCodes/Internal/Utils/SymbolTemplate.cs:443-471 | the chosen mask is one of patterns 0 to 6, the grid becomes that candidate, no candidate scores lower, and every earlier one scores strictly more |
| `SymbolCompletion.Finish` | src/Vecc.QuickResponseCodes/Internal/Utils/SymbolTemplate.cs:53-55 | writing the format information fails exactly when the level is not one of the four, with an InvalidOperationException, and otherwise keeps version, width and level |
| `SymbolCompletion.Complete` | src/Vecc.QuickResponseCodes/Internal/Utils/SymbolTemplate.cs:50-56 | the mask is chosen as above, before the level is checked, and the result is the masked grid with the format information of the level and that mask |
| `SymbolCompletion.FormatReadable` | src/Vecc.QuickResponseCodes/Internal/Utils/SymbolTemplate.cs:50-56 | in a symbol built the generator's way, both copies of every format bit show that bit of the table entry for the level and the chosen mask and stay reserved, and the dark module is dark |
| `SymbolCompletion.PopulatedFormatCells` | src/Vecc.QuickResponseCodes/Internal/Utils/SymbolTemplate.cs:104-131 | the format cells of a new template are reserved and light, and placing data keeps them so |
| `SymbolCompletion.FormatAfterMask` | src/Vecc.QuickResponseCodes/Internal/Utils/SymbolTemplate.cs:473-481 | light reserved format cells keep their colour through masking and then show their bit |
| `Generator.FirstUnprintable` | src/Vecc.QuickResponseCodes/Internal/QuickResponseGenerator.cs:125 | every byte before the returned index is printable, and the byte at it, if any, is not |
| `Generator.ValidateInputData` | src/Vecc.QuickResponseCodes/Internal/QuickResponseGenerator.cs:119-131 | a null payload is ArgumentNull; a payload is accepted unchanged exactly when every byte is in 0x20 to 0x7E, and otherwise is an Argument error, and some byte is unprintable |
| `Generator.EmptyPayloadAccepted` | src/Vecc.QuickResponseCodes/Internal/QuickResponseGenerator.cs:119-131 | the empty payload passes validation |
| `Generator.CheckArguments` | src/Vecc.QuickResponseCodes/Internal/QuickResponseGenerator.cs:47-55 | the range checks pass exactly when the level is one of the four and the image format is Jpeg or Png; otherwise the error is ArgumentOutOfRange |
| `Generator.Version9Capacity` | src/Vecc.QuickResponseCodes/Internal/QuickResponseGenerator.cs:83 | version 9 holds 232, 182, 132 and 100 data bytes at the four levels |
| `Generator.EarlyCapacity` | src/Vecc.QuickResponseCodes/Internal/QuickResponseGenerator.cs:86-91 | no version below 10 holds more data bytes than version 9 at the same level |
| `Generator.NarrowCountExact` | src/Vecc.QuickResponseCodes/Internal/QuickResponseGenerator.cs:96-103 | with the 8-bit count the payload has fewer than 256 bytes, so the (byte) cast keeps its length |
| `Generator.CountField` | src/Vecc.QuickResponseCodes/Internal/QuickResponseGenerator.cs:98-102 | the (ushort) and (byte) casts leave a count that fits its 16 or 8 bits |
| `Generator.FrameWriter` | src/Vecc.QuickResponseCodes/Internal/QuickResponseGenerator.cs:93-105 | the writer's stream after the four writes is the mode 0100, the count, the payload's bits and the terminator 0000 |
| `Generator.Frame` | src/Vecc.QuickResponseCodes/Internal/QuickResponseGenerator.cs:93-107 | the frame is n + 2 bytes with the 8-bit count and n + 3 with the 16-bit one, and its bits are exactly the frame's fields, so ToArray drops nothing |
| `Generator.BitsValueOfBits` | src/Vecc.QuickResponseCodes/Internal/QuickResponseGenerator.cs:95-105 | reading back the n bits written for a value below 2^n gives the value |
| `Generator.FrameReadsBack` | src/Vecc.QuickResponseCodes/Internal/QuickResponseGenerator.cs:93-107 | a reader finds each field of the frame where it was written: mode 4, the count as cast, the payload's bits, and the terminator 0 |
| `Generator.Populated` | src/Vecc.QuickResponseCodes/Internal/QuickResponseGenerator.cs:109-114 | the template for the framed bytes fails exactly when selection fails, with its error; otherwise it has the selected version and the achieved level, not the requested one |
| `Generator.Assemble` | src/Vecc.QuickResponseCodes/Internal/QuickResponseGenerator.cs:109-116 | the symbol fails only when the frame is too long for every version; otherwise it is the populated template completed with a mask of least penalty among patterns 0 to 6, at the selected version and a level at least the requested one |
| `Generator.FramePayload` | src/Vecc.QuickResponseCodes/Internal/QuickResponseGenerator.cs:82-106 | the frame carries mode 4, the count in 16 bits exactly when the payload does not fit version 9, the payload and the terminator; a narrow frame is always selected for, with fewer than 256 payload bytes; a selected frame is at version 10 or later exactly when its count is wide |
| `Generator.GetTemplate` | src/Vecc.QuickResponseCodes/Internal/QuickResponseGenerator.cs:80-117 | the count is 16 bits exactly when the payload does not fit version 9; an 8-bit count always succeeds with fewer than 256 bytes; on success the version is 10 or more exactly when the count is wide |
| `Generator.WideMeansLateVersion` | src/Vecc.QuickResponseCodes/Internal/QuickResponseGenerator.cs:86-91 | the selected version is 10 or later exactly when the count is wide |
| `Generator.Generate` | src/Vecc.QuickResponseCodes/Internal/QuickResponseGenerator.cs:39-69 | the level is checked first, then the image format, then the payload, each with its own error; a result comes only from valid arguments and a valid payload, and its level is at least the requested one |
| `Imaging.ClampBorder` | src/Vecc.QuickResponseCodes/Internal/Utils/SymbolTemplate.cs:60-63 | the border is at least four modules: a request below four becomes four, any other is kept |
| `Imaging.ImageLayout` | src/Vecc.QuickResponseCodes/Internal/Utils/SymbolTemplate.cs:65-70 | the border and image sizes are the module counts times the module size; for a non-negative request the image is the largest whole multiple of the total width no wider than asked, and a negative request gives a non-positive module size |
| `Imaging.GeometryOf` | src/Vecc.QuickResponseCodes/Internal/Utils/SymbolTemplate.cs:65-70 | with a positive module size the border, the symbol and the border again add up to the image; otherwise every size is zero or negative |
| `Imaging.ModuleInRange` | src/Vecc.QuickResponseCodes/Internal/Utils/SymbolTemplate.cs:79-88 | a pixel coordinate between the border and the inner edge of the far border, that is inside the area the quiet zone encloses, falls in a module row or column of the symbol |
| `Imaging.BlockOfModule` | src/Vecc.QuickResponseCodes/Internal/Utils/SymbolTemplate.cs:87 | module r's square starts at r times the module size plus the border size and is one module size wide |
| `Imaging.RowSpan` | src/Vecc.QuickResponseCodes/Internal/Utils/SymbolTemplate.cs:344-350 | in a row-major buffer the width elements from stride·row + x on are exactly the pixels of that row from column x on |
| `Imaging.FillSpan` | src/Vecc.QuickResponseCodes/Internal/Utils/SymbolTemplate.cs:349-350 | the inner loop sets exactly the elements from start to start + width to the colour, and keeps the rest |
| `Imaging.FillRectangle` | src/Vecc.QuickResponseCodes/Internal/Utils/SymbolTemplate.cs:338-352 | the buffer afterwards has the colour exactly at the pixels of the width × height rectangle at (x, y), read row-major, and is unchanged elsewhere |
| `Imaging.FilledEmpty` | src/Vecc.QuickResponseCodes/Internal/Utils/SymbolTemplate.cs:344-349 | a rectangle of no width or no height changes nothing |
| `Imaging.BorderRectangles` | src/Vecc.QuickResponseCodes/Internal/Utils/SymbolTemplate.cs:74-77 | the top, left, right and bottom rectangles together are exactly the quiet zone |
| `Imaging.DrawBorder` | src/Vecc.QuickResponseCodes/Internal/Utils/SymbolTemplate.cs:74-77 | with a positive module size the four fills paint exactly the quiet zone with the background; otherwise they change nothing |
| `Imaging.ModuleStep` | src/Vecc.QuickResponseCodes/Internal/Utils/SymbolTemplate.cs:82-87 | filling the square of module (y, x) with its colour advances the drawing by that one module |
| `Imaging.RowDone` | src/Vecc.QuickResponseCodes/Internal/Utils/SymbolTemplate.cs:79-80 | finishing a row of modules is starting the next one |
| `Imaging.DrawnEnds` | src/Vecc.QuickResponseCodes/Internal/Utils/SymbolTemplate.cs:72-88 | before the module loop the quiet zone is background and the rest unset; after it every pixel shows the final image |
| `Imaging.DrawRow` | src/Vecc.QuickResponseCodes/Internal/Utils/SymbolTemplate.cs:80-88 | the inner loop draws the modules of row y, left to right, on top of the rows before |
| `Imaging.DrawModules` | src/Vecc.QuickResponseCodes/Internal/Utils/SymbolTemplate.cs:79-88 | the nested loops draw every module's square on top of the border |
| `Imaging.ToImage` | src/Vecc.QuickResponseCodes/Internal/Utils/SymbolTemplate.cs:58-88 | the buffer has dims² pixels; with a positive module size pixel (px, py) is the background in the quiet zone and otherwise the colour of the module it falls in, dark modules in the foreground; with no positive module size every pixel is left unset |

## Left out

- Image output: `Bitmap` creation, `DrawImage` (copying the colour buffer into locked bitmap memory), the resampling to `imageWidth` × `imageWidth`, `GetImageFormat` and `Image.Save` are platform graphics calls. `Imaging.ToImage` stops at the colour buffer. `Generator.Generate` stops at the completed template. With a module size of zero or less, the source then fails in the `Bitmap` constructor, and that failure is not modelled.
- `Generator.Generate`: does not model the image, the default colours for null arguments (transparent background, black foreground) or the `Task` wrapper. It also does not model the string overload, which encodes with the platform's default encoding.
- `Generator.CheckArguments`: the `CodeImageFormat` members are taken to be Jpeg = 0 and Png = 1, in declaration order. The enum's source file is not part of this model.
- `Imaging.ToImage`: image sizes are unbounded integers. The source's int32 products (`totalModuleWidth * moduleSize`, `imageDimensions * imageDimensions`) can overflow only for image widths far beyond what a bitmap can hold.
- `Imaging.FillRectangle`: requires the rectangle to lie inside the buffer. The source writes out of bounds otherwise, but `ToImage` never asks for such a rectangle.
- `DataMatrix.WriteBits`: requires at most 32 bits, which is what the private method's callers pass (4, 8 and 16). The source's behaviour for more bits, or for a negative count, depends on C#'s masking of shift counts and is not modelled.
- Object plumbing is not modelled: factories, interfaces, the cached template prototypes, `Volatile` reads, `Dispose` and `MemoryStream` are left out. The module store's `CreateCopy` is the identity, because every grid here is an immutable value.
- `SymbolCompletion.Complete`: when the level is invalid, the source has already replaced its modules with the masked candidate before it throws. The model returns the failure and does not expose the half-updated template. Selection and masking are still performed first, and their result is visible in `mask`.
- `ReedSolomon.Generator`: the roots of the generator polynomial (g_n(α^i) = 0 for i < n) are not proved. Polynomial evaluation is left out. The generator is characterised by being monic of degree n and built as the product of the linear factors. The codeword is characterised by divisibility (`ReedSolomon.CodewordIsDivisible`).
- `Skeleton.VersionEncodingCarriesVersion`: the version information table is checked to carry each version in its top six bits. It is not checked against the (18, 6) BCH code of Annex D, while the format table is checked against its BCH code (`Bch.FormatTableIsBch`).
- `Masking.Penalty`: the exact total is rules A + B + C + D. The contract bounds it between A + B + C and that sum plus 100. Rule D itself is stated exactly by `Masking.PenaltyD`.
- `Mapping.CodewordPlacements`: states only the array's length. Which entries hold which traversal points is stated by `SymbolTemplates.PlacementIsGroup` and the lemmas around it.
- `FormatInformation.FormatEncoding`: states only the 15-bit range. Its content is stated by `Bch.FormatTableIsBch`.
- `Capacity.BlockInfo.ErrorBytes`: the source's unchecked int32 subtraction is modelled as an unbounded integer. Every shape in the capacity table has 0 <= data <= total <= 256, so the subtraction cannot wrap.
