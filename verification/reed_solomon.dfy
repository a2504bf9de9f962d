/**
 * Reed-Solomon error-correction codewords over GF(2^8) modulo 0x11D
 * (section 6.5.2 of ISO/IEC 18004:2006).
 *
 * The generator of degree n is g_n(x) = (x + 2^0)(x + 2^1)...(x + 2^(n-1)),
 * built by the recursion g_n = g_(n-1) * (x + 2^(n-1)) from g_1 = x + 1.
 * The source caches the generators in a 128-slot array; the cache is
 * modelled as the pure recursive function it memoises.
 */
module ReedSolomon {
  import opened Wrappers
  import opened Arith
  import opened GaloisField

  // ------------------------------------------------------------------
  // Generator polynomials
  // ------------------------------------------------------------------

  /**
   * The generator polynomial of the given degree, highest power first.
   * Slot 1 of the cache is pre-filled with x + 1; any other slot in 0 .. 127
   * is computed from the one below it. Degree 0 recurses to slot -1, and a
   * degree outside the cache indexes past it: both fail with IndexOutOfRange.
   */
  function Generator(degree: int): (r: Result<seq<bv8>>)
    ensures r.Success? <==> 1 <= degree <= 127
    ensures r.Failure? ==> r.error == IndexOutOfRange
    ensures r.Success? ==> |r.value| == degree + 1 && r.value[0] == 1
    decreases degree + 1
  {
    if degree < 0 || degree >= 128 then Failure(IndexOutOfRange)
    else if degree == 1 then Success([1, 1])
    else
      var previous :- Generator(degree - 1);
      var root := Pow(2, degree - 1).value;
      LinearProductHead(previous, root);
      MultiplyPolynomial(previous, [1, root])
  }

  /** Coefficient k of a product with the linear factor x + c. */
  lemma {:induction false} LinearProductFrom(a: seq<bv8>, c: bv8, k: int, i: nat)
    requires i <= |a|
    ensures ProductFrom(a, [1, c], k, i) == Kept(a, k, i) ^ Scaled(a, c, k, i)
    decreases |a| - i
  {
    if i < |a| {
      LinearProductFrom(a, c, k, i + 1);
      LinearTerm(a, c, k, i);
      LinearStep(ProductTerm(a, [1, c], i, k), Kept(a, k, i + 1), Scaled(a, c, k, i + 1), Kept(a, k, i), Scaled(a, c, k, i));
    }
  }

  /** Term i of coefficient k is the kept coefficient, the scaled one, or nothing, as i is k, k - 1 or neither. */
  lemma LinearTerm(a: seq<bv8>, c: bv8, k: int, i: nat)
    requires i < |a|
    ensures var t := ProductTerm(a, [1, c], i, k);
      || (t == Kept(a, k, i) && Kept(a, k, i + 1) == 0 && Scaled(a, c, k, i + 1) == 0 && Scaled(a, c, k, i) == 0)
      || (t == Scaled(a, c, k, i) && Kept(a, k, i + 1) == Kept(a, k, i) && Scaled(a, c, k, i + 1) == 0)
      || (t == 0 && Kept(a, k, i + 1) == Kept(a, k, i) && Scaled(a, c, k, i + 1) == Scaled(a, c, k, i))
  {
    MulOne(a[i]);
  }

  /** Coefficient a[k] of the polynomial, when term k is among terms i on. */
  function Kept(a: seq<bv8>, k: int, i: nat): bv8
  {
    if i <= k < |a| then a[k] else 0
  }

  /** Coefficient a[k - 1] times c, when term k - 1 is among terms i on. */
  function Scaled(a: seq<bv8>, c: bv8, k: int, i: nat): bv8
  {
    if i <= k - 1 < |a| then Mul(a[k - 1], c) else 0
  }

  /** Adding one term in front: it is the kept coefficient, the scaled one, or nothing. */
  lemma LinearStep(t: bv8, x1: bv8, y1: bv8, x: bv8, y: bv8)
    requires (t == x && x1 == 0 && y1 == 0 && y == 0) || (t == y && x1 == x && y1 == 0) || (t == 0 && x1 == x && y1 == y)
    ensures t ^ (x1 ^ y1) == x ^ y
  {
  }

  /** The product with x + c keeps a leading coefficient of 1. */
  lemma LinearProductHead(a: seq<bv8>, c: bv8)
    requires |a| >= 1 && a[0] == 1
    ensures MultiplyPolynomial(a, [1, c]).Success?
    ensures MultiplyPolynomial(a, [1, c]).value[0] == 1
  {
    LinearProductFrom(a, c, 0, 0);
  }

  // ------------------------------------------------------------------
  // Error-correction codewords
  // ------------------------------------------------------------------

  /**
   * The n error-correction bytes of a data block: the remainder of the data
   * followed by n zero bytes, divided by g_n. The shifted buffer's length is
   * an unchecked int32 sum, and a negative length fails with Overflow;
   * copying the data into a shorter buffer fails with Argument.
   */
  function ErrorCorrectionBytes(input: seq<bv8>, n: int): (r: Result<seq<bv8>>)
    requires |input| <= MaxInt32 && IsInt32(n)
    ensures r.Success? <==> 1 <= n <= 127 && |input| + n <= MaxInt32
    ensures (|input| + n < 0 || |input| + n > MaxInt32) ==> r == Failure(Overflow)
    ensures 0 <= |input| + n < |input| ==> r == Failure(Argument)
    ensures (n == 0 || 128 <= n) && |input| + n <= MaxInt32 ==> r == Failure(IndexOutOfRange)
    ensures r.Success? ==> |r.value| == n
    ensures r.Success? ==> r == PolynomialMod(input + Zeros(n), Generator(n).value)
  {
    var length := WrapInt32(|input| + n);
    if length < 0 then Failure(Overflow)
    else if length < |input| then Failure(Argument)
    else
      var generator :- Generator(n);
      assert length == |input| + n;
      RemainderCompletesCodeword(input, generator);
      PolynomialMod(input + Zeros(n), generator)
  }

  /** The data followed by its error-correction bytes is a multiple of the generator: a codeword. */
  lemma ErrorBytesCompleteCodeword(input: seq<bv8>, n: int)
    requires |input| <= MaxInt32 && IsInt32(n)
    requires ErrorCorrectionBytes(input, n).Success?
    ensures PolynomialMod(input + ErrorCorrectionBytes(input, n).value, Generator(n).value) == Success(Zeros(n))
  {
    RemainderCompletesCodeword(input, Generator(n).value);
  }

  /**
   * The data followed by the remainder of (data * x^n) / divisor is divisible
   * by the divisor: this is what makes the remainder the error-correction
   * codewords of a systematic Reed-Solomon code.
   */
  lemma RemainderCompletesCodeword(data: seq<bv8>, divisor: seq<bv8>)
    requires |divisor| >= 1
    ensures PolynomialMod(data + Zeros(|divisor| - 1), divisor).Success?
    ensures PolynomialMod(data + PolynomialMod(data + Zeros(|divisor| - 1), divisor).value, divisor)
         == Success(Zeros(|divisor| - 1))
  {
    var ec := PolynomialMod(data + Zeros(|divisor| - 1), divisor).value;
    CodewordIsDivisible(data, ec, divisor);
  }

  /** Data followed by its remainder is divisible by the divisor: the remainder of the whole is zero. */
  lemma CodewordIsDivisible(data: seq<bv8>, ec: seq<bv8>, divisor: seq<bv8>)
    requires |divisor| >= 1 && |ec| == |divisor| - 1
    requires PolynomialMod(data + Zeros(|ec|), divisor) == Success(ec)
    ensures PolynomialMod(data + ec, divisor) == Success(Zeros(|ec|))
  {
    var n := |ec|;
    var shifted, tail := data + Zeros(n), Zeros(|data|) + ec;
    assert Add(shifted, tail) == data + ec;
    PolynomialModLinear(shifted, tail, divisor);
    PolynomialModOfLowDegree(|data|, ec, divisor);
    assert Add(ec, ec) == Zeros(n);
  }
}
