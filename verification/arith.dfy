/**
 * The integer operators of C# that differ from Dafny's, written out:
 * `/` and `%` truncate toward zero (Dafny's are Euclidean), and checked
 * int32 arithmetic fails outside [-2^31, 2^31). Also the bit string of an
 * integer, shared by the bit writer and the finder-pattern register.
 */
module Arith {

  function Pow2(k: nat): (r: nat)
    ensures r >= 1
  {
    if k == 0 then 1 else Pow2(k - 1) + Pow2(k - 1)
  }

  /** The low n bits of v, most significant first. */
  function Bits(v: int, n: nat): (r: seq<bool>)
    ensures |r| == n
    decreases n
  {
    if n == 0 then [] else Bits(v / 2, n - 1) + [v % 2 == 1]
  }

  /** Entry i of Bits(v, n) is the bit of weight 2^(n - 1 - i) of v. */
  lemma {:induction false} BitsAt(v: int, n: nat, i: nat)
    requires i < n
    ensures Bits(v, n)[i] == (v / Pow2(n - 1 - i) % 2 == 1)
    decreases n
  {
    if i == n - 1 {
      assert Pow2(0) == 1;
    } else {
      BitsAt(v / 2, n - 1, i);
      HalveThenDivide(v, Pow2(n - 2 - i));
      assert Bits(v, n)[i] == Bits(v / 2, n - 1)[i];
    }
  }

  /** Halving and then dividing by m is dividing by 2m. */
  lemma HalveThenDivide(v: int, m: int)
    requires m >= 1
    ensures v / 2 / m == v / (m + m)
  {
    var q := v / 2;
    var k, t := q / m, q % m;
    assert k * (m + m) == k * m + k * m;
    DivUnique(v, m + m, k, 2 * t + v % 2);
  }

  /** C#'s `a % b`: the remainder of division truncated toward zero, which takes the sign of a. */
  function TruncRem(a: int, b: int): (r: int)
    requires b > 0
    ensures a >= 0 ==> 0 <= r < b
    ensures a < 0 ==> -b < r <= 0
    ensures r == a % b || r == a % b - b
  {
    if a >= 0 then a % b
    else
      var q, m := (-a) / b, (-a) % b;
      if m == 0 then
        ModOfMultiple(a, b, -q);
        0
      else
        ModUnique(a, b, -q - 1, b - m);
        -m
  }

  lemma ModUnique(a: int, b: int, q: int, r: int)
    requires b > 0 && 0 <= r < b && a == q * b + r
    ensures a % b == r
  {
    var d := q - a / b;
    assert d * b == a % b - r;
    if d > 0 {
      MulAtLeast(d, b);
    } else if d < 0 {
      MulAtLeast(-d, b);
    }
  }

  lemma DivUnique(a: int, b: int, q: int, r: int)
    requires b > 0 && 0 <= r < b && a == q * b + r
    ensures a / b == q
  {
    ModUnique(a, b, q, r);
  }

  /** Reducing a summand modulo m first does not change the sum modulo m. */
  lemma ModAddLeft(x: int, y: int, m: int)
    requires m > 0
    ensures (x % m + y) % m == (x + y) % m
  {
    var q := (x + y) / m - x / m;
    assert q * m == ((x + y) / m) * m - (x / m) * m;
    ModUnique(x % m + y, m, q, (x + y) % m);
  }

  /** Multiplying by a non-negative factor keeps the order of non-negative numbers. */
  lemma MulMono(x: int, y: int, q: int)
    requires 0 <= x <= y && q >= 0
    ensures 0 <= x * q <= y * q
  {
  }

  lemma MulAtLeast(d: int, b: int)
    requires d >= 1 && b > 0
    ensures d * b >= b
  {
  }

  lemma ModOfMultiple(a: int, b: int, q: int)
    requires b > 0 && a == q * b
    ensures a % b == 0
  {
    ModUnique(a, b, q, 0);
  }

  /** C#'s `a / b`: the quotient truncated toward zero. */
  function TruncDiv(a: int, b: int): (q: int)
    requires b > 0
    ensures a >= 0 ==> q == a / b
    ensures a < 0 ==> q == -((-a) / b)
  {
    if a >= 0 then a / b else -((-a) / b)
  }

  predicate IsInt32(x: int)
  {
    -0x8000_0000 <= x < 0x8000_0000
  }

  const MaxInt32: int := 0x7FFF_FFFF

  /** Unchecked int32 arithmetic: the mathematical result wrapped into [-2^31, 2^31). */
  function WrapInt32(x: int): (r: int)
    ensures IsInt32(r)
    ensures IsInt32(x) ==> r == x
    ensures (x - r) % 0x1_0000_0000 == 0
    ensures 0x8000_0000 <= x < 0x1_8000_0000 ==> r == x - 0x1_0000_0000
  {
    var shifted := x + 0x8000_0000;
    var m := shifted % 0x1_0000_0000;
    ModOfMultiple(x - (m - 0x8000_0000), 0x1_0000_0000, shifted / 0x1_0000_0000);
    if IsInt32(x) then
      ModUnique(shifted, 0x1_0000_0000, 0, shifted);
      m - 0x8000_0000
    else if 0x8000_0000 <= x < 0x1_8000_0000 then
      ModUnique(shifted, 0x1_0000_0000, 1, shifted - 0x1_0000_0000);
      m - 0x8000_0000
    else m - 0x8000_0000
  }
}
