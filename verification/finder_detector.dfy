/**
 * The finder-pattern detector used by penalty rule C: an 11-bit shift
 * register that counts the windows dark:light:dark:dark:dark:light:dark
 * followed or preceded by four light modules (1:1:3:1:1 with a light area
 * of width 4, section 6.8.2 of ISO/IEC 18004:2006).
 *
 * The register is the source's 32-bit integer, kept here as its bit pattern
 * read unsigned (0 <= register < 2^32): `(register << 1) | bit` is then
 * `(2 * register + bit) mod 2^32`, and `register & 0x7FF` is
 * `register mod 2^11`. Only those low 11 bits are ever compared.
 */
module FinderPatterns {
  import opened Arith

  /** 10111010000: the pattern followed by four light modules. */
  const PatternA: int := 0x5D0
  /** 00001011101: the pattern preceded by four light modules. */
  const PatternB: int := 0x5D
  const WindowSize: int := 11

  /** The same two windows as module sequences, first module first. */
  const WindowA: seq<bool> := [true, false, true, true, true, false, true, false, false, false, false]
  const WindowB: seq<bool> := [false, false, false, false, true, false, true, true, true, false, true]

  predicate IsFinderWindow(w: seq<bool>)
  {
    w == WindowA || w == WindowB
  }

  // ------------------------------------------------------------------
  // The detector
  // ------------------------------------------------------------------

  datatype Detector = Detector(shifted: int, register: int, found: int)

  predicate Valid(d: Detector)
  {
    0 <= d.register < 0x1_0000_0000
  }

  /** A new detector: nothing shifted in, nothing found. */
  const Fresh: Detector := Detector(0, 0, 0)

  function Bit(dark: bool): int
  {
    if dark then 1 else 0
  }

  /**
   * Shift one module into the register; once at least 11 modules have gone
   * in, count a match of the low 11 bits against either pattern.
   */
  function ShiftIn(d: Detector, dark: bool): (r: Detector)
    ensures Valid(r)
    ensures r.shifted == d.shifted + 1
    ensures d.found <= r.found <= d.found + 1
    ensures r.shifted < WindowSize ==> r.found == d.found
  {
    var register := (2 * d.register + Bit(dark)) % 0x1_0000_0000;
    var shifted := d.shifted + 1;
    var masked := register % 0x800;
    var hit := shifted >= WindowSize && (masked == PatternA || masked == PatternB);
    Detector(shifted, register, if hit then d.found + 1 else d.found)
  }

  /** A fresh detector after the modules of `line` have been shifted in, in order. */
  function Run(line: seq<bool>): (r: Detector)
    ensures Valid(r)
    ensures r.shifted == |line|
    ensures 0 <= r.found
  {
    if |line| == 0 then Fresh else ShiftIn(Run(line[..|line| - 1]), line[|line| - 1])
  }

  // ------------------------------------------------------------------
  // The reference count: windows of the line that are finder windows
  // ------------------------------------------------------------------

  /** The number of positions i, 11 <= i <= |line|, with line[i-11..i] a finder window. */
  function Matches(line: seq<bool>): (n: nat)
    ensures n <= if |line| < WindowSize then 0 else |line| - WindowSize + 1
  {
    if |line| < WindowSize then 0
    else Matches(line[..|line| - 1]) + (if IsFinderWindow(line[|line| - WindowSize..]) then 1 else 0)
  }

  /** The last (at most 11) modules of the line. */
  function Last(line: seq<bool>): (w: seq<bool>)
    ensures |w| == if |line| < WindowSize then |line| else WindowSize
    ensures w == line[|line| - |w|..]
  {
    if |line| < WindowSize then line else line[|line| - WindowSize..]
  }

  // ------------------------------------------------------------------
  // Packing a window into the low bits of a register
  // ------------------------------------------------------------------

  /** A module sequence as a binary number, first module in the highest bit. */
  function Pack(w: seq<bool>): (r: nat)
    ensures r < Pow2(|w|)
  {
    if |w| == 0 then 0 else 2 * Pack(w[..|w| - 1]) + Bit(w[|w| - 1])
  }

  /** The first module of a window is its highest bit. */
  lemma {:induction false} PackCons(a: bool, v: seq<bool>)
    ensures Pack([a] + v) == (if a then Pow2(|v|) else 0) + Pack(v)
  {
    if |v| > 0 {
      var v' := v[..|v| - 1];
      PackCons(a, v');
      assert ([a] + v)[..|v|] == [a] + v';
    }
  }

  /** Windows of equal length are told apart by their packed values. */
  lemma {:induction false} PackInjective(u: seq<bool>, v: seq<bool>)
    requires |u| == |v| && Pack(u) == Pack(v)
    ensures u == v
  {
    if |u| > 0 {
      var u', v' := u[..|u| - 1], v[..|v| - 1];
      PackInjective(u', v');
      assert u == u' + [u[|u| - 1]];
      assert v == v' + [v[|v| - 1]];
    }
  }

  lemma {:induction false} Pow2AtMost(n: nat)
    requires n <= WindowSize
    ensures Pow2(n) <= 0x800
    ensures n < WindowSize ==> Pow2(n) <= 1024
    decreases WindowSize - n
  {
    if n < WindowSize {
      Pow2AtMost(n + 1);
    }
  }

  /** A window of at most ten modules fits below bit 10; of eleven, drop the first. */
  lemma LowTenBits(w: seq<bool>)
    requires 1 <= |w| <= WindowSize
    ensures |w| < WindowSize ==> Pack(w) % 1024 == Pack(w)
    ensures |w| == WindowSize ==> Pack(w) % 1024 == Pack(w[1..])
  {
    if |w| < WindowSize {
      Pow2AtMost(|w|);
      ModUnique(Pack(w), 1024, 0, Pack(w));
    } else {
      assert w == [w[0]] + w[1..];
      PackCons(w[0], w[1..]);
      assert Pow2(10) == 1024;
      ModUnique(Pack(w), 1024, if w[0] then 1 else 0, Pack(w[1..]));
    }
  }

  /** The low ten bits of the register follow from its low eleven. */
  lemma Narrow(r: int, p: int)
    requires 0 <= r && 0 <= p < 0x800 && r % 0x800 == p
    ensures r % 1024 == p % 1024
  {
    var q := r / 0x800;
    ModUnique(r, 1024, 2 * q + p / 1024, p % 1024);
  }

  /** One shift of the 32-bit register, seen through the 11-bit mask. */
  lemma ShiftStep(r: int, b: int, y: int)
    requires 0 <= r < 0x1_0000_0000 && 0 <= b <= 1 && 0 <= y < 1024 && r % 1024 == y
    ensures ((2 * r + b) % 0x1_0000_0000) % 0x800 == 2 * y + b
  {
    var q := r / 1024;
    var k := (2 * r + b) / 0x1_0000_0000;
    var t := (2 * r + b) % 0x1_0000_0000;
    assert t == 0x800 * (q - k * 0x20_0000) + (2 * y + b);
    ModUnique(t, 0x800, q - k * 0x20_0000, 2 * y + b);
  }

  lemma {:induction false} PackUnpack(v: nat, n: nat)
    requires v < Pow2(n)
    ensures Pack(Bits(v, n)) == v
  {
    if n > 0 {
      var w := Bits(v, n);
      PackUnpack(v / 2, n - 1);
      assert w[..n - 1] == Bits(v / 2, n - 1);
    }
  }

  lemma PackedWindows()
    ensures Pack(WindowA) == PatternA && Pack(WindowB) == PatternB
  {
    UnpackedWindowA();
    UnpackedWindowB();
    PackedWindow(PatternA, WindowA);
    PackedWindow(PatternB, WindowB);
  }

  lemma PackedWindow(pattern: nat, window: seq<bool>)
    requires pattern < 0x800 && window == Bits(pattern, 11)
    ensures Pack(window) == pattern
  {
    assert Pow2(11) == 0x800;
    PackUnpack(pattern, 11);
  }

  lemma UnpackedWindowA()
    ensures Bits(PatternA, 11) == WindowA
  {
  }

  lemma UnpackedWindowB()
    ensures Bits(PatternB, 11) == WindowB
  {
  }

  /** The two patterns are exactly the packed finder windows. */
  lemma {:induction false} WindowMatches(w: seq<bool>)
    requires |w| == WindowSize
    ensures Pack(w) == PatternA || Pack(w) == PatternB <==> IsFinderWindow(w)
  {
    PackedWindows();
    if Pack(w) == PatternA {
      PackInjective(w, WindowA);
    } else if Pack(w) == PatternB {
      PackInjective(w, WindowB);
    }
  }

  // ------------------------------------------------------------------
  // The detector counts exactly the finder windows
  // ------------------------------------------------------------------

  /**
   * After a line has been shifted in, the low 11 bits of the register are
   * its last 11 modules (oldest in the high bit), and the count is the
   * number of finder windows in the line.
   */
  lemma {:induction false} Detects(line: seq<bool>)
    ensures Run(line).register % 0x800 == Pack(Last(line))
    ensures Run(line).found == Matches(line)
  {
    Tracks(line);
    if |line| > 0 {
      var prefix := line[..|line| - 1];
      Detects(prefix);
      if |line| >= WindowSize {
        var w := Last(line);
        WindowMatches(w);
        assert w == line[|line| - WindowSize..];
      }
    }
  }

  /** The low 11 bits of the register are the last 11 modules shifted in. */
  lemma {:induction false} Tracks(line: seq<bool>)
    ensures Run(line).register % 0x800 == Pack(Last(line))
  {
    if |line| > 0 {
      var prefix := line[..|line| - 1];
      var dark := line[|line| - 1];
      Tracks(prefix);
      var r := Run(prefix).register;
      var l := Last(prefix);
      var shifted := (2 * r + Bit(dark)) % 0x1_0000_0000;
      assert Run(line).register == shifted;
      RegisterStep(r, l, dark);
      LastStep(line);
      assert shifted % 0x800 == Pack(Last(line));
    }
  }

  /** What the window keeps of its previous contents when one more module arrives. */
  function Kept(l: seq<bool>): seq<bool>
  {
    if |l| == WindowSize then l[1..] else l
  }

  lemma LastStep(line: seq<bool>)
    requires |line| > 0
    ensures Last(line) == Kept(Last(line[..|line| - 1])) + [line[|line| - 1]]
  {
  }

  /** Shifting a module in moves the window along by one. */
  lemma RegisterStep(r: int, l: seq<bool>, dark: bool)
    requires 0 <= r < 0x1_0000_0000 && |l| <= WindowSize && r % 0x800 == Pack(l)
    ensures ((2 * r + Bit(dark)) % 0x1_0000_0000) % 0x800 == Pack(Kept(l) + [dark])
  {
    var p, y, b := Pack(l), Pack(Kept(l)), Bit(dark);
    KeptLow(l);
    assert 0 <= p < 0x800 && 0 <= y < 1024 && p % 1024 == y;
    RegisterArith(r, p, y, b);
    assert ((2 * r + b) % 0x1_0000_0000) % 0x800 == 2 * y + b;
    PackSnoc(Kept(l), dark);
    assert Pack(Kept(l) + [dark]) == 2 * y + b;
  }

  lemma PackSnoc(w: seq<bool>, dark: bool)
    ensures Pack(w + [dark]) == 2 * Pack(w) + Bit(dark)
  {
    assert (w + [dark])[..|w|] == w;
  }

  /** The low ten bits of a packed window are the part of it that is kept. */
  lemma KeptLow(l: seq<bool>)
    requires |l| <= WindowSize
    ensures Pack(l) < 0x800
    ensures Pack(Kept(l)) < 1024
    ensures Pack(l) % 1024 == Pack(Kept(l))
  {
    Pow2AtMost(|l|);
    Pow2AtMost(|Kept(l)|);
    if |l| > 0 {
      LowTenBits(l);
    }
  }

  lemma RegisterArith(r: int, p: int, y: int, b: int)
    requires 0 <= r < 0x1_0000_0000 && 0 <= p < 0x800 && r % 0x800 == p
    requires 0 <= y < 1024 && p % 1024 == y && 0 <= b <= 1
    ensures ((2 * r + b) % 0x1_0000_0000) % 0x800 == 2 * y + b
  {
    Narrow(r, p);
    ShiftStep(r, b, y);
  }

  /** Nothing is counted before the eleventh module. */
  lemma {:induction false} NothingBeforeEleven(line: seq<bool>)
    requires |line| < WindowSize
    ensures Run(line).found == 0
  {
    Detects(line);
  }

  /** Each pattern on its own is counted once. */
  lemma DetectsPattern()
    ensures Run(WindowA).found == 1
    ensures Run(WindowB).found == 1
  {
    Detects(WindowA);
    Detects(WindowB);
  }
}
