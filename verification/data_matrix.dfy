/**
 * The bit writer that builds the data bit stream: an accumulator of fewer
 * than eight pending bits in front of a byte buffer. Bits are written most
 * significant first, and a byte is emitted as soon as eight bits are pending.
 *
 * The writer is a value: every write returns the new writer.
 */
module DataMatrix {
  import opened Arith

  // ------------------------------------------------------------------
  // Bit strings
  // ------------------------------------------------------------------

  /** A byte, as the integer the source's byte and int arithmetic sees. */
  type Byte = x: int | 0 <= x < 256

  /** An unsigned 16-bit value. */
  type UShort = x: int | 0 <= x < 0x1_0000

  /** The bits of a byte string, each byte most significant bit first. */
  function BytesBits(bytes: seq<Byte>): (r: seq<bool>)
    ensures |r| == 8 * |bytes|
  {
    if |bytes| == 0 then [] else Bits(bytes[0], 8) + BytesBits(bytes[1..])
  }

  lemma Pow2Add(a: nat, b: nat)
    ensures Pow2(a + b) == Pow2(a) * Pow2(b)
    decreases b
  {
    if b > 0 {
      Pow2Add(a, b - 1);
    }
  }

  lemma Halve(a: int, p: int, r: int)
    requires p >= 1
    ensures (a * (2 * p) + r) / 2 == a * p + r / 2
    ensures (a * (2 * p) + r) % 2 == r % 2
  {
    ModUnique(a * (2 * p) + r, 2, a * p + r / 2, r % 2);
    var x := a * (2 * p) + r;
    assert x == 2 * (x / 2) + x % 2;
  }

  /** Appending k low bits: the bits of a * 2^k + r are the bits of a followed by the bits of r. */
  lemma {:induction false} BitsConcat(a: int, r: int, n: nat, k: nat)
    requires 0 <= r < Pow2(k)
    ensures Bits(a * Pow2(k) + r, n + k) == Bits(a, n) + Bits(r, k)
    decreases k
  {
    if k > 0 {
      var p := Pow2(k - 1);
      Halve(a, p, r);
      assert r / 2 < p;
      BitsConcat(a, r / 2, n, k - 1);
    }
  }

  /** Splitting a bit string at k bits from the end. */
  lemma BitsSplit(v: int, n: nat, k: nat)
    ensures Bits(v, n + k) == Bits(v / Pow2(k), n) + Bits(v % Pow2(k), k)
  {
    var p := Pow2(k);
    var q, r := v / p, v % p;
    DivModParts(v, p);
    BitsConcat(q, r, n, k);
  }

  lemma DivModParts(v: int, p: int)
    requires p >= 1
    ensures v == (v / p) * p + v % p && 0 <= v % p < p
  {
  }

  /** Bits only looks at the low n bits. */
  lemma BitsLow(v: int, n: nat)
    ensures Bits(v % Pow2(n), n) == Bits(v, n)
  {
    BitsSplit(v, 0, n);
  }

  /** The top n - k bits followed by the low k bits. */
  lemma BitsTop(v: int, n: nat, k: nat)
    requires k <= n
    ensures Bits(v, n) == Bits(v / Pow2(k), n - k) + Bits(v, k)
  {
    BitsSplit(v, n - k, k);
    BitsLow(v, k);
  }

  lemma {:induction false} BytesBitsAppend(bytes: seq<Byte>, b: Byte)
    ensures BytesBits(bytes + [b]) == BytesBits(bytes) + Bits(b, 8)
    decreases |bytes|
  {
    if |bytes| == 0 {
      assert bytes + [b] == [b];
    } else {
      assert (bytes + [b])[1..] == bytes[1..] + [b];
      BytesBitsAppend(bytes[1..], b);
    }
  }

  // ------------------------------------------------------------------
  // The writer
  // ------------------------------------------------------------------

  /** The emitted bytes, and `count` pending bits held in the low bits of `buffer`. */
  datatype Writer = Writer(output: seq<Byte>, buffer: int, count: int)

  /** Fewer than eight pending bits, and nothing above them in the buffer. */
  predicate Valid(w: Writer)
  {
    0 <= w.count < 8 && 0 <= w.buffer < Pow2(w.count)
  }

  /** Everything written so far: the emitted bytes, then the pending bits. */
  function Stream(w: Writer): seq<bool>
    requires Valid(w)
  {
    BytesBits(w.output) + Bits(w.buffer, w.count)
  }

  /** A fresh writer. */
  const Empty: Writer := Writer([], 0, 0)

  /**
   * WriteBitsImpl: append the low `bits` bits of value (the mask
   * 0xFF >> (8 - bits)) to the pending bits; once eight or more are pending,
   * emit the top eight as a byte and keep the rest.
   */
  function WriteBitsImpl(w: Writer, value: int, bits: int): (r: Writer)
    requires Valid(w) && 0 <= bits <= 8
    ensures Valid(r)
    ensures Stream(r) == Stream(w) + Bits(value, bits)
    ensures |w.output| <= |r.output| <= |w.output| + 1 && r.output[..|w.output|] == w.output
  {
    if bits == 0 then w
    else
      AppendAssoc(BytesBits(w.output), Bits(w.buffer, w.count), Bits(value, bits));
      Settle(w.output, ShiftIn(w.buffer, w.count, value, bits), w.count + bits)
  }

  /** With c pending bits: emit the top eight as a byte if there are eight or more. */
  function Settle(output: seq<Byte>, pending: int, c: int): (r: Writer)
    requires 0 <= c < 16 && 0 <= pending < Pow2(c)
    ensures Valid(r)
    ensures Stream(r) == BytesBits(output) + Bits(pending, c)
    ensures |output| <= |r.output| <= |output| + 1 && r.output[..|output|] == output
  {
    if c >= 8 then Emit(output, pending, c) else Writer(output, pending, c)
  }

  /** Eight or more pending bits: the top eight go out as a byte, the rest stay pending. */
  function Emit(output: seq<Byte>, pending: int, c: int): (r: Writer)
    requires 8 <= c < 16 && 0 <= pending < Pow2(c)
    ensures Valid(r)
    ensures Stream(r) == BytesBits(output) + Bits(pending, c)
    ensures |r.output| == |output| + 1 && r.output[..|output|] == output
  {
    var remaining := c - 8;
    EmitByte(output, pending, c);
    var next := output + [pending / Pow2(remaining)];
    assert next[..|output|] == output;
    Writer(next, pending % Pow2(remaining), remaining)
  }

  lemma AppendAssoc(a: seq<bool>, b: seq<bool>, c: seq<bool>)
    ensures a + (b + c) == (a + b) + c
  {
  }

  /** The pending bits with the low `bits` bits of value shifted in below them. */
  function ShiftIn(buffer: int, count: nat, value: int, bits: nat): (r: int)
    requires 0 <= buffer < Pow2(count)
    ensures 0 <= r < Pow2(count + bits)
    ensures Bits(r, count + bits) == Bits(buffer, count) + Bits(value, bits)
  {
    var p, q := Pow2(count), Pow2(bits);
    Pow2Add(count, bits);
    MulMono(buffer, p - 1, q);
    assert (p - 1) * q == p * q - q;
    BitsConcat(buffer, value % q, count, bits);
    BitsLow(value, bits);
    buffer * q + value % q
  }

  /** Emitting the top eight of c >= 8 pending bits as a byte leaves the stream as it was. */
  lemma EmitByte(output: seq<Byte>, x: int, c: int)
    requires 8 <= c && 0 <= x < Pow2(c)
    ensures 0 <= x / Pow2(c - 8) < 256
    ensures 0 <= x % Pow2(c - 8) < Pow2(c - 8)
    ensures BytesBits(output + [x / Pow2(c - 8)]) + Bits(x % Pow2(c - 8), c - 8)
         == BytesBits(output) + Bits(x, c)
  {
    var remaining := c - 8;
    var p := Pow2(remaining);
    EmitRange(x, c);
    var hi: Byte, lo := x / p, x % p;
    BitsSplit(x, 8, remaining);
    assert Bits(x, c) == Bits(hi, 8) + Bits(lo, remaining);
    BytesBitsAppend(output, hi);
    AppendAssoc(BytesBits(output), Bits(hi, 8), Bits(lo, remaining));
  }

  /** The top eight of c >= 8 bits form a byte, and the rest stay below 2^(c - 8). */
  lemma EmitRange(x: int, c: int)
    requires 8 <= c && 0 <= x < Pow2(c)
    ensures 0 <= x / Pow2(c - 8) < 256
    ensures 0 <= x % Pow2(c - 8) < Pow2(c - 8)
  {
    var p := Pow2(c - 8);
    Pow2Add(8, c - 8);
    Pow2Of8();
    DivBelow(x, p, 256);
  }

  lemma Pow2Of8()
    ensures Pow2(8) == 256
  {
    assert Pow2(4) == 16;
  }

  lemma DivBelow(x: int, p: int, m: int)
    requires p >= 1 && 0 <= x < m * p
    ensures 0 <= x / p < m
  {
    if x / p >= m {
      MulMono(m, x / p, p);
    }
  }

  function Min(a: int, b: int): int
  {
    if a < b then a else b
  }

  /**
   * WriteBits: up to 32 bits in chunks of at most eight, most significant
   * chunk first (its callers write 4, 8 and 16 bits).
   */
  function WriteBits(w: Writer, value: int, bits: int): (r: Writer)
    requires Valid(w) && 0 <= bits <= 32
    ensures Valid(r)
    ensures Stream(r) == Stream(w) + Bits(value, bits)
    ensures r.output[..|w.output|] == w.output && |w.output| <= |r.output|
  {
    var w1 := WriteChunk(w, value, bits, 24);
    var w2 := WriteChunk(w1, value, bits, 16);
    var w3 := WriteChunk(w2, value, bits, 8);
    var r := WriteBitsImpl(w3, value, Min(8, bits));
    PrefixChain(w.output, w1.output, w2.output, w3.output, r.output);
    r
  }

  /**
   * The chunk of WriteBits for bit positions k .. k + 7, written only when
   * there are more than k bits. What is still to write shrinks from the low
   * k + 8 bits to the low k bits.
   */
  function WriteChunk(w: Writer, value: int, bits: int, k: nat): (r: Writer)
    requires Valid(w) && 0 <= bits
    ensures Valid(r)
    ensures Stream(r) + Bits(value, Min(k, bits)) == Stream(w) + Bits(value, Min(k + 8, bits))
    ensures r.output[..|w.output|] == w.output && |w.output| <= |r.output|
  {
    if bits > k then
      var r := WriteBitsImpl(w, value / Pow2(k), Min(8, bits - k));
      BitsTop(value, Min(k + 8, bits), k);
      AppendAssoc(Stream(w), Bits(value / Pow2(k), Min(8, bits - k)), Bits(value, k));
      r
    else w
  }

  lemma PrefixChain(a: seq<Byte>, b: seq<Byte>, c: seq<Byte>, d: seq<Byte>, e: seq<Byte>)
    requires |a| <= |b| <= |c| <= |d| <= |e|
    requires b[..|a|] == a && c[..|b|] == b && d[..|c|] == c && e[..|d|] == d
    ensures e[..|a|] == a
  {
    assert e[..|a|] == d[..|a|];
    assert d[..|a|] == c[..|a|];
    assert c[..|a|] == b[..|a|];
  }

  /** WriteByte: the eight bits of b. */
  function WriteByte(w: Writer, b: Byte): (r: Writer)
    requires Valid(w)
    ensures Valid(r) && Stream(r) == Stream(w) + Bits(b, 8)
    ensures r.output[..|w.output|] == w.output && |w.output| <= |r.output|
  {
    WriteBits(w, b, 8)
  }

  /** WriteNibble: the low four bits of value. */
  function WriteNibble(w: Writer, value: Byte): (r: Writer)
    requires Valid(w)
    ensures Valid(r) && Stream(r) == Stream(w) + Bits(value, 4)
    ensures r.output[..|w.output|] == w.output && |w.output| <= |r.output|
  {
    WriteBits(w, value, 4)
  }

  /** WriteWord: the sixteen bits of a ushort. */
  function WriteWord(w: Writer, value: UShort): (r: Writer)
    requires Valid(w)
    ensures Valid(r) && Stream(r) == Stream(w) + Bits(value, 16)
    ensures r.output[..|w.output|] == w.output && |w.output| <= |r.output|
  {
    WriteBits(w, value, 16)
  }

  /** WriteBytes: each byte in order, eight bits apiece. */
  method WriteBytes(w: Writer, bytes: seq<Byte>) returns (r: Writer)
    requires Valid(w)
    ensures Valid(r) && Stream(r) == Stream(w) + BytesBits(bytes)
  {
    r := w;
    var i := 0;
    while i < |bytes|
      invariant 0 <= i <= |bytes|
      invariant Valid(r)
      invariant Stream(r) == Stream(w) + BytesBits(bytes[..i])
    {
      BytesBitsPrefix(bytes, i);
      AppendAssoc(Stream(w), BytesBits(bytes[..i]), Bits(bytes[i], 8));
      r := WriteByte(r, bytes[i]);
      i := i + 1;
    }
    assert bytes[..i] == bytes;
  }

  lemma {:induction false} BytesBitsPrefix(bytes: seq<Byte>, i: nat)
    requires i < |bytes|
    ensures BytesBits(bytes[..i + 1]) == BytesBits(bytes[..i]) + Bits(bytes[i], 8)
  {
    assert bytes[..i + 1] == bytes[..i] + [bytes[i]];
    BytesBitsAppend(bytes[..i], bytes[i]);
  }

  /** ToArray: the emitted bytes; the pending bits are dropped, not padded. */
  function ToArray(w: Writer): (r: seq<Byte>)
    requires Valid(w)
    ensures |r| == |Stream(w)| / 8
    ensures BytesBits(r) == Stream(w)[..8 * |r|]
  {
    assert |Stream(w)| == 8 * |w.output| + w.count;
    DivUnique(|Stream(w)|, 8, |w.output|, w.count);
    w.output
  }
}
