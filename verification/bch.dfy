/**
 * The BCH code behind Table C.1: format information is the (15, 5) code with
 * generator x^10 + x^8 + x^5 + x^4 + x^2 + x + 1 (0x537), masked with 0x5412
 * (Annex C of ISO/IEC 18004:2006). The encoder only looks the codewords up;
 * this module computes them by polynomial division over GF(2) and checks the
 * table against the computation.
 */
module Bch {
  import FormatInformation

  const FormatGenerator: bv32 := 0x537
  const FormatMask: bv32 := 0x5412

  /** One step of long division: if bit `bit` is set, cancel it with the generator shifted under it. */
  function Step(value: bv32, bit: bv32): bv32
    requires 10 <= bit < 15
  {
    if (value >> bit) & 1 == 1 then value ^ (FormatGenerator << (bit - 10)) else value
  }

  /** The remainder of a 15-bit polynomial modulo the generator: steps for bits 14 down to 10. */
  function Remainder(value: bv32): bv32
  {
    Step(Step(Step(Step(Step(value, 14), 13), 12), 11), 10)
  }

  /** The systematic codeword of a five-bit word, masked as Annex C prescribes. */
  function FormatBch(word: bv32): bv32
  {
    ((word << 10) | Remainder(word << 10)) ^ FormatMask
  }

  /** The remainder of a shifted word has degree below 10, so it does not overlap the data bits. */
  lemma RemainderBelowData(word: bv32)
    requires word < 32
    ensures Remainder(word << 10) < 0x400
  {
  }

  /** The unmasked codeword leaves no remainder: it is a multiple of the generator. */
  lemma CodewordDivides(word: bv32)
    requires word < 32
    ensures Remainder(FormatBch(word) ^ FormatMask) == 0
  {
  }

  /** The top five bits of a codeword, unmasked, are the data word. */
  lemma DataBitsRecovered(word: bv32)
    requires word < 32
    ensures (FormatBch(word) >> 10) ^ (FormatMask >> 10) == word
  {
  }

  /** Table C.1 is the masked (15, 5) BCH code, entry by entry. */
  lemma FormatTableIsBch(word: int)
    requires 0 <= word < 32
    ensures FormatInformation.FormatEncoding(word) as bv32 == FormatBch(word as bv32)
  {
  }

  /**
   * Reading the top five bits of a table entry and undoing the mask yields the
   * data word it was looked up with (whose parts FormatWord shows to be the
   * level indicator and the mask pattern).
   */
  lemma FormatEntryCarriesWord(word: int)
    requires 0 <= word < 32
    ensures (FormatInformation.FormatEncoding(word) as bv32 >> 10) ^ (FormatMask >> 10) == word as bv32
  {
    FormatTableIsBch(word);
    DataBitsRecovered(word as bv32);
  }
}
