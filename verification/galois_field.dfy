/**
 * GF(2^8) arithmetic with generator 2, as used by the Reed-Solomon coder.
 *
 * The class builds an exponentiation table and a discrete-log table from a
 * reducer polynomial. The construction loop is modelled for every reducer
 * (NewTables). The field operations are modelled for 0x11D, the only reducer
 * the encoder instantiates: Exp and Log are the two tables as functions, and
 * QrTablesAreBuilt shows they are what the construction loop stores.
 */
module GaloisField {
  import opened Wrappers
  import opened Arith

  /** x^8 + x^4 + x^3 + x^2 + 1, the reducer polynomial of QR codes. */
  const QrReducer: bv32 := 0x11D

  // ------------------------------------------------------------------
  // Construction of the tables, for any reducer
  // ------------------------------------------------------------------

  /** One iteration of the construction loop on the uint accumulator: double, then reduce when bit 8 is set. */
  function ExpStep(e: bv32, reducer: bv32): bv32
  {
    var s := e << 1;
    if s & 0x100 != 0 then s ^ reducer else s
  }

  /** The accumulator after i iterations of the construction loop. */
  function ExpAt(reducer: bv32, i: nat): bv32
  {
    if i == 0 then 1 else ExpStep(ExpAt(reducer, i - 1), reducer)
  }

  /**
   * The discrete-log entry at index a once iterations 1 .. i have run: the
   * last iteration that stored a, or the initial 0.
   */
  function LastWrite(reducer: bv32, a: int, i: nat): (r: int)
    ensures 0 <= r <= i
    decreases i, a
  {
    if i == 0 then 0
    else if ExpAt(reducer, i) as int == a then i
    else LastWrite(reducer, a, i - 1)
  }

  /** The two tables of a field: 255 exponentiation entries (uint) and 256 discrete-log entries. */
  datatype Tables = Tables(exp: seq<bv32>, log: seq<int>)

  /**
   * The construction loop from iteration i on. Storing an accumulator of 256
   * or more into the log table fails with IndexOutOfRange.
   */
  function Fill(reducer: bv32, i: nat, exp: seq<bv32>, log: seq<int>): (r: Result<Tables>)
    requires 1 <= i <= 255 && |exp| == i && |log| == 256
    requires forall k :: 0 <= k < i ==> exp[k] == ExpAt(reducer, k)
    requires forall a :: 0 <= a < 256 ==> log[a] == LastWrite(reducer, a, i - 1)
    ensures r.Success? ==> forall k :: i <= k < 255 ==> ExpAt(reducer, k) < 256
    ensures r.Failure? ==> exists k :: i <= k < 255 && ExpAt(reducer, k) >= 256
    ensures r.Failure? ==> r.error == IndexOutOfRange
    ensures r.Success? ==> |r.value.exp| == 255 && |r.value.log| == 256
    ensures r.Success? ==> forall k :: 0 <= k < 255 ==> r.value.exp[k] == ExpAt(reducer, k)
    ensures r.Success? ==> forall a :: 0 <= a < 256 ==> r.value.log[a] == LastWrite(reducer, a, 254)
    decreases 255 - i
  {
    if i == 255 then Success(Tables(exp, log))
    else
      var e := ExpStep(exp[i - 1], reducer);
      assert e == ExpAt(reducer, i);
      if e >= 256 then Failure(IndexOutOfRange)
      else Fill(reducer, i + 1, exp + [e], log[e as int := i])
  }

  /** The constructor: fills both tables from a reducer polynomial. */
  function NewTables(reducer: bv32): (r: Result<Tables>)
    ensures r.Success? ==> forall k :: 1 <= k < 255 ==> ExpAt(reducer, k) < 256
    ensures r.Failure? ==> exists k :: 1 <= k < 255 && ExpAt(reducer, k) >= 256
    ensures r.Failure? ==> r.error == IndexOutOfRange
    ensures r.Success? ==> |r.value.exp| == 255 && |r.value.log| == 256
    ensures r.Success? ==> forall k :: 0 <= k < 255 ==> r.value.exp[k] == ExpAt(reducer, k)
    ensures r.Success? ==> forall a :: 0 <= a < 256 ==> r.value.log[a] == LastWrite(reducer, a, 254)
  {
    Fill(reducer, 1, [1], seq(256, _ => 0))
  }

  /** Every accumulator value stays below 256 when the reducer is a degree-8 polynomial. */
  lemma {:induction false} ExpAtIsByte(reducer: bv32, i: nat)
    requires 0x100 <= reducer < 0x200
    ensures ExpAt(reducer, i) < 256
  {
    if i > 0 {
      ExpAtIsByte(reducer, i - 1);
    }
  }

  /** The constructor never fails for a degree-8 reducer polynomial. */
  lemma DegreeEightReducerBuilds(reducer: bv32)
    requires 0x100 <= reducer < 0x200
    ensures NewTables(reducer).Success?
  {
    forall k | 1 <= k < 255
      ensures ExpAt(reducer, k) < 256
    {
      ExpAtIsByte(reducer, k);
    }
  }

  // ------------------------------------------------------------------
  // The tables of the reducer 0x11D
  // ------------------------------------------------------------------

  /** Doubling in GF(2^8) modulo 0x11D, on a byte. */
  function DoubleByte(e: bv8): bv8
  {
    if e & 0x80 != 0 then (e << 1) ^ 0x1D else e << 1
  }

  /** The exponentiation table of 0x11D: Exp(i) is 2^i. */
  function Exp(i: nat): bv8
    requires i < 255
  {
    if i == 0 then 1 else DoubleByte(Exp(i - 1))
  }

  /**
   * The log entry for a as the construction loop leaves it, scanning
   * exponents i .. 254: the last exponent whose power is a, else the
   * exponent already found.
   */
  function LogScan(a: bv8, i: nat, found: int): (r: int)
    requires 1 <= i <= 255 && 0 <= found < 255
    ensures 0 <= r < 255
    decreases 255 - i, a, found
  {
    if i == 255 then found
    else LogScan(a, i + 1, if Exp(i) == a then i else found)
  }

  /** The discrete-log table of 0x11D; the entries for 0 and 1 are both 0. */
  function Log(a: bv8): (r: int)
    ensures 0 <= r < 255
  {
    LogScan(a, 1, 0)
  }

  /** The uint construction step for 0x11D agrees with byte doubling. */
  lemma StepIsDoubling(e: bv8)
    ensures ExpStep(e as bv32, QrReducer) == DoubleByte(e) as bv32
  {
  }

  /** A byte as the uint the source stores in its exponentiation table. */
  function Widen(b: bv8): bv32
  {
    b as bv32
  }

  lemma WidenAsInt(x: bv8)
    ensures Widen(x) as int == x as int
  {
  }

  lemma ByteAsIntInjective(x: bv8, y: bv8)
    ensures x as int == y as int <==> x == y
  {
  }

  lemma {:induction false} QrExpAt(i: nat)
    requires i < 255
    ensures ExpAt(QrReducer, i) == Widen(Exp(i))
  {
    if i > 0 {
      QrExpAt(i - 1);
      StepIsDoubling(Exp(i - 1));
    }
  }

  lemma {:induction false} QrLastWrite(b: bv8, i: nat)
    requires i < 255
    ensures LastWrite(QrReducer, b as int, i) == if 1 <= Log(b) <= i then Log(b) else 0
  {
    if i > 0 {
      QrWriteAt(b, i);
      QrLastWrite(b, i - 1);
    }
  }

  /** Step i of the constructor writes log entry b exactly when i is the discrete log of b. */
  lemma QrWriteAt(b: bv8, i: nat)
    requires 1 <= i < 255
    ensures ExpAt(QrReducer, i) as int == b as int <==> Log(b) == i
  {
    QrExpAt(i);
    WidenAsInt(Exp(i));
    ByteAsIntInjective(Exp(i), b);
    LogOfExp(i);
    if b == 0 {
      LogOfZero();
    } else {
      ExpOfLog(b);
    }
  }

  /** The constructor, run on 0x11D, stores exactly the tables Exp and Log. */
  lemma QrTablesAreBuilt()
    ensures NewTables(QrReducer).Success?
    ensures forall i :: 0 <= i < 255 ==> NewTables(QrReducer).value.exp[i] == Widen(Exp(i))
    ensures forall b: bv8 :: NewTables(QrReducer).value.log[b as int] == Log(b)
  {
    DegreeEightReducerBuilds(QrReducer);
    var t := NewTables(QrReducer).value;
    forall i | 0 <= i < 255
      ensures t.exp[i] == Widen(Exp(i))
    {
      QrExpAt(i);
    }
    forall b: bv8
      ensures t.log[b as int] == Log(b)
    {
      QrLastWrite(b, 254);
      if b == 0 {
        LogOfZero();
      } else if Log(b) == 0 {
        ExpOfLog(b);
      }
    }
  }

  // ------------------------------------------------------------------
  // Both tables written out, and the facts checked against them
  // ------------------------------------------------------------------

  /** The exponentiation table for 0x11D written out entry by entry (a certificate for the facts below). */
  function ExpListing(i: int): bv8
    requires 0 <= i < 255
  {
    if i < 127 then if i < 63 then if i < 31 then if i < 15 then if i < 7 then if i < 3 then if i < 1 then 0x01 else if i < 2 then 0x02 else 0x04 else if i < 5 then if i < 4 then 0x08 else 0x10 else if i < 6 then 0x20 else 0x40 else if i < 11 then if i < 9 then if i < 8 then 0x80 else 0x1D else if i < 10 then 0x3A else 0x74 else if i < 13 then if i < 12 then 0xE8 else 0xCD else if i < 14 then 0x87 else 0x13 else if i < 23 then if i < 19 then if i < 17 then if i < 16 then 0x26 else 0x4C else if i < 18 then 0x98 else 0x2D else if i < 21 then if i < 20 then 0x5A else 0xB4 else if i < 22 then 0x75 else 0xEA else if i < 27 then if i < 25 then if i < 24 then 0xC9 else 0x8F else if i < 26 then 0x03 else 0x06 else if i < 29 then if i < 28 then 0x0C else 0x18 else if i < 30 then 0x30 else 0x60 else if i < 47 then if i < 39 then if i < 35 then if i < 33 then if i < 32 then 0xC0 else 0x9D else if i < 34 then 0x27 else 0x4E else if i < 37 then if i < 36 then 0x9C else 0x25 else if i < 38 then 0x4A else 0x94 else if i < 43 then if i < 41 then if i < 40 then 0x35 else 0x6A else if i < 42 then 0xD4 else 0xB5 else if i < 45 then if i < 44 then 0x77 else 0xEE else if i < 46 then 0xC1 else 0x9F else if i < 55 then if i < 51 then if i < 49 then if i < 48 then 0x23 else 0x46 else if i < 50 then 0x8C else 0x05 else if i < 53 then if i < 52 then 0x0A else 0x14 else if i < 54 then 0x28 else 0x50 else if i < 59 then if i < 57 then if i < 56 then 0xA0 else 0x5D else if i < 58 then 0xBA else 0x69 else if i < 61 then if i < 60 then 0xD2 else 0xB9 else if i < 62 then 0x6F else 0xDE else if i < 95 then if i < 79 then if i < 71 then if i < 67 then if i < 65 then if i < 64 then 0xA1 else 0x5F else if i < 66 then 0xBE else 0x61 else if i < 69 then if i < 68 then 0xC2 else 0x99 else if i < 70 then 0x2F else 0x5E else if i < 75 then if i < 73 then if i < 72 then 0xBC else 0x65 else if i < 74 then 0xCA else 0x89 else if i < 77 then if i < 76 then 0x0F else 0x1E else if i < 78 then 0x3C else 0x78 else if i < 87 then if i < 83 then if i < 81 then if i < 80 then 0xF0 else 0xFD else if i < 82 then 0xE7 else 0xD3 else if i < 85 then if i < 84 then 0xBB else 0x6B else if i < 86 then 0xD6 else 0xB1 else if i < 91 then if i < 89 then if i < 88 then 0x7F else 0xFE else if i < 90 then 0xE1 else 0xDF else if i < 93 then if i < 92 then 0xA3 else 0x5B else if i < 94 then 0xB6 else 0x71 else if i < 111 then if i < 103 then if i < 99 then if i < 97 then if i < 96 then 0xE2 else 0xD9 else if i < 98 then 0xAF else 0x43 else if i < 101 then if i < 100 then 0x86 else 0x11 else if i < 102 then 0x22 else 0x44 else if i < 107 then if i < 105 then if i < 104 then 0x88 else 0x0D else if i < 106 then 0x1A else 0x34 else if i < 109 then if i < 108 then 0x68 else 0xD0 else if i < 110 then 0xBD else 0x67 else if i < 119 then if i < 115 then if i < 113 then if i < 112 then 0xCE else 0x81 else if i < 114 then 0x1F else 0x3E else if i < 117 then if i < 116 then 0x7C else 0xF8 else if i < 118 then 0xED else 0xC7 else if i < 123 then if i < 121 then if i < 120 then 0x93 else 0x3B else if i < 122 then 0x76 else 0xEC else if i < 125 then if i < 124 then 0xC5 else 0x97 else if i < 126 then 0x33 else 0x66 else if i < 191 then if i < 159 then if i < 143 then if i < 135 then if i < 131 then if i < 129 then if i < 128 then 0xCC else 0x85 else if i < 130 then 0x17 else 0x2E else if i < 133 then if i < 132 then 0x5C else 0xB8 else if i < 134 then 0x6D else 0xDA else if i < 139 then if i < 137 then if i < 136 then 0xA9 else 0x4F else if i < 138 then 0x9E else 0x21 else if i < 141 then if i < 140 then 0x42 else 0x84 else if i < 142 then 0x15 else 0x2A else if i < 151 then if i < 147 then if i < 145 then if i < 144 then 0x54 else 0xA8 else if i < 146 then 0x4D else 0x9A else if i < 149 then if i < 148 then 0x29 else 0x52 else if i < 150 then 0xA4 else 0x55 else if i < 155 then if i < 153 then if i < 152 then 0xAA else 0x49 else if i < 154 then 0x92 else 0x39 else if i < 157 then if i < 156 then 0x72 else 0xE4 else if i < 158 then 0xD5 else 0xB7 else if i < 175 then if i < 167 then if i < 163 then if i < 161 then if i < 160 then 0x73 else 0xE6 else if i < 162 then 0xD1 else 0xBF else if i < 165 then if i < 164 then 0x63 else 0xC6 else if i < 166 then 0x91 else 0x3F else if i < 171 then if i < 169 then if i < 168 then 0x7E else 0xFC else if i < 170 then 0xE5 else 0xD7 else if i < 173 then if i < 172 then 0xB3 else 0x7B else if i < 174 then 0xF6 else 0xF1 else if i < 183 then if i < 179 then if i < 177 then if i < 176 then 0xFF else 0xE3 else if i < 178 then 0xDB else 0xAB else if i < 181 then if i < 180 then 0x4B else 0x96 else if i < 182 then 0x31 else 0x62 else if i < 187 then if i < 185 then if i < 184 then 0xC4 else 0x95 else if i < 186 then 0x37 else 0x6E else if i < 189 then if i < 188 then 0xDC else 0xA5 else if i < 190 then 0x57 else 0xAE else if i < 223 then if i < 207 then if i < 199 then if i < 195 then if i < 193 then if i < 192 then 0x41 else 0x82 else if i < 194 then 0x19 else 0x32 else if i < 197 then if i < 196 then 0x64 else 0xC8 else if i < 198 then 0x8D else 0x07 else if i < 203 then if i < 201 then if i < 200 then 0x0E else 0x1C else if i < 202 then 0x38 else 0x70 else if i < 205 then if i < 204 then 0xE0 else 0xDD else if i < 206 then 0xA7 else 0x53 else if i < 215 then if i < 211 then if i < 209 then if i < 208 then 0xA6 else 0x51 else if i < 210 then 0xA2 else 0x59 else if i < 213 then if i < 212 then 0xB2 else 0x79 else if i < 214 then 0xF2 else 0xF9 else if i < 219 then if i < 217 then if i < 216 then 0xEF else 0xC3 else if i < 218 then 0x9B else 0x2B else if i < 221 then if i < 220 then 0x56 else 0xAC else if i < 222 then 0x45 else 0x8A else if i < 239 then if i < 231 then if i < 227 then if i < 225 then if i < 224 then 0x09 else 0x12 else if i < 226 then 0x24 else 0x48 else if i < 229 then if i < 228 then 0x90 else 0x3D else if i < 230 then 0x7A else 0xF4 else if i < 235 then if i < 233 then if i < 232 then 0xF5 else 0xF7 else if i < 234 then 0xF3 else 0xFB else if i < 237 then if i < 236 then 0xEB else 0xCB else if i < 238 then 0x8B else 0x0B else if i < 247 then if i < 243 then if i < 241 then if i < 240 then 0x16 else 0x2C else if i < 242 then 0x58 else 0xB0 else if i < 245 then if i < 244 then 0x7D else 0xFA else if i < 246 then 0xE9 else 0xCF else if i < 251 then if i < 249 then if i < 248 then 0x83 else 0x1B else if i < 250 then 0x36 else 0x6C else if i < 253 then if i < 252 then 0xD8 else 0xAD else if i < 254 then 0x47 else 0x8E
  }

  /** The discrete-log table for 0x11D written out entry by entry; entries 0 and 1 both hold 0. */
  function LogListing(a: bv8): int
  {
    if a < 128 then if a < 64 then if a < 32 then if a < 16 then if a < 8 then if a < 4 then if a < 2 then if a < 1 then 0 else 0 else if a < 3 then 1 else 25 else if a < 6 then if a < 5 then 2 else 50 else if a < 7 then 26 else 198 else if a < 12 then if a < 10 then if a < 9 then 3 else 223 else if a < 11 then 51 else 238 else if a < 14 then if a < 13 then 27 else 104 else if a < 15 then 199 else 75 else if a < 24 then if a < 20 then if a < 18 then if a < 17 then 4 else 100 else if a < 19 then 224 else 14 else if a < 22 then if a < 21 then 52 else 141 else if a < 23 then 239 else 129 else if a < 28 then if a < 26 then if a < 25 then 28 else 193 else if a < 27 then 105 else 248 else if a < 30 then if a < 29 then 200 else 8 else if a < 31 then 76 else 113 else if a < 48 then if a < 40 then if a < 36 then if a < 34 then if a < 33 then 5 else 138 else if a < 35 then 101 else 47 else if a < 38 then if a < 37 then 225 else 36 else if a < 39 then 15 else 33 else if a < 44 then if a < 42 then if a < 41 then 53 else 147 else if a < 43 then 142 else 218 else if a < 46 then if a < 45 then 240 else 18 else if a < 47 then 130 else 69 else if a < 56 then if a < 52 then if a < 50 then if a < 49 then 29 else 181 else if a < 51 then 194 else 125 else if a < 54 then if a < 53 then 106 else 39 else if a < 55 then 249 else 185 else if a < 60 then if a < 58 then if a < 57 then 201 else 154 else if a < 59 then 9 else 120 else if a < 62 then if a < 61 then 77 else 228 else if a < 63 then 114 else 166 else if a < 96 then if a < 80 then if a < 72 then if a < 68 then if a < 66 then if a < 65 then 6 else 191 else if a < 67 then 139 else 98 else if a < 70 then if a < 69 then 102 else 221 else if a < 71 then 48 else 253 else if a < 76 then if a < 74 then if a < 73 then 226 else 152 else if a < 75 then 37 else 179 else if a < 78 then if a < 77 then 16 else 145 else if a < 79 then 34 else 136 else if a < 88 then if a < 84 then if a < 82 then if a < 81 then 54 else 208 else if a < 83 then 148 else 206 else if a < 86 then if a < 85 then 143 else 150 else if a < 87 then 219 else 189 else if a < 92 then if a < 90 then if a < 89 then 241 else 210 else if a < 91 then 19 else 92 else if a < 94 then if a < 93 then 131 else 56 else if a < 95 then 70 else 64 else if a < 112 then if a < 104 then if a < 100 then if a < 98 then if a < 97 then 30 else 66 else if a < 99 then 182 else 163 else if a < 102 then if a < 101 then 195 else 72 else if a < 103 then 126 else 110 else if a < 108 then if a < 106 then if a < 105 then 107 else 58 else if a < 107 then 40 else 84 else if a < 110 then if a < 109 then 250 else 133 else if a < 111 then 186 else 61 else if a < 120 then if a < 116 then if a < 114 then if a < 113 then 202 else 94 else if a < 115 then 155 else 159 else if a < 118 then if a < 117 then 10 else 21 else if a < 119 then 121 else 43 else if a < 124 then if a < 122 then if a < 121 then 78 else 212 else if a < 123 then 229 else 172 else if a < 126 then if a < 125 then 115 else 243 else if a < 127 then 167 else 87 else if a < 192 then if a < 160 then if a < 144 then if a < 136 then if a < 132 then if a < 130 then if a < 129 then 7 else 112 else if a < 131 then 192 else 247 else if a < 134 then if a < 133 then 140 else 128 else if a < 135 then 99 else 13 else if a < 140 then if a < 138 then if a < 137 then 103 else 74 else if a < 139 then 222 else 237 else if a < 142 then if a < 141 then 49 else 197 else if a < 143 then 254 else 24 else if a < 152 then if a < 148 then if a < 146 then if a < 145 then 227 else 165 else if a < 147 then 153 else 119 else if a < 150 then if a < 149 then 38 else 184 else if a < 151 then 180 else 124 else if a < 156 then if a < 154 then if a < 153 then 17 else 68 else if a < 155 then 146 else 217 else if a < 158 then if a < 157 then 35 else 32 else if a < 159 then 137 else 46 else if a < 176 then if a < 168 then if a < 164 then if a < 162 then if a < 161 then 55 else 63 else if a < 163 then 209 else 91 else if a < 166 then if a < 165 then 149 else 188 else if a < 167 then 207 else 205 else if a < 172 then if a < 170 then if a < 169 then 144 else 135 else if a < 171 then 151 else 178 else if a < 174 then if a < 173 then 220 else 252 else if a < 175 then 190 else 97 else if a < 184 then if a < 180 then if a < 178 then if a < 177 then 242 else 86 else if a < 179 then 211 else 171 else if a < 182 then if a < 181 then 20 else 42 else if a < 183 then 93 else 158 else if a < 188 then if a < 186 then if a < 185 then 132 else 60 else if a < 187 then 57 else 83 else if a < 190 then if a < 189 then 71 else 109 else if a < 191 then 65 else 162 else if a < 224 then if a < 208 then if a < 200 then if a < 196 then if a < 194 then if a < 193 then 31 else 45 else if a < 195 then 67 else 216 else if a < 198 then if a < 197 then 183 else 123 else if a < 199 then 164 else 118 else if a < 204 then if a < 202 then if a < 201 then 196 else 23 else if a < 203 then 73 else 236 else if a < 206 then if a < 205 then 127 else 12 else if a < 207 then 111 else 246 else if a < 216 then if a < 212 then if a < 210 then if a < 209 then 108 else 161 else if a < 211 then 59 else 82 else if a < 214 then if a < 213 then 41 else 157 else if a < 215 then 85 else 170 else if a < 220 then if a < 218 then if a < 217 then 251 else 96 else if a < 219 then 134 else 177 else if a < 222 then if a < 221 then 187 else 204 else if a < 223 then 62 else 90 else if a < 240 then if a < 232 then if a < 228 then if a < 226 then if a < 225 then 203 else 89 else if a < 227 then 95 else 176 else if a < 230 then if a < 229 then 156 else 169 else if a < 231 then 160 else 81 else if a < 236 then if a < 234 then if a < 233 then 11 else 245 else if a < 235 then 22 else 235 else if a < 238 then if a < 237 then 122 else 117 else if a < 239 then 44 else 215 else if a < 248 then if a < 244 then if a < 242 then if a < 241 then 79 else 174 else if a < 243 then 213 else 233 else if a < 246 then if a < 245 then 230 else 231 else if a < 247 then 173 else 232 else if a < 252 then if a < 250 then if a < 249 then 116 else 214 else if a < 251 then 244 else 234 else if a < 254 then if a < 253 then 168 else 80 else if a < 255 then 88 else 175
  }

  lemma ListingLogOfExpFrom000(i: int)
    requires 0 <= i < 32
    ensures LogListing(ExpListing(i)) == i
  {
  }

  lemma ListingLogOfExpFrom032(i: int)
    requires 32 <= i < 64
    ensures LogListing(ExpListing(i)) == i
  {
  }

  lemma ListingLogOfExpFrom064(i: int)
    requires 64 <= i < 96
    ensures LogListing(ExpListing(i)) == i
  {
  }

  lemma ListingLogOfExpFrom096(i: int)
    requires 96 <= i < 128
    ensures LogListing(ExpListing(i)) == i
  {
  }

  lemma ListingLogOfExpFrom128(i: int)
    requires 128 <= i < 160
    ensures LogListing(ExpListing(i)) == i
  {
  }

  lemma ListingLogOfExpFrom160(i: int)
    requires 160 <= i < 192
    ensures LogListing(ExpListing(i)) == i
  {
  }

  lemma ListingLogOfExpFrom192(i: int)
    requires 192 <= i < 224
    ensures LogListing(ExpListing(i)) == i
  {
  }

  lemma ListingLogOfExpFrom224(i: int)
    requires 224 <= i < 255
    ensures LogListing(ExpListing(i)) == i
  {
  }

  lemma ListingRecurrenceFrom000(i: int)
    requires 0 <= i < 32
    ensures DoubleByte(ExpListing(i)) == ExpListing(i + 1)
  {
  }

  lemma ListingRecurrenceFrom032(i: int)
    requires 32 <= i < 64
    ensures DoubleByte(ExpListing(i)) == ExpListing(i + 1)
  {
  }

  lemma ListingRecurrenceFrom064(i: int)
    requires 64 <= i < 96
    ensures DoubleByte(ExpListing(i)) == ExpListing(i + 1)
  {
  }

  lemma ListingRecurrenceFrom096(i: int)
    requires 96 <= i < 128
    ensures DoubleByte(ExpListing(i)) == ExpListing(i + 1)
  {
  }

  lemma ListingRecurrenceFrom128(i: int)
    requires 128 <= i < 160
    ensures DoubleByte(ExpListing(i)) == ExpListing(i + 1)
  {
  }

  lemma ListingRecurrenceFrom160(i: int)
    requires 160 <= i < 192
    ensures DoubleByte(ExpListing(i)) == ExpListing(i + 1)
  {
  }

  lemma ListingRecurrenceFrom192(i: int)
    requires 192 <= i < 224
    ensures DoubleByte(ExpListing(i)) == ExpListing(i + 1)
  {
  }

  lemma ListingRecurrenceFrom224(i: int)
    requires 224 <= i < 254
    ensures DoubleByte(ExpListing(i)) == ExpListing(i + 1)
  {
  }

  /** Every non-zero byte's listed log names an exponent whose listed power is that byte. */
  lemma ListingExpOfLog(a: bv8)
    requires 2 <= a
    ensures 1 <= LogListing(a) < 255
    ensures ExpListing(LogListing(a)) == a
  {
  }

  lemma ListingLogOfExp(i: int)
    requires 0 <= i < 255
    ensures LogListing(ExpListing(i)) == i
  {
    if i < 32 { ListingLogOfExpFrom000(i); }
    else if i < 64 { ListingLogOfExpFrom032(i); }
    else if i < 96 { ListingLogOfExpFrom064(i); }
    else if i < 128 { ListingLogOfExpFrom096(i); }
    else if i < 160 { ListingLogOfExpFrom128(i); }
    else if i < 192 { ListingLogOfExpFrom160(i); }
    else if i < 224 { ListingLogOfExpFrom192(i); }
    else { ListingLogOfExpFrom224(i); }
  }

  lemma ListingRecurrence(i: int)
    requires 0 <= i < 254
    ensures DoubleByte(ExpListing(i)) == ExpListing(i + 1)
  {
    if i < 32 { ListingRecurrenceFrom000(i); }
    else if i < 64 { ListingRecurrenceFrom032(i); }
    else if i < 96 { ListingRecurrenceFrom064(i); }
    else if i < 128 { ListingRecurrenceFrom096(i); }
    else if i < 160 { ListingRecurrenceFrom128(i); }
    else if i < 192 { ListingRecurrenceFrom160(i); }
    else if i < 224 { ListingRecurrenceFrom192(i); }
    else { ListingRecurrenceFrom224(i); }
  }

  lemma {:induction false} ExpIsListed(i: nat)
    requires i < 255
    ensures Exp(i) == ExpListing(i)
  {
    if i > 0 {
      ExpIsListed(i - 1);
      ListingRecurrence(i - 1);
      assert Exp(i) == DoubleByte(Exp(i - 1));
    }
  }

  /** The 255 powers of 2 are distinct and non-zero. */
  lemma ExpInjective(i: nat, j: nat)
    requires i < 255 && j < 255
    ensures Exp(i) != 0
    ensures Exp(i) == Exp(j) ==> i == j
  {
    ExpIsListed(i);
    ExpIsListed(j);
    ListingLogOfExp(i);
    ListingLogOfExp(j);
    if i == 0 {
      assert ExpListing(0) == 1;
    } else {
      assert LogListing(0) == 0;
    }
  }

  /** Every non-zero byte is a power of 2. */
  lemma ExpOnto(a: bv8) returns (k: nat)
    requires a != 0
    ensures k < 255 && Exp(k) == a
  {
    if a == 1 {
      k := 0;
    } else {
      ListingExpOfLog(a);
      k := LogListing(a);
      ExpIsListed(k);
    }
  }

  lemma {:induction false} LogScanFinds(a: bv8, k: nat, i: nat, found: int)
    requires k < 255 && Exp(k) == a
    requires 1 <= i <= 255 && 0 <= found < 255
    ensures LogScan(a, i, found) == if 1 <= k && i <= k then k else found
    decreases 255 - i
  {
    if i < 255 {
      ExpInjective(i, k);
      LogScanFinds(a, k, i + 1, if Exp(i) == a then i else found);
    }
  }

  lemma {:induction false} LogScanMisses(i: nat, found: int)
    requires 1 <= i <= 255 && 0 <= found < 255
    ensures LogScan(0, i, found) == found
    decreases 255 - i
  {
    if i < 255 {
      ExpInjective(i, i);
      LogScanMisses(i + 1, found);
    }
  }

  // ------------------------------------------------------------------
  // The two tables invert each other
  // ------------------------------------------------------------------

  /** The log table inverts the exponentiation table, and no power of 2 is 0. */
  lemma LogOfExp(i: nat)
    requires i < 255
    ensures Log(Exp(i)) == i
    ensures Exp(i) != 0
  {
    ExpInjective(i, i);
    LogScanFinds(Exp(i), i, 1, 0);
  }

  /** The entry for 0, which the construction loop never writes, holds 0. */
  lemma LogOfZero()
    ensures Log(0) == 0
  {
    LogScanMisses(1, 0);
  }

  lemma LogOfOne()
    ensures Log(1) == 0
  {
    LogOfExp(0);
  }

  lemma LogOfTwo()
    ensures Log(2) == 1
  {
    LogOfExp(1);
  }

  /** Every non-zero byte is the power of 2 its log entry names. */
  lemma ExpOfLog(a: bv8)
    requires a != 0
    ensures Exp(Log(a)) == a
  {
    var k := ExpOnto(a);
    LogOfExp(k);
  }

  /** Non-zero bytes with the same log are equal. */
  lemma LogInjective(x: bv8, y: bv8)
    requires x != 0 && y != 0 && Log(x) == Log(y)
    ensures x == y
  {
    ExpOfLog(x);
    ExpOfLog(y);
  }

  // ------------------------------------------------------------------
  // Field operations
  // ------------------------------------------------------------------

  /** The source's Mod255: C#'s truncated remainder, moved into 0 .. 254 when negative. */
  function Mod255(value: int): (r: int)
    ensures 0 <= r < 255
    ensures r == value % 255
  {
    var result := TruncRem(value, 255);
    if result >= 0 then result else result + 255
  }

  /** Addition of two exponents in 0 .. 254, modulo 255. */
  function AddExponents(i: int, j: int): int
  {
    if i + j < 255 then i + j else i + j - 255
  }

  /** AddExponents is addition modulo 255 on the remainders of any two ints. */
  lemma AddExponentsIsMod(p: int, q: int)
    ensures AddExponents(p % 255, q % 255) == (p + q) % 255
  {
    ModAddLeft(p, q % 255, 255);
    ModAddLeft(q, p, 255);
    var s := p % 255 + q % 255;
    if s >= 255 {
      ModUnique(s, 255, 1, s - 255);
    } else {
      ModUnique(s, 255, 0, s);
    }
  }

  /** Field multiplication through the log and exponentiation tables. */
  function Mul(a: bv8, b: bv8): (r: bv8)
    ensures r == 0 <==> a == 0 || b == 0
    ensures r != 0 ==> Log(r) == AddExponents(Log(a), Log(b))
  {
    if a == 0 || b == 0 then 0
    else
      var k := Mod255(Log(a) + Log(b));
      LogOfExp(k);
      ModUnique(Log(a) + Log(b), 255, if Log(a) + Log(b) < 255 then 0 else 1, AddExponents(Log(a), Log(b)));
      Exp(k)
  }

  /** a raised to the (possibly negative) int power b; 0^0 fails with DivideByZero. */
  function Pow(a: bv8, b: int): (r: Result<bv8>)
    ensures r.Failure? <==> a == 0 && b == 0
    ensures r.Failure? ==> r.error == DivideByZero
    ensures a == 0 && b != 0 ==> r == Success(0)
    ensures a != 0 && b == 0 ==> r == Success(1)
    ensures a != 0 && b != 0 ==> r.Success? && r.value != 0 && Log(r.value) == (Log(a) * b) % 255
  {
    if a == 0 && b == 0 then Failure(DivideByZero)
    else if a == 0 then Success(0)
    else if b == 0 then Success(1)
    else
      var k := Mod255(Log(a) * b);
      LogOfExp(k);
      Success(Exp(k))
  }

  /** The log of a^b is b times the log of a, modulo 255. */
  lemma PowLog(a: bv8, b: int)
    requires a != 0
    ensures Pow(a, b).Success? && Pow(a, b).value != 0
    ensures Log(Pow(a, b).value) == (Log(a) * b) % 255
  {
    if b == 0 {
      LogOfOne();
    }
  }

  lemma MulCommutative(a: bv8, b: bv8)
    ensures Mul(a, b) == Mul(b, a)
  {
  }

  /** 1 is the multiplicative identity. */
  lemma MulOne(a: bv8)
    ensures Mul(1, a) == a && Mul(a, 1) == a
  {
    LogOfOne();
    if a != 0 {
      LogInjective(Mul(1, a), a);
    }
  }

  lemma AddExponentsAssociative(i: int, j: int, k: int)
    requires 0 <= i < 255 && 0 <= j < 255 && 0 <= k < 255
    ensures AddExponents(AddExponents(i, j), k) == AddExponents(i, AddExponents(j, k))
  {
  }

  lemma MulAssociative(a: bv8, b: bv8, c: bv8)
    ensures Mul(Mul(a, b), c) == Mul(a, Mul(b, c))
  {
    if a != 0 && b != 0 && c != 0 {
      AddExponentsAssociative(Log(a), Log(b), Log(c));
      LogInjective(Mul(Mul(a, b), c), Mul(a, Mul(b, c)));
    }
  }

  /** Multiplying by 2 is the doubling step of the construction loop. */
  lemma MulByTwo(x: bv8)
    ensures Mul(2, x) == DoubleByte(x)
  {
    LogOfTwo();
    if x != 0 {
      var k := Log(x);
      ExpOfLog(x);
      if k < 254 {
        LogOfExp(k + 1);
        LogInjective(Mul(2, x), Exp(k + 1));
      } else {
        ExpWraps();
      }
    }
  }

  /** Doubling 2^254 gives back 2^0. */
  lemma ExpWraps()
    ensures DoubleByte(Exp(254)) == Exp(0)
  {
    ExpIsListed(254);
  }

  /** x doubled k times. */
  function DoubleTimes(x: bv8, k: nat): bv8
  {
    if k == 0 then x else DoubleByte(DoubleTimes(x, k - 1))
  }

  lemma {:induction false} DoubleTimesLinear(x: bv8, y: bv8, k: nat)
    ensures DoubleTimes(x ^ y, k) == DoubleTimes(x, k) ^ DoubleTimes(y, k)
  {
    if k > 0 {
      DoubleTimesLinear(x, y, k - 1);
    }
  }

  lemma {:induction false} MulByExp(k: nat, x: bv8)
    requires k < 255
    ensures Mul(Exp(k), x) == DoubleTimes(x, k)
  {
    if k == 0 {
      MulOne(x);
    } else {
      MulByExp(k - 1, x);
      MulByTwo(Exp(k - 1));
      MulAssociative(2, Exp(k - 1), x);
      MulByTwo(Mul(Exp(k - 1), x));
    }
  }

  /** Multiplication distributes over addition (XOR). */
  lemma MulDistributes(a: bv8, b: bv8, c: bv8)
    ensures Mul(a, b ^ c) == Mul(a, b) ^ Mul(a, c)
  {
    if a != 0 {
      ExpOfLog(a);
      MulByExp(Log(a), b ^ c);
      MulByExp(Log(a), b);
      MulByExp(Log(a), c);
      DoubleTimesLinear(b, c, Log(a));
    }
  }

  /** Pow(2, k) reads entry k mod 255 of the exponentiation table. */
  lemma PowOfTwo(k: int)
    ensures Pow(2, k) == Success(Exp(k % 255))
  {
    LogOfTwo();
    PowLog(2, k);
    LogOfExp(k % 255);
    LogInjective(Pow(2, k).value, Exp(k % 255));
  }

  /** Powers of a non-zero element add their exponents under multiplication. */
  lemma PowAdds(a: bv8, m: int, n: int)
    requires a != 0
    ensures Mul(Pow(a, m).value, Pow(a, n).value) == Pow(a, m + n).value
  {
    var x, y := Mul(Pow(a, m).value, Pow(a, n).value), Pow(a, m + n).value;
    PowLog(a, m);
    PowLog(a, n);
    PowLog(a, m + n);
    var p, q := Log(a) * m, Log(a) * n;
    assert Log(a) * (m + n) == p + q;
    AddExponentsIsMod(p, q);
    LogInjective(x, y);
  }

  /** Every non-zero element has multiplicative order dividing 255. */
  lemma PowOrder(a: bv8)
    requires a != 0
    ensures Pow(a, 255) == Success(1)
  {
    LogOfOne();
    PowLog(a, 255);
    ModOfMultiple(Log(a) * 255, 255, Log(a));
    LogInjective(Pow(a, 255).value, 1);
  }

  /** Pow with exponent -1 yields the multiplicative inverse. */
  lemma PowInverse(a: bv8)
    requires a != 0
    ensures Mul(a, Pow(a, -1).value) == 1
  {
    LogOfOne();
    PowLog(a, -1);
    var la := Log(a);
    if la == 0 {
      ModUnique(la * -1, 255, 0, 0);
    } else {
      ModUnique(la * -1, 255, -1, 255 - la);
    }
    LogInjective(Mul(a, Pow(a, -1).value), 1);
  }

  // ------------------------------------------------------------------
  // Polynomials: coefficient sequences, highest power first
  // ------------------------------------------------------------------

  function Zeros(n: nat): (r: seq<bv8>)
    ensures |r| == n
    ensures forall i :: 0 <= i < n ==> r[i] == 0
  {
    seq(n, _ => 0)
  }

  /** Coefficient-wise addition (XOR) of two polynomials of equal length. */
  function Add(x: seq<bv8>, y: seq<bv8>): (r: seq<bv8>)
    requires |x| == |y|
    ensures |r| == |x|
    ensures forall i :: 0 <= i < |r| ==> r[i] == x[i] ^ y[i]
  {
    seq(|x|, i requires 0 <= i < |x| => x[i] ^ y[i])
  }

  /** Term i of coefficient k of a product: a[i] * b[k - i] when that coefficient of b exists. */
  function ProductTerm(a: seq<bv8>, b: seq<bv8>, i: nat, k: int): bv8
    requires i < |a|
  {
    if 0 <= k - i < |b| then Mul(a[i], b[k - i]) else 0
  }

  /** The XOR of the terms i .. |a|-1 of coefficient k of a product. */
  function ProductFrom(a: seq<bv8>, b: seq<bv8>, k: int, i: nat): bv8
    requires i <= |a|
    decreases |a| - i
  {
    if i == |a| then 0 else ProductTerm(a, b, i, k) ^ ProductFrom(a, b, k, i + 1)
  }

  /** Coefficient k of the product of a and b: the XOR of a[i] * b[j] over all i + j == k. */
  function ProductCoefficient(a: seq<bv8>, b: seq<bv8>, k: int): bv8
  {
    ProductFrom(a, b, k, 0)
  }

  /** The inner loop of MultiplyPolynomial for row i, from column j on. */
  function MultiplyColumns(a: seq<bv8>, b: seq<bv8>, i: nat, j: nat, acc: seq<bv8>): (r: seq<bv8>)
    requires i < |a| && j <= |b| && |acc| == |a| + |b| - 1
    ensures |r| == |acc|
    ensures forall k :: 0 <= k < |r| ==>
      r[k] == acc[k] ^ (if i + j <= k < i + |b| then Mul(a[i], b[k - i]) else 0)
    decreases |b| - j
  {
    if j == |b| then acc
    else
      var powA := |a| - i - 1;
      var powB := |b| - j - 1;
      var k := |acc| - (powA + powB) - 1;
      MultiplyColumns(a, b, i, j + 1, acc[k := acc[k] ^ Mul(a[i], b[j])])
  }

  /** The outer loop of MultiplyPolynomial from row i on. */
  function MultiplyRows(a: seq<bv8>, b: seq<bv8>, i: nat, acc: seq<bv8>): (r: seq<bv8>)
    requires i <= |a| && |acc| == |a| + |b| - 1
    ensures |r| == |acc|
    ensures forall k :: 0 <= k < |r| ==> r[k] == acc[k] ^ ProductFrom(a, b, k, i)
    decreases |a| - i
  {
    if i == |a| then acc
    else MultiplyRows(a, b, i + 1, MultiplyColumns(a, b, i, 0, acc))
  }

  /**
   * Polynomial multiplication. Two empty operands make the result length -1,
   * which fails with Overflow when the array is allocated.
   */
  function MultiplyPolynomial(a: seq<bv8>, b: seq<bv8>): (r: Result<seq<bv8>>)
    ensures r.Failure? <==> |a| + |b| == 0
    ensures r.Failure? ==> r.error == Overflow
    ensures r.Success? ==> |r.value| == |a| + |b| - 1
    ensures r.Success? ==> forall k :: 0 <= k < |r.value| ==> r.value[k] == ProductCoefficient(a, b, k)
  {
    if |a| + |b| == 0 then Failure(Overflow)
    else Success(MultiplyRows(a, b, 0, Zeros(|a| + |b| - 1)))
  }

  /** The inner loop of PolynomialMod at row i, from divisor index j on: adds factor * divisor aligned at i. */
  function Eliminate(dividend: seq<bv8>, divisor: seq<bv8>, i: nat, factor: bv8, j: nat): (r: seq<bv8>)
    requires j <= |divisor| && i + |divisor| <= |dividend|
    ensures |r| == |dividend|
    decreases |divisor| - j
  {
    if j == |divisor| then dividend
    else Eliminate(dividend[i + j := dividend[i + j] ^ Mul(factor, divisor[j])], divisor, i, factor, j + 1)
  }

  /** Each position of the row either receives factor times the aligned divisor coefficient or is left alone. */
  lemma {:induction false} EliminateAt(dividend: seq<bv8>, divisor: seq<bv8>, i: nat, factor: bv8, j: nat, p: nat)
    requires j <= |divisor| && i + |divisor| <= |dividend| && p < |dividend|
    ensures Eliminate(dividend, divisor, i, factor, j)[p]
         == dividend[p] ^ (if i + j <= p < i + |divisor| then Mul(factor, divisor[p - i]) else 0)
    decreases |divisor| - j
  {
    if j < |divisor| {
      var updated := dividend[i + j := dividend[i + j] ^ Mul(factor, divisor[j])];
      EliminateAt(updated, divisor, i, factor, j + 1, p);
    }
  }

  /** The outer loop of PolynomialMod from row i on; the factor is read before the row is updated. */
  function Reduce(dividend: seq<bv8>, divisor: seq<bv8>, i: nat): (r: seq<bv8>)
    requires |divisor| >= 1 && i + |divisor| - 1 <= |dividend|
    ensures |r| == |dividend|
    decreases |dividend| - i
  {
    if i + |divisor| - 1 < |dividend| then
      Reduce(Eliminate(dividend, divisor, i, dividend[i], 0), divisor, i + 1)
    else dividend
  }

  /**
   * The remainder of dividend divided by divisor: the last |divisor| - 1
   * coefficients left by long division. An empty divisor makes the loop read
   * past the dividend; a dividend shorter than the remainder makes the final
   * copy start at a negative offset.
   */
  function PolynomialMod(dividend: seq<bv8>, divisor: seq<bv8>): (r: Result<seq<bv8>>)
    ensures r.Failure? <==> |divisor| == 0 || |dividend| < |divisor| - 1
    ensures |divisor| == 0 ==> r == Failure(IndexOutOfRange)
    ensures |divisor| >= 1 && |dividend| < |divisor| - 1 ==> r == Failure(ArgumentOutOfRange)
    ensures r.Success? ==> |r.value| == |divisor| - 1
  {
    if |divisor| == 0 then Failure(IndexOutOfRange)
    else if |dividend| < |divisor| - 1 then Failure(ArgumentOutOfRange)
    else
      var reduced := Reduce(dividend, divisor, 0);
      Success(reduced[|reduced| - (|divisor| - 1)..])
  }

  // ------------------------------------------------------------------
  // Long division is linear, and leaves the leading positions zero
  // ------------------------------------------------------------------

  lemma MulDistributesRight(a: bv8, b: bv8, c: bv8)
    ensures Mul(a ^ b, c) == Mul(a, c) ^ Mul(b, c)
  {
    MulCommutative(a ^ b, c);
    MulDistributes(c, a, b);
    MulCommutative(a, c);
    MulCommutative(b, c);
  }

  lemma MulZero(a: bv8)
    ensures Mul(0, a) == 0
  {
  }

  lemma XorRegroup(a: bv8, b: bv8, c: bv8, d: bv8)
    ensures (a ^ b) ^ (c ^ d) == (a ^ c) ^ (b ^ d)
  {
  }

  /** What elimination row i with the given factor adds at position p. */
  function RowTerm(factor: bv8, divisor: seq<bv8>, i: nat, p: nat): bv8
  {
    if i <= p < i + |divisor| then Mul(factor, divisor[p - i]) else 0
  }

  lemma RowTermLinear(fx: bv8, fy: bv8, divisor: seq<bv8>, i: nat, p: nat)
    ensures RowTerm(fx ^ fy, divisor, i, p) == RowTerm(fx, divisor, i, p) ^ RowTerm(fy, divisor, i, p)
  {
    if i <= p < i + |divisor| {
      MulDistributesRight(fx, fy, divisor[p - i]);
    }
  }

  /** The whole effect of one elimination row, position by position. */
  function RowUpdate(dividend: seq<bv8>, divisor: seq<bv8>, i: nat, factor: bv8): (r: seq<bv8>)
    ensures |r| == |dividend|
  {
    seq(|dividend|, p requires 0 <= p < |dividend| => dividend[p] ^ RowTerm(factor, divisor, i, p))
  }

  /** The inner loop of long division performs exactly the row update. */
  lemma EliminateIsRowUpdate(dividend: seq<bv8>, divisor: seq<bv8>, i: nat, factor: bv8)
    requires i + |divisor| <= |dividend|
    ensures Eliminate(dividend, divisor, i, factor, 0) == RowUpdate(dividend, divisor, i, factor)
  {
    var l, r := Eliminate(dividend, divisor, i, factor, 0), RowUpdate(dividend, divisor, i, factor);
    forall p | 0 <= p < |l|
      ensures l[p] == r[p]
    {
      EliminateAt(dividend, divisor, i, factor, 0, p);
    }
  }

  lemma RowUpdateLinear(x: seq<bv8>, y: seq<bv8>, divisor: seq<bv8>, i: nat, fx: bv8, fy: bv8)
    requires |x| == |y|
    ensures RowUpdate(Add(x, y), divisor, i, fx ^ fy) == Add(RowUpdate(x, divisor, i, fx), RowUpdate(y, divisor, i, fy))
  {
    var l, r := RowUpdate(Add(x, y), divisor, i, fx ^ fy), Add(RowUpdate(x, divisor, i, fx), RowUpdate(y, divisor, i, fy));
    forall p | 0 <= p < |l|
      ensures l[p] == r[p]
    {
      RowTermLinear(fx, fy, divisor, i, p);
    }
  }

  lemma EliminateLinear(x: seq<bv8>, y: seq<bv8>, divisor: seq<bv8>, i: nat)
    requires |x| == |y| && |divisor| >= 1 && i + |divisor| <= |x|
    ensures Eliminate(Add(x, y), divisor, i, x[i] ^ y[i], 0)
         == Add(Eliminate(x, divisor, i, x[i], 0), Eliminate(y, divisor, i, y[i], 0))
  {
    EliminateIsRowUpdate(Add(x, y), divisor, i, x[i] ^ y[i]);
    EliminateIsRowUpdate(x, divisor, i, x[i]);
    EliminateIsRowUpdate(y, divisor, i, y[i]);
    RowUpdateLinear(x, y, divisor, i, x[i], y[i]);
  }

  lemma {:induction false} ReduceLinear(x: seq<bv8>, y: seq<bv8>, divisor: seq<bv8>, i: nat)
    requires |x| == |y| && |divisor| >= 1 && i + |divisor| - 1 <= |x|
    ensures Reduce(Add(x, y), divisor, i) == Add(Reduce(x, divisor, i), Reduce(y, divisor, i))
    decreases |x| - i
  {
    if i + |divisor| - 1 < |x| {
      EliminateLinear(x, y, divisor, i);
      ReduceLinear(Eliminate(x, divisor, i, x[i], 0), Eliminate(y, divisor, i, y[i], 0), divisor, i + 1);
    }
  }

  lemma AddSuffix(a: seq<bv8>, b: seq<bv8>, start: nat)
    requires |a| == |b| && start <= |a|
    ensures Add(a, b)[start..] == Add(a[start..], b[start..])
  {
  }

  /** The remainder of a sum is the sum of the remainders. */
  lemma PolynomialModLinear(x: seq<bv8>, y: seq<bv8>, divisor: seq<bv8>)
    requires |x| == |y| && |divisor| >= 1 && |x| >= |divisor| - 1
    ensures PolynomialMod(Add(x, y), divisor).value
         == Add(PolynomialMod(x, divisor).value, PolynomialMod(y, divisor).value)
  {
    ReduceLinear(x, y, divisor, 0);
    AddSuffix(Reduce(x, divisor, 0), Reduce(y, divisor, 0), |x| - (|divisor| - 1));
  }

  lemma {:induction false} ReduceOfZeroHead(dividend: seq<bv8>, divisor: seq<bv8>, i: nat)
    requires |divisor| >= 1 && i + |divisor| - 1 <= |dividend|
    requires forall p :: i <= p < |dividend| - (|divisor| - 1) ==> dividend[p] == 0
    ensures Reduce(dividend, divisor, i) == dividend
    decreases |dividend| - i
  {
    if i + |divisor| - 1 < |dividend| {
      var next := Eliminate(dividend, divisor, i, dividend[i], 0);
      forall p | 0 <= p < |dividend|
        ensures next[p] == dividend[p]
      {
        EliminateAt(dividend, divisor, i, dividend[i], 0, p);
        if i <= p < i + |divisor| {
          MulZero(divisor[p - i]);
        }
      }
      assert next == dividend;
      ReduceOfZeroHead(next, divisor, i + 1);
    }
  }

  /** A polynomial of lower degree than the divisor is its own remainder. */
  lemma PolynomialModOfLowDegree(m: nat, tail: seq<bv8>, divisor: seq<bv8>)
    requires |divisor| >= 1 && |tail| == |divisor| - 1
    ensures PolynomialMod(Zeros(m) + tail, divisor) == Success(tail)
  {
    ReduceOfZeroHead(Zeros(m) + tail, divisor, 0);
  }

  lemma {:induction false} ReduceKeepsDone(dividend: seq<bv8>, divisor: seq<bv8>, i: nat, p: nat)
    requires |divisor| >= 1 && i + |divisor| - 1 <= |dividend| && p < i
    ensures Reduce(dividend, divisor, i)[p] == dividend[p]
    decreases |dividend| - i
  {
    if i + |divisor| - 1 < |dividend| {
      EliminateAt(dividend, divisor, i, dividend[i], 0, p);
      ReduceKeepsDone(Eliminate(dividend, divisor, i, dividend[i], 0), divisor, i + 1, p);
    }
  }

  lemma {:induction false} ReduceClearsHead(dividend: seq<bv8>, divisor: seq<bv8>, i: nat, p: nat)
    requires |divisor| >= 1 && divisor[0] == 1 && i + |divisor| - 1 <= |dividend|
    requires i <= p < |dividend| - (|divisor| - 1)
    ensures Reduce(dividend, divisor, i)[p] == 0
    decreases |dividend| - i
  {
    var next := Eliminate(dividend, divisor, i, dividend[i], 0);
    EliminateAt(dividend, divisor, i, dividend[i], 0, p);
    if p == i {
      MulOne(dividend[i]);
      ReduceKeepsDone(next, divisor, i + 1, p);
    } else {
      ReduceClearsHead(next, divisor, i + 1, p);
    }
  }

  /** With a monic divisor, long division cancels every coefficient left of the remainder. */
  lemma DivisionClearsQuotientPositions(dividend: seq<bv8>, divisor: seq<bv8>)
    requires |divisor| >= 1 && divisor[0] == 1 && |dividend| >= |divisor| - 1
    ensures forall p :: 0 <= p < |dividend| - (|divisor| - 1) ==> Reduce(dividend, divisor, 0)[p] == 0
  {
    forall p | 0 <= p < |dividend| - (|divisor| - 1)
      ensures Reduce(dividend, divisor, 0)[p] == 0
    {
      ReduceClearsHead(dividend, divisor, 0, p);
    }
  }
}
