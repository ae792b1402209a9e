// Bit fields of machine words (source/dobby/utility_macro.h and inst_decode_encode_kit.h).
//
// A word is an `int`; a shift by k is a division or multiplication by 2^k, and a mask of
// consecutive bits is a remainder.  `unit` is the weight of a field's lowest bit and `size` the
// number of values the field can take.
module BitFields {

  const TWO_32: int := 0x1_0000_0000
  const TWO_63: int := 0x8000_0000_0000_0000
  const TWO_64: int := 0x1_0000_0000_0000_0000

  /** Blocks of n bytes at a and of m bytes at b do not overlap. */
  predicate Apart(a: int, n: int, b: int, m: int) {
    a + n <= b || b + m <= a
  }

  predicate IsWord(w: int) {
    0 <= w < TWO_32
  }

  /** A 64-bit register or address value: arithmetic wraps around. */
  function Wrap(x: int): (r: int)
    ensures 0 <= r < TWO_64
  {
    x % TWO_64
  }

  /** The macro `bits`, as (obj / unit) % size. */
  function Field(w: int, unit: int, size: int): int
    requires unit > 0 && size > 0
  {
    (w / unit) % size
  }

  /** The macro `set_bits`: clear the field, then or in the new value. */
  function SetField(w: int, unit: int, size: int, v: int): int
    requires unit > 0 && size > 0
  {
    w - Field(w, unit, size) * unit + v * unit
  }

  /** Two's-complement reading of a value below 2 * half. */
  function Signed(x: int, half: int): int {
    if x < half then x else x - 2 * half
  }

  function Pow2(n: nat): (r: nat)
    ensures r > 0
  {
    if n == 0 then 1 else 2 * Pow2(n - 1)
  }

  // ----- inst_decode_encode_kit.h -----

  /** `SignExtend(x, M, 64)` with half = 2^(M-1): the sign bit is smeared over the bits above M
      of an unsigned 64-bit value, which is then reinterpreted as signed. */
  function SignExtend(x: int, half: int): int
    requires half > 0
  {
    var signBit := Field(x, half, 2);
    var signMask := Wrap(0 - signBit);
    var smeared := x + (signMask / (2 * half)) * (2 * half);
    Signed(smeared, 0x8000_0000_0000_0000)
  }

  function DecodeImm14Offset(w: int): int {
    SignExtend(Field(w, 0x20, 0x4000) * 4, 0x8000)
  }

  function EncodeImm14Offset(w: int, offset: int): int {
    SetField(w, 0x20, 0x4000, Field(offset / 4, 1, 0x4000))
  }

  function DecodeImm19Offset(w: int): int {
    SignExtend(Field(w, 0x20, 0x8_0000) * 4, 0x10_0000)
  }

  function EncodeImm19Offset(w: int, offset: int): int {
    SetField(w, 0x20, 0x8_0000, Field(offset / 4, 1, 0x8_0000))
  }

  function DecodeImm26Offset(w: int): int {
    SignExtend(Field(w, 1, 0x400_0000) * 4, 0x800_0000)
  }

  function EncodeImm26Offset(w: int, offset: int): int {
    SetField(w, 1, 0x400_0000, Field(offset / 4, 1, 0x400_0000))
  }

  function DecodeImmhiImmloOffset(w: int): int {
    SignExtend(Field(w, 0x2000_0000, 4) + Field(w, 0x20, 0x8_0000) * 4, 0x10_0000)
  }

  function EncodeImmhiImmloOffset(w: int, offset: int): int {
    SetField(SetField(w, 0x2000_0000, 4, Field(offset, 1, 4)), 0x20, 0x8_0000, Field(offset, 4, 0x8_0000))
  }

  function DecodeImmhiImmloZero12Offset(w: int): int {
    DecodeImmhiImmloOffset(w) * 0x1000
  }

  function EncodeImmhiImmloZero12Offset(w: int, offset: int): int {
    EncodeImmhiImmloOffset(w, offset / 0x1000)
  }

  function TruncPage(x: int): int {
    x - x % 0x1000
  }

  // ----- laws of the fields -----

  lemma FieldBounds(w: int, unit: int, size: int)
    requires unit > 0 && size > 0
    ensures 0 <= Field(w, unit, size) < size
  {}

  lemma DivUnique(x: int, d: int, q: int, r: int)
    requires d > 0 && x == q * d + r && 0 <= r < d
    ensures x / d == q && x % d == r
  {
    var q', r' := x / d, x % d;
    assert (q - q') * d == r' - r;
    assert q - q' >= 1 ==> (q - q') * d >= d;
    assert q - q' <= -1 ==> (q - q') * d <= -d;
  }

  predicate ByFour(x: int) { x % 4 == 0 }

  lemma ByFourAdd(x: int, y: int)
    requires ByFour(x) && ByFour(y)
    ensures ByFour(x + y) && ByFour(x - y)
  {
    DivUnique(x + y, 4, x / 4 + y / 4, 0);
    DivUnique(x - y, 4, x / 4 - y / 4, 0);
  }

  lemma WrapInside(x: int)
    requires 0 <= x < TWO_64
    ensures Wrap(x) == x
  {
    DivUnique(x, TWO_64, 0, x);
  }

  lemma WrapAdd(x: int, y: int)
    ensures Wrap(Wrap(x) + y) == Wrap(x + y)
  {
    var z := Wrap(x) + y;
    DivUnique(x + y, TWO_64, x / TWO_64 + z / TWO_64, z % TWO_64);
  }

  /** Keeping the low bits of an in-range signed value loses nothing. */
  lemma SignedOfLowBits(x: int, half: int)
    requires -half <= x < half
    ensures Signed(x % (2 * half), half) == x
  {
    if x >= 0 {
      DivUnique(x, 2 * half, 0, x);
    } else {
      DivUnique(x, 2 * half, -1, x + 2 * half);
    }
  }

  lemma SignExtendIsTwosComplement(x: int, half: int, k: int)
    requires half > 0 && k > 1 && TWO_64 == 2 * half * k
    requires 0 <= x < 2 * half
    ensures SignExtend(x, half) == Signed(x, half)
  {
    if x < half {
      DivUnique(x, half, 0, x);
      DivUnique(0, 2 * half, 0, 0);
    } else {
      DivUnique(x, half, 1, x - half);
      DivUnique(-1, TWO_64, -1, TWO_64 - 1);
      DivUnique(TWO_64 - 1, 2 * half, k - 1, 2 * half - 1);
    }
  }

  /** Setting a field stores the value and leaves every bit below and above the field alone. */
  lemma SetFieldLaws(w: int, unit: int, size: int, v: int)
    requires unit > 0 && size > 0 && 0 <= v < size
    ensures Field(SetField(w, unit, size, v), unit, size) == v
    ensures SetField(w, unit, size, v) % unit == w % unit
    ensures SetField(w, unit, size, v) / unit / size == w / unit / size
  {
    var hi, lo := w / unit / size, w % unit;
    var w' := SetField(w, unit, size, v);
    calc {
      w';
      w - Field(w, unit, size) * unit + v * unit;
      { assert w == (hi * size + Field(w, unit, size)) * unit + lo; }
      (hi * size + v) * unit + lo;
    }
    DivUnique(w', unit, hi * size + v, lo);
    DivUnique(hi * size + v, size, hi, v);
  }

  /** Two words that differ at most in one field. */
  predicate SameOutside(w: int, w': int, unit: int, size: int)
    requires unit > 0 && size > 0
  {
    w % unit == w' % unit && w / unit / size == w' / unit / size
  }

  /** The low bits of a quarter of the offset, times four, read as a signed number. */
  lemma ScaledImmediate(offset: int, half: int)
    requires half > 0 && offset % 4 == 0 && -4 * half <= offset < 4 * half
    ensures Signed(Field(offset / 4, 1, 2 * half) * 4, 4 * half) == offset
  {
    var q := offset / 4;
    SignedOfLowBits(q, half);
    assert Field(q, 1, 2 * half) == q % (2 * half);
  }

  lemma Imm14RoundTrip(w: int, offset: int)
    requires offset % 4 == 0 && -0x8000 <= offset < 0x8000
    ensures DecodeImm14Offset(EncodeImm14Offset(w, offset)) == offset
    ensures SameOutside(w, EncodeImm14Offset(w, offset), 0x20, 0x4000)
  {
    hide SetField, Field, SignExtend, Signed;
    var v := Field(offset / 4, 1, 0x4000);
    FieldBounds(offset / 4, 1, 0x4000);
    SetFieldLaws(w, 0x20, 0x4000, v);
    SignExtendIsTwosComplement(v * 4, 0x8000, 0x1_0000_0000_0000);
    ScaledImmediate(offset, 0x2000);
  }

  lemma Imm19RoundTrip(w: int, offset: int)
    requires offset % 4 == 0 && -0x10_0000 <= offset < 0x10_0000
    ensures DecodeImm19Offset(EncodeImm19Offset(w, offset)) == offset
    ensures SameOutside(w, EncodeImm19Offset(w, offset), 0x20, 0x8_0000)
  {
    hide SetField, Field, SignExtend, Signed;
    var v := Field(offset / 4, 1, 0x8_0000);
    FieldBounds(offset / 4, 1, 0x8_0000);
    SetFieldLaws(w, 0x20, 0x8_0000, v);
    SignExtendIsTwosComplement(v * 4, 0x10_0000, 0x800_0000_0000);
    ScaledImmediate(offset, 0x4_0000);
  }

  lemma Imm26RoundTrip(w: int, offset: int)
    requires offset % 4 == 0 && -0x800_0000 <= offset < 0x800_0000
    ensures DecodeImm26Offset(EncodeImm26Offset(w, offset)) == offset
    ensures SameOutside(w, EncodeImm26Offset(w, offset), 1, 0x400_0000)
  {
    hide SetField, Field, SignExtend, Signed;
    var v := Field(offset / 4, 1, 0x400_0000);
    FieldBounds(offset / 4, 1, 0x400_0000);
    SetFieldLaws(w, 1, 0x400_0000, v);
    SignExtendIsTwosComplement(v * 4, 0x800_0000, 0x10_0000_0000);
    ScaledImmediate(offset, 0x200_0000);
  }

  lemma DivDiv(x: int, a: int, b: int)
    requires a > 0 && b > 0
    ensures a * b > 0 && x / a / b == x / (a * b)
  {
    var q := x / a / b;
    var r := (x / a) % b * a + x % a;
    assert x == q * (a * b) + r;
    assert (x / a) % b * a <= (b - 1) * a;
    DivUnique(x, a * b, q, r);
  }

  /** A field that starts at or above the end of the field being set keeps its value. */
  lemma SetFieldKeepsHigh(w: int, unit: int, size: int, v: int, k: int, high: int, highSize: int)
    requires unit > 0 && size > 0 && 0 <= v < size && k > 0 && highSize > 0
    requires high == unit * size * k && high > 0
    ensures SetField(w, unit, size, v) / high == w / high
    ensures Field(SetField(w, unit, size, v), high, highSize) == Field(w, high, highSize)
  {
    var w' := SetField(w, unit, size, v);
    SetFieldLaws(w, unit, size, v);
    DivDiv(w, unit, size);
    DivDiv(w', unit, size);
    DivDiv(w, unit * size, k);
    DivDiv(w', unit * size, k);
  }

  /** A field that ends at or below the start of the field being set keeps its value. */
  lemma SetFieldKeepsLow(w: int, unit: int, size: int, v: int, k: int, low: int, lowSize: int)
    requires unit > 0 && size > 0 && 0 <= v < size && k > 0 && low > 0 && lowSize > 0
    requires unit == low * lowSize * k
    ensures Field(SetField(w, unit, size, v), low, lowSize) == Field(w, low, lowSize)
  {
    var d := v - Field(w, unit, size);
    var w' := SetField(w, unit, size, v);
    calc {
      w';
      w + d * unit;
      w + d * (low * lowSize * k);
      w + (d * lowSize * k) * low;
    }
    DivUnique(w', low, w / low + d * lowSize * k, w % low);
    calc {
      w' / low;
      w / low + (d * k) * lowSize;
    }
    DivUnique(w' / low, lowSize, w / low / lowSize + d * k, (w / low) % lowSize);
  }

  /** ADR keeps its 21-bit offset in two fields, immlo (bits 29-30) and immhi (bits 5-23);
      encoding leaves the register, the fixed bits 24-28 and bit 31 alone. */
  lemma AdrRoundTrip(w: int, offset: int)
    requires -0x10_0000 <= offset < 0x10_0000
    ensures DecodeImmhiImmloOffset(EncodeImmhiImmloOffset(w, offset)) == offset
    ensures var w' := EncodeImmhiImmloOffset(w, offset);
      && Field(w', 1, 0x20) == Field(w, 1, 0x20)
      && Field(w', 0x100_0000, 0x20) == Field(w, 0x100_0000, 0x20)
      && w' / 0x8000_0000 == w / 0x8000_0000
  {
    hide Field, SetField, SignExtend;
    var lo, hi := Field(offset, 1, 4), Field(offset, 4, 0x8_0000);
    FieldBounds(offset, 1, 4);
    FieldBounds(offset, 4, 0x8_0000);
    var w1 := SetField(w, 0x2000_0000, 4, lo);
    SetFieldLaws(w, 0x2000_0000, 4, lo);
    SetFieldKeepsLow(w, 0x2000_0000, 4, lo, 0x100_0000, 1, 0x20);
    SetFieldKeepsLow(w, 0x2000_0000, 4, lo, 1, 0x100_0000, 0x20);
    SetFieldKeepsHigh(w, 0x2000_0000, 4, lo, 1, 0x8000_0000, 2);
    SetFieldLaws(w1, 0x20, 0x8_0000, hi);
    SetFieldKeepsLow(w1, 0x20, 0x8_0000, hi, 1, 1, 0x20);
    SetFieldKeepsHigh(w1, 0x20, 0x8_0000, hi, 1, 0x100_0000, 0x20);
    SetFieldKeepsHigh(w1, 0x20, 0x8_0000, hi, 0x20, 0x2000_0000, 4);
    SetFieldKeepsHigh(w1, 0x20, 0x8_0000, hi, 0x80, 0x8000_0000, 2);
    AdrSplit(offset);
    SignExtendIsTwosComplement(lo + hi * 4, 0x10_0000, 0x800_0000_0000);
  }

  lemma AdrSplit(offset: int)
    requires -0x10_0000 <= offset < 0x10_0000
    ensures var u := Field(offset, 1, 4) + Field(offset, 4, 0x8_0000) * 4;
      0 <= u < 0x20_0000 && Signed(u, 0x10_0000) == offset
  {
    assert offset == (offset / 4) * 4 + offset % 4;
  }

  lemma AdrpRoundTrip(w: int, offset: int)
    requires offset % 0x1000 == 0 && -0x1_0000_0000 <= offset < 0x1_0000_0000
    ensures DecodeImmhiImmloZero12Offset(EncodeImmhiImmloZero12Offset(w, offset)) == offset
    ensures var w' := EncodeImmhiImmloZero12Offset(w, offset);
      && Field(w', 1, 0x20) == Field(w, 1, 0x20)
      && Field(w', 0x100_0000, 0x20) == Field(w, 0x100_0000, 0x20)
      && w' / 0x8000_0000 == w / 0x8000_0000
  {
    hide DecodeImmhiImmloOffset, EncodeImmhiImmloOffset, Field;
    AdrRoundTrip(w, offset / 0x1000);
  }

  /** Truncating pc + imm to a page, as the relocator does, is the architecture's page(pc) + imm. */
  lemma AdrpPage(pc: int, w: int)
    ensures TruncPage(Wrap(pc + DecodeImmhiImmloZero12Offset(w)))
         == Wrap(TruncPage(pc) + DecodeImmhiImmloZero12Offset(w))
  {
    PageShift(pc, DecodeImmhiImmloOffset(w));
  }

  lemma PageShift(pc: int, pages: int)
    ensures TruncPage(Wrap(pc + pages * 0x1000)) == Wrap(TruncPage(pc) + pages * 0x1000)
  {
    var p, r := pc / 0x1000 + pages, pc % 0x1000;
    var hi, lo := p / 0x10_0000_0000_0000, p % 0x10_0000_0000_0000;
    DivUnique(pc + pages * 0x1000, TWO_64, hi, lo * 0x1000 + r);
    DivUnique(TruncPage(pc) + pages * 0x1000, TWO_64, hi, lo * 0x1000);
    DivUnique(lo * 0x1000 + r, 0x1000, lo, r);
  }
}
