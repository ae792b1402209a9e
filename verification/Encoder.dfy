// The instruction encoders of source/core/assembler/assembler-arm64.h, and the proof that each
// emitted word means the instruction its caller asked for.  `|` of disjoint fields is written `+`.
module Encoder {
  import opened BitFields
  import opened A64

  /** `TMP_REG_0`, the scratch register of every emitted sequence. */
  const TMP_REG_0: int := 17

  /** The macro `LeftShift(a, b, c)` with size = 2^b and unit = 2^c. */
  function LeftShift(a: int, size: int, unit: int): int
    requires size > 0
  {
    (a % size) * unit
  }

  function EncB(imm: int): int { 0x1400_0000 + Field(imm / 4, 1, 0x400_0000) }

  function EncBr(rn: int): int { 0xD61F_0000 + rn * 0x20 }

  function EncBlr(rn: int): int { 0xD63F_0000 + rn * 0x20 }

  const RET: int := 0xD65F_03C0

  /** `ldr(rt, imm)`: the literal load, whose imm19 is filled in when the label is bound. */
  function EncLdrLiteralX(rt: int): int { 0x5800_0000 + rt }

  /** `ldr(rt, imm)` for any byte offset: `LeftShift(imm, 26, 5)` reaches up to bit 30, so or-ing the
      opcode 0x58000000 sets bits 27, 28 and 30 of it. */
  function EncLdrLiteralOffset(rt: int, imm: int): int {
    SetField(SetField(LeftShift(imm, 0x400_0000, 0x20), 0x800_0000, 4, 3), 0x4000_0000, 2, 1) + rt
  }

  function EncMoveWide(op: int, rd: int, imm: int, shift: int): int {
    var hw := if shift > 0 then shift / 16 else 0;
    0x9280_0000 + op + LeftShift(hw, 4, 0x20_0000) + LeftShift(imm, 0x1_0000, 0x20) + rd
  }

  function EncMovz(rd: int, imm: int, shift: int): int { EncMoveWide(0x4000_0000, rd, imm, shift) }

  function EncMovk(rd: int, imm: int, shift: int): int { EncMoveWide(0x6000_0000, rd, imm, shift) }

  function EncAdrp(rd: int, imm: int): int {
    0x9000_0000 + rd + LeftShift(Field(imm / 0x1000, 1, 4), 4, 0x2000_0000)
      + LeftShift(Field(imm / 0x1000, 4, 0x8_0000), 0x8_0000, 0x20)
  }

  function EncAddImm(rd: int, rn: int, imm: int): int {
    0x9100_0000 + rd + rn * 0x20 + LeftShift(imm, 0x1000, 0x400)
  }

  function EncSubImm(rd: int, rn: int, imm: int): int {
    0xD100_0000 + rd + rn * 0x20 + LeftShift(imm, 0x1000, 0x400)
  }

  function EncLdrX(rt: int, rn: int, offset: int): int {
    0xF940_0000 + LeftShift(offset / 8, 0x1000, 0x400) + rn * 0x20 + rt
  }

  function EncStrX(rt: int, rn: int, offset: int): int {
    0xF900_0000 + LeftShift(offset / 8, 0x1000, 0x400) + rn * 0x20 + rt
  }

  /** `LoadStorePair`: op carries opc, V and L; mode is the addressing mode; scale the access size. */
  function EncPair(op: int, mode: int, rt: int, rt2: int, rn: int, offset: int, scale: int): int
    requires scale > 0
  {
    op + mode + LeftShift(offset / scale, 0x80, 0x8000) + rt2 * 0x400 + rn * 0x20 + rt
  }

  function EncStpX(rt: int, rt2: int, rn: int, offset: int): int {
    EncPair(0x8000_0000, 0x2900_0000, rt, rt2, rn, offset, 8)
  }

  function EncStpXPre(rt: int, rt2: int, rn: int, offset: int): int {
    EncPair(0x8000_0000, 0x2980_0000, rt, rt2, rn, offset, 8)
  }

  function EncLdpXPost(rt: int, rt2: int, rn: int, offset: int): int {
    EncPair(0x8040_0000, 0x2880_0000, rt, rt2, rn, offset, 8)
  }

  function EncStpQ(rt: int, rt2: int, rn: int, offset: int): int {
    EncPair(0x8400_0000, 0x2900_0000, rt, rt2, rn, offset, 16)
  }

  function EncLdpQPost(rt: int, rt2: int, rn: int, offset: int): int {
    EncPair(0x8440_0000, 0x2880_0000, rt, rt2, rn, offset, 16)
  }

  predicate IsReg(r: int) { 0 <= r < 32 }

  // ----- every encoder is inverted by the architecture's decoder -----

  lemma DecodeB(imm: int)
    requires imm % 4 == 0 && -0x800_0000 <= imm < 0x800_0000
    ensures Decode(EncB(imm)) == Branch(false, imm)
  {
    var v := imm / 4 % 0x400_0000;
    SignedOfLowBits(imm / 4, 0x200_0000);
    SplitImm26(v);
  }

  lemma SplitImm26(v: int)
    requires 0 <= v < 0x400_0000
    ensures Decode(0x1400_0000 + v) == Branch(false, Signed(v, 0x200_0000) * 4)
  {
    hide Decode, Signed;
    var hi, lo := v / 0x100_0000, v % 0x100_0000;
    DecodeTop(0x1400_0000 + v, 0x14 + hi, lo);
    DivUnique(0x14 + hi, 4, 5, hi);
  }

  lemma DecodeBranchReg(rn: int)
    requires IsReg(rn)
    ensures Decode(EncBr(rn)) == BranchReg(false, rn)
    ensures Decode(EncBlr(rn)) == BranchReg(true, rn)
    ensures Decode(RET) == BranchReg(false, 30)
  {
    BranchRegWord(rn, 0x7C0, false);
    BranchRegWord(rn, 0xFC0, true);
    BranchRegWord(30, 0x17C0, false);
  }

  lemma BranchRegWord(rn: int, op: int, link: bool)
    requires IsReg(rn) && if link then op == 0xFC0 else op in {0x7C0, 0x17C0}
    ensures Decode(0xD600_0000 + op * 0x400 + rn * 0x20) == BranchReg(link, rn)
  {
    hide Decode, Offset26, Offset21, Offset19, Offset14, DecodeData;
    var low := op * 0x400 + rn * 0x20;
    DecodeTop(0xD600_0000 + low, 0xD6, low);
    DivUnique(low, 0x20, op * 0x20 + rn, 0);
    DivUnique(op * 0x20 + rn, 0x20, op, rn);
    DivUnique(low, 0x400, op, rn * 0x20);
  }

  lemma DecodeLdrLiteralX(w: int, rt: int, offset: int)
    requires IsReg(rt) && offset % 4 == 0 && -0x10_0000 <= offset < 0x10_0000
    requires w == EncodeImm19Offset(EncLdrLiteralX(rt), offset)
    ensures Decode(w) == LdrLiteral(1, false, rt, offset)
  {
    hide Decode, DecodeParts, Signed;
    var v := offset / 4 % 0x8_0000;
    LiteralWordOf(rt, offset);
    DecodeTop(w, 0x58, v * 0x20 + rt);
    LiteralParts(rt, v);
    SignedOfLowBits(offset / 4, 0x4_0000);
  }

  lemma LiteralWordOf(rt: int, offset: int)
    requires IsReg(rt)
    ensures EncodeImm19Offset(EncLdrLiteralX(rt), offset) == 0x5800_0000 + offset / 4 % 0x8_0000 * 0x20 + rt
  {
    DivUnique(0x5800_0000 + rt, 0x20, 0x2C0_0000, rt);
    DivUnique(0x2C0_0000, 0x8_0000, 0x58, 0);
  }

  lemma LiteralParts(rt: int, v: int)
    requires IsReg(rt) && 0 <= v < 0x8_0000
    ensures DecodeParts(0x58, v * 0x20 + rt) == LdrLiteral(1, false, rt, Signed(v, 0x4_0000) * 4)
  {
    hide Offset26, Offset21, Offset14, DecodeData, Signed;
    DivUnique(v * 0x20 + rt, 0x20, v, rt);
  }

  /** The offset is neither scaled nor cut to 19 bits: the load of a label bound `k` words back means a
      literal load of that label exactly when k is 0. */
  lemma BoundLoadExactly(rt: int, k: nat)
    requires IsReg(rt) && 4 * k <= 0x10_0000
    ensures Decode(EncLdrLiteralOffset(rt, -4 * k)) == LdrLiteral(1, false, rt, -4 * k) <==> k == 0
    ensures EncLdrLiteralOffset(rt, 0) == EncLdrLiteralX(rt)
  {
    hide Decode, DecodeParts, EncLdrLiteralOffset;
    ForwardWord(rt);
    if k == 0 {
      DecodeTop(0x5800_0000 + rt, 0x58, 0 * 0x20 + rt);
      LiteralParts(rt, 0);
    } else {
      BackwardWord(rt, k);
      var w := 0x8000_0000 - 128 * k + rt;
      DecodeTop(w, w / 0x100_0000, w % 0x100_0000);
      NotALiteral(w / 0x100_0000, w % 0x100_0000);
    }
  }

  /** Setting bits 27, 28 and 30, given what they were. */
  lemma OrOpcode(f: int, a: int, b: int)
    requires Field(f, 0x800_0000, 4) == a && Field(f + (3 - a) * 0x800_0000, 0x4000_0000, 2) == b
    ensures SetField(SetField(f, 0x800_0000, 4, 3), 0x4000_0000, 2, 1)
         == f + (3 - a) * 0x800_0000 + (1 - b) * 0x4000_0000
  {
    hide Field;
  }

  lemma FieldIs(w: int, unit: int, size: int, q: int, r: int)
    requires unit > 0 && size > 0 && w == q * unit + r && 0 <= r < unit
    ensures Field(w, unit, size) == q % size
  {
    DivUnique(w, unit, q, r);
  }

  lemma ForwardWord(rt: int)
    ensures EncLdrLiteralOffset(rt, 0) == 0x5800_0000 + rt
  {
    hide SetField, Field;
    FieldIs(0, 0x800_0000, 4, 0, 0);
    FieldIs(0x1800_0000, 0x4000_0000, 2, 0, 0x1800_0000);
    OrOpcode(0, 0, 0);
  }

  /** Backward offsets fill the opcode's bits with ones. */
  lemma BackwardWord(rt: int, k: nat)
    requires 0 < k && 4 * k <= 0x10_0000
    ensures EncLdrLiteralOffset(rt, -4 * k) == 0x8000_0000 - 128 * k + rt
  {
    hide SetField, Field;
    var f := 0x8000_0000 - 128 * k;
    DivUnique(-4 * k, 0x400_0000, -1, 0x400_0000 - 4 * k);
    FieldIs(f, 0x800_0000, 4, 15, f - 15 * 0x800_0000);
    FieldIs(f, 0x4000_0000, 2, 1, f - 0x4000_0000);
    OrOpcode(f, 3, 1);
  }

  lemma NotALiteral(top: int, low: int)
    requires 0x7E <= top <= 0x7F
    ensures !DecodeParts(top, low).LdrLiteral?
  {
    hide Offset26, Offset21, Offset19, Offset14, Reg0, Reg5, DecodeData;
  }

  lemma DecodeMov(rd: int, imm: int, hw: int)
    requires IsReg(rd) && 0 <= imm < 0x1_0000 && 0 <= hw < 4
    ensures Decode(EncMovz(rd, imm, hw * 16)) == MovZ(rd, imm, hw)
    ensures Decode(EncMovk(rd, imm, hw * 16)) == MovK(rd, imm, hw)
  {
    hide Decode, DecodeParts, Reg0, Reg5, Imm16, Hw, Op22;
    var low := 0x80_0000 + hw * 0x20_0000 + imm * 0x20 + rd;
    MovWords(rd, imm, hw);
    MovFields(rd, imm, hw);
    DecodeTop(EncMovz(rd, imm, hw * 16), 0xD2, low);
    DecodeTop(EncMovk(rd, imm, hw * 16), 0xF2, low);
    DecodeDataTop(0xD2, low);
    DecodeDataTop(0xF2, low);
  }

  lemma MovWords(rd: int, imm: int, hw: int)
    requires IsReg(rd) && 0 <= imm < 0x1_0000 && 0 <= hw < 4
    ensures EncMovz(rd, imm, hw * 16) == 0xD280_0000 + hw * 0x20_0000 + imm * 0x20 + rd
    ensures EncMovk(rd, imm, hw * 16) == 0xF280_0000 + hw * 0x20_0000 + imm * 0x20 + rd
  {
    DivUnique(hw * 16, 16, hw, 0);
    DivUnique(hw, 4, 0, hw);
    DivUnique(imm, 0x1_0000, 0, imm);
  }

  lemma MovFields(rd: int, imm: int, hw: int)
    requires IsReg(rd) && 0 <= imm < 0x1_0000 && 0 <= hw < 4
    ensures var low := 0x80_0000 + hw * 0x20_0000 + imm * 0x20 + rd;
      Reg0(low) == rd && Imm16(low) == imm && Hw(low) == hw && Op22(low) / 2 == 1
  {
    var low := 0x80_0000 + hw * 0x20_0000 + imm * 0x20 + rd;
    DivUnique(low, 0x20, 0x4_0000 + hw * 0x1_0000 + imm, rd);
    DivUnique(0x4_0000 + hw * 0x1_0000 + imm, 0x1_0000, 4 + hw, imm);
    DivUnique(low, 0x20_0000, 4 + hw, imm * 0x20 + rd);
    DivUnique(4 + hw, 4, 1, hw);
    DivUnique(low, 0x40_0000, 2 + hw / 2, hw % 2 * 0x20_0000 + imm * 0x20 + rd);
    DivUnique(2 + hw / 2, 2, 1, hw / 2);
  }

  lemma DecodeAdrp(rd: int, imm: int)
    requires IsReg(rd) && imm % 0x1000 == 0 && -0x1_0000_0000 <= imm < 0x1_0000_0000
    ensures Decode(EncAdrp(rd, imm)) == Adrp(rd, imm)
  {
    hide Decode, Signed, Offset26, Offset19, Offset14, DecodeData;
    var lo, hi := imm / 0x1000 % 4, imm / 0x1000 / 4 % 0x8_0000;
    var top, low := 0x90 + lo * 0x20, hi * 0x20 + rd;
    assert Field(imm / 0x1000, 1, 4) == lo && Field(imm / 0x1000, 4, 0x8_0000) == hi;
    AdrSplit(imm / 0x1000);
    AdrpWord(rd, hi, lo);
  }

  lemma AdrpWord(rd: int, hi: int, lo: int)
    requires IsReg(rd) && 0 <= hi < 0x8_0000 && 0 <= lo < 4
    ensures Decode(0x9000_0000 + rd + lo * 0x2000_0000 + hi * 0x20) == Adrp(rd, Signed(hi * 4 + lo, 0x10_0000) * 0x1000)
  {
    hide Decode, Signed, Offset26, Offset19, Offset14, DecodeData;
    var top, low := 0x90 + lo * 0x20, hi * 0x20 + rd;
    DecodeTop(0x9000_0000 + rd + lo * 0x2000_0000 + hi * 0x20, top, low);
    DivUnique(low, 0x20, hi, rd);
    DivUnique(top, 0x20, 4 + lo, 0x10);
    DivUnique(4 + lo, 4, 1, lo);
  }

  lemma DecodeAddSubImm(rd: int, rn: int, imm: int)
    requires IsReg(rd) && IsReg(rn) && 0 <= imm < 0x1000
    ensures Decode(EncAddImm(rd, rn, imm)) == AddImm(rd, rn, imm)
    ensures Decode(EncSubImm(rd, rn, imm)) == SubImm(rd, rn, imm)
  {
    hide Decode, DecodeParts, Reg0, Reg5, Imm12, Op22;
    var low := imm * 0x400 + rn * 0x20 + rd;
    Fields3(rd, rn, imm, 0);
    DecodeTop(EncAddImm(rd, rn, imm), 0x91, low);
    DecodeTop(EncSubImm(rd, rn, imm), 0xD1, low);
    DecodeDataTop(0x91, low);
    DecodeDataTop(0xD1, low);
  }

  lemma DecodeLoadStore(rt: int, rn: int, offset: int)
    requires IsReg(rt) && IsReg(rn) && offset % 8 == 0 && 0 <= offset < 0x8000
    ensures Decode(EncLdrX(rt, rn, offset)) == LdrX(rt, rn, offset)
    ensures Decode(EncStrX(rt, rn, offset)) == StrX(rt, rn, offset)
  {
    hide Decode, DecodeParts, Reg0, Reg5, Imm12, Op22;
    var imm := offset / 8;
    var low := imm * 0x400 + rn * 0x20 + rt;
    Fields3(rt, rn, imm, 0);
    Fields3(rt, rn, imm, 1);
    DecodeTop(EncLdrX(rt, rn, offset), 0xF9, 0x40_0000 + low);
    DecodeTop(EncStrX(rt, rn, offset), 0xF9, low);
    DecodeDataTop(0xF9, 0x40_0000 + low);
    DecodeDataTop(0xF9, low);
  }

  /** The fields of imm12 : rn : rd below a two-bit opcode. */
  lemma Fields3(rd: int, rn: int, imm: int, op: int)
    requires IsReg(rd) && IsReg(rn) && 0 <= imm < 0x1000 && 0 <= op < 4
    ensures var low := op * 0x40_0000 + imm * 0x400 + rn * 0x20 + rd;
      Reg0(low) == rd && Reg5(low) == rn && Imm12(low) == imm && Op22(low) == op
  {
    var low := op * 0x40_0000 + imm * 0x400 + rn * 0x20 + rd;
    DivUnique(low, 0x20, op * 0x2_0000 + imm * 0x20 + rn, rd);
    DivUnique(op * 0x2_0000 + imm * 0x20 + rn, 0x20, op * 0x1000 + imm, rn);
    DivUnique(low, 0x400, op * 0x1000 + imm, rn * 0x20 + rd);
    DivUnique(op * 0x1000 + imm, 0x1000, op, imm);
    DivUnique(low, 0x40_0000, op, imm * 0x400 + rn * 0x20 + rd);
  }

  /** The fields of imm7 : rt2 : rn : rt below a two-bit opcode. */
  lemma Fields4(rt: int, rn: int, rt2: int, imm: int, op: int)
    requires IsReg(rt) && IsReg(rn) && IsReg(rt2) && -0x40 <= imm < 0x40 && 0 <= op < 4
    ensures var low := op * 0x40_0000 + imm % 0x80 * 0x8000 + rt2 * 0x400 + rn * 0x20 + rt;
      Reg0(low) == rt && Reg5(low) == rn && Reg10(low) == rt2 && Imm7(low) == imm && Op22(low) == op
  {
    hide Signed;
    var v := imm % 0x80;
    var low := op * 0x40_0000 + v * 0x8000 + rt2 * 0x400 + rn * 0x20 + rt;
    SignedOfLowBits(imm, 0x40);
    DivUnique(low, 0x20, op * 0x2_0000 + v * 0x400 + rt2 * 0x20 + rn, rt);
    DivUnique(op * 0x2_0000 + v * 0x400 + rt2 * 0x20 + rn, 0x20, op * 0x1000 + v * 0x20 + rt2, rn);
    DivUnique(low, 0x400, op * 0x1000 + v * 0x20 + rt2, rn * 0x20 + rt);
    DivUnique(op * 0x1000 + v * 0x20 + rt2, 0x20, op * 0x80 + v, rt2);
    DivUnique(low, 0x8000, op * 0x80 + v, rt2 * 0x400 + rn * 0x20 + rt);
    DivUnique(op * 0x80 + v, 0x80, op, v);
    DivUnique(low, 0x40_0000, op, v * 0x8000 + rt2 * 0x400 + rn * 0x20 + rt);
  }

  lemma DecodePairX(rt: int, rt2: int, rn: int, offset: int)
    requires IsReg(rt) && IsReg(rt2) && IsReg(rn) && offset % 8 == 0 && -0x200 <= offset < 0x200
    ensures Decode(EncStpX(rt, rt2, rn, offset)) == StpX(rt, rt2, rn, offset)
    ensures Decode(EncStpXPre(rt, rt2, rn, offset)) == StpXPre(rt, rt2, rn, offset)
    ensures Decode(EncLdpXPost(rt, rt2, rn, offset)) == LdpXPost(rt, rt2, rn, offset)
  {
    hide Decode;
    PairWords(rt, rn, rt2, offset / 8);
  }

  lemma DecodePairQ(rt: int, rt2: int, rn: int, offset: int)
    requires IsReg(rt) && IsReg(rt2) && IsReg(rn) && offset % 16 == 0 && -0x400 <= offset < 0x400
    ensures Decode(EncStpQ(rt, rt2, rn, offset)) == StpQ(rt, rt2, rn, offset)
    ensures Decode(EncLdpQPost(rt, rt2, rn, offset)) == LdpQPost(rt, rt2, rn, offset)
  {
    hide Decode;
    PairWords(rt, rn, rt2, offset / 16);
  }

  lemma PairWords(rt: int, rn: int, rt2: int, imm: int)
    requires IsReg(rt) && IsReg(rt2) && IsReg(rn) && -0x40 <= imm < 0x40
    ensures var f := imm % 0x80 * 0x8000 + rt2 * 0x400 + rn * 0x20 + rt;
      && Decode(0xA900_0000 + f) == StpX(rt, rt2, rn, imm * 8)
      && Decode(0xA980_0000 + f) == StpXPre(rt, rt2, rn, imm * 8)
      && Decode(0xA8C0_0000 + f) == LdpXPost(rt, rt2, rn, imm * 8)
      && Decode(0xAD00_0000 + f) == StpQ(rt, rt2, rn, imm * 16)
      && Decode(0xACC0_0000 + f) == LdpQPost(rt, rt2, rn, imm * 16)
  {
    hide Decode, DecodeParts, Reg0, Reg5, Reg10, Imm7, Op22;
    var f := imm % 0x80 * 0x8000 + rt2 * 0x400 + rn * 0x20 + rt;
    Fields4(rt, rn, rt2, imm, 0);
    Fields4(rt, rn, rt2, imm, 2);
    Fields4(rt, rn, rt2, imm, 3);
    DecodeTop(0xA900_0000 + f, 0xA9, f);
    DecodeTop(0xA980_0000 + f, 0xA9, 0x80_0000 + f);
    DecodeTop(0xA8C0_0000 + f, 0xA8, 0xC0_0000 + f);
    DecodeTop(0xAD00_0000 + f, 0xAD, f);
    DecodeTop(0xACC0_0000 + f, 0xAC, 0xC0_0000 + f);
    DecodeDataTop(0xA9, f);
    DecodeDataTop(0xA9, 0x80_0000 + f);
    DecodeDataTop(0xA8, 0xC0_0000 + f);
    DecodeDataTop(0xAD, f);
    DecodeDataTop(0xAC, 0xC0_0000 + f);
  }
}
