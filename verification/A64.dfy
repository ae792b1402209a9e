// A small A64 machine: the meaning of the instructions that the hook engine reads and emits.
//
// Encodings follow section C4.1 and semantics section C6.2 of the Arm Architecture Reference
// Manual (DDI 0487).  Memory is viewed as little-endian 32-bit words at 4-aligned addresses, which
// is the granularity of every instruction fetch and of every load and store modelled here.
module A64 {
  import opened BitFields

  type Memory = map<int, int>

  datatype Flags = Flags(n: bool, z: bool, c: bool, v: bool)

  /** Everything but the program counter. */
  datatype Data = Data(x: map<int, int>, q: map<int, int>, sp: int, flags: Flags, mem: Memory)

  datatype State = State(d: Data, pc: int)

  datatype Instr =
    | Branch(link: bool, offset: int)                           // B, BL
    | LdrLiteral(opc: int, simd: bool, rt: int, offset: int)
    | Adr(rd: int, offset: int)
    | Adrp(rd: int, offset: int)
    | BranchCond(cond: int, offset: int)
    | CompareBranch(wide: bool, nonzero: bool, rt: int, offset: int)
    | TestBranch(bit: int, nonzero: bool, rt: int, offset: int)
    | BranchReg(link: bool, rn: int)                            // BR, RET, BLR
    | MovZ(rd: int, imm: int, hw: int)
    | MovK(rd: int, imm: int, hw: int)
    | AddImm(rd: int, rn: int, imm: int)
    | SubImm(rd: int, rn: int, imm: int)
    | LdrX(rt: int, rn: int, imm: int)
    | StrX(rt: int, rn: int, imm: int)
    | StpX(rt: int, rt2: int, rn: int, imm: int)
    | StpXPre(rt: int, rt2: int, rn: int, imm: int)
    | LdpXPost(rt: int, rt2: int, rn: int, imm: int)
    | StpQ(rt: int, rt2: int, rn: int, imm: int)
    | LdpQPost(rt: int, rt2: int, rn: int, imm: int)
    | OtherBranch                                               // unallocated, exception return, authenticated
    | Other(word: int)

  /** Instructions that neither branch nor mention the program counter. */
  predicate IsDataOp(i: Instr) {
    && !i.Branch? && !i.LdrLiteral? && !i.Adr? && !i.Adrp? && !i.BranchCond?
    && !i.CompareBranch? && !i.TestBranch? && !i.BranchReg? && !i.OtherBranch?
  }

  /** What a word that is none of the instructions above does to the data state.  The theorems
      quantify over it. */
  type Extension = (int, Data) -> Data

  // ----- decoding (section C4.1) -----

  function Offset19(low: int): int { Signed(low / 0x20, 0x4_0000) * 4 }

  function Offset14(low: int): int { Signed(low / 0x20 % 0x4000, 0x2000) * 4 }

  function Offset21(top: int, low: int): int { Signed(low / 0x20 * 4 + top / 0x20 % 4, 0x10_0000) }

  function Imm7(low: int): int { Signed(low / 0x8000 % 0x80, 0x40) }

  function Imm12(low: int): int { low / 0x400 % 0x1000 }

  function Imm16(low: int): int { low / 0x20 % 0x1_0000 }

  function Hw(low: int): int { low / 0x20_0000 % 4 }

  /** Bits 22 and 23, which select among the data instructions that share a top byte. */
  function Op22(low: int): int { low / 0x40_0000 }

  function Offset26(top: int, low: int): int { Signed(top % 4 * 0x100_0000 + low, 0x200_0000) * 4 }

  function Reg0(low: int): int { low % 0x20 }

  function Reg5(low: int): int { low / 0x20 % 0x20 }

  function Reg10(low: int): int { low / 0x400 % 0x20 }

  function Decode(w: int): Instr {
    DecodeParts(w / 0x100_0000, w % 0x100_0000)
  }

  /** Decode a word given as its top byte and its low 24 bits. */
  function DecodeParts(top: int, low: int): Instr {
    if top / 4 % 0x20 == 0x05 then
      Branch(top / 0x80 == 1, Offset26(top, low))
    else if top / 8 % 8 == 3 && top % 4 == 0 then
      LdrLiteral(top / 0x40, top / 4 % 2 == 1, Reg0(low), Offset19(low))
    else if top % 0x20 == 0x10 then
      if top / 0x80 == 0 then Adr(Reg0(low), Offset21(top, low))
      else Adrp(Reg0(low), Offset21(top, low) * 0x1000)
    else if top == 0x54 then
      BranchCond(low % 0x10, Offset19(low))
    else if top / 2 % 0x40 == 0x1A then
      CompareBranch(top / 0x80 == 1, top % 2 == 1, Reg0(low), Offset19(low))
    else if top / 2 % 0x40 == 0x1B then
      TestBranch(top / 0x80 * 32 + low / 0x8_0000, top % 2 == 1, Reg0(low), Offset14(low))
    else if top == 0x55 then
      OtherBranch
    else if top / 2 == 0x6B then
      if top == 0xD6 && Reg0(low) == 0 && low / 0x400 in {0x7C0, 0x17C0} then BranchReg(false, Reg5(low))
      else if top == 0xD6 && Reg0(low) == 0 && low / 0x400 == 0xFC0 then BranchReg(true, Reg5(low))
      else OtherBranch
    else
      DecodeData(top, low)
  }

  function DecodeData(top: int, low: int): (i: Instr)
    ensures IsDataOp(i)
  {
    var op := Op22(low);
    if top == 0xD2 && op / 2 == 1 then MovZ(Reg0(low), Imm16(low), Hw(low))
    else if top == 0xF2 && op / 2 == 1 then MovK(Reg0(low), Imm16(low), Hw(low))
    else if top == 0x91 && op == 0 then AddImm(Reg0(low), Reg5(low), Imm12(low))
    else if top == 0xD1 && op == 0 then SubImm(Reg0(low), Reg5(low), Imm12(low))
    else if top == 0xF9 && op == 1 then LdrX(Reg0(low), Reg5(low), Imm12(low) * 8)
    else if top == 0xF9 && op == 0 then StrX(Reg0(low), Reg5(low), Imm12(low) * 8)
    else if top == 0xA9 && op == 0 then StpX(Reg0(low), Reg10(low), Reg5(low), Imm7(low) * 8)
    else if top == 0xA9 && op == 2 then StpXPre(Reg0(low), Reg10(low), Reg5(low), Imm7(low) * 8)
    else if top == 0xA8 && op == 3 then LdpXPost(Reg0(low), Reg10(low), Reg5(low), Imm7(low) * 8)
    else if top == 0xAD && op == 0 then StpQ(Reg0(low), Reg10(low), Reg5(low), Imm7(low) * 16)
    else if top == 0xAC && op == 3 then LdpQPost(Reg0(low), Reg10(low), Reg5(low), Imm7(low) * 16)
    else Other(top * 0x100_0000 + low)
  }

  lemma DecodeTop(w: int, top: int, low: int)
    requires w == top * 0x100_0000 + low && 0 <= low < 0x100_0000
    ensures Decode(w) == DecodeParts(top, low)
  {
    hide DecodeParts;
    DivUnique(w, 0x100_0000, top, low);
  }

  /** The top bytes of the emitted data instructions select no branch or literal class. */
  lemma DecodeDataTop(top: int, low: int)
    requires top in {0xD2, 0xF2, 0x91, 0xD1, 0xF9, 0xA9, 0xA8, 0xAD, 0xAC}
    ensures DecodeParts(top, low) == DecodeData(top, low)
  {
    hide DecodeData, Offset26, Offset21, Offset19, Offset14, Reg0, Reg5;
  }

  // ----- registers and memory -----

  /** Register r as an operand: number 31 is the zero register. */
  function X(d: Data, r: int): int {
    if r != 31 && r in d.x then d.x[r] else 0
  }

  function SetX(d: Data, r: int, v: int): Data {
    if r == 31 then d else d.(x := d.x[r := v])
  }

  /** Register r as a base address: number 31 is the stack pointer. */
  function XSP(d: Data, r: int): int {
    if r == 31 then d.sp else X(d, r)
  }

  function SetXSP(d: Data, r: int, v: int): Data {
    if r == 31 then d.(sp := v) else SetX(d, r, v)
  }

  function Q(d: Data, r: int): int {
    if r in d.q then d.q[r] else 0
  }

  function SetQ(d: Data, r: int, v: int): Data {
    d.(q := d.q[r := v])
  }

  function Ld32(m: Memory, a: int): int {
    if a in m then m[a] else 0
  }

  function Ld64(m: Memory, a: int): int {
    Ld32(m, a) + Ld32(m, Wrap(a + 4)) * TWO_32
  }

  function St64(m: Memory, a: int, v: int): Memory {
    m[a := v % TWO_32][Wrap(a + 4) := v / TWO_32]
  }

  function Ld128(m: Memory, a: int): int {
    Ld64(m, a) + Ld64(m, Wrap(a + 8)) * TWO_64
  }

  function St128(m: Memory, a: int, v: int): Memory {
    St64(St64(m, a, v % TWO_64), Wrap(a + 8), v / TWO_64)
  }

  // ----- execution (section C6.2) -----

  function CondHolds(cond: int, f: Flags): bool {
    var base :=
      match cond / 2
      case 0 => f.z
      case 1 => f.c
      case 2 => f.n
      case 3 => f.v
      case 4 => f.c && !f.z
      case 5 => f.n == f.v
      case 6 => f.n == f.v && !f.z
      case _ => true;
    if cond % 2 == 1 && cond != 15 then !base else base
  }

  /** Bit number `bit` of v. */
  predicate TestBit(v: int, bit: int)
    decreases bit
  {
    if bit <= 0 then v % 2 == 1 else TestBit(v / 2, bit - 1)
  }

  /** Is instruction i a branch that is taken in data state d? */
  predicate Taken(i: Instr, d: Data) {
    match i
    case Branch(_, _) => true
    case BranchReg(_, _) => true
    case BranchCond(cond, _) => CondHolds(cond, d.flags)
    case CompareBranch(wide, nonzero, rt, _) =>
      var v := if wide then X(d, rt) else X(d, rt) % TWO_32;
      (v != 0) == nonzero
    case TestBranch(bit, nonzero, rt, _) => TestBit(X(d, rt), bit) == nonzero
    case _ => false
  }

  function Target(i: Instr, d: Data, pc: int): int {
    match i
    case Branch(_, offset) => Wrap(pc + offset)
    case BranchReg(_, rn) => X(d, rn)
    case BranchCond(_, offset) => Wrap(pc + offset)
    case CompareBranch(_, _, _, offset) => Wrap(pc + offset)
    case TestBranch(_, _, _, offset) => Wrap(pc + offset)
    case _ => pc
  }

  predicate Links(i: Instr) {
    (i.Branch? || i.BranchReg?) && i.link
  }

  /** v with its halfword number hw replaced by imm. */
  function SetHalf(v: int, imm: int, hw: int): int {
    if hw == 0 then SetField(v, 1, 0x1_0000, imm)
    else if hw == 1 then SetField(v, 0x1_0000, 0x1_0000, imm)
    else if hw == 2 then SetField(v, TWO_32, 0x1_0000, imm)
    else SetField(v, 0x1_0000_0000_0000, 0x1_0000, imm)
  }

  /** The data effect of an instruction that is not a taken branch. */
  function Exec(ext: Extension, i: Instr, d: Data, pc: int): Data {
    match i
    case LdrLiteral(opc, simd, rt, offset) =>
      var a := Wrap(pc + offset);
      if !simd && opc == 1 then SetX(d, rt, Ld64(d.mem, a))
      else if !simd && opc == 0 then SetX(d, rt, Ld32(d.mem, a))
      else if simd && opc == 1 then SetQ(d, rt, Ld64(d.mem, a))
      else if simd && opc == 0 then SetQ(d, rt, Ld32(d.mem, a))
      else d                                                    // LDRSW, PRFM, Q: not re-emitted
    case Adr(rd, offset) => SetX(d, rd, Wrap(pc + offset))
    case Adrp(rd, offset) => SetX(d, rd, Wrap(TruncPage(pc) + offset))
    case MovZ(rd, imm, hw) => SetX(d, rd, SetHalf(0, imm, hw))
    case MovK(rd, imm, hw) => SetX(d, rd, SetHalf(X(d, rd), imm, hw))
    case AddImm(rd, rn, imm) => SetXSP(d, rd, Wrap(XSP(d, rn) + imm))
    case SubImm(rd, rn, imm) => SetXSP(d, rd, Wrap(XSP(d, rn) - imm))
    case LdrX(rt, rn, imm) => SetX(d, rt, Ld64(d.mem, Wrap(XSP(d, rn) + imm)))
    case StrX(rt, rn, imm) => d.(mem := St64(d.mem, Wrap(XSP(d, rn) + imm), X(d, rt)))
    case StpX(rt, rt2, rn, imm) =>
      var a := Wrap(XSP(d, rn) + imm);
      d.(mem := St64(St64(d.mem, a, X(d, rt)), Wrap(a + 8), X(d, rt2)))
    case StpXPre(rt, rt2, rn, imm) =>
      var a := Wrap(XSP(d, rn) + imm);
      SetXSP(d.(mem := St64(St64(d.mem, a, X(d, rt)), Wrap(a + 8), X(d, rt2))), rn, a)
    case LdpXPost(rt, rt2, rn, imm) =>
      var a := XSP(d, rn);
      SetXSP(SetX(SetX(d, rt, Ld64(d.mem, a)), rt2, Ld64(d.mem, Wrap(a + 8))), rn, Wrap(a + imm))
    case StpQ(rt, rt2, rn, imm) =>
      var a := Wrap(XSP(d, rn) + imm);
      d.(mem := St128(St128(d.mem, a, Q(d, rt)), Wrap(a + 16), Q(d, rt2)))
    case LdpQPost(rt, rt2, rn, imm) =>
      var a := XSP(d, rn);
      SetXSP(SetQ(SetQ(d, rt, Ld128(d.mem, a)), rt2, Ld128(d.mem, Wrap(a + 16))), rn, Wrap(a + imm))
    case Other(w) => ext(w, d)
    case _ => d
  }

  function StepInstr(ext: Extension, i: Instr, s: State): State {
    if Taken(i, s.d) then
      State(if Links(i) then SetX(s.d, 30, Wrap(s.pc + 4)) else s.d, Target(i, s.d, s.pc))
    else
      State(Exec(ext, i, s.d, s.pc), Wrap(s.pc + 4))
  }

  function Fetch(s: State): Instr {
    Decode(Ld32(s.d.mem, s.pc))
  }

  function Step(ext: Extension, s: State): State {
    StepInstr(ext, Fetch(s), s)
  }

  function Steps(ext: Extension, s: State, k: nat): State
    decreases k
  {
    if k == 0 then s else Steps(ext, Step(ext, s), k - 1)
  }

  lemma {:induction false} StepsAdd(ext: Extension, s: State, j: nat, k: nat)
    ensures Steps(ext, s, j + k) == Steps(ext, Steps(ext, s, j), k)
    decreases j
  {
    hide Step;
    if j > 0 {
      StepsAdd(ext, Step(ext, s), j - 1, k);
    }
  }

  /** Flipping the low bit of a condition inverts it, except for the two "always" conditions. */
  lemma CondInvert(cond: int, f: Flags)
    requires 0 <= cond < 16
    ensures CondHolds(if cond % 2 == 0 then cond + 1 else cond - 1, f) == !CondHolds(cond, f) <==> cond < 14
  {
    if cond % 2 == 0 {
      assert (cond + 1) / 2 == cond / 2;
    } else {
      assert (cond - 1) / 2 == cond / 2;
    }
  }
}
