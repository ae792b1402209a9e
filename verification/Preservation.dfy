// Relocation preserves meaning: a relocated block, run on the A64 machine at its new address, does
// what the original block does at its old one.
module Preservation {
  import opened BitFields
  import opened A64
  import opened Encoder
  import opened Assembler
  import opened Relocation
  import opened Simulation

  // ----- inverted branches -----

  /** Replacing imm19 of top : low by 3. */
  lemma SkipImm19(top: int, low: int)
    requires 0 <= top < 0x100 && 0 <= low < 0x100_0000
    ensures SetField(top * 0x100_0000 + low, 0x20, 0x8_0000, 3) == top * 0x100_0000 + (0x60 + low % 0x20)
  {
    LowFields(top, low);
  }

  /** Flipping bit 24 of top : low. */
  lemma FlipBit24(top: int, low: int)
    requires 0 <= top < 0x100 && 0 <= low < 0x100_0000
    ensures var w := top * 0x100_0000 + low;
      SetField(w, 0x100_0000, 2, XorOne(Field(w, 0x100_0000, 2))) == XorOne(top) * 0x100_0000 + low
  {
    DivUnique(top * 0x100_0000 + low, 0x100_0000, top, low);
  }

  /** The inverted conditional branch skips two words and tests the flipped condition. */
  lemma InvertCondDecodes(w: int)
    requires IsWord(w) && Decode(w).BranchCond?
    ensures 0 <= Decode(w).cond < 16
    ensures Decode(InvertCond(w)) == BranchCond(XorOne(Decode(w).cond), 12)
  {
    hide Decode, DecodeParts, InvertCond;
    var low := w % 0x100_0000;
    TopAndLow(w);
    DecodeTop(w, w / 0x100_0000, low);
    CondTop(w / 0x100_0000, low);
    var c := low % 0x10;
    var low' := 0x60 + (low - c + XorOne(c)) % 0x20;
    FlipCond(low);
    LowBitsOf(low, c, XorOne(c));
    DecodeTop(InvertCond(w), 0x54, low');
    CondParts(low', XorOne(c));
  }

  lemma CondTop(top: int, low: int)
    requires 0 <= top < 0x100 && DecodeParts(top, low).BranchCond?
    ensures top == 0x54 && DecodeParts(top, low) == BranchCond(low % 0x10, Offset19(low))
  {
    hide Offset26, Offset21, Offset14, Offset19, Reg0, Reg5, DecodeData;
  }

  lemma FlipCond(low: int)
    requires 0 <= low < 0x100_0000
    ensures var c := low % 0x10;
      InvertCond(0x5400_0000 + low) == 0x5400_0000 + (0x60 + (low - c + XorOne(c)) % 0x20)
  {
    hide SetField, Field;
    var c := low % 0x10;
    LowFields(0x54, low);
    assert SetField(0x5400_0000 + low, 1, 0x10, XorOne(c)) == 0x5400_0000 + (low - c + XorOne(c)) by {
      SetFieldUnfolds(0x5400_0000 + low, 1, 0x10, XorOne(c));
    }
    SkipImm19(0x54, low - c + XorOne(c));
  }

  lemma SetFieldUnfolds(w: int, unit: int, size: int, v: int)
    requires unit > 0 && size > 0
    ensures SetField(w, unit, size, v) == w - Field(w, unit, size) * unit + v * unit
  {}

  lemma LowBitsOf(low: int, c: int, c': int)
    requires 0 <= low && c == low % 0x10 && 0 <= c' < 0x10
    ensures (0x60 + (low - c + c') % 0x20) % 0x10 == c'
    ensures (0x60 + (low - c + c') % 0x20) / 0x20 == 3
  {
    var q := low / 0x10;
    DivUnique(low - c + c', 0x20, q / 2, q % 2 * 0x10 + c');
    DivUnique(0x60 + q % 2 * 0x10 + c', 0x10, 6 + q % 2, c');
    DivUnique(0x60 + q % 2 * 0x10 + c', 0x20, 3, q % 2 * 0x10 + c');
  }

  lemma CondParts(low: int, c: int)
    requires low % 0x10 == c && low / 0x20 == 3
    ensures DecodeParts(0x54, low) == BranchCond(c, 12)
  {
    hide Offset26, Offset21, Offset14, Reg0, Reg5, DecodeData;
  }

  /** The inverted cbz/cbnz tests the same register for the opposite. */
  lemma InvertCompareDecodes(w: int)
    requires IsWord(w) && Decode(w).CompareBranch?
    ensures Decode(InvertCompare(w)) == CompareBranch(Decode(w).wide, !Decode(w).nonzero, Decode(w).rt, 12)
  {
    hide Decode, DecodeParts;
    var top, low := w / 0x100_0000, w % 0x100_0000;
    TopAndLow(w);
    DecodeTop(w, top, low);
    CompareTop(top, low);
    FlipBit24(top, low);
    SkipImm19(XorOne(top), low);
    var low' := 0x60 + low % 0x20;
    DivUnique(low', 0x20, 3, low % 0x20);
    DecodeTop(InvertCompare(w), XorOne(top), low');
    CompareParts(top, low, low');
  }

  lemma CompareTop(top: int, low: int)
    requires 0 <= top < 0x100 && DecodeParts(top, low).CompareBranch?
    ensures top in {0x34, 0x35, 0xB4, 0xB5}
  {
    hide DecodeParts;
    ClassOfTop(top, low);
    TopsOfBranches(top);
  }

  lemma CompareParts(top: int, low: int, low': int)
    requires top in {0x34, 0x35, 0xB4, 0xB5} && low' / 0x20 == 3 && low' % 0x20 == low % 0x20
    ensures DecodeParts(top, low) == CompareBranch(top / 0x80 == 1, top % 2 == 1, low % 0x20, Offset19(low))
    ensures DecodeParts(XorOne(top), low') == CompareBranch(top / 0x80 == 1, top % 2 != 1, low % 0x20, 12)
  {
    hide DecodeParts;
    ComparePartsOf(top, low);
    ComparePartsOf(XorOne(top), low');
  }

  lemma ComparePartsOf(top: int, low: int)
    requires top in {0x34, 0x35, 0xB4, 0xB5}
    ensures DecodeParts(top, low) == CompareBranch(top / 0x80 == 1, top % 2 == 1, low % 0x20, Offset19(low))
  {
    hide Offset26, Offset21, Offset14, Offset19, Reg5, DecodeData;
  }

  /** The inverted tbz/tbnz tests the same bit of the same register for the opposite. */
  lemma InvertTestDecodes(w: int)
    requires IsWord(w) && Decode(w).TestBranch?
    ensures Decode(InvertTest(w)) == TestBranch(Decode(w).bit, !Decode(w).nonzero, Decode(w).rt, 12)
  {
    hide Decode, DecodeParts, SetField, Field;
    var top, low := w / 0x100_0000, w % 0x100_0000;
    TopAndLow(w);
    DecodeTop(w, top, low);
    TestTop(top, low);
    FlipBit24(top, low);
    var b, r := low / 0x8_0000, low % 0x20;
    var low' := b * 0x8_0000 + 0x60 + r;
    SkipImm14(XorOne(top), low);
    DivUnique(low', 0x20, b * 0x4000 + 3, r);
    DivUnique(b * 0x4000 + 3, 0x4000, b, 3);
    DivUnique(low', 0x8_0000, b, 0x60 + r);
    DecodeTop(InvertTest(w), XorOne(top), low');
    TestParts(top, low, low');
  }

  lemma SkipImm14(top: int, low: int)
    requires 0 <= top < 0x100 && 0 <= low < 0x100_0000
    ensures SetField(top * 0x100_0000 + low, 0x20, 0x4000, 3)
         == top * 0x100_0000 + (low / 0x8_0000 * 0x8_0000 + 0x60 + low % 0x20)
  {
    LowFields(top, low);
    DivDiv(low, 0x20, 0x4000);
  }

  lemma TestTop(top: int, low: int)
    requires 0 <= top < 0x100 && DecodeParts(top, low).TestBranch?
    ensures top in {0x36, 0x37, 0xB6, 0xB7}
  {
    hide DecodeParts;
    ClassOfTop(top, low);
    TopsOfBranches(top);
  }

  lemma TestParts(top: int, low: int, low': int)
    requires top in {0x36, 0x37, 0xB6, 0xB7}
    requires low' / 0x20 % 0x4000 == 3 && low' % 0x20 == low % 0x20 && low' / 0x8_0000 == low / 0x8_0000
    ensures DecodeParts(top, low)
         == TestBranch(top / 0x80 * 32 + low / 0x8_0000, top % 2 == 1, low % 0x20, Offset14(low))
    ensures DecodeParts(XorOne(top), low')
         == TestBranch(top / 0x80 * 32 + low / 0x8_0000, top % 2 != 1, low % 0x20, 12)
  {
    hide DecodeParts;
    TestPartsOf(top, low);
    TestPartsOf(XorOne(top), low');
  }

  lemma TestPartsOf(top: int, low: int)
    requires top in {0x36, 0x37, 0xB6, 0xB7}
    ensures DecodeParts(top, low)
         == TestBranch(top / 0x80 * 32 + low / 0x8_0000, top % 2 == 1, low % 0x20, Offset14(low))
  {
    hide Offset26, Offset21, Offset19, Offset14, Reg5, DecodeData;
  }

  // ----- agreement of the two runs -----

  /** Equal data states except for the registers in `ex` and the words in `zone`. */
  ghost predicate AgreeExcept(o: Data, r: Data, zone: set<int>, ex: set<int>) {
    && (forall n :: n !in ex ==> X(o, n) == X(r, n))
    && (forall n :: Q(o, n) == Q(r, n))
    && o.sp == r.sp && o.flags == r.flags
    && MemAgree(o.mem, r.mem, zone)
  }

  /** Equal memories except for the words in `zone`. */
  ghost predicate MemAgree(m: Memory, m': Memory, zone: set<int>) {
    forall a :: a !in zone ==> Ld32(m, a) == Ld32(m', a)
  }

  /** Equal except for the scratch register and the words of the code blocks. */
  ghost predicate Agree(o: Data, r: Data, zone: set<int>) {
    AgreeExcept(o, r, zone, {TMP_REG_0})
  }

  /** The word addresses of a block. */
  function BlockWords(base: int, n: nat): set<int> {
    set p | 0 <= p < n :: base + 4 * p
  }

  ghost predicate ZoneKept(before: Data, after: Data, zone: set<int>) {
    forall a :: a in zone ==> Ld32(after.mem, a) == Ld32(before.mem, a)
  }

  /** In state o, data instruction i neither depends on the scratch register or on the code words nor
      writes code words. */
  ghost predicate IndependentAt(ext: Extension, i: Instr, o: Data, zone: set<int>) {
    forall r :: Agree(o, r, zone) ==>
      Agree(Exec(ext, i, o, 0), Exec(ext, i, r, 0), zone) && ZoneKept(r, Exec(ext, i, r, 0), zone)
  }

  /** The first address that data instruction i loads or stores in state d (0 if it does neither). */
  function AccessAddress(i: Instr, d: Data): int {
    match i
    case LdrX(_, rn, imm) => Wrap(XSP(d, rn) + imm)
    case StrX(_, rn, imm) => Wrap(XSP(d, rn) + imm)
    case StpX(_, _, rn, imm) => Wrap(XSP(d, rn) + imm)
    case StpXPre(_, _, rn, imm) => Wrap(XSP(d, rn) + imm)
    case LdpXPost(_, _, rn, _) => XSP(d, rn)
    case StpQ(_, _, rn, imm) => Wrap(XSP(d, rn) + imm)
    case LdpQPost(_, _, rn, _) => XSP(d, rn)
    case _ => 0
  }

  /** The address of a literal. */
  function LiteralAddress(i: Instr, at: int): int
    requires i.LdrLiteral?
  {
    Wrap(at + i.offset)
  }

  /** Every implemented literal load is re-emitted as a 64-bit load into the general register of the
      same number: in state o this is what the original does. */
  predicate LiteralAgrees(i: Instr, at: int, o: Data)
    requires i.LdrLiteral?
  {
    var a := LiteralAddress(i, at);
    if i.simd then
      && Q(o, i.rt) == (if i.opc == 1 then Ld64(o.mem, a) else Ld32(o.mem, a))
      && (i.rt in {31, TMP_REG_0} || X(o, i.rt) == Ld64(o.mem, a))
    else
      i.opc == 1 || i.rt in {31, TMP_REG_0} || Ld32(o.mem, Wrap(a + 4)) == 0
  }

  /** The literal is one that the relocator re-emits, and lies outside the code. */
  predicate LiteralOutside(i: Instr, at: int, zone: set<int>)
    requires i.LdrLiteral?
  {
    && i.opc <= 1 && ByFour(LiteralAddress(i, at))
    && LiteralAddress(i, at) !in zone && Wrap(LiteralAddress(i, at) + 4) !in zone
  }

  /** In state o, word w is one the relocator is meant for.  The exclusions are properties of the code:
      TMP_REG_0 is clobbered, literal loads are re-emitted as 64-bit general-purpose ones, flipping the
      low bit inverts only the conditions below 14, and code must neither read nor write itself.  The
      machine's memory consists of words, so loads and stores are at word addresses. */
  ghost predicate InDomain(ext: Extension, w: int, at: int, o: Data, zone: set<int>) {
    && IsWord(w)
    && match Decode(w)
       case Branch(_, _) => true
       case LdrLiteral(_, _, _, _) => LiteralOutside(Decode(w), at, zone) && LiteralAgrees(Decode(w), at, o)
       case Adr(_, _) => true
       case Adrp(_, _) => true
       case BranchCond(cond, _) => cond < 14
       case CompareBranch(_, _, rt, _) => rt != TMP_REG_0
       case TestBranch(_, _, rt, _) => rt != TMP_REG_0
       case BranchReg(_, rn) => rn != TMP_REG_0
       case OtherBranch => false
       case i => IndependentAt(ext, i, o, zone) && ByFour(AccessAddress(i, o))
  }

  /** What one relocated word must have done, given the original's instruction and data state. */
  ghost predicate Simulates(ext: Extension, i: Instr, at: int, o: Data, r: Data, next: int, zone: set<int>, t: State) {
    if Taken(i, o) then
      && t.pc == Target(i, o, at)
      && t.d.mem == r.mem
      && if Links(i) then AgreeExcept(o, t.d, zone, {TMP_REG_0, 30}) && X(t.d, 30) == next else Agree(o, t.d, zone)
    else
      && t.pc == next
      && Agree(Exec(ext, i, o, at), t.d, zone)
      && ZoneKept(r, t.d, zone)
  }

  lemma SetsOnlyAgrees(o: Data, r: Data, r': Data, rd: int, v: int, zone: set<int>)
    requires Agree(o, r, zone) && SetsOnly(r, r', rd, v)
    ensures Agree(SetX(o, rd, v), r', zone)
    ensures rd == TMP_REG_0 ==> Agree(o, r', zone)
  {
    assert forall n :: Q(r', n) == Q(r, n) && Q(SetX(o, rd, v), n) == Q(o, n);
  }

  lemma SimulateBranch(ext: Extension, w: int, at: int, o: Data, r: Data, base: int, code: seq<int>, p: nat,
                       zone: set<int>)
    returns (k: nat, t: State)
    requires IsWord(w) && Decode(w).Branch? && Agree(o, r, zone)
    requires Placed(r.mem, base, code) && Expand(w, at).Items? && Realizes(code, p, Expand(w, at).items)
    ensures Reaches(ext, State(r, base + 4 * p), k, base, base + 4 * |code|, t)
    ensures Simulates(ext, Decode(w), at, o, r, base + 4 * (p + |Expand(w, at).items|), zone, t)
  {
    hide Decode, Reaches, LoadsDatum, EncBr, EncBlr, DecodeImm26Offset, Field;
    ClassesAgree(w);
    OperandsAgree(w);
    var link, target := Decode(w).link, Wrap(at + Decode(w).offset);
    var items := Expand(w, at).items;
    assert RealizesItem(code, p + 0, items[0]) && RealizesItem(code, p + 1, items[1]);
    var d' := LongBranchRuns(ext, r, base, code, p, target, link);
    k, t := 2, State(d', target);
    if link {
      var d1 :| SetsOnly(r, d1, TMP_REG_0, target) && SetsOnly(d1, d', 30, base + 4 * (p + 2));
      SetsOnlyAgrees(o, r, d1, TMP_REG_0, target, zone);
    } else {
      SetsOnlyAgrees(o, r, d', TMP_REG_0, target, zone);
    }
  }

  lemma MovWordsAt(code: seq<int>, p: nat, items: seq<Item>, rd: int, v: int)
    requires Realizes(code, p, items) && MovItems(rd, v) <= items
    ensures code[p] == EncMovz(rd, Half(v, 0), 0) && code[p + 1] == EncMovk(rd, Half(v, 1), 16)
    ensures code[p + 2] == EncMovk(rd, Half(v, 2), 32) && code[p + 3] == EncMovk(rd, Half(v, 3), 48)
  {
    hide EncMovz, EncMovk;
    var m := MovItems(rd, v);
    assert forall j :: 0 <= j < 4 ==> items[j] == m[j];
    assert RealizesItem(code, p + 0, items[0]) && RealizesItem(code, p + 1, items[1]);
    assert RealizesItem(code, p + 2, items[2]) && RealizesItem(code, p + 3, items[3]);
  }

  lemma SimulateAdr(ext: Extension, w: int, at: int, o: Data, r: Data, base: int, code: seq<int>, p: nat,
                    zone: set<int>)
    returns (k: nat, t: State)
    requires IsWord(w) && (Decode(w).Adr? || Decode(w).Adrp?) && Agree(o, r, zone)
    requires Placed(r.mem, base, code) && Expand(w, at).Items? && Realizes(code, p, Expand(w, at).items)
    requires 0 <= at < TWO_64
    ensures Reaches(ext, State(r, base + 4 * p), k, base, base + 4 * |code|, t)
    ensures Simulates(ext, Decode(w), at, o, r, base + 4 * (p + |Expand(w, at).items|), zone, t)
  {
    hide Decode, Reaches, LoadsDatum, EncMovz, EncMovk, DecodeImmhiImmloOffset, Wrap, TruncPage, SetX;
    ClassesAgree(w);
    OperandsAgree(w);
    AdrpPage(at, w);
    var i, rd := Decode(w), Decode(w).rd;
    var v := if i.Adr? then Wrap(at + i.offset) else TruncPage(Wrap(at + i.offset));
    assert IsReg(rd) by { FieldBounds(w, 1, 0x20); }
    assert 0 <= v < TWO_64 by { PageBounds(Wrap(at + i.offset)); }
    var items := Expand(w, at).items;
    assert items == MovItems(rd, v);
    MovWordsAt(code, p, items, rd, v);
    var d' := MovRuns(ext, r, base, code, p, rd, v);
    k, t := 4, State(d', base + 4 * (p + 4));
    SetsOnlyAgrees(o, r, d', rd, v, zone);
  }

  lemma PageBounds(x: int)
    requires 0 <= x < TWO_64
    ensures 0 <= TruncPage(x) < TWO_64
  {}

  /** What the image of an implemented literal load leaves, and exactly when the original agrees. */
  lemma LiteralExactly(ext: Extension, w: int, at: int, o: Data, r: Data, base: int, code: seq<int>, p: nat,
                       zone: set<int>)
    returns (t: State)
    requires IsWord(w) && Decode(w).LdrLiteral? && LiteralOutside(Decode(w), at, zone) && Agree(o, r, zone)
    requires Placed(r.mem, base, code) && Expand(w, at).Items? && Realizes(code, p, Expand(w, at).items)
    ensures |Expand(w, at).items| == 5 && t.pc == base + 4 * (p + 5) && t.d.mem == r.mem
    ensures Reaches(ext, State(r, base + 4 * p), 5, base, base + 4 * |code|, t)
    ensures Agree(Exec(ext, Decode(w), o, at), t.d, zone) <==> LiteralAgrees(Decode(w), at, o)
  {
    hide Decode, Reaches, LoadsDatum, EncMovz, EncMovk, EncLdrX, DecodeImm19Offset, SetX, Ld64, Agree, LiteralAgrees;
    ClassesAgree(w);
    OperandsAgree(w);
    var i := Decode(w);
    var rt, a := i.rt, LiteralAddress(i, at);
    assert IsReg(rt) by { FieldBounds(w, 1, 0x20); }
    var items := Expand(w, at).items;
    assert items == MovItems(TMP_REG_0, a) + [Raw(EncLdrX(rt, TMP_REG_0, 0))];
    MovWordsAt(code, p, items, TMP_REG_0, a);
    assert RealizesItem(code, p + 4, items[4]);
    var d1 := MovRuns(ext, r, base, code, p, TMP_REG_0, a);
    var d' := LoadThroughScratch(ext, d1, base, code, p + 4, rt, a);
    ReachesTrans(ext, State(r, base + 4 * p), 4, State(d1, base + 4 * (p + 4)), 1, State(d', base + 4 * (p + 5)),
                 base, base + 4 * |code|);
    t := State(d', base + 4 * (p + 5));
    SetsOnlyAgrees(o, r, d1, TMP_REG_0, a, zone);
    LoadAgrees(o, r, a, zone);
    LiteralEffect(ext, i, at, o, d1, d', zone);
  }

  /** `ldr rt, [x17]` */
  lemma LoadThroughScratch(ext: Extension, d: Data, base: int, code: seq<int>, p: nat, rt: int, a: int)
    returns (d': Data)
    requires Placed(d.mem, base, code) && p < |code| && code[p] == EncLdrX(rt, TMP_REG_0, 0) && IsReg(rt)
    requires X(d, TMP_REG_0) == a && 0 <= a < TWO_64
    ensures Reaches(ext, State(d, base + 4 * p), 1, base, base + 4 * |code|, State(d', base + 4 * (p + 1)))
    ensures SetsOnly(d, d', rt, Ld64(d.mem, a))
  {
    hide Decode, Reaches, EncLdrX, SetX, Ld64;
    OneStep(ext, d, base, code, p);
    DecodeLoadStore(rt, TMP_REG_0, 0);
    WrapInside(a);
    d' := SetX(d, rt, Ld64(d.mem, a));
    SetXSetsOnly(d, rt, Ld64(d.mem, a));
    assert StepInstr(ext, Decode(code[p]), State(d, base + 4 * p)) == State(d', base + 4 * (p + 1));
  }

  lemma LoadAgrees(o: Data, r: Data, a: int, zone: set<int>)
    requires Agree(o, r, zone) && a !in zone && Wrap(a + 4) !in zone
    ensures Ld64(o.mem, a) == Ld64(r.mem, a)
  {}

  /** The original literal load against a 64-bit load into the general register. */
  lemma LiteralEffect(ext: Extension, i: Instr, at: int, o: Data, d: Data, d': Data, zone: set<int>)
    requires i.LdrLiteral? && IsReg(i.rt) && 0 <= i.opc <= 1 && Agree(o, d, zone)
    requires SetsOnly(d, d', i.rt, Ld64(o.mem, LiteralAddress(i, at)))
    ensures Agree(Exec(ext, i, o, at), d', zone) <==> LiteralAgrees(i, at, o)
  {
    hide Wrap, Agree, SetX, SetQ, Ld64;
    var a := LiteralAddress(i, at);
    assert Ld64(o.mem, a) == Ld32(o.mem, a) <==> Ld32(o.mem, Wrap(a + 4)) == 0 by { HighWordZero(o.mem, a); }
    var v := if i.opc == 1 then Ld64(o.mem, a) else Ld32(o.mem, a);
    if i.simd {
      SetQAgrees(o, d, d', i.rt, v, Ld64(o.mem, a), zone);
    } else {
      SetXAgrees(o, d, d', i.rt, v, Ld64(o.mem, a), zone);
    }
  }

  lemma HighWordZero(m: Memory, a: int)
    ensures Ld64(m, a) == Ld32(m, a) <==> Ld32(m, Wrap(a + 4)) == 0
  {}

  /** Setting a register to u on one side and to v on the other. */
  lemma SetXAgrees(o: Data, d: Data, d': Data, rt: int, u: int, v: int, zone: set<int>)
    requires Agree(o, d, zone) && SetsOnly(d, d', rt, v)
    ensures Agree(SetX(o, rt, u), d', zone) <==> rt in {31, TMP_REG_0} || u == v
  {
    var o' := SetX(o, rt, u);
    assert forall n :: Q(d', n) == Q(d, n) && Q(o', n) == Q(o, n);
    assert rt != 31 ==> X(o', rt) == u && X(d', rt) == v;
    assert forall n :: n != rt ==> X(o', n) == X(o, n) && X(d', n) == X(d, n);
  }

  /** Setting a vector register to u on one side and a general register to v on the other. */
  lemma SetQAgrees(o: Data, d: Data, d': Data, rt: int, u: int, v: int, zone: set<int>)
    requires Agree(o, d, zone) && SetsOnly(d, d', rt, v)
    ensures Agree(SetQ(o, rt, u), d', zone) <==> Q(o, rt) == u && (rt in {31, TMP_REG_0} || X(o, rt) == v)
  {
    var o' := SetQ(o, rt, u);
    assert forall n :: Q(d', n) == Q(d, n) == Q(o, n);
    assert Q(o', rt) == u && forall n :: n != rt ==> Q(o', n) == Q(o, n);
    assert rt != 31 ==> X(d', rt) == v;
    assert forall n :: X(o', n) == X(o, n);
    assert forall n :: n != rt ==> X(d', n) == X(d, n);
  }

  lemma SimulateLdrLiteral(ext: Extension, w: int, at: int, o: Data, r: Data, base: int, code: seq<int>, p: nat,
                           zone: set<int>)
    returns (k: nat, t: State)
    requires InDomain(ext, w, at, o, zone) && Decode(w).LdrLiteral? && Agree(o, r, zone)
    requires Placed(r.mem, base, code) && Expand(w, at).Items? && Realizes(code, p, Expand(w, at).items)
    ensures Reaches(ext, State(r, base + 4 * p), k, base, base + 4 * |code|, t)
    ensures Simulates(ext, Decode(w), at, o, r, base + 4 * (p + |Expand(w, at).items|), zone, t)
  {
    hide Decode, Reaches, Expand, Realizes, Placed, Exec, Agree, LiteralAgrees;
    k := 5;
    t := LiteralExactly(ext, w, at, o, r, base, code, p, zone);
  }

  lemma SetXSetsOnly(d: Data, rd: int, v: int)
    ensures SetsOnly(d, SetX(d, rd, v), rd, v)
  {}

  predicate IsConditional(i: Instr) {
    i.BranchCond? || i.CompareBranch? || i.TestBranch?
  }

  /** An inverted branch over a long branch is the original conditional branch. */
  lemma SkippedBranch(ext: Extension, i: Instr, i': Instr, at: int, o: Data, r: Data, base: int, code: seq<int>,
                      p: nat, zone: set<int>)
    returns (k: nat, t: State)
    requires IsConditional(i) && IsConditional(i') && i'.offset == 12 && Agree(o, r, zone)
    requires Taken(i', r) == !Taken(i, o)
    requires Placed(r.mem, base, code) && p + 3 <= |code| && Decode(code[p]) == i'
    requires LoadsDatum(code, p + 1, TMP_REG_0, Wrap(at + i.offset)) && code[p + 2] == EncBr(TMP_REG_0)
    ensures Reaches(ext, State(r, base + 4 * p), k, base, base + 4 * |code|, t)
    ensures Simulates(ext, i, at, o, r, base + 4 * (p + 3), zone, t)
  {
    hide Decode, Reaches, LoadsDatum, EncBr, CondHolds, TestBit;
    OneStep(ext, r, base, code, p);
    if Taken(i, o) {
      var target := Wrap(at + i.offset);
      var d' := LongBranchRuns(ext, r, base, code, p + 1, target, false);
      assert StepInstr(ext, i', State(r, base + 4 * p)) == State(r, base + 4 * (p + 1));
      ReachesTrans(ext, State(r, base + 4 * p), 1, State(r, base + 4 * (p + 1)), 2, State(d', target), base,
                   base + 4 * |code|);
      k, t := 3, State(d', target);
      SetsOnlyAgrees(o, r, d', TMP_REG_0, target, zone);
    } else {
      DivUnique(base + 4 * p + 12, TWO_64, 0, base + 4 * p + 12);
      k, t := 1, State(r, base + 4 * (p + 3));
    }
  }

  lemma SimulateConditional(ext: Extension, w: int, at: int, o: Data, r: Data, base: int, code: seq<int>, p: nat,
                            zone: set<int>)
    returns (k: nat, t: State)
    requires InDomain(ext, w, at, o, zone) && IsConditional(Decode(w)) && Agree(o, r, zone)
    requires Placed(r.mem, base, code) && Expand(w, at).Items? && Realizes(code, p, Expand(w, at).items)
    ensures Reaches(ext, State(r, base + 4 * p), k, base, base + 4 * |code|, t)
    ensures Simulates(ext, Decode(w), at, o, r, base + 4 * (p + |Expand(w, at).items|), zone, t)
  {
    hide Decode, Reaches, LoadsDatum, EncBr, CondHolds, TestBit, Simulates, InvertCond, InvertCompare, InvertTest,
         DecodeImm19Offset, DecodeImm14Offset, Placed;
    ClassesAgree(w);
    OperandsAgree(w);
    var i, items := Decode(w), Expand(w, at).items;
    assert RealizesItem(code, p + 0, items[0]) && RealizesItem(code, p + 1, items[1]);
    assert RealizesItem(code, p + 2, items[2]);
    var i' := Decode(code[p]);
    if i.BranchCond? {
      InvertCondDecodes(w);
      CondInvert(i.cond, r.flags);
    } else if i.CompareBranch? {
      InvertCompareDecodes(w);
    } else {
      InvertTestDecodes(w);
    }
    k, t := SkippedBranch(ext, i, i', at, o, r, base, code, p, zone);
  }

  /** A word that is emitted as it is. */
  lemma SimulateRaw(ext: Extension, w: int, at: int, o: Data, r: Data, base: int, code: seq<int>, p: nat,
                    zone: set<int>)
    returns (k: nat, t: State)
    requires InDomain(ext, w, at, o, zone) && (Decode(w).BranchReg? || IsDataOp(Decode(w))) && Agree(o, r, zone)
    requires Placed(r.mem, base, code) && Expand(w, at).Items? && Realizes(code, p, Expand(w, at).items)
    ensures Reaches(ext, State(r, base + 4 * p), k, base, base + 4 * |code|, t)
    ensures Simulates(ext, Decode(w), at, o, r, base + 4 * (p + |Expand(w, at).items|), zone, t)
  {
    hide Decode, Reaches, Exec, IndependentAt;
    ClassesAgree(w);
    var i, items := Decode(w), Expand(w, at).items;
    assert items == [Raw(w)];
    assert RealizesItem(code, p + 0, items[0]);
    OneStep(ext, r, base, code, p);
    k := 1;
    if i.BranchReg? {
      t := StepInstr(ext, i, State(r, base + 4 * p));
    } else {
      IndependentExec(ext, i, o, r, at, base + 4 * p, zone);
      t := State(Exec(ext, i, r, base + 4 * p), base + 4 * (p + 1));
    }
  }

  lemma IndependentExec(ext: Extension, i: Instr, o: Data, r: Data, at: int, pc: int, zone: set<int>)
    requires IsDataOp(i) && IndependentAt(ext, i, o, zone) && Agree(o, r, zone)
    ensures Agree(Exec(ext, i, o, at), Exec(ext, i, r, pc), zone)
    ensures ZoneKept(r, Exec(ext, i, r, pc), zone)
  {
    hide Agree, ZoneKept;
    ExecIgnoresPc(ext, i, o, at);
    ExecIgnoresPc(ext, i, r, pc);
  }

  lemma ExecIgnoresPc(ext: Extension, i: Instr, d: Data, pc: int)
    requires IsDataOp(i)
    ensures Exec(ext, i, d, pc) == Exec(ext, i, d, 0)
  {
    hide St64, Ld64, St128, Ld128, SetHalf, SetX, SetXSP, X, XSP, Q, SetQ, Wrap;
  }

  /** One word: from agreeing states, the image of the word simulates it. */
  lemma SimulateWord(ext: Extension, w: int, at: int, o: Data, r: Data, base: int, code: seq<int>, p: nat,
                     zone: set<int>)
    returns (k: nat, t: State)
    requires InDomain(ext, w, at, o, zone) && 0 <= at < TWO_64 && Agree(o, r, zone)
    requires Placed(r.mem, base, code) && Expand(w, at).Items? && Realizes(code, p, Expand(w, at).items)
    ensures Reaches(ext, State(r, base + 4 * p), k, base, base + 4 * |code|, t)
    ensures Simulates(ext, Decode(w), at, o, r, base + 4 * (p + |Expand(w, at).items|), zone, t)
  {
    hide Decode, Reaches, Simulates, Expand, Realizes, Placed, Agree, IndependentAt;
    var i := Decode(w);
    if i.Branch? {
      k, t := SimulateBranch(ext, w, at, o, r, base, code, p, zone);
    } else if i.LdrLiteral? {
      k, t := SimulateLdrLiteral(ext, w, at, o, r, base, code, p, zone);
    } else if i.Adr? || i.Adrp? {
      k, t := SimulateAdr(ext, w, at, o, r, base, code, p, zone);
    } else if IsConditional(i) {
      k, t := SimulateConditional(ext, w, at, o, r, base, code, p, zone);
    } else {
      k, t := SimulateRaw(ext, w, at, o, r, base, code, p, zone);
    }
  }

  // ----- whole blocks -----

  /** Where the original run leaves the block: the state, the index of the word that left (or the
      number of words), and whether a branch was taken. */
  datatype Exit = Exit(s: State, at: nat, taken: bool)

  /** Run the machine from word i of a block of n words until the first taken branch or the end. */
  ghost function RunBlock(ext: Extension, s: State, i: nat, n: nat): Exit
    requires i <= n
    decreases n - i
  {
    if i == n then Exit(s, n, false)
    else if Taken(Fetch(s), s.d) then Exit(Step(ext, s), i, true)
    else RunBlock(ext, Step(ext, s), i + 1, n)
  }

  /** A block, its relocated image with or without the jump to the rest of the function, and the memory
      zone holding both. */
  datatype Site = Site(words: seq<int>, src: int, branch: bool, code: seq<int>, base: int, zone: set<int>)

  /** The relocator does not abort on the block, the image is what it produces, the image is within
      reach of its literal pool, and both are at word addresses, where instructions are. */
  ghost predicate GoodSite(u: Site) {
    && Implemented(u.words, u.src)
    && u.code == Relocated(AllItems(u.words, u.src, u.branch))
    && 4 * |u.code| <= 0x10_0000 && ByFour(u.src) && ByFour(u.base)
    && BlockWords(u.src, |u.words|) <= u.zone && BlockWords(u.base, |u.code|) <= u.zone
  }

  /** Every word that the original executes, from word i in data state o until it leaves the block, is
      in the domain in the state it is executed in. */
  ghost predicate RunInDomain(ext: Extension, u: Site, i: nat, o: Data)
    requires i <= |u.words|
    decreases |u.words| - i
  {
    i == |u.words| ||
      (var w, at := u.words[i], u.src + 4 * i;
       && InDomain(ext, w, at, o, u.zone)
       && (!Taken(Decode(w), o) ==> RunInDomain(ext, u, i + 1, Exec(ext, Decode(w), o, at))))
  }

  /** The two runs stand at corresponding data states: the original block is in the one memory, the
      image in the other. */
  ghost predicate Related(u: Site, o: Data, r: Data) {
    Placed(o.mem, u.src, u.words) && Placed(r.mem, u.base, u.code) && Agree(o, r, u.zone)
  }

  /** What the image must have reached when the original leaves the block as `e`: the same absolute
      address (or, at the end of a block without the jump, the end of the images) with the same data,
      where a link register holds the image of the return address. */
  ghost predicate Preserved(u: Site, e: Exit, t: State) {
    && t.pc == (if e.taken || u.branch then e.s.pc else u.base + 4 * ImageOffset(u.words, u.src, |u.words|))
    && Placed(e.s.d.mem, u.src, u.words) && Placed(t.d.mem, u.base, u.code)
    && if e.taken && e.at < |u.words| && Links(Decode(u.words[e.at])) then
         && AgreeExcept(e.s.d, t.d, u.zone, {TMP_REG_0, 30})
         && X(e.s.d, 30) == u.src + 4 * (e.at + 1)
         && X(t.d, 30) == u.base + 4 * ImageOffset(u.words, u.src, e.at + 1)
       else Agree(e.s.d, t.d, u.zone)
  }

  lemma ExecKeepsZone(ext: Extension, w: int, at: int, o: Data, zone: set<int>)
    requires InDomain(ext, w, at, o, zone) && !Taken(Decode(w), o)
    ensures ZoneKept(o, Exec(ext, Decode(w), o, at), zone)
  {
    hide Decode, CondHolds, TestBit, St64, Ld64, St128, Ld128, SetHalf, Wrap;
    var i := Decode(w);
    if IsDataOp(i) {
      assert Agree(o, o, zone);
      IndependentExec(ext, i, o, o, at, at, zone);
    }
  }

  lemma PlacedKept(before: Data, after: Data, base: int, code: seq<int>, zone: set<int>)
    requires Placed(before.mem, base, code) && ZoneKept(before, after, zone) && BlockWords(base, |code|) <= zone
    ensures Placed(after.mem, base, code)
  {
    forall p | 0 <= p < |code|
      ensures Ld32(after.mem, base + 4 * p) == code[p]
    {
      assert base + 4 * p in BlockWords(base, |code|);
    }
  }

  lemma ChunkRealized(u: Site, i: nat)
    requires i < |u.words| && Implemented(u.words, u.src)
    requires u.code == Relocated(AllItems(u.words, u.src, u.branch)) && 4 * |u.code| <= 0x10_0000
    ensures Realizes(u.code, ImageOffset(u.words, u.src, i), Expand(u.words[i], u.src + 4 * i).items)
    ensures ImageOffset(u.words, u.src, i + 1)
         == ImageOffset(u.words, u.src, i) + |Expand(u.words[i], u.src + 4 * i).items|
  {
    hide Expand, Relocated, BlockItems, RealizesItem;
    var all, p := AllItems(u.words, u.src, u.branch), ImageOffset(u.words, u.src, i);
    RelocatedRealizes(all);
    ChunkAt(u.words, u.src, i);
    var items := Expand(u.words[i], u.src + 4 * i).items;
    forall j | 0 <= j < |items|
      ensures RealizesItem(u.code, p + j, items[j])
    {
      assert items[j] == BlockItems(u.words, u.src)[p..p + |items|][j] == all[p + j];
      assert RealizesItem(u.code, 0 + (p + j), all[p + j]);
    }
  }

  lemma ExitRealized(u: Site)
    requires u.code == Relocated(AllItems(u.words, u.src, u.branch)) && 4 * |u.code| <= 0x10_0000 && u.branch
    ensures var p := ImageOffset(u.words, u.src, |u.words|);
      && p + 1 < |u.code| && u.code[p + 1] == EncBr(TMP_REG_0)
      && LoadsDatum(u.code, p, TMP_REG_0, Wrap(u.src + 4 * |u.words|))
  {
    hide Relocated, BlockItems, LoadsDatum, EncBr;
    var all, p := AllItems(u.words, u.src, u.branch), ImageOffset(u.words, u.src, |u.words|);
    assert u.words[..|u.words|] == u.words;
    RelocatedRealizes(all);
    assert all[p] == ExitItems(u.words, u.src)[0] && all[p + 1] == ExitItems(u.words, u.src)[1];
    assert RealizesItem(u.code, 0 + p, all[p]) && RealizesItem(u.code, 0 + (p + 1), all[p + 1]);
  }

  /** Relocation preserves meaning.  Start the original at word i and the image at the image of word
      i, in related states, and let every word that the original executes be in the domain in the state
      it is executed in: until the original takes a branch or falls off the block, the image runs inside
      its own code, and then it is at the same absolute address in an agreeing state. */
  lemma {:induction false} RelocationPreservesMeaning(ext: Extension, u: Site, i: nat, o: Data, r: Data)
    returns (k: nat, t: State)
    requires GoodSite(u) && i <= |u.words| && Related(u, o, r) && RunInDomain(ext, u, i, o)
    ensures Reaches(ext, State(r, u.base + 4 * ImageOffset(u.words, u.src, i)), k, u.base, u.base + 4 * |u.code|, t)
    ensures Preserved(u, RunBlock(ext, State(o, u.src + 4 * i), i, |u.words|), t)
    decreases |u.words| - i
  {
    hide Decode, Reaches, ImageOffset, InDomain, Taken, Exec, Related, GoodSite, Preserved;
    var n, hi := |u.words|, u.base + 4 * |u.code|;
    if i == n {
      k, t := FallsOff(ext, u, o, r);
    } else {
      var w, at := u.words[i], u.src + 4 * i;
      var k1, t1 := RunWord(ext, u, i, o, r);
      if Taken(Decode(w), o) {
        k, t := k1, t1;
      } else {
        var k2;
        k2, t := RelocationPreservesMeaning(ext, u, i + 1, Exec(ext, Decode(w), o, at), t1.d);
        k := k1 + k2;
        ReachesTrans(ext, State(r, u.base + 4 * ImageOffset(u.words, u.src, i)), k1, t1, k2, t, u.base, hi);
      }
    }
  }

  /** One word of the block: either it leaves the block and the image has followed, or both runs stand
      at the next word in related states. */
  lemma RunWord(ext: Extension, u: Site, i: nat, o: Data, r: Data) returns (k: nat, t: State)
    requires GoodSite(u) && i < |u.words| && Related(u, o, r) && InDomain(ext, u.words[i], u.src + 4 * i, o, u.zone)
    ensures Reaches(ext, State(r, u.base + 4 * ImageOffset(u.words, u.src, i)), k, u.base, u.base + 4 * |u.code|, t)
    ensures var s, i' := State(o, u.src + 4 * i), Decode(u.words[i]);
      && Fetch(s) == i'
      && (Taken(i', o) ==> Preserved(u, Exit(Step(ext, s), i, true), t))
      && (!Taken(i', o) ==>
            && Step(ext, s) == State(Exec(ext, i', o, s.pc), u.src + 4 * (i + 1))
            && t.pc == u.base + 4 * ImageOffset(u.words, u.src, i + 1) && Related(u, Step(ext, s).d, t.d))
  {
    hide Decode, Reaches, Expand, Relocated, LoadsDatum, EncBr, ImageOffset, InDomain, Taken, Target, Exec, Links,
         Agree, BlockWords, Realizes, Preserved;
    var w, at := u.words[i], u.src + 4 * i;
    ChunkRealized(u, i);
    k, t := SimulateWord(ext, w, at, o, r, u.base, u.code, ImageOffset(u.words, u.src, i), u.zone);
    DivUnique(at + 4, TWO_64, 0, at + 4);
    if Taken(Decode(w), o) {
      TakenPreserved(ext, u, i, o, r, t);
    } else {
      ExecKeepsZone(ext, w, at, o, u.zone);
      PlacedKept(o, Exec(ext, Decode(w), o, at), u.src, u.words, u.zone);
      PlacedKept(r, t.d, u.base, u.code, u.zone);
    }
  }

  lemma ReachesNow(ext: Extension, t: State, lo: int, hi: int)
    ensures Reaches(ext, t, 0, lo, hi, t)
  {}

  /** Past its last word the image jumps to where the original block ends, if it was made to. */
  lemma FallsOff(ext: Extension, u: Site, o: Data, r: Data) returns (k: nat, t: State)
    requires GoodSite(u) && Related(u, o, r)
    ensures var n := |u.words|;
      && Reaches(ext, State(r, u.base + 4 * ImageOffset(u.words, u.src, n)), k, u.base, u.base + 4 * |u.code|, t)
      && Preserved(u, Exit(State(o, u.src + 4 * n), n, false), t)
  {
    hide Decode, Reaches, Relocated, LoadsDatum, EncBr, ImageOffset, InDomain, Agree, BlockWords;
    var n, target := |u.words|, u.src + 4 * |u.words|;
    if u.branch {
      ExitRealized(u);
      DivUnique(target, TWO_64, 0, target);
      var d' := LongBranchRuns(ext, r, u.base, u.code, ImageOffset(u.words, u.src, n), target, false);
      k, t := 2, State(d', target);
      SetsOnlyAgrees(o, r, d', TMP_REG_0, target, u.zone);
    } else {
      k, t := 0, State(r, u.base + 4 * ImageOffset(u.words, u.src, n));
      ReachesNow(ext, t, u.base, u.base + 4 * |u.code|);
    }
  }

  lemma TakenPreserved(ext: Extension, u: Site, i: nat, o: Data, r: Data, t: State)
    requires i < |u.words| && Related(u, o, r)
    requires Taken(Decode(u.words[i]), o)
    requires Simulates(ext, Decode(u.words[i]), u.src + 4 * i, o, r,
                       u.base + 4 * ImageOffset(u.words, u.src, i + 1), u.zone, t)
    ensures Preserved(u, Exit(StepInstr(ext, Decode(u.words[i]), State(o, u.src + 4 * i)), i, true), t)
  {
    hide Decode, Taken, Target, Exec, ImageOffset;
    var at := u.src + 4 * i;
    DivUnique(at + 4, TWO_64, 0, at + 4);
  }

  // ----- exactly when the excluded words would be right -----

  /** The image of a conditional branch tests the opposite exactly for the conditions below 14. */
  lemma ConditionInvertedExactly(w: int, d: Data)
    requires IsWord(w) && Decode(w).BranchCond?
    ensures Taken(Decode(InvertCond(w)), d) == !Taken(Decode(w), d) <==> Decode(w).cond < 14
  {
    hide Decode, CondHolds, InvertCond;
    InvertCondDecodes(w);
    CondInvert(Decode(w).cond, d.flags);
  }

  /** The run of a conditional branch's image: conditions 14 and 15 always skip the branch that the
      original always takes, so the image simulates it exactly for the conditions below 14, unless the
      target happens to be the very next word of the image. */
  lemma CondBranchExactly(ext: Extension, w: int, at: int, o: Data, r: Data, base: int, code: seq<int>, p: nat,
                          zone: set<int>)
    returns (k: nat, t: State)
    requires IsWord(w) && Decode(w).BranchCond? && Agree(o, r, zone)
    requires Placed(r.mem, base, code) && Expand(w, at).Items? && Realizes(code, p, Expand(w, at).items)
    ensures |Expand(w, at).items| == 3 && Reaches(ext, State(r, base + 4 * p), k, base, base + 4 * |code|, t)
    ensures Decode(w).cond >= 14 ==> k == 1 && t == State(r, base + 4 * (p + 3))
    ensures Simulates(ext, Decode(w), at, o, r, base + 4 * (p + 3), zone, t) <==>
            Decode(w).cond < 14 || Wrap(at + Decode(w).offset) == base + 4 * (p + 3)
  {
    hide Decode, Reaches, LoadsDatum, EncBr, CondHolds, InvertCond, DecodeImm19Offset, Agree;
    ClassesAgree(w);
    OperandsAgree(w);
    InvertCondDecodes(w);
    var i, items := Decode(w), Expand(w, at).items;
    assert RealizesItem(code, p + 0, items[0]) && RealizesItem(code, p + 1, items[1]);
    assert RealizesItem(code, p + 2, items[2]);
    if i.cond < 14 {
      CondInvert(i.cond, r.flags);
      FlagsAgree(o, r, zone);
      k, t := SkippedBranch(ext, i, Decode(code[p]), at, o, r, base, code, p, zone);
    } else {
      AlwaysHolds(i.cond, o.flags);
      AlwaysHolds(XorOne(i.cond), r.flags);
      OneStep(ext, r, base, code, p);
      WrapInside(base + 4 * p + 12);
      k, t := 1, State(r, base + 4 * (p + 3));
    }
  }

  lemma FlagsAgree(o: Data, r: Data, zone: set<int>)
    requires Agree(o, r, zone)
    ensures o.flags == r.flags
  {}

  lemma AlwaysHolds(cond: int, f: Flags)
    requires 14 <= cond <= 15
    ensures CondHolds(cond, f)
  {}

  /** `b.al .`, an endless loop: its image falls through. */
  lemma AlwaysBranchFalls(ext: Extension, at: int, o: Data, r: Data, base: int, code: seq<int>, p: nat, zone: set<int>)
    returns (t: State)
    requires 0 <= at < TWO_64 && at != base + 4 * (p + 3) && Agree(o, r, zone) && Placed(r.mem, base, code)
    requires Expand(0x5400_000E, at).Items? && Realizes(code, p, Expand(0x5400_000E, at).items)
    ensures Decode(0x5400_000E) == BranchCond(14, 0)
    ensures Reaches(ext, State(r, base + 4 * p), 1, base, base + 4 * |code|, t) && t == State(r, base + 4 * (p + 3))
    ensures !Simulates(ext, BranchCond(14, 0), at, o, r, base + 4 * (p + 3), zone, t)
  {
    hide Decode, Reaches, Expand, Realizes, Placed, Simulates, Agree;
    DecodeTop(0x5400_000E, 0x54, 0xE);
    assert DecodeParts(0x54, 0xE) == BranchCond(14, 0) by { AlwaysParts(); }
    WrapInside(at);
    var k;
    k, t := CondBranchExactly(ext, 0x5400_000E, at, o, r, base, code, p, zone);
  }

  lemma AlwaysParts()
    ensures DecodeParts(0x54, 0xE) == BranchCond(14, 0)
  {
    hide Offset26, Offset21, Offset14, Reg0, Reg5, DecodeData;
  }

  /** The 32-bit literal load is re-emitted as a 64-bit load, which is right exactly when the next
      word in memory is zero (or the register is the zero or the scratch register). */
  lemma WordLiteralExactly(ext: Extension, w: int, at: int, o: Data, r: Data, base: int, code: seq<int>, p: nat,
                           zone: set<int>)
    returns (t: State)
    requires IsWord(w) && Decode(w).LdrLiteral? && Decode(w).opc == 0 && !Decode(w).simd
    requires LiteralOutside(Decode(w), at, zone) && Agree(o, r, zone)
    requires Placed(r.mem, base, code) && Expand(w, at).Items? && Realizes(code, p, Expand(w, at).items)
    ensures t.pc == base + 4 * (p + 5) && Reaches(ext, State(r, base + 4 * p), 5, base, base + 4 * |code|, t)
    ensures Agree(Exec(ext, Decode(w), o, at), t.d, zone) <==>
            Decode(w).rt in {31, TMP_REG_0} || Ld32(o.mem, Wrap(Wrap(at + Decode(w).offset) + 4)) == 0
  {
    hide Decode, Reaches, Expand, Realizes, Placed, Exec, Agree;
    t := LiteralExactly(ext, w, at, o, r, base, code, p, zone);
  }

  /** The loads of an S or D register are re-emitted as loads of the general register with the same
      number, which is right exactly when both registers hold the literal already (the zero and the
      scratch register do not matter). */
  lemma SimdLiteralExactly(ext: Extension, w: int, at: int, o: Data, r: Data, base: int, code: seq<int>, p: nat,
                           zone: set<int>)
    returns (t: State)
    requires IsWord(w) && Decode(w).LdrLiteral? && Decode(w).simd
    requires LiteralOutside(Decode(w), at, zone) && Agree(o, r, zone)
    requires Placed(r.mem, base, code) && Expand(w, at).Items? && Realizes(code, p, Expand(w, at).items)
    ensures t.pc == base + 4 * (p + 5) && Reaches(ext, State(r, base + 4 * p), 5, base, base + 4 * |code|, t)
    ensures var rt, a := Decode(w).rt, Wrap(at + Decode(w).offset);
      Agree(Exec(ext, Decode(w), o, at), t.d, zone) <==>
      && Q(o, rt) == (if Decode(w).opc == 1 then Ld64(o.mem, a) else Ld32(o.mem, a))
      && (rt in {31, TMP_REG_0} || X(o, rt) == Ld64(o.mem, a))
  {
    hide Decode, Reaches, Expand, Realizes, Placed, Exec, Agree, Ld64;
    t := LiteralExactly(ext, w, at, o, r, base, code, p, zone);
  }

  /** `ldr w0, .+8` and `ldr s0, .+8` in front of two non-zero words: the relocator accepts both, and
      the image of neither agrees with the original, wherever it is placed. */
  lemma LiteralsThatFail(ext: Extension, w: int, o: Data, r: Data, base: int, code: seq<int>, p: nat, zone: set<int>)
    returns (t: State)
    requires w in {0x1800_0040, 0x1C00_0040}
    requires o == Data(map[], map[], 0, Flags(false, false, false, false), map[0x1008 := 1, 0x100C := 1])
    requires 0x1008 !in zone && 0x100C !in zone && Agree(o, r, zone)
    requires Placed(r.mem, base, code) && Expand(w, 0x1000).Items? && Realizes(code, p, Expand(w, 0x1000).items)
    ensures Reaches(ext, State(r, base + 4 * p), 5, base, base + 4 * |code|, t) && t.pc == base + 4 * (p + 5)
    ensures !Agree(Exec(ext, Decode(w), o, 0x1000), t.d, zone)
  {
    hide Decode, Reaches, Realizes, Placed, Exec, Agree, Expand;
    LiteralsAccepted(w);
    WrapInside(0x1008);
    WrapInside(0x100C);
    t := LiteralExactly(ext, w, 0x1000, o, r, base, code, p, zone);
  }

  /** Both words are literal loads for which the relocator emits code. */
  lemma LiteralsAccepted(w: int)
    requires w in {0x1800_0040, 0x1C00_0040}
    ensures Decode(w) == LdrLiteral(0, w == 0x1C00_0040, 0, 8) && Expand(w, 0x1000).Items?
  {
    hide Decode, DecodeData, DecodeImm26Offset, DecodeImmhiImmloOffset, DecodeImm14Offset, DecodeImm19Offset, MovItems;
    var top := if w == 0x1C00_0040 then 0x1C else 0x18;
    DecodeTop(w, top, 0x40);
    ClassesAgree(w);
    OperandsAgree(w);
  }
}
