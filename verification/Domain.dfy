// What is in the domain of relocation: every modelled data instruction that stays away from the
// scratch register and from the code, and with it the usual function prologues.
module Domain {
  import opened BitFields
  import opened A64
  import opened Encoder
  import opened Relocation
  import opened Preservation

  // ----- memory accesses -----

  function Words64(a: int): set<int> { {a, Wrap(a + 4)} }

  function Words128(a: int): set<int> { Words64(a) + Words64(Wrap(a + 8)) }

  /** The words that data instruction i loads or stores in state d. */
  function Accesses(i: Instr, d: Data): set<int> {
    var a := AccessAddress(i, d);
    match i
    case LdrX(_, _, _) => Words64(a)
    case StrX(_, _, _) => Words64(a)
    case StpX(_, _, _, _) => Words128(a)
    case StpXPre(_, _, _, _) => Words128(a)
    case LdpXPost(_, _, _, _) => Words128(a)
    case StpQ(_, _, _, _) => Words128(a) + Words128(Wrap(a + 16))
    case LdpQPost(_, _, _, _) => Words128(a) + Words128(Wrap(a + 16))
    case _ => {}
  }

  /** The scratch register is an operand. */
  predicate ReadsScratch(i: Instr) {
    match i
    case AddImm(_, rn, _) => rn == TMP_REG_0
    case SubImm(_, rn, _) => rn == TMP_REG_0
    case LdrX(_, rn, _) => rn == TMP_REG_0
    case StrX(rt, rn, _) => rt == TMP_REG_0 || rn == TMP_REG_0
    case StpX(rt, rt2, rn, _) => rt == TMP_REG_0 || rt2 == TMP_REG_0 || rn == TMP_REG_0
    case StpXPre(rt, rt2, rn, _) => rt == TMP_REG_0 || rt2 == TMP_REG_0 || rn == TMP_REG_0
    case LdpXPost(_, _, rn, _) => rn == TMP_REG_0
    case StpQ(_, _, rn, _) => rn == TMP_REG_0
    case LdpQPost(_, _, rn, _) => rn == TMP_REG_0
    case _ => false
  }

  // ----- agreement is kept by every effect -----

  lemma SetXKeeps(o: Data, r: Data, rd: int, v: int, zone: set<int>)
    requires Agree(o, r, zone)
    ensures Agree(SetX(o, rd, v), SetX(r, rd, v), zone)
  {
    var o', r' := SetX(o, rd, v), SetX(r, rd, v);
    assert forall n :: Q(o', n) == Q(o, n) && Q(r', n) == Q(r, n);
  }

  /** The scratch register may even be set to two values. */
  lemma SetScratchKeeps(o: Data, r: Data, u: int, v: int, zone: set<int>)
    requires Agree(o, r, zone)
    ensures Agree(SetX(o, TMP_REG_0, u), SetX(r, TMP_REG_0, v), zone)
  {
    var o', r' := SetX(o, TMP_REG_0, u), SetX(r, TMP_REG_0, v);
    assert forall n :: Q(o', n) == Q(o, n) && Q(r', n) == Q(r, n);
  }

  lemma SetXSPKeeps(o: Data, r: Data, rd: int, v: int, zone: set<int>)
    requires Agree(o, r, zone)
    ensures Agree(SetXSP(o, rd, v), SetXSP(r, rd, v), zone)
    ensures SetXSP(r, rd, v).mem == r.mem
  {
    if rd == 31 {
      var o', r' := SetXSP(o, rd, v), SetXSP(r, rd, v);
      assert forall n :: X(o', n) == X(o, n) && X(r', n) == X(r, n) && Q(o', n) == Q(o, n) && Q(r', n) == Q(r, n);
    } else {
      SetXKeeps(o, r, rd, v, zone);
    }
  }

  lemma SetQKeeps(o: Data, r: Data, rd: int, v: int, zone: set<int>)
    requires Agree(o, r, zone)
    ensures Agree(SetQ(o, rd, v), SetQ(r, rd, v), zone)
  {
    var o', r' := SetQ(o, rd, v), SetQ(r, rd, v);
    assert forall n :: X(o', n) == X(o, n) && X(r', n) == X(r, n);
    assert forall n :: Q(o', n) == (if n == rd then v else Q(o, n)) && Q(r', n) == (if n == rd then v else Q(r, n));
  }

  /** A store outside the zone keeps agreement and the zone. */
  lemma StoreKeeps(o: Data, r: Data, a: int, v: int, zone: set<int>)
    requires Agree(o, r, zone) && Words64(a) !! zone
    ensures Agree(o.(mem := St64(o.mem, a, v)), r.(mem := St64(r.mem, a, v)), zone)
    ensures ZoneKept(r, r.(mem := St64(r.mem, a, v)), zone)
  {
    var o', r' := o.(mem := St64(o.mem, a, v)), r.(mem := St64(r.mem, a, v));
    assert a in Words64(a) && Wrap(a + 4) in Words64(a);
    assert forall n :: X(o', n) == X(o, n) && X(r', n) == X(r, n) && Q(o', n) == Q(o, n) && Q(r', n) == Q(r, n);
  }

  lemma Store2Keeps(o: Data, r: Data, a: int, u: int, b: int, v: int, zone: set<int>)
    requires Agree(o, r, zone) && Words64(a) + Words64(b) !! zone
    ensures var o', r' := o.(mem := St64(St64(o.mem, a, u), b, v)), r.(mem := St64(St64(r.mem, a, u), b, v));
      Agree(o', r', zone) && ZoneKept(r, r', zone)
  {
    hide Agree, St64;
    StoreKeeps(o, r, a, u, zone);
    StoreKeeps(o.(mem := St64(o.mem, a, u)), r.(mem := St64(r.mem, a, u)), b, v, zone);
  }

  lemma Store128Keeps(o: Data, r: Data, a: int, v: int, zone: set<int>)
    requires Agree(o, r, zone) && Words128(a) !! zone
    ensures var o', r' := o.(mem := St128(o.mem, a, v)), r.(mem := St128(r.mem, a, v));
      Agree(o', r', zone) && ZoneKept(r, r', zone)
  {
    hide Agree, St64;
    Store2Keeps(o, r, a, v % TWO_64, Wrap(a + 8), v / TWO_64, zone);
  }

  lemma LoadSame(o: Data, r: Data, a: int, zone: set<int>)
    requires Agree(o, r, zone) && Words64(a) !! zone
    ensures Ld64(o.mem, a) == Ld64(r.mem, a)
  {
    assert a in Words64(a) && Wrap(a + 4) in Words64(a);
    LoadAgrees(o, r, a, zone);
  }

  lemma Load128Same(o: Data, r: Data, a: int, zone: set<int>)
    requires Agree(o, r, zone) && Words128(a) !! zone
    ensures Ld128(o.mem, a) == Ld128(r.mem, a)
  {
    hide Ld64, Agree;
    LoadSame(o, r, a, zone);
    LoadSame(o, r, Wrap(a + 8), zone);
  }

  lemma OperandSame(o: Data, r: Data, n: int, zone: set<int>)
    requires Agree(o, r, zone)
    ensures n != TMP_REG_0 ==> X(o, n) == X(r, n) && XSP(o, n) == XSP(r, n)
    ensures Q(o, n) == Q(r, n)
  {}

  // ----- every modelled data instruction -----

  /** What IndependentAt asks of one agreeing state. */
  ghost predicate Keeps(ext: Extension, i: Instr, o: Data, r: Data, zone: set<int>) {
    Agree(Exec(ext, i, o, 0), Exec(ext, i, r, 0), zone) && ZoneKept(r, Exec(ext, i, r, 0), zone)
  }

  lemma RegisterKeeps(ext: Extension, i: Instr, o: Data, r: Data, zone: set<int>)
    requires i.MovZ? || i.MovK? || i.AddImm? || i.SubImm?
    requires !ReadsScratch(i) && Agree(o, r, zone)
    ensures Keeps(ext, i, o, r, zone)
  {
    hide Agree, SetX, SetXSP, X, XSP, SetHalf, Wrap;
    match i {
      case MovZ(rd, imm, hw) => SetXKeeps(o, r, rd, SetHalf(0, imm, hw), zone); SetXMemory(r, rd, SetHalf(0, imm, hw));
      case MovK(rd, imm, hw) =>
        SetXMemory(r, rd, SetHalf(X(r, rd), imm, hw));
        if rd == TMP_REG_0 {
          SetScratchKeeps(o, r, SetHalf(X(o, rd), imm, hw), SetHalf(X(r, rd), imm, hw), zone);
        } else {
          OperandSame(o, r, rd, zone);
          SetXKeeps(o, r, rd, SetHalf(X(o, rd), imm, hw), zone);
        }
      case AddImm(rd, rn, imm) =>
        OperandSame(o, r, rn, zone);
        SetXSPKeeps(o, r, rd, Wrap(XSP(o, rn) + imm), zone);
      case SubImm(rd, rn, imm) =>
        OperandSame(o, r, rn, zone);
        SetXSPKeeps(o, r, rd, Wrap(XSP(o, rn) - imm), zone);
    }
  }

  lemma SetXMemory(d: Data, rd: int, v: int)
    ensures SetX(d, rd, v).mem == d.mem
  {}

  lemma SetQMemory(d: Data, rd: int, v: int)
    ensures SetQ(d, rd, v).mem == d.mem
  {}

  lemma LoadKeeps(ext: Extension, i: Instr, o: Data, r: Data, zone: set<int>)
    requires i.LdrX? || i.LdpXPost?
    requires !ReadsScratch(i) && Accesses(i, o) !! zone && Agree(o, r, zone)
    ensures Keeps(ext, i, o, r, zone)
  {
    hide Agree, SetX, SetXSP, X, XSP, Wrap, Ld64, Words64;
    OperandSame(o, r, i.rn, zone);
    match i {
      case LdrX(rt, rn, imm) =>
        var a := Wrap(XSP(o, rn) + imm);
        LoadSame(o, r, a, zone);
        SetXKeeps(o, r, rt, Ld64(o.mem, a), zone);
        SetXMemory(r, rt, Ld64(o.mem, a));
      case LdpXPost(rt, rt2, rn, imm) =>
        var a := XSP(o, rn);
        LoadSame(o, r, a, zone);
        LoadSame(o, r, Wrap(a + 8), zone);
        var u, v := Ld64(o.mem, a), Ld64(o.mem, Wrap(a + 8));
        SetXKeeps(o, r, rt, u, zone);
        SetXMemory(r, rt, u);
        SetXKeeps(SetX(o, rt, u), SetX(r, rt, u), rt2, v, zone);
        SetXMemory(SetX(r, rt, u), rt2, v);
        SetXSPKeeps(SetX(SetX(o, rt, u), rt2, v), SetX(SetX(r, rt, u), rt2, v), rn, Wrap(a + imm), zone);
    }
  }

  lemma StoreInstrKeeps(ext: Extension, i: Instr, o: Data, r: Data, zone: set<int>)
    requires i.StrX? || i.StpX? || i.StpXPre?
    requires !ReadsScratch(i) && Accesses(i, o) !! zone && Agree(o, r, zone)
    ensures Keeps(ext, i, o, r, zone)
  {
    hide Agree, SetXSP, X, XSP, Wrap, St64, Words64;
    OperandSame(o, r, i.rn, zone);
    OperandSame(o, r, i.rt, zone);
    var a := Wrap(XSP(o, i.rn) + i.imm);
    match i {
      case StrX(rt, _, _) =>
        StoreKeeps(o, r, a, X(o, rt), zone);
      case StpX(rt, rt2, _, _) =>
        OperandSame(o, r, rt2, zone);
        Store2Keeps(o, r, a, X(o, rt), Wrap(a + 8), X(o, rt2), zone);
      case StpXPre(rt, rt2, rn, _) =>
        OperandSame(o, r, rt2, zone);
        Store2Keeps(o, r, a, X(o, rt), Wrap(a + 8), X(o, rt2), zone);
        var m := St64(St64(o.mem, a, X(o, rt)), Wrap(a + 8), X(o, rt2));
        var m' := St64(St64(r.mem, a, X(o, rt)), Wrap(a + 8), X(o, rt2));
        SetXSPKeeps(o.(mem := m), r.(mem := m'), rn, a, zone);
    }
  }

  lemma VectorKeeps(ext: Extension, i: Instr, o: Data, r: Data, zone: set<int>)
    requires i.StpQ? || i.LdpQPost?
    requires !ReadsScratch(i) && Accesses(i, o) !! zone && Agree(o, r, zone)
    ensures Keeps(ext, i, o, r, zone)
  {
    hide Agree, SetXSP, Q, SetQ, XSP, Wrap, St128, Ld128, Words128;
    OperandSame(o, r, i.rn, zone);
    match i {
      case StpQ(rt, rt2, rn, imm) =>
        var a := Wrap(XSP(o, rn) + imm);
        OperandSame(o, r, rt, zone);
        OperandSame(o, r, rt2, zone);
        Store128Keeps(o, r, a, Q(o, rt), zone);
        var o1, r1 := o.(mem := St128(o.mem, a, Q(o, rt))), r.(mem := St128(r.mem, a, Q(o, rt)));
        Store128Keeps(o1, r1, Wrap(a + 16), Q(o, rt2), zone);
      case LdpQPost(rt, rt2, rn, imm) =>
        var a := XSP(o, rn);
        Load128Same(o, r, a, zone);
        Load128Same(o, r, Wrap(a + 16), zone);
        var u, v := Ld128(o.mem, a), Ld128(o.mem, Wrap(a + 16));
        SetQKeeps(o, r, rt, u, zone);
        SetQMemory(r, rt, u);
        SetQKeeps(SetQ(o, rt, u), SetQ(r, rt, u), rt2, v, zone);
        SetQMemory(SetQ(r, rt, u), rt2, v);
        SetXSPKeeps(SetQ(SetQ(o, rt, u), rt2, v), SetQ(SetQ(r, rt, u), rt2, v), rn, Wrap(a + imm), zone);
    }
  }

  /** Loads, stores and arithmetic are in the domain in every state in which they access no code word,
      unless they use the scratch register. */
  lemma ModelledIndependent(ext: Extension, i: Instr, o: Data, zone: set<int>)
    requires IsDataOp(i) && !i.Other? && !ReadsScratch(i) && Accesses(i, o) !! zone
    ensures IndependentAt(ext, i, o, zone)
  {
    hide Agree, Exec, ZoneKept, Accesses, ReadsScratch;
    forall r | Agree(o, r, zone)
      ensures Agree(Exec(ext, i, o, 0), Exec(ext, i, r, 0), zone) && ZoneKept(r, Exec(ext, i, r, 0), zone)
    {
      if i.MovZ? || i.MovK? || i.AddImm? || i.SubImm? {
        RegisterKeeps(ext, i, o, r, zone);
      } else if i.LdrX? || i.LdpXPost? {
        LoadKeeps(ext, i, o, r, zone);
      } else if i.StrX? || i.StpX? || i.StpXPre? {
        StoreInstrKeeps(ext, i, o, r, zone);
      } else {
        VectorKeeps(ext, i, o, r, zone);
      }
    }
  }

  // ----- function prologues -----

  /** A data word accessing whole words, none of them code, is in the domain, and the relocator re-emits
      it. */
  lemma DataWordInDomain(ext: Extension, w: int, at: int, o: Data, zone: set<int>)
    requires IsWord(w) && IsDataOp(Decode(w)) && !Decode(w).Other? && !ReadsScratch(Decode(w))
    requires Accesses(Decode(w), o) !! zone && ByFour(AccessAddress(Decode(w), o))
    ensures InDomain(ext, w, at, o, zone) && Expand(w, at).Items?
  {
    hide Decode, Accesses, ReadsScratch, IndependentAt, AccessAddress, ByFour;
    ClassesAgree(w);
    ModelledIndependent(ext, Decode(w), o, zone);
  }

  lemma AdrpInDomain(ext: Extension, rd: int, page: int, at: int, o: Data, zone: set<int>)
    requires IsReg(rd) && page % 0x1000 == 0 && -0x1_0000_0000 <= page < 0x1_0000_0000
    ensures InDomain(ext, EncAdrp(rd, page), at, o, zone) && Expand(EncAdrp(rd, page), at).Items?
    ensures Decode(EncAdrp(rd, page)) == Adrp(rd, page)
  {
    hide Decode, EncAdrp, MovItems;
    DecodeAdrp(rd, page);
    AdrpIsWord(rd, page);
    ClassesAgree(EncAdrp(rd, page));
  }

  lemma AdrpIsWord(rd: int, page: int)
    requires IsReg(rd)
    ensures IsWord(EncAdrp(rd, page))
  {}

  /** `stp x29, x30, [sp, #-16]!; mov x29, sp; adrp rd, page` */
  function FramePrologue(rd: int, page: int): seq<int> {
    [EncStpXPre(29, 30, 31, -16), EncAddImm(29, 31, 0), EncAdrp(rd, page)]
  }

  /** `sub sp, sp, #32; stp x29, x30, [sp, #16]; add x29, sp, #16; adrp rd, page` */
  function LargeFramePrologue(rd: int, page: int): seq<int> {
    [EncSubImm(31, 31, 32), EncStpX(29, 30, 31, 16), EncAddImm(29, 31, 16), EncAdrp(rd, page)]
  }

  /** The frame's address, and the 0 of an instruction that accesses nothing. */
  lemma FrameByFour(sp: int)
    requires ByFour(sp)
    ensures ByFour(sp - 16) && ByFour(0)
  {
    DivUnique(sp - 16, 4, sp / 4 - 4, 0);
  }

  lemma PrologueWords()
    ensures IsWord(EncStpXPre(29, 30, 31, -16)) && Decode(EncStpXPre(29, 30, 31, -16)) == StpXPre(29, 30, 31, -16)
    ensures IsWord(EncAddImm(29, 31, 0)) && Decode(EncAddImm(29, 31, 0)) == AddImm(29, 31, 0)
    ensures IsWord(EncSubImm(31, 31, 32)) && Decode(EncSubImm(31, 31, 32)) == SubImm(31, 31, 32)
    ensures IsWord(EncStpX(29, 30, 31, 16)) && Decode(EncStpX(29, 30, 31, 16)) == StpX(29, 30, 31, 16)
    ensures IsWord(EncAddImm(29, 31, 16)) && Decode(EncAddImm(29, 31, 16)) == AddImm(29, 31, 16)
  {
    hide Decode;
    DecodePairX(29, 30, 31, -16);
    DecodePairX(29, 30, 31, 16);
    DecodeAddSubImm(29, 31, 0);
    DecodeAddSubImm(31, 31, 32);
    DecodeAddSubImm(29, 31, 16);
  }

  /** A function that starts by pushing a frame is relocated with its meaning kept whenever the frame
      is not in the code. */
  lemma FramePrologueInDomain(ext: Extension, u: Site, o: Data, rd: int, page: int)
    requires u.words == FramePrologue(rd, page) && 16 <= o.sp < TWO_64 && Words128(o.sp - 16) !! u.zone
    requires ByFour(o.sp) && IsReg(rd) && page % 0x1000 == 0 && -0x1_0000_0000 <= page < 0x1_0000_0000
    ensures Implemented(u.words, u.src) && RunInDomain(ext, u, 0, o)
  {
    hide Decode, Exec, InDomain, Expand, EncStpXPre, EncAddImm, EncAdrp, Words128, ByFour;
    PrologueWords();
    FrameByFour(o.sp);
    var o1 := Exec(ext, StpXPre(29, 30, 31, -16), o, u.src);
    var o2 := Exec(ext, AddImm(29, 31, 0), o1, u.src + 4 * 1);
    WrapInside(o.sp - 16);
    DataWordInDomain(ext, u.words[0], u.src, o, u.zone);
    DataWordInDomain(ext, u.words[1], u.src + 4 * 1, o1, u.zone);
    AdrpInDomain(ext, rd, page, u.src + 4 * 2, o2, u.zone);
    var o3 := Exec(ext, Adrp(rd, page), o2, u.src + 4 * 2);
    assert RunInDomain(ext, u, 3, o3);
    assert RunInDomain(ext, u, 2, o2);
    assert RunInDomain(ext, u, 1, o1);
  }

  /** The same for a frame of two steps. */
  lemma LargeFramePrologueInDomain(ext: Extension, u: Site, o: Data, rd: int, page: int)
    requires u.words == LargeFramePrologue(rd, page) && 32 <= o.sp < TWO_64 && Words128(o.sp - 16) !! u.zone
    requires ByFour(o.sp) && IsReg(rd) && page % 0x1000 == 0 && -0x1_0000_0000 <= page < 0x1_0000_0000
    ensures Implemented(u.words, u.src) && RunInDomain(ext, u, 0, o)
  {
    hide Decode, InDomain, Expand, EncStpX, EncSubImm, EncAddImm, EncAdrp, Words128, St64, Exec, ByFour;
    PrologueWords();
    FrameByFour(o.sp);
    var o1 := Exec(ext, SubImm(31, 31, 32), o, u.src);
    var o2 := Exec(ext, StpX(29, 30, 31, 16), o1, u.src + 4 * 1);
    var o3 := Exec(ext, AddImm(29, 31, 16), o2, u.src + 4 * 2);
    WrapInside(o.sp - 32);
    WrapInside(o.sp - 16);
    assert o1.sp == o.sp - 32 by { SubSpEffect(ext, o, 32, u.src); }
    DataWordInDomain(ext, u.words[0], u.src, o, u.zone);
    DataWordInDomain(ext, u.words[1], u.src + 4 * 1, o1, u.zone);
    DataWordInDomain(ext, u.words[2], u.src + 4 * 2, o2, u.zone);
    AdrpInDomain(ext, rd, page, u.src + 4 * 3, o3, u.zone);
    var o4 := Exec(ext, Adrp(rd, page), o3, u.src + 4 * 3);
    assert RunInDomain(ext, u, 4, o4);
    assert RunInDomain(ext, u, 3, o3);
    assert RunInDomain(ext, u, 2, o2);
    assert RunInDomain(ext, u, 1, o1);
  }

  lemma SubSpEffect(ext: Extension, d: Data, imm: int, pc: int)
    requires 0 <= imm <= d.sp < TWO_64
    ensures Exec(ext, SubImm(31, 31, imm), d, pc).sp == d.sp - imm
  {
    WrapInside(d.sp - imm);
  }
}
