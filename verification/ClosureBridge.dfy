// The closure trampoline and the bridge that saves and restores a register context:
// source/TrampolineBridge/ClosureTrampolineBridge/arm64/ClosureTrampolineARM64.cc and
// closure_bridge_arm64.cc, with the context layout of include/dobby.h.
module ClosureBridge {
  import opened BitFields
  import opened A64
  import opened Encoder
  import opened Assembler
  import opened Simulation

  const SP: int := 31

  // ----- the two programs -----

  /** The code of `CreateClosureTrampoline` before its two labels are bound. */
  function TrampolineWords(): seq<int> {
    [ EncSubImm(SP, SP, 16), EncStrX(30, SP, 8),
      EncLdrLiteralX(TMP_REG_0), EncStrX(TMP_REG_0, SP, 0),
      EncLdrLiteralX(TMP_REG_0), EncBlr(TMP_REG_0),
      EncLdrX(30, SP, 8), EncAddImm(SP, SP, 16), EncBr(TMP_REG_0) ]
  }

  function TrampolineLabels(entry: int, bridge: int): seq<LabelValue> {
    [LabelValue([2], entry), LabelValue([4], bridge)]
  }

  /** The closure trampoline: a pointer to its entry record and the bridge's address are literals. */
  function TrampolineCode(entry: int, bridge: int): seq<int> {
    Linked(TrampolineWords(), TrampolineLabels(entry, bridge))
  }

  const TRAMPOLINE_SIZE: int := 13
  const BRIDGE_SIZE: int := 57
  const CONTEXT_SIZE: int := 400
  const FRAME_SIZE: int := CONTEXT_SIZE + 16

  /** Words 0 to 20 of the bridge: q0-q7 and x1-x30 are saved. */
  function SaveWord(p: int): int {
    if p == 0 then EncSubImm(SP, SP, 128)
    else if p < 5 then EncStpQ(8 - 2 * p, 9 - 2 * p, SP, 16 * (8 - 2 * p))
    else if p == 5 then EncSubImm(SP, SP, 240)
    else EncStpX(41 - 2 * p, 42 - 2 * p, SP, 8 * (40 - 2 * p))
  }

  /** Words 21 to 33: x0 and the original stack pointer are saved and the handler is called. */
  function CallWord(handler: int, p: int): int {
    if p == 21 then EncSubImm(SP, SP, 16)
    else if p == 22 then EncStrX(0, SP, 8)
    else if p == 23 then EncAddImm(TMP_REG_0, SP, 16)
    else if p == 24 then EncAddImm(TMP_REG_0, TMP_REG_0, 384)
    else if p == 25 then EncSubImm(SP, SP, 16)
    else if p == 26 then EncStrX(TMP_REG_0, SP, 8)
    else if p == 27 then EncAddImm(0, SP, 0)
    else if p == 28 then EncLdrX(1, SP, CONTEXT_SIZE)
    else if p == 29 then EncMovz(TMP_REG_0, Half(handler, 0), 0)
    else if p == 30 then EncMovk(TMP_REG_0, Half(handler, 1), 16)
    else if p == 31 then EncMovk(TMP_REG_0, Half(handler, 2), 32)
    else if p == 32 then EncMovk(TMP_REG_0, Half(handler, 3), 48)
    else EncBlr(TMP_REG_0)
  }

  /** Words 34 to 56: x0-x30 and q0-q7 are restored. */
  function RestoreWord(p: int): int {
    if p == 34 then EncAddImm(SP, SP, 16)
    else if p == 35 then EncLdrX(0, SP, 8)
    else if p == 36 then EncAddImm(SP, SP, 16)
    else if p < 52 then EncLdpXPost(2 * p - 73, 2 * p - 72, SP, 16)
    else if p < 56 then EncLdpQPost(2 * p - 104, 2 * p - 103, SP, 32)
    else RET
  }

  /** Word p of the bridge emitted by `get_closure_bridge`. */
  function BridgeWord(handler: int, p: int): int {
    if p < 21 then SaveWord(p) else if p < 34 then CallWord(handler, p) else RestoreWord(p)
  }

  function BridgeCode(handler: int): (r: seq<int>)
    ensures |r| == BRIDGE_SIZE && forall p :: 0 <= p < BRIDGE_SIZE ==> r[p] == BridgeWord(handler, p)
  {
    seq(BRIDGE_SIZE, p => BridgeWord(handler, p))
  }

  // ----- DobbyRegisterContext -----

  /** Offsets of the saved registers in the context. */
  function XSlot(r: int): int { 24 + 8 * r }

  function QSlot(r: int): int { 272 + 16 * r }

  const SP_SLOT: int := 8

  // ----- memory -----

  predicate Room(a: int, n: int) { 0 <= a && a + n < TWO_64 }

  lemma LoadAfterStore(m: Memory, a: int, v: int, b: int)
    requires Room(a, 8) && Room(b, 8)
    ensures a == b ==> Ld64(St64(m, a, v), b) == v
    ensures a + 8 <= b || b + 8 <= a ==> Ld64(St64(m, a, v), b) == Ld64(m, b)
  {
    DivUnique(a + 4, TWO_64, 0, a + 4);
    DivUnique(b + 4, TWO_64, 0, b + 4);
  }

  lemma WordAfterStore(m: Memory, a: int, v: int, b: int)
    requires Room(a, 8) && (b < a || a + 8 <= b)
    ensures Ld32(St64(m, a, v), b) == Ld32(m, b)
  {
    DivUnique(a + 4, TWO_64, 0, a + 4);
  }

  /** m' differs from m at most inside [lo, hi). */
  ghost predicate SameOutsideRange(m: Memory, m': Memory, lo: int, hi: int) {
    forall b :: b < lo || hi <= b ==> Ld32(m', b) == Ld32(m, b)
  }

  lemma LoadOutside(m: Memory, m': Memory, lo: int, hi: int, b: int)
    requires SameOutsideRange(m, m', lo, hi) && Room(b, 8) && (b + 8 <= lo || hi <= b)
    ensures Ld64(m', b) == Ld64(m, b)
  {
    DivUnique(b + 4, TWO_64, 0, b + 4);
  }

  lemma PlacedOutside(m: Memory, m': Memory, lo: int, hi: int, base: int, code: seq<int>)
    requires Placed(m, base, code) && SameOutsideRange(m, m', lo, hi) && Apart(lo, hi - lo, base, 4 * |code|)
    ensures Placed(m', base, code)
  {
  }

  // ----- single steps -----

  /** `sub sp, sp, #imm` */
  lemma SubSpStep(ext: Extension, d: Data, base: int, code: seq<int>, p: nat, imm: int)
    requires Placed(d.mem, base, code) && p < |code| && code[p] == EncSubImm(SP, SP, imm)
    requires 0 <= imm < 0x1000 && imm <= d.sp < TWO_64
    ensures Reaches(ext, State(d, base + 4 * p), 1, base, base + 4 * |code|,
                    State(d.(sp := d.sp - imm), base + 4 * (p + 1)))
  {
    hide Decode, Reaches, EncSubImm, Placed, Wrap;
    DecodeAddSubImm(SP, SP, imm);
    WrapInside(d.sp - imm);
    DataStep(ext, d, base, code, p, SubImm(SP, SP, imm));
  }

  /** `add sp, sp, #imm` */
  lemma AddSpStep(ext: Extension, d: Data, base: int, code: seq<int>, p: nat, imm: int)
    requires Placed(d.mem, base, code) && p < |code| && code[p] == EncAddImm(SP, SP, imm)
    requires 0 <= imm < 0x1000 && 0 <= d.sp && d.sp + imm < TWO_64
    ensures Reaches(ext, State(d, base + 4 * p), 1, base, base + 4 * |code|,
                    State(d.(sp := d.sp + imm), base + 4 * (p + 1)))
  {
    hide Decode, Reaches, EncAddImm, Placed, Wrap;
    DecodeAddSubImm(SP, SP, imm);
    WrapInside(d.sp + imm);
    DataStep(ext, d, base, code, p, AddImm(SP, SP, imm));
  }

  /** `add rd, rn, #imm` into a register. */
  lemma AddStep(ext: Extension, d: Data, base: int, code: seq<int>, p: nat, rd: int, rn: int, imm: int)
    requires Placed(d.mem, base, code) && p < |code| && code[p] == EncAddImm(rd, rn, imm) && 0 <= rd < 31 && IsReg(rn)
    requires 0 <= imm < 0x1000 && 0 <= XSP(d, rn) && XSP(d, rn) + imm < TWO_64
    ensures Reaches(ext, State(d, base + 4 * p), 1, base, base + 4 * |code|,
                    State(SetX(d, rd, XSP(d, rn) + imm), base + 4 * (p + 1)))
  {
    hide Decode, Reaches, EncAddImm, Placed, Wrap, XSP, SetX;
    DecodeAddSubImm(rd, rn, imm);
    WrapInside(XSP(d, rn) + imm);
    DataStep(ext, d, base, code, p, AddImm(rd, rn, imm));
  }

  /** `str rt, [sp, #imm]` */
  lemma StrStep(ext: Extension, d: Data, base: int, code: seq<int>, p: nat, rt: int, imm: int)
    requires Placed(d.mem, base, code) && p < |code| && code[p] == EncStrX(rt, SP, imm) && IsReg(rt)
    requires imm % 8 == 0 && 0 <= imm < 0x8000 && 0 <= d.sp && d.sp + imm < TWO_64
    ensures Reaches(ext, State(d, base + 4 * p), 1, base, base + 4 * |code|,
                    State(d.(mem := St64(d.mem, d.sp + imm, X(d, rt))), base + 4 * (p + 1)))
  {
    hide Decode, Reaches, EncStrX, Placed, Wrap, X, St64;
    DecodeLoadStore(rt, SP, imm);
    WrapInside(d.sp + imm);
    DataStep(ext, d, base, code, p, StrX(rt, SP, imm));
  }

  /** `ldr rt, [sp, #imm]` */
  lemma LdrStep(ext: Extension, d: Data, base: int, code: seq<int>, p: nat, rt: int, imm: int)
    requires Placed(d.mem, base, code) && p < |code| && code[p] == EncLdrX(rt, SP, imm) && IsReg(rt)
    requires imm % 8 == 0 && 0 <= imm < 0x8000 && 0 <= d.sp && d.sp + imm < TWO_64
    ensures Reaches(ext, State(d, base + 4 * p), 1, base, base + 4 * |code|,
                    State(SetX(d, rt, Ld64(d.mem, d.sp + imm)), base + 4 * (p + 1)))
  {
    hide Decode, Reaches, EncLdrX, Placed, Wrap, SetX, Ld64;
    DecodeLoadStore(rt, SP, imm);
    WrapInside(d.sp + imm);
    DataStep(ext, d, base, code, p, LdrX(rt, SP, imm));
  }

  /** `stp rt, rt2, [sp, #imm]` */
  lemma StpStep(ext: Extension, d: Data, base: int, code: seq<int>, p: nat, rt: int, rt2: int, imm: int)
    requires Placed(d.mem, base, code) && p < |code| && code[p] == EncStpX(rt, rt2, SP, imm) && IsReg(rt) && IsReg(rt2)
    requires imm % 8 == 0 && 0 <= imm < 0x200 && 0 <= d.sp && d.sp + imm + 8 < TWO_64
    ensures Reaches(ext, State(d, base + 4 * p), 1, base, base + 4 * |code|,
                    State(d.(mem := St64(St64(d.mem, d.sp + imm, X(d, rt)), d.sp + imm + 8, X(d, rt2))),
                          base + 4 * (p + 1)))
  {
    hide Decode, Reaches, EncStpX, Placed, Wrap, X, St64;
    DecodePairX(rt, rt2, SP, imm);
    WrapInside(d.sp + imm);
    WrapInside(d.sp + imm + 8);
    DataStep(ext, d, base, code, p, StpX(rt, rt2, SP, imm));
  }

  /** `stp qt, qt2, [sp, #imm]` */
  lemma StpQStep(ext: Extension, d: Data, base: int, code: seq<int>, p: nat, rt: int, rt2: int, imm: int)
    requires Placed(d.mem, base, code) && p < |code| && code[p] == EncStpQ(rt, rt2, SP, imm) && IsReg(rt) && IsReg(rt2)
    requires imm % 16 == 0 && 0 <= imm < 0x400 && 0 <= d.sp && d.sp + imm + 16 < TWO_64
    ensures Reaches(ext, State(d, base + 4 * p), 1, base, base + 4 * |code|,
                    State(d.(mem := St128(St128(d.mem, d.sp + imm, Q(d, rt)), d.sp + imm + 16, Q(d, rt2))),
                          base + 4 * (p + 1)))
  {
    hide Decode, Reaches, EncStpQ, Placed, Wrap, Q, St128;
    DecodePairQ(rt, rt2, SP, imm);
    WrapInside(d.sp + imm);
    WrapInside(d.sp + imm + 16);
    DataStep(ext, d, base, code, p, StpQ(rt, rt2, SP, imm));
  }

  lemma LoadAfterStoreQ(m: Memory, a: int, v: int, b: int)
    requires Room(a, 16) && Room(b, 16)
    ensures a == b ==> Ld128(St128(m, a, v), b) == v
    ensures a + 16 <= b || b + 16 <= a ==> Ld128(St128(m, a, v), b) == Ld128(m, b)
    ensures SameOutsideRange(m, St128(m, a, v), a, a + 16)
  {
    hide St64, Ld64, Ld32;
    WrapInside(a + 8);
    WrapInside(b + 8);
    var m1 := St64(m, a, v % TWO_64);
    LoadAfterStore(m, a, v % TWO_64, b);
    LoadAfterStore(m, a, v % TWO_64, b + 8);
    LoadAfterStore(m1, a + 8, v / TWO_64, b);
    LoadAfterStore(m1, a + 8, v / TWO_64, b + 8);
    forall c | c < a || a + 16 <= c ensures Ld32(St128(m, a, v), c) == Ld32(m, c) {
      WordAfterStore(m, a, v % TWO_64, c);
      WordAfterStore(m1, a + 8, v / TWO_64, c);
    }
  }

  lemma SameOutsideTrans(m: Memory, m1: Memory, m2: Memory, lo: int, hi: int, lo': int, hi': int)
    requires SameOutsideRange(m, m1, lo, hi) && SameOutsideRange(m1, m2, lo', hi') && lo <= lo' && hi' <= hi
    ensures SameOutsideRange(m, m2, lo, hi)
  {}

  // ----- saving -----

  /** q registers from `from` on are saved at s; only [s, s + 128) was written. */
  ghost predicate SavedQ(d: Data, m: Memory, s: int, from: int) {
    SameOutsideRange(d.mem, m, s, s + 128) && forall r :: from <= r < 8 ==> Ld128(m, s + 16 * r) == Q(d, r)
  }

  /** The four stores of q6-q7 down to q0-q1, from word p on. */
  lemma {:induction false} SaveQRuns(ext: Extension, d: Data, m: Memory, base: int, handler: int, p: nat)
    returns (m': Memory)
    requires 1 <= p <= 5 && Room(d.sp, 128) && Placed(d.mem, base, BridgeCode(handler))
    requires Apart(d.sp, 128, base, 4 * BRIDGE_SIZE) && SavedQ(d, m, d.sp, 10 - 2 * p)
    ensures Reaches(ext, State(d.(mem := m), base + 4 * p), 5 - p, base, base + 4 * BRIDGE_SIZE,
                    State(d.(mem := m'), base + 4 * 5))
    ensures SavedQ(d, m', d.sp, 0)
    decreases 5 - p
  {
    hide Reaches, EncStpQ, Ld128, St128, BridgeCode, SameOutsideRange, Placed, RestoreWord, CallWord;
    if p == 5 {
      m' := m;
      assert Reaches(ext, State(d.(mem := m), base + 4 * 5), 0, base, base + 4 * BRIDGE_SIZE,
                     State(d.(mem := m), base + 4 * 5)) by {
        ReachesSelf(ext, State(d.(mem := m), base + 4 * 5), base, base + 4 * BRIDGE_SIZE);
      }
    } else {
      var s, r, c := d.sp, 8 - 2 * p, BridgeCode(handler);
      var a := s + 16 * r;
      PlacedOutside(d.mem, m, s, s + 128, base, c);
      StpQStep(ext, d.(mem := m), base, c, p, r, r + 1, 16 * r);
      var m1 := St128(m, a, Q(d, r));
      var m2 := St128(m1, a + 16, Q(d, r + 1));
      forall k | r <= k < 8 ensures Ld128(m2, s + 16 * k) == Q(d, k) {
        LoadAfterStoreQ(m, a, Q(d, r), s + 16 * k);
        LoadAfterStoreQ(m1, a + 16, Q(d, r + 1), s + 16 * k);
      }
      LoadAfterStoreQ(m, a, Q(d, r), a);
      LoadAfterStoreQ(m1, a + 16, Q(d, r + 1), a);
      SameOutsideTrans(d.mem, m, m1, s, s + 128, a, a + 16);
      SameOutsideTrans(d.mem, m1, m2, s, s + 128, a + 16, a + 32);
      m' := SaveQRuns(ext, d, m2, base, handler, p + 1);
      ReachesTrans(ext, State(d.(mem := m), base + 4 * p), 1, State(d.(mem := m2), base + 4 * (p + 1)), 5 - (p + 1),
                   State(d.(mem := m'), base + 4 * 5), base, base + 4 * BRIDGE_SIZE);
    }
  }

  lemma ReachesSelf(ext: Extension, s: State, lo: int, hi: int)
    ensures Reaches(ext, s, 0, lo, hi, s)
  {}

  /** x registers from `from` to x30 are saved at s; only [s, s + 240) was written. */
  ghost predicate SavedX(d: Data, m: Memory, s: int, from: int) {
    SameOutsideRange(d.mem, m, s, s + 240) && forall r :: from <= r <= 30 ==> Ld64(m, s + 8 * (r - 1)) == X(d, r)
  }

  /** The fifteen stores of x29-x30 down to x1-x2, from word p on. */
  lemma {:induction false} SaveXRuns(ext: Extension, d: Data, m: Memory, base: int, handler: int, p: nat)
    returns (m': Memory)
    requires 6 <= p <= 21 && Room(d.sp, 240) && Placed(d.mem, base, BridgeCode(handler))
    requires Apart(d.sp, 240, base, 4 * BRIDGE_SIZE) && SavedX(d, m, d.sp, 43 - 2 * p)
    ensures Reaches(ext, State(d.(mem := m), base + 4 * p), 21 - p, base, base + 4 * BRIDGE_SIZE,
                    State(d.(mem := m'), base + 4 * 21))
    ensures SavedX(d, m', d.sp, 1)
    decreases 21 - p
  {
    hide Reaches, EncStpX, Ld64, St64, BridgeCode, SameOutsideRange, Placed, RestoreWord, CallWord;
    if p == 21 {
      m' := m;
      ReachesSelf(ext, State(d.(mem := m), base + 4 * 21), base, base + 4 * BRIDGE_SIZE);
    } else {
      var s, r, c := d.sp, 41 - 2 * p, BridgeCode(handler);
      var a := s + 8 * (r - 1);
      PlacedOutside(d.mem, m, s, s + 240, base, c);
      StpStep(ext, d.(mem := m), base, c, p, r, r + 1, 8 * (r - 1));
      var m1 := St64(m, a, X(d, r));
      var m2 := St64(m1, a + 8, X(d, r + 1));
      forall k | r <= k <= 30 ensures Ld64(m2, s + 8 * (k - 1)) == X(d, k) {
        LoadAfterStore(m, a, X(d, r), s + 8 * (k - 1));
        LoadAfterStore(m1, a + 8, X(d, r + 1), s + 8 * (k - 1));
      }
      StoreRange(m, a, X(d, r));
      StoreRange(m1, a + 8, X(d, r + 1));
      SameOutsideTrans(d.mem, m, m1, s, s + 240, a, a + 8);
      SameOutsideTrans(d.mem, m1, m2, s, s + 240, a + 8, a + 16);
      m' := SaveXRuns(ext, d, m2, base, handler, p + 1);
      ReachesTrans(ext, State(d.(mem := m), base + 4 * p), 1, State(d.(mem := m2), base + 4 * (p + 1)), 21 - (p + 1),
                   State(d.(mem := m'), base + 4 * 21), base, base + 4 * BRIDGE_SIZE);
    }
  }

  lemma StoreRange(m: Memory, a: int, v: int)
    requires Room(a, 8)
    ensures SameOutsideRange(m, St64(m, a, v), a, a + 8)
  {
    hide St64;
    forall b | b < a || a + 8 <= b ensures Ld32(St64(m, a, v), b) == Ld32(m, b) {
      WordAfterStore(m, a, v, b);
    }
  }

  // ----- the trampoline up to the bridge -----

  lemma TrampolineLayout(entry: int, bridge: int)
    ensures var c := TrampolineCode(entry, bridge);
      && |c| == TRAMPOLINE_SIZE
      && (forall p :: 0 <= p < 9 && p != 2 && p != 4 ==> c[p] == TrampolineWords()[p])
      && LoadsDatum(c, 2, TMP_REG_0, entry) && LoadsDatum(c, 4, TMP_REG_0, bridge)
  {
    hide LoadsDatum, EncLdrLiteralX, EncSubImm, EncAddImm, EncStrX, EncLdrX, EncBr, EncBlr, Linked;
    var words, labels := TrampolineWords(), TrampolineLabels(entry, bridge);
    var c := TrampolineCode(entry, bridge);
    LinkingIsCorrect(words, labels, c);
    forall p | 0 <= p < 9 && p != 2 && p != 4 ensures c[p] == words[p] {
      assert Unrecorded(labels, p);
    }
    assert labels[0].refs[0] == 2 && labels[1].refs[0] == 4;
  }

  /** Only the stack pointer, x17, x30 and memory differ. */
  ghost predicate SameBut(d: Data, d': Data) {
    && (forall r :: r != TMP_REG_0 && r != 30 ==> X(d', r) == X(d, r))
    && d'.q == d.q && d'.flags == d.flags
  }

  /** What the trampoline leaves on the stack below S. */
  ghost predicate AtBridge(d: Data, d': Data, tb: int, entry: int, bridge: int) {
    var s := d.sp;
    && SameBut(d, d') && d'.sp == s - 16
    && X(d', TMP_REG_0) == bridge && X(d', 30) == tb + 24
    && SameOutsideRange(d.mem, d'.mem, s - 16, s)
    && Ld64(d'.mem, s - 8) == X(d, 30) && Ld64(d'.mem, s - 16) == entry
  }

  lemma TrampolineEnters(ext: Extension, d: Data, tb: int, entry: int, bridge: int) returns (d': Data)
    requires Placed(d.mem, tb, TrampolineCode(entry, bridge))
    requires 16 <= d.sp < TWO_64 && Apart(d.sp - 16, 16, tb, 4 * TRAMPOLINE_SIZE)
    ensures Reaches(ext, State(d, tb), 6, tb, tb + 4 * TRAMPOLINE_SIZE, State(d', bridge))
    ensures AtBridge(d, d', tb, entry, bridge)
  {
    hide Decode, Reaches, LoadsDatum, EncSubImm, EncAddImm, EncStrX, EncLdrX, EncBr, EncBlr, Ld64, St64,
         SameOutsideRange, Placed;
    hide TrampolineCode, EncLdrLiteralX;
    var c, s, hi := TrampolineCode(entry, bridge), d.sp, tb + 4 * TRAMPOLINE_SIZE;
    TrampolineLayout(entry, bridge);
    SubSpStep(ext, d, tb, c, 0, 16);
    var d1 := d.(sp := s - 16);
    StrStep(ext, d1, tb, c, 1, 30, 8);
    var d2 := d1.(mem := St64(d.mem, s - 8, X(d, 30)));
    StoreRange(d.mem, s - 8, X(d, 30));
    PlacedOutside(d.mem, d2.mem, s - 8, s, tb, c);
    var d3 := LoadRuns(ext, d2, tb, c, 2, TMP_REG_0, entry);
    StrStep(ext, d3, tb, c, 3, TMP_REG_0, 0);
    var d4 := d3.(mem := St64(d3.mem, s - 16, entry));
    StoreRange(d3.mem, s - 16, entry);
    PlacedOutside(d3.mem, d4.mem, s - 16, s - 8, tb, c);
    d' := LongBranchRuns(ext, d4, tb, c, 4, bridge, true);
    var d5 :| SetsOnly(d4, d5, TMP_REG_0, bridge) && SetsOnly(d5, d', 30, tb + 4 * (4 + 2));
    assert SameBut(d, d') by {
      assert forall r :: X(d2, r) == X(d, r);
      assert forall r :: X(d4, r) == X(d3, r);
    }
    LoadAfterStore(d3.mem, s - 16, entry, s - 16);
    LoadAfterStore(d3.mem, s - 16, entry, s - 8);
    LoadAfterStore(d.mem, s - 8, X(d, 30), s - 8);
    SameOutsideSelf(d.mem, s - 16, s);
    SameOutsideTrans(d.mem, d.mem, d2.mem, s - 16, s, s - 8, s);
    SameOutsideTrans(d.mem, d2.mem, d4.mem, s - 16, s, s - 16, s - 8);
    ReachesTrans(ext, State(d, tb + 4 * 0), 1, State(d1, tb + 4 * 1), 1, State(d2, tb + 4 * 2), tb, hi);
    ReachesTrans(ext, State(d, tb + 4 * 0), 2, State(d2, tb + 4 * 2), 1, State(d3, tb + 4 * 3), tb, hi);
    ReachesTrans(ext, State(d, tb + 4 * 0), 3, State(d3, tb + 4 * 3), 1, State(d4, tb + 4 * 4), tb, hi);
    ReachesTrans(ext, State(d, tb + 4 * 0), 4, State(d4, tb + 4 * 4), 2, State(d', bridge), tb, hi);
    assert tb + 4 * 0 == tb;
  }

  lemma SameOutsideSelf(m: Memory, lo: int, hi: int)
    ensures SameOutsideRange(m, m, lo, hi)
  {}

  // ----- the bridge up to the handler -----

  lemma LoadOutsideQ(m: Memory, m': Memory, lo: int, hi: int, b: int)
    requires SameOutsideRange(m, m', lo, hi) && Room(b, 16) && (b + 16 <= lo || hi <= b)
    ensures Ld128(m', b) == Ld128(m, b)
  {
    hide Ld64, SameOutsideRange;
    WrapInside(b + 8);
    LoadOutside(m, m', lo, hi, b);
    LoadOutside(m, m', lo, hi, b + 8);
  }

  /** x1-x30 and q0-q7 of d lie in the context at ctx. */
  ghost predicate Holds(d: Data, m: Memory, ctx: int) {
    && (forall r :: 1 <= r <= 30 ==> Ld64(m, ctx + XSlot(r)) == X(d, r))
    && (forall r :: 0 <= r < 8 ==> Ld128(m, ctx + QSlot(r)) == Q(d, r))
  }

  lemma HoldsOutside(d: Data, m: Memory, m': Memory, ctx: int)
    requires Holds(d, m, ctx) && SameOutsideRange(m, m', ctx, ctx + 32) && Room(ctx, CONTEXT_SIZE)
    ensures Holds(d, m', ctx)
  {
    hide SameOutsideRange, Ld64, Ld128;
    forall r | 1 <= r <= 30 ensures Ld64(m', ctx + XSlot(r)) == X(d, r) {
      LoadOutside(m, m', ctx, ctx + 32, ctx + XSlot(r));
    }
    forall r | 0 <= r < 8 ensures Ld128(m', ctx + QSlot(r)) == Q(d, r) {
      LoadOutsideQ(m, m', ctx, ctx + 32, ctx + QSlot(r));
    }
  }

  /** Words 0 to 20: the registers other than x0 are saved above the stack pointer. */
  lemma BridgeSaves(ext: Extension, d: Data, bb: int, handler: int) returns (m: Memory)
    requires Placed(d.mem, bb, BridgeCode(handler))
    requires CONTEXT_SIZE <= d.sp && d.sp < TWO_64 && Apart(d.sp - CONTEXT_SIZE, CONTEXT_SIZE, bb, 4 * BRIDGE_SIZE)
    ensures Reaches(ext, State(d, bb), 21, bb, bb + 4 * BRIDGE_SIZE, State(d.(sp := d.sp - 368, mem := m), bb + 4 * 21))
    ensures Holds(d, m, d.sp - CONTEXT_SIZE) && SameOutsideRange(d.mem, m, d.sp - CONTEXT_SIZE, d.sp)
  {
    hide Decode, Reaches, EncSubImm, Ld64, Ld128, BridgeCode, SameOutsideRange, Placed;
    var c, t, hi := BridgeCode(handler), d.sp, bb + 4 * BRIDGE_SIZE;
    SubSpStep(ext, d, bb, c, 0, 128);
    var d1 := d.(sp := t - 128);
    SameOutsideSelf(d.mem, t - 128, t);
    var m1 := SaveQRuns(ext, d1, d.mem, bb, handler, 1);
    var d2 := d1.(mem := m1);
    PlacedOutside(d.mem, m1, t - 128, t, bb, c);
    SubSpStep(ext, d2, bb, c, 5, 240);
    var d3 := d2.(sp := t - 368);
    SameOutsideSelf(m1, t - 368, t - 128);
    m := SaveXRuns(ext, d3, m1, bb, handler, 6);
    var d4 := d3.(mem := m);
    ReachesTrans(ext, State(d, bb + 4 * 0), 1, State(d1, bb + 4 * 1), 4, State(d2, bb + 4 * 5), bb, hi);
    ReachesTrans(ext, State(d, bb + 4 * 0), 5, State(d2, bb + 4 * 5), 1, State(d3, bb + 4 * 6), bb, hi);
    ReachesTrans(ext, State(d, bb + 4 * 0), 6, State(d3, bb + 4 * 6), 15, State(d4, bb + 4 * 21), bb, hi);
    assert bb + 4 * 0 == bb && d4 == d.(sp := d.sp - 368, mem := m);
    SavedHolds(d, d3, m1, m, t - CONTEXT_SIZE);
    SavedRange(d.mem, m1, m, t);
  }

  lemma SavedRange(m: Memory, m1: Memory, m2: Memory, t: int)
    requires SameOutsideRange(m, m1, t - 128, t) && SameOutsideRange(m1, m2, t - 368, t - 128)
    ensures SameOutsideRange(m, m2, t - CONTEXT_SIZE, t)
  {}

  lemma SavedHolds(d: Data, d': Data, m1: Memory, m: Memory, ctx: int)
    requires SavedQ(d.(sp := ctx + 272), m1, ctx + 272, 0) && d'.mem == m1 && SavedX(d', m, ctx + 32, 1)
    requires (forall r :: X(d', r) == X(d, r)) && Room(ctx, CONTEXT_SIZE)
    ensures Holds(d, m, ctx)
  {
    hide SameOutsideRange, Ld64, Ld128;
    forall r | 0 <= r < 8 ensures Ld128(m, ctx + QSlot(r)) == Q(d, r) {
      assert Q(d.(sp := ctx + 272), r) == Q(d, r);
      LoadOutsideQ(m1, m, ctx + 32, ctx + 272, ctx + QSlot(r));
    }
    forall r | 1 <= r <= 30 ensures Ld64(m, ctx + XSlot(r)) == X(d, r) {
      assert Ld64(m, ctx + 32 + 8 * (r - 1)) == X(d', r);
    }
  }

  /** What the handler finds: its arguments, its return address and the entry values in the context. */
  ghost predicate AtHandler(d: Data, d': Data, bb: int) {
    var ctx := d.sp - CONTEXT_SIZE;
    && SameMost(d, d') && d'.sp == ctx
    && X(d', 0) == ctx && X(d', 1) == Ld64(d.mem, d.sp) && X(d', 30) == bb + 4 * 34
    && SameOutsideRange(d.mem, d'.mem, ctx, d.sp)
    && Holds(d, d'.mem, ctx) && Ld64(d'.mem, ctx + XSlot(0)) == X(d, 0)
    && Ld64(d'.mem, ctx + SP_SLOT) == d.sp + 16
  }

  /** Only x0, x1, x17, x30, the stack pointer and memory differ. */
  ghost predicate SameMost(d: Data, d': Data) {
    && (forall r :: r != 0 && r != 1 && r != TMP_REG_0 && r != 30 ==> X(d', r) == X(d, r))
    && d'.q == d.q && d'.flags == d.flags
  }

  /** Words 21 to 28: x0 and the entry stack pointer are stored, the arguments set. */
  lemma BridgeArguments(ext: Extension, d: Data, bb: int, handler: int) returns (d': Data)
    requires Placed(d.mem, bb, BridgeCode(handler))
    requires 32 <= d.sp && d.sp + 384 < TWO_64 && Apart(d.sp - 32, 32, bb, 4 * BRIDGE_SIZE)
    ensures Reaches(ext, State(d, bb + 4 * 21), 8, bb, bb + 4 * BRIDGE_SIZE, State(d', bb + 4 * 29))
    ensures var ctx := d.sp - 32;
      && SameMost(d, d') && d'.sp == ctx && X(d', 0) == ctx && X(d', 1) == Ld64(d'.mem, ctx + CONTEXT_SIZE)
      && SameOutsideRange(d.mem, d'.mem, ctx, ctx + 32)
      && Ld64(d'.mem, ctx + XSlot(0)) == X(d, 0)
      && Ld64(d'.mem, ctx + SP_SLOT) == ctx + CONTEXT_SIZE + 16
  {
    hide Reaches, Ld64, St64, BridgeCode, SameOutsideRange, Placed;
    var ctx, hi := d.sp - 32, bb + 4 * BRIDGE_SIZE;
    var d1 := StoreX0(ext, d, bb, handler);
    StoreRange(d.mem, ctx + 24, X(d, 0));
    PlacedOutside(d.mem, d1.mem, ctx + 24, ctx + 32, bb, BridgeCode(handler));
    d' := StoreSp(ext, d1, bb, handler);
    ReachesTrans(ext, State(d, bb + 4 * 21), 4, State(d1, bb + 4 * 25), 4, State(d', bb + 4 * 29), bb, hi);
    TwoStores(d.mem, ctx, X(d, 0), ctx + 416);
  }

  /** Words 21 to 24. */
  lemma StoreX0(ext: Extension, d: Data, bb: int, handler: int) returns (d': Data)
    requires Placed(d.mem, bb, BridgeCode(handler))
    requires 16 <= d.sp && d.sp + 384 < TWO_64 && Apart(d.sp - 16, 16, bb, 4 * BRIDGE_SIZE)
    ensures Reaches(ext, State(d, bb + 4 * 21), 4, bb, bb + 4 * BRIDGE_SIZE, State(d', bb + 4 * 25))
    ensures SetsOnly(d.(sp := d.sp - 16, mem := St64(d.mem, d.sp - 8, X(d, 0))), d', TMP_REG_0, d.sp + 384)
  {
    hide SaveWord, RestoreWord, Reaches, EncSubImm, EncAddImm, EncStrX, EncLdrX, Ld64, St64, BridgeCode,
         SameOutsideRange, Placed;
    var c, s, hi := BridgeCode(handler), d.sp, bb + 4 * BRIDGE_SIZE;
    SubSpStep(ext, d, bb, c, 21, 16);
    var a1 := d.(sp := s - 16);
    StrStep(ext, a1, bb, c, 22, 0, 8);
    var a2 := a1.(mem := St64(d.mem, s - 8, X(d, 0)));
    StoreRange(d.mem, s - 8, X(d, 0));
    PlacedOutside(d.mem, a2.mem, s - 8, s, bb, c);
    AddStep(ext, a2, bb, c, 23, TMP_REG_0, SP, 16);
    var a3 := SetX(a2, TMP_REG_0, s);
    AddStep(ext, a3, bb, c, 24, TMP_REG_0, TMP_REG_0, 384);
    d' := SetX(a3, TMP_REG_0, s + 384);
    Chain3(ext, bb, handler, 21, d, a1, a2, a3);
    ReachesTrans(ext, State(d, bb + 4 * 21), 3, State(a3, bb + 4 * 24), 1, State(d', bb + 4 * 25), bb, hi);
  }

  /** Words 25 to 28. */
  lemma StoreSp(ext: Extension, d: Data, bb: int, handler: int) returns (d': Data)
    requires Placed(d.mem, bb, BridgeCode(handler))
    requires 16 <= d.sp && d.sp + 384 < TWO_64 && Apart(d.sp - 16, 16, bb, 4 * BRIDGE_SIZE)
    ensures Reaches(ext, State(d, bb + 4 * 25), 4, bb, bb + 4 * BRIDGE_SIZE, State(d', bb + 4 * 29))
    ensures SameMost(d, d') && d'.sp == d.sp - 16 && d'.mem == St64(d.mem, d.sp - 8, X(d, TMP_REG_0))
    ensures X(d', 0) == d.sp - 16 && X(d', 1) == Ld64(d'.mem, d.sp + 384)
  {
    hide SaveWord, RestoreWord, Reaches, EncSubImm, EncAddImm, EncStrX, EncLdrX, Ld64, St64, BridgeCode,
         SameOutsideRange, Placed;
    var c, s, hi := BridgeCode(handler), d.sp, bb + 4 * BRIDGE_SIZE;
    SubSpStep(ext, d, bb, c, 25, 16);
    var a1 := d.(sp := s - 16);
    StrStep(ext, a1, bb, c, 26, TMP_REG_0, 8);
    var a2 := a1.(mem := St64(d.mem, s - 8, X(d, TMP_REG_0)));
    StoreRange(d.mem, s - 8, X(d, TMP_REG_0));
    PlacedOutside(d.mem, a2.mem, s - 8, s, bb, c);
    AddStep(ext, a2, bb, c, 27, 0, SP, 0);
    var a3 := SetX(a2, 0, s - 16);
    LdrStep(ext, a3, bb, c, 28, 1, CONTEXT_SIZE);
    d' := SetX(a3, 1, Ld64(a2.mem, s + 384));
    Chain3(ext, bb, handler, 25, d, a1, a2, a3);
    ReachesTrans(ext, State(d, bb + 4 * 25), 3, State(a3, bb + 4 * 28), 1, State(d', bb + 4 * 29), bb, hi);
  }

  /** The two stores of `BridgeArguments`. */
  lemma TwoStores(m: Memory, ctx: int, v: int, w: int)
    requires Room(ctx, 32)
    ensures var m' := St64(St64(m, ctx + 24, v), ctx + 8, w);
      SameOutsideRange(m, m', ctx, ctx + 32) && Ld64(m', ctx + 24) == v && Ld64(m', ctx + 8) == w
  {
    hide St64, Ld64, SameOutsideRange;
    var m1 := St64(m, ctx + 24, v);
    StoreRange(m, ctx + 24, v);
    StoreRange(m1, ctx + 8, w);
    SameOutsideSelf(m, ctx, ctx + 32);
    SameOutsideTrans(m, m, m1, ctx, ctx + 32, ctx + 24, ctx + 32);
    SameOutsideTrans(m, m1, St64(m1, ctx + 8, w), ctx, ctx + 32, ctx + 8, ctx + 16);
    LoadAfterStore(m, ctx + 24, v, ctx + 24);
    LoadAfterStore(m1, ctx + 8, w, ctx + 24);
    LoadAfterStore(m1, ctx + 8, w, ctx + 8);
  }

  lemma Chain3(ext: Extension, bb: int, handler: int, p: nat, a: Data, b: Data, c: Data, e: Data)
    requires Reaches(ext, State(a, bb + 4 * p), 1, bb, bb + 4 * BRIDGE_SIZE, State(b, bb + 4 * (p + 1)))
    requires Reaches(ext, State(b, bb + 4 * (p + 1)), 1, bb, bb + 4 * BRIDGE_SIZE, State(c, bb + 4 * (p + 2)))
    requires Reaches(ext, State(c, bb + 4 * (p + 2)), 1, bb, bb + 4 * BRIDGE_SIZE, State(e, bb + 4 * (p + 3)))
    ensures Reaches(ext, State(a, bb + 4 * p), 3, bb, bb + 4 * BRIDGE_SIZE, State(e, bb + 4 * (p + 3)))
  {
    hide Reaches;
    var hi := bb + 4 * BRIDGE_SIZE;
    ReachesTrans(ext, State(a, bb + 4 * p), 1, State(b, bb + 4 * (p + 1)), 1, State(c, bb + 4 * (p + 2)), bb, hi);
    ReachesTrans(ext, State(a, bb + 4 * p), 2, State(c, bb + 4 * (p + 2)), 1, State(e, bb + 4 * (p + 3)), bb, hi);
  }

  /** Words 29 to 33, `CallFunction`. */
  lemma BridgeCalls(ext: Extension, d: Data, bb: int, handler: int) returns (d': Data)
    requires Placed(d.mem, bb, BridgeCode(handler)) && 0 <= handler < TWO_64
    ensures Reaches(ext, State(d, bb + 4 * 29), 5, bb, bb + 4 * BRIDGE_SIZE, State(d', handler))
    ensures SameBut(d, d') && d'.sp == d.sp && d'.mem == d.mem && X(d', 30) == bb + 4 * 34
  {
    hide Decode, Reaches, EncMovz, EncMovk, EncBlr, Half, BridgeCode, Placed;
    var c := BridgeCode(handler);
    var d1 := MovRuns(ext, d, bb, c, 29, TMP_REG_0, handler);
    OneStep(ext, d1, bb, c, 33);
    DecodeBranchReg(TMP_REG_0);
    d' := SetX(d1, 30, bb + 4 * 34);
    assert StepInstr(ext, Decode(c[33]), State(d1, bb + 4 * 33)) == State(d', handler);
    ReachesTrans(ext, State(d, bb + 4 * 29), 4, State(d1, bb + 4 * 33), 1, State(d', handler), bb,
                 bb + 4 * BRIDGE_SIZE);
    assert forall r :: r != 30 ==> X(d', r) == X(d1, r);
  }

  /** The bridge, from its first word to the handler. */
  lemma BridgeEnters(ext: Extension, d: Data, bb: int, handler: int) returns (d': Data)
    requires Placed(d.mem, bb, BridgeCode(handler)) && 0 <= handler < TWO_64
    requires CONTEXT_SIZE <= d.sp && d.sp + 16 < TWO_64 && Apart(d.sp - CONTEXT_SIZE, CONTEXT_SIZE, bb, 4 * BRIDGE_SIZE)
    ensures Reaches(ext, State(d, bb), 34, bb, bb + 4 * BRIDGE_SIZE, State(d', handler))
    ensures AtHandler(d, d', bb)
  {
    hide Reaches, BridgeCode, Placed, SameOutsideRange, Ld64, Ld128;
    var c, ctx, hi := BridgeCode(handler), d.sp - CONTEXT_SIZE, bb + 4 * BRIDGE_SIZE;
    var m := BridgeSaves(ext, d, bb, handler);
    var d1 := d.(sp := d.sp - 368, mem := m);
    PlacedOutside(d.mem, m, ctx, d.sp, bb, c);
    var d2 := BridgeArguments(ext, d1, bb, handler);
    PlacedOutside(m, d2.mem, ctx, ctx + 32, bb, c);
    d' := BridgeCalls(ext, d2, bb, handler);
    ReachesTrans(ext, State(d, bb), 21, State(d1, bb + 4 * 21), 8, State(d2, bb + 4 * 29), bb, hi);
    ReachesTrans(ext, State(d, bb), 29, State(d2, bb + 4 * 29), 5, State(d', handler), bb, hi);
    HoldsOutside(d, m, d2.mem, ctx);
    SameOutsideTrans(d.mem, m, d2.mem, ctx, d.sp, ctx, ctx + 32);
    LoadOutside(d.mem, d2.mem, ctx, d.sp, d.sp);
    assert forall r :: X(d1, r) == X(d, r);
  }

  // ----- the way back -----

  /** x0 up to x(n - 1) hold their context values. */
  ghost predicate RestoredX(d: Data, ctx: int, n: int) {
    forall r :: 0 <= r < n ==> X(d, r) == Ld64(d.mem, ctx + XSlot(r))
  }

  ghost predicate RestoredQ(d: Data, ctx: int, n: int) {
    forall r :: 0 <= r < n ==> Q(d, r) == Ld128(d.mem, ctx + QSlot(r))
  }

  /** Registers x0-x30, the stack pointer and nothing else may differ. */
  predicate SameOtherThanX(d: Data, d': Data) {
    d'.mem == d.mem && d'.q == d.q && d'.flags == d.flags
  }

  /** The fifteen post-indexed loads of x1-x2 up to x29-x30, from word p on. */
  lemma {:induction false} RestoreXRuns(ext: Extension, d: Data, bb: int, handler: int, ctx: int, p: nat)
    returns (d': Data)
    requires 37 <= p <= 52 && Room(ctx, CONTEXT_SIZE) && Placed(d.mem, bb, BridgeCode(handler))
    requires d.sp == ctx + XSlot(2 * p - 73) && RestoredX(d, ctx, 2 * p - 73)
    ensures Reaches(ext, State(d, bb + 4 * p), 52 - p, bb, bb + 4 * BRIDGE_SIZE, State(d', bb + 4 * 52))
    ensures SameOtherThanX(d, d') && d'.sp == ctx + QSlot(0) && RestoredX(d', ctx, 31)
    decreases 52 - p
  {
    hide Decode, Reaches, EncLdpXPost, Ld64, BridgeCode, Placed;
    if p == 52 {
      d' := d;
      ReachesSelf(ext, State(d, bb + 4 * 52), bb, bb + 4 * BRIDGE_SIZE);
    } else {
      var r, c := 2 * p - 73, BridgeCode(handler);
      DecodePairX(r, r + 1, SP, 16);
      DataStep(ext, d, bb, c, p, LdpXPost(r, r + 1, SP, 16));
      WrapInside(d.sp + 8);
      WrapInside(d.sp + 16);
      var d1 := SetX(SetX(d, r, Ld64(d.mem, d.sp)), r + 1, Ld64(d.mem, d.sp + 8)).(sp := d.sp + 16);
      assert RestoredX(d1, ctx, r + 2) by {
        assert forall k :: k != r && k != r + 1 ==> X(d1, k) == X(d, k);
      }
      d' := RestoreXRuns(ext, d1, bb, handler, ctx, p + 1);
      ReachesTrans(ext, State(d, bb + 4 * p), 1, State(d1, bb + 4 * (p + 1)), 52 - (p + 1), State(d', bb + 4 * 52),
                   bb, bb + 4 * BRIDGE_SIZE);
    }
  }

  /** Registers q0-q7, the stack pointer and nothing else may differ. */
  ghost predicate SameOtherThanQ(d: Data, d': Data) {
    && d'.mem == d.mem && d'.x == d.x && d'.flags == d.flags
    && forall r :: r < 0 || 8 <= r ==> Q(d', r) == Q(d, r)
  }

  /** The four post-indexed loads of q0-q1 up to q6-q7, from word p on. */
  lemma {:induction false} RestoreQRuns(ext: Extension, d: Data, bb: int, handler: int, ctx: int, p: nat)
    returns (d': Data)
    requires 52 <= p <= 56 && Room(ctx, CONTEXT_SIZE) && Placed(d.mem, bb, BridgeCode(handler))
    requires d.sp == ctx + QSlot(2 * p - 104) && RestoredQ(d, ctx, 2 * p - 104)
    ensures Reaches(ext, State(d, bb + 4 * p), 56 - p, bb, bb + 4 * BRIDGE_SIZE, State(d', bb + 4 * 56))
    ensures SameOtherThanQ(d, d') && d'.sp == ctx + CONTEXT_SIZE && RestoredQ(d', ctx, 8)
    decreases 56 - p
  {
    hide Decode, Reaches, EncLdpQPost, Ld128, BridgeCode, Placed;
    if p == 56 {
      d' := d;
      ReachesSelf(ext, State(d, bb + 4 * 56), bb, bb + 4 * BRIDGE_SIZE);
    } else {
      var r, c := 2 * p - 104, BridgeCode(handler);
      DecodePairQ(r, r + 1, SP, 32);
      DataStep(ext, d, bb, c, p, LdpQPost(r, r + 1, SP, 32));
      WrapInside(d.sp + 16);
      WrapInside(d.sp + 32);
      var d1 := SetQ(SetQ(d, r, Ld128(d.mem, d.sp)), r + 1, Ld128(d.mem, d.sp + 16)).(sp := d.sp + 32);
      assert RestoredQ(d1, ctx, r + 2) by {
        assert forall k :: k != r && k != r + 1 ==> Q(d1, k) == Q(d, k);
      }
      d' := RestoreQRuns(ext, d1, bb, handler, ctx, p + 1);
      ReachesTrans(ext, State(d, bb + 4 * p), 1, State(d1, bb + 4 * (p + 1)), 56 - (p + 1), State(d', bb + 4 * 56),
                   bb, bb + 4 * BRIDGE_SIZE);
    }
  }

  /** Every saved register is what the context at ctx says; the context itself has been released. */
  ghost predicate Restored(d: Data, d': Data, ctx: int) {
    && RestoredX(d', ctx, 31) && RestoredQ(d', ctx, 8) && d'.sp == ctx + CONTEXT_SIZE
    && d'.mem == d.mem && d'.flags == d.flags
    && forall r :: r < 0 || 8 <= r ==> Q(d', r) == Q(d, r)
  }

  /** The bridge after the handler's return, for every data state in which the stack pointer is back. */
  lemma BridgeReturns(ext: Extension, d: Data, bb: int, handler: int) returns (d': Data)
    requires Placed(d.mem, bb, BridgeCode(handler)) && Room(d.sp, CONTEXT_SIZE)
    ensures Reaches(ext, State(d, bb + 4 * 34), 23, bb, bb + 4 * BRIDGE_SIZE, State(d', Ld64(d.mem, d.sp + XSlot(30))))
    ensures Restored(d, d', d.sp)
  {
    hide Decode, Reaches, EncAddImm, EncLdrX, Ld64, Ld128, BridgeCode, Placed;
    var c, ctx, hi := BridgeCode(handler), d.sp, bb + 4 * BRIDGE_SIZE;
    AddSpStep(ext, d, bb, c, 34, 16);
    var d1 := d.(sp := ctx + 16);
    LdrStep(ext, d1, bb, c, 35, 0, 8);
    var d2 := SetX(d1, 0, Ld64(d.mem, ctx + 24));
    AddSpStep(ext, d2, bb, c, 36, 16);
    var d3 := d2.(sp := ctx + 32);
    Chain3(ext, bb, handler, 34, d, d1, d2, d3);
    assert RestoredX(d3, ctx, 1);
    var d4 := RestoreXRuns(ext, d3, bb, handler, ctx, 37);
    d' := RestoreQRuns(ext, d4, bb, handler, ctx, 52);
    assert RestoredX(d', ctx, 31) by {
      assert forall r :: X(d', r) == X(d4, r);
    }
    BridgeRet(ext, d', bb, handler);
    assert X(d', 30) == Ld64(d.mem, ctx + XSlot(30));
    ReachesTrans(ext, State(d, bb + 4 * 34), 3, State(d3, bb + 4 * 37), 15, State(d4, bb + 4 * 52), bb, hi);
    ReachesTrans(ext, State(d, bb + 4 * 34), 18, State(d4, bb + 4 * 52), 4, State(d', bb + 4 * 56), bb, hi);
    ReachesTrans(ext, State(d, bb + 4 * 34), 22, State(d', bb + 4 * 56), 1, State(d', X(d', 30)), bb, hi);
  }

  lemma BridgeRet(ext: Extension, d: Data, bb: int, handler: int)
    requires Placed(d.mem, bb, BridgeCode(handler))
    ensures Reaches(ext, State(d, bb + 4 * 56), 1, bb, bb + 4 * BRIDGE_SIZE, State(d, X(d, 30)))
  {
    hide Decode, Reaches, BridgeCode, Placed;
    OneStep(ext, d, bb, BridgeCode(handler), 56);
    DecodeBranchReg(30);
    assert StepInstr(ext, Decode(BridgeCode(handler)[56]), State(d, bb + 4 * 56)) == State(d, X(d, 30));
  }

  /** The trampoline's epilogue: x30 is reloaded, the frame released, and control goes to x17. */
  lemma TrampolineLeaves(ext: Extension, d: Data, tb: int, entry: int, bridge: int) returns (d': Data)
    requires Placed(d.mem, tb, TrampolineCode(entry, bridge)) && 0 <= d.sp && d.sp + 16 < TWO_64
    ensures Reaches(ext, State(d, tb + 24), 3, tb, tb + 4 * TRAMPOLINE_SIZE, State(d', X(d, TMP_REG_0)))
    ensures d' == SetX(d, 30, Ld64(d.mem, d.sp + 8)).(sp := d.sp + 16)
  {
    hide Decode, Reaches, EncLdrX, EncAddImm, EncBr, Ld64, TrampolineCode, Placed, LoadsDatum;
    var c, s, hi := TrampolineCode(entry, bridge), d.sp, tb + 4 * TRAMPOLINE_SIZE;
    TrampolineLayout(entry, bridge);
    DecodeBranchReg(TMP_REG_0);
    LdrStep(ext, d, tb, c, 6, 30, 8);
    var d1 := SetX(d, 30, Ld64(d.mem, s + 8));
    AddSpStep(ext, d1, tb, c, 7, 16);
    d' := d1.(sp := s + 16);
    OneStep(ext, d', tb, c, 8);
    assert StepInstr(ext, Decode(c[8]), State(d', tb + 4 * 8)) == State(d', X(d, TMP_REG_0));
    ReachesTrans(ext, State(d, tb + 4 * 6), 1, State(d1, tb + 4 * 7), 1, State(d', tb + 4 * 8), tb, hi);
    ReachesTrans(ext, State(d, tb + 4 * 6), 2, State(d', tb + 4 * 8), 1, State(d', X(d, TMP_REG_0)), tb, hi);
  }

  // ----- the whole context switch -----

  /** Both programs are placed, and the 416 bytes below the stack pointer are apart from them. */
  ghost predicate Ready(d: Data, tb: int, entry: int, bb: int, handler: int) {
    && Placed(d.mem, tb, TrampolineCode(entry, bb)) && Placed(d.mem, bb, BridgeCode(handler)) && 0 <= handler < TWO_64
    && FRAME_SIZE <= d.sp < TWO_64
    && Apart(d.sp - FRAME_SIZE, FRAME_SIZE, tb, 4 * TRAMPOLINE_SIZE)
    && Apart(d.sp - FRAME_SIZE, FRAME_SIZE, bb, 4 * BRIDGE_SIZE)
  }

  /** The handler is called with the context and the entry record as arguments, and the context
      holds the entry values of x0-x16, x18-x29, q0-q7 and the stack pointer.  Its x17 is the
      bridge's address and its lr the trampoline's return point. */
  ghost predicate HandlerSees(d: Data, h: Data, tb: int, entry: int, bb: int) {
    var ctx := d.sp - FRAME_SIZE;
    && h.sp == ctx && X(h, 0) == ctx && X(h, 1) == entry && X(h, 30) == bb + 4 * 34
    && (forall r :: 0 <= r < 30 && r != TMP_REG_0 ==> Ld64(h.mem, ctx + XSlot(r)) == X(d, r))
    && (forall r :: 0 <= r < 8 ==> Ld128(h.mem, ctx + QSlot(r)) == Q(d, r))
    && Ld64(h.mem, ctx + SP_SLOT) == d.sp
    && Ld64(h.mem, ctx + XSlot(TMP_REG_0)) == bb && Ld64(h.mem, ctx + XSlot(30)) == tb + 24
    && SameOutsideRange(d.mem, h.mem, ctx, d.sp)
    && (forall r :: 2 <= r < 30 && r != TMP_REG_0 ==> X(h, r) == X(d, r)) && h.q == d.q && h.flags == d.flags
  }

  /** What the handler must leave alone: the stack pointer, ctx.lr, the trampoline's saved x30 and
      the two programs.  Everything else, the rest of the context included, is its to change. */
  ghost predicate HandlerKeeps(h: Data, h': Data, tb: int, entry: int, bb: int, handler: int) {
    && h'.sp == h.sp
    && Ld64(h'.mem, h.sp + XSlot(30)) == Ld64(h.mem, h.sp + XSlot(30))
    && Ld64(h'.mem, h.sp + CONTEXT_SIZE + 8) == Ld64(h.mem, h.sp + CONTEXT_SIZE + 8)
    && Placed(h'.mem, tb, TrampolineCode(entry, bb)) && Placed(h'.mem, bb, BridgeCode(handler))
  }

  /** Control leaves with the entry's stack pointer and x30; every other saved register is what the
      context says after the handler's return. */
  ghost predicate Leaves(d: Data, h': Data, e: Data) {
    var ctx := d.sp - FRAME_SIZE;
    && e.sp == d.sp && X(e, 30) == X(d, 30) && e.mem == h'.mem && e.flags == h'.flags
    && (forall r :: 0 <= r < 30 ==> X(e, r) == Ld64(h'.mem, ctx + XSlot(r)))
    && (forall r :: 0 <= r < 8 ==> Q(e, r) == Ld128(h'.mem, ctx + QSlot(r)))
    && (forall r :: r < 0 || 8 <= r ==> Q(e, r) == Q(h', r))
  }

  lemma EntersHandler(ext: Extension, d: Data, tb: int, entry: int, bb: int, handler: int) returns (h: Data)
    requires Ready(d, tb, entry, bb, handler)
    ensures Steps(ext, State(d, tb), 40) == State(h, handler)
    ensures HandlerSees(d, h, tb, entry, bb) && X(h, 30) == bb + 4 * 34 && Ld64(h.mem, d.sp - 8) == X(d, 30)
  {
    hide Reaches, Steps, Ld64, Ld128, TrampolineCode, BridgeCode, Placed, SameOutsideRange;
    var s := d.sp;
    var d1 := TrampolineEnters(ext, d, tb, entry, bb);
    PlacedOutside(d.mem, d1.mem, s - 16, s, bb, BridgeCode(handler));
    h := BridgeEnters(ext, d1, bb, handler);
    ReachesIsSteps(ext, State(d, tb), 6, tb, tb + 4 * TRAMPOLINE_SIZE, State(d1, bb));
    ReachesIsSteps(ext, State(d1, bb), 34, bb, bb + 4 * BRIDGE_SIZE, State(h, handler));
    StepsAdd(ext, State(d, tb), 6, 34);
    LoadOutside(d1.mem, h.mem, s - FRAME_SIZE, s - 16, s - 8);
    SameOutsideJoin(d.mem, d1.mem, h.mem, s);
    assert forall r :: Q(d1, r) == Q(d, r);
  }

  lemma SameOutsideJoin(m: Memory, m1: Memory, m2: Memory, s: int)
    requires SameOutsideRange(m, m1, s - 16, s) && SameOutsideRange(m1, m2, s - FRAME_SIZE, s - 16)
    ensures SameOutsideRange(m, m2, s - FRAME_SIZE, s)
  {}

  lemma LeavesHandler(ext: Extension, d: Data, h: Data, h': Data, tb: int, entry: int, bb: int,
                      handler: int) returns (e: Data)
    requires Ready(d, tb, entry, bb, handler)
    requires HandlerSees(d, h, tb, entry, bb) && Ld64(h.mem, d.sp - 8) == X(d, 30)
    requires HandlerKeeps(h, h', tb, entry, bb, handler)
    ensures Steps(ext, State(h', bb + 4 * 34), 26) == State(e, Ld64(h'.mem, d.sp - FRAME_SIZE + XSlot(TMP_REG_0)))
    ensures Leaves(d, h', e)
  {
    hide Reaches, Steps, Ld64, Ld128, TrampolineCode, BridgeCode, Placed, SameOutsideRange;
    var ctx := d.sp - FRAME_SIZE;
    var d1 := BridgeReturns(ext, h', bb, handler);
    e := TrampolineLeaves(ext, d1, tb, entry, bb);
    ReachesIsSteps(ext, State(h', bb + 4 * 34), 23, bb, bb + 4 * BRIDGE_SIZE, State(d1, tb + 24));
    ReachesIsSteps(ext, State(d1, tb + 24), 3, tb, tb + 4 * TRAMPOLINE_SIZE, State(e, X(d1, TMP_REG_0)));
    StepsAdd(ext, State(h', bb + 4 * 34), 23, 3);
    assert forall r :: r != 30 ==> X(e, r) == X(d1, r);
    assert forall r :: Q(e, r) == Q(d1, r);
  }

  /** The handler, run for j steps from its entry state, is back at its return address. */
  ghost predicate HandlerRuns(ext: Extension, h: Data, handler: int, j: nat, h': Data) {
    Steps(ext, State(h, handler), j) == State(h', X(h, 30))
  }

  /** 40 steps to the handler, its own j, and 26 more end at the context's x17. */
  ghost predicate Resumes(ext: Extension, d: Data, tb: int, h': Data, j: nat, e: Data) {
    var next := Ld64(h'.mem, d.sp - FRAME_SIZE + XSlot(TMP_REG_0));
    Steps(ext, State(d, tb), 40 + j + 26) == State(e, next) && Leaves(d, h', e)
  }

  /** The closure trampoline and the bridge are a context switch: for every handler run that keeps
      what it must, control ends at the context's x17 with the machine as the context says. */
  lemma ClosureIsContextSwitch(ext: Extension, d: Data, tb: int, entry: int, bb: int, handler: int) returns (h: Data)
    requires Ready(d, tb, entry, bb, handler)
    ensures Steps(ext, State(d, tb), 40) == State(h, handler) && HandlerSees(d, h, tb, entry, bb)
    ensures forall j: nat, h' :: HandlerRuns(ext, h, handler, j, h') && HandlerKeeps(h, h', tb, entry, bb, handler) ==>
              exists e :: Resumes(ext, d, tb, h', j, e)
  {
    hide Steps, Ld64, Ld128, HandlerKeeps, HandlerSees, Leaves, Ready;
    h := EntersHandler(ext, d, tb, entry, bb, handler);
    forall j: nat, h' | HandlerRuns(ext, h, handler, j, h') && HandlerKeeps(h, h', tb, entry, bb, handler)
      ensures exists e :: Resumes(ext, d, tb, h', j, e)
    {
      var e := LeavesHandler(ext, d, h, h', tb, entry, bb, handler);
      StepsAdd(ext, State(d, tb), 40, j);
      StepsAdd(ext, State(d, tb), 40 + j, 26);
      assert Resumes(ext, d, tb, h', j, e);
    }
  }

  // ----- the code that emits them -----

  datatype ClosureTrampolineEntry = ClosureTrampolineEntry(address: int, size: int, carryData: int, carryHandler: int)

  /** `CreateClosureTrampoline`; `entry` is the new record's own address, `at` where the code is put. */
  method CreateClosureTrampoline(entry: int, bridge: int, at: int, carryData: int, carryHandler: int)
    returns (code: seq<int>, record: ClosureTrampolineEntry)
    ensures code == TrampolineCode(entry, bridge)
    ensures record == ClosureTrampolineEntry(at, 4 * TRAMPOLINE_SIZE, carryData, carryHandler)
  {
    hide TrampolineWords, PatchRefs, Linked;
    var asm := new TurboAssembler();
    var entryLabel := new RelocLabel.WithData(0);
    var bridgeLabel := new RelocLabel.WithData(0);
    EmitTrampoline(asm, entryLabel, bridgeLabel);
    assert |TrampolineWords()| == 9 by { TrampolineWordCount(); }
    LinkedTwice(TrampolineWords(), entry, bridge);
    asm.PseudoBind(entryLabel);
    asm.EmitInt64(entry);
    asm.PseudoBind(bridgeLabel);
    asm.EmitInt64(bridge);
    code := asm.buffer;
    record := ClosureTrampolineEntry(at, 4 * |code|, carryData, carryHandler);
  }

  /** Binding the two labels one after the other is linking. */
  lemma LinkedTwice(w: seq<int>, entry: int, bridge: int)
    requires |w| == 9
    ensures var c := PatchRefs(w, [2], 9) + [entry % TWO_32, entry / TWO_32];
      Linked(w, TrampolineLabels(entry, bridge)) == PatchRefs(c, [4], 11) + [bridge % TWO_32, bridge / TWO_32]
  {
    hide PatchRefs, Linked;
    var first, second := LabelValue([2], entry), LabelValue([4], bridge);
    LinkedNone(w);
    LinkedSnoc(w, [], first);
    LinkedSnoc(w, [first], second);
    assert [] + [first] == [first] && [first] + [second] == [first, second];
  }

  lemma TrampolineWordCount()
    ensures |TrampolineWords()| == 9
  {}

  method EmitTrampoline(asm: TurboAssembler, entryLabel: RelocLabel, bridgeLabel: RelocLabel)
    requires asm.Valid() && asm.view == Unlinked([], []) && entryLabel != bridgeLabel
    requires entryLabel.refs == [] && bridgeLabel.refs == [] && entryLabel.pos == 0 && bridgeLabel.pos == 0
    modifies asm`buffer, asm`view, entryLabel`refs, bridgeLabel`refs
    ensures asm.buffer == TrampolineWords() && entryLabel.refs == [2] && bridgeLabel.refs == [4]
  {
    hide EncLdrLiteralX, EncSubImm, EncAddImm, EncStrX, EncLdrX, EncBr, EncBlr;
    assert asm.dataLabels == [];
    asm.Emit(EncSubImm(SP, SP, 2 * 8));
    asm.Emit(EncStrX(30, SP, 8));
    asm.Ldr(TMP_REG_0, entryLabel, -1);
    asm.Emit(EncStrX(TMP_REG_0, SP, 0));
    asm.Ldr(TMP_REG_0, bridgeLabel, -1);
    asm.Emit(EncBlr(TMP_REG_0));
    asm.Emit(EncLdrX(30, SP, 8));
    asm.Emit(EncAddImm(SP, SP, 2 * 8));
    asm.Emit(EncBr(TMP_REG_0));
  }

  /** The first n words of the bridge. */
  function BridgeSlice(handler: int, n: nat): seq<int> {
    seq(n, p => BridgeWord(handler, p))
  }

  lemma SliceSnoc(handler: int, p: nat)
    ensures BridgeSlice(handler, p) + [BridgeWord(handler, p)] == BridgeSlice(handler, p + 1)
  {}

  /** Emit the bridge's next word. */
  method Next(asm: TurboAssembler, w: int, ghost handler: int, ghost p: nat)
    requires asm.Valid() && asm.view == Unlinked(BridgeSlice(handler, p), []) && w == BridgeWord(handler, p)
    modifies asm`buffer, asm`view
    ensures asm.Valid() && asm.view == Unlinked(BridgeSlice(handler, p + 1), [])
  {
    hide BridgeSlice, BridgeWord;
    SliceSnoc(handler, p);
    asm.Emit(w);
  }

  /** Save q0-q7. */
  method SaveVectors(asm: TurboAssembler, handler: int)
    requires asm.Valid() && asm.view == Unlinked(BridgeSlice(handler, 0), [])
    modifies asm`buffer, asm`view
    ensures asm.Valid() && asm.view == Unlinked(BridgeSlice(handler, 5), [])
  {
    hide CallWord, RestoreWord, TurboAssembler.Valid, BridgeSlice, EncSubImm, EncAddImm, EncStrX, EncLdrX, EncStpQ,
         EncStpX, EncLdpXPost, EncLdpQPost, EncMovz, EncMovk, EncBlr, Half;
    Next(asm, EncSubImm(SP, SP, 8 * 16), handler, 0);
    Next(asm, EncStpQ(6, 7, SP, 6 * 16), handler, 1);
    Next(asm, EncStpQ(4, 5, SP, 4 * 16), handler, 2);
    Next(asm, EncStpQ(2, 3, SP, 2 * 16), handler, 3);
    Next(asm, EncStpQ(0, 1, SP, 0 * 16), handler, 4);
  }

  /** Save x15-x30. */
  method SaveHigh(asm: TurboAssembler, handler: int)
    requires asm.Valid() && asm.view == Unlinked(BridgeSlice(handler, 5), [])
    modifies asm`buffer, asm`view
    ensures asm.Valid() && asm.view == Unlinked(BridgeSlice(handler, 14), [])
  {
    hide CallWord, RestoreWord, TurboAssembler.Valid, BridgeSlice, EncSubImm, EncAddImm, EncStrX, EncLdrX, EncStpQ,
         EncStpX, EncLdpXPost, EncLdpQPost, EncMovz, EncMovk, EncBlr, Half;
    Next(asm, EncSubImm(SP, SP, 30 * 8), handler, 5);
    Next(asm, EncStpX(29, 30, SP, 28 * 8), handler, 6);
    Next(asm, EncStpX(27, 28, SP, 26 * 8), handler, 7);
    Next(asm, EncStpX(25, 26, SP, 24 * 8), handler, 8);
    Next(asm, EncStpX(23, 24, SP, 22 * 8), handler, 9);
    Next(asm, EncStpX(21, 22, SP, 20 * 8), handler, 10);
    Next(asm, EncStpX(19, 20, SP, 18 * 8), handler, 11);
    Next(asm, EncStpX(17, 18, SP, 16 * 8), handler, 12);
    Next(asm, EncStpX(15, 16, SP, 14 * 8), handler, 13);
  }

  /** Save x1-x14. */
  method SaveLow(asm: TurboAssembler, handler: int)
    requires asm.Valid() && asm.view == Unlinked(BridgeSlice(handler, 14), [])
    modifies asm`buffer, asm`view
    ensures asm.Valid() && asm.view == Unlinked(BridgeSlice(handler, 21), [])
  {
    hide CallWord, RestoreWord, TurboAssembler.Valid, BridgeSlice, EncSubImm, EncAddImm, EncStrX, EncLdrX, EncStpQ,
         EncStpX, EncLdpXPost, EncLdpQPost, EncMovz, EncMovk, EncBlr, Half;
    Next(asm, EncStpX(13, 14, SP, 12 * 8), handler, 14);
    Next(asm, EncStpX(11, 12, SP, 10 * 8), handler, 15);
    Next(asm, EncStpX(9, 10, SP, 8 * 8), handler, 16);
    Next(asm, EncStpX(7, 8, SP, 6 * 8), handler, 17);
    Next(asm, EncStpX(5, 6, SP, 4 * 8), handler, 18);
    Next(asm, EncStpX(3, 4, SP, 2 * 8), handler, 19);
    Next(asm, EncStpX(1, 2, SP, 0 * 8), handler, 20);
  }

  /** Save x0 and the original stack pointer, and call the handler. */
  method CallHandler(asm: TurboAssembler, handler: int)
    requires asm.Valid() && asm.view == Unlinked(BridgeSlice(handler, 21), [])
    modifies asm`buffer, asm`view
    ensures asm.Valid() && asm.view == Unlinked(BridgeSlice(handler, 34), [])
  {
    hide SaveWord, RestoreWord, TurboAssembler.Valid, BridgeSlice, EncSubImm, EncAddImm, EncStrX, EncLdrX, EncStpQ,
         EncStpX, EncLdpXPost, EncLdpQPost, EncMovz, EncMovk, EncBlr, Half;
    Next(asm, EncSubImm(SP, SP, 2 * 8), handler, 21);
    Next(asm, EncStrX(0, SP, 8), handler, 22);
    Next(asm, EncAddImm(TMP_REG_0, SP, 2 * 8), handler, 23);
    Next(asm, EncAddImm(TMP_REG_0, TMP_REG_0, 2 * 8 + 30 * 8 + 8 * 16), handler, 24);
    Next(asm, EncSubImm(SP, SP, 2 * 8), handler, 25);
    Next(asm, EncStrX(TMP_REG_0, SP, 8), handler, 26);
    Next(asm, EncAddImm(0, SP, 0), handler, 27);
    Next(asm, EncLdrX(1, SP, CONTEXT_SIZE), handler, 28);
    Next(asm, EncMovz(TMP_REG_0, Half(handler, 0), 0), handler, 29);
    Next(asm, EncMovk(TMP_REG_0, Half(handler, 1), 16), handler, 30);
    Next(asm, EncMovk(TMP_REG_0, Half(handler, 2), 32), handler, 31);
    Next(asm, EncMovk(TMP_REG_0, Half(handler, 3), 48), handler, 32);
    Next(asm, EncBlr(TMP_REG_0), handler, 33);
  }

  /** Restore x0-x14. */
  method RestoreLow(asm: TurboAssembler, handler: int)
    requires asm.Valid() && asm.view == Unlinked(BridgeSlice(handler, 34), [])
    modifies asm`buffer, asm`view
    ensures asm.Valid() && asm.view == Unlinked(BridgeSlice(handler, 44), [])
  {
    hide SaveWord, CallWord, TurboAssembler.Valid, BridgeSlice, EncSubImm, EncAddImm, EncStrX, EncLdrX, EncStpQ,
         EncStpX, EncLdpXPost, EncLdpQPost, EncMovz, EncMovk, EncBlr, Half;
    Next(asm, EncAddImm(SP, SP, 2 * 8), handler, 34);
    Next(asm, EncLdrX(0, SP, 8), handler, 35);
    Next(asm, EncAddImm(SP, SP, 2 * 8), handler, 36);
    Next(asm, EncLdpXPost(1, 2, SP, 16), handler, 37);
    Next(asm, EncLdpXPost(3, 4, SP, 16), handler, 38);
    Next(asm, EncLdpXPost(5, 6, SP, 16), handler, 39);
    Next(asm, EncLdpXPost(7, 8, SP, 16), handler, 40);
    Next(asm, EncLdpXPost(9, 10, SP, 16), handler, 41);
    Next(asm, EncLdpXPost(11, 12, SP, 16), handler, 42);
    Next(asm, EncLdpXPost(13, 14, SP, 16), handler, 43);
  }

  /** Restore x15-x30. */
  method RestoreHigh(asm: TurboAssembler, handler: int)
    requires asm.Valid() && asm.view == Unlinked(BridgeSlice(handler, 44), [])
    modifies asm`buffer, asm`view
    ensures asm.Valid() && asm.view == Unlinked(BridgeSlice(handler, 52), [])
  {
    hide SaveWord, CallWord, TurboAssembler.Valid, BridgeSlice, EncSubImm, EncAddImm, EncStrX, EncLdrX, EncStpQ,
         EncStpX, EncLdpXPost, EncLdpQPost, EncMovz, EncMovk, EncBlr, Half;
    Next(asm, EncLdpXPost(15, 16, SP, 16), handler, 44);
    Next(asm, EncLdpXPost(17, 18, SP, 16), handler, 45);
    Next(asm, EncLdpXPost(19, 20, SP, 16), handler, 46);
    Next(asm, EncLdpXPost(21, 22, SP, 16), handler, 47);
    Next(asm, EncLdpXPost(23, 24, SP, 16), handler, 48);
    Next(asm, EncLdpXPost(25, 26, SP, 16), handler, 49);
    Next(asm, EncLdpXPost(27, 28, SP, 16), handler, 50);
    Next(asm, EncLdpXPost(29, 30, SP, 16), handler, 51);
  }

  /** Restore q0-q7 and return. */
  method RestoreVectors(asm: TurboAssembler, handler: int)
    requires asm.Valid() && asm.view == Unlinked(BridgeSlice(handler, 52), [])
    modifies asm`buffer, asm`view
    ensures asm.Valid() && asm.view == Unlinked(BridgeSlice(handler, 57), [])
  {
    hide SaveWord, CallWord, TurboAssembler.Valid, BridgeSlice, EncSubImm, EncAddImm, EncStrX, EncLdrX, EncStpQ,
         EncStpX, EncLdpXPost, EncLdpQPost, EncMovz, EncMovk, EncBlr, Half;
    Next(asm, EncLdpQPost(0, 1, SP, 32), handler, 52);
    Next(asm, EncLdpQPost(2, 3, SP, 32), handler, 53);
    Next(asm, EncLdpQPost(4, 5, SP, 32), handler, 54);
    Next(asm, EncLdpQPost(6, 7, SP, 32), handler, 55);
    Next(asm, RET, handler, 56);
  }

  /** `get_closure_bridge`, when the bridge does not exist yet. */
  method GetClosureBridge(handler: int) returns (code: seq<int>)
    ensures code == BridgeCode(handler)
  {
    hide BridgeWord;
    var asm := new TurboAssembler();
    SaveVectors(asm, handler);
    SaveHigh(asm, handler);
    SaveLow(asm, handler);
    CallHandler(asm, handler);
    RestoreLow(asm, handler);
    RestoreHigh(asm, handler);
    RestoreVectors(asm, handler);
    code := asm.buffer;
    assert code == BridgeCode(handler);
  }
}
