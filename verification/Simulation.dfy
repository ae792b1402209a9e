// What emitted code does when the A64 machine runs it: one lemma per emitted sequence.
module Simulation {
  import opened BitFields
  import opened A64
  import opened Encoder
  import opened Assembler

  /** The words of `code` lie in memory from address `base` on, below the top of the address space. */
  ghost predicate Placed(m: Memory, base: int, code: seq<int>) {
    && 0 <= base && base + 4 * |code| < TWO_64
    && forall p :: 0 <= p < |code| ==> Ld32(m, base + 4 * p) == code[p]
  }

  /** From s the machine gets to t in k steps, and until then the pc stays in [lo, hi). */
  ghost predicate Reaches(ext: Extension, s: State, k: nat, lo: int, hi: int, t: State)
    decreases k
  {
    if k == 0 then s == t else lo <= s.pc < hi && Reaches(ext, Step(ext, s), k - 1, lo, hi, t)
  }

  lemma {:induction false} ReachesTrans(ext: Extension, s: State, j: nat, t: State, k: nat, u: State, lo: int, hi: int)
    requires Reaches(ext, s, j, lo, hi, t) && Reaches(ext, t, k, lo, hi, u)
    ensures Reaches(ext, s, j + k, lo, hi, u)
    decreases j
  {
    hide Step;
    if j > 0 {
      ReachesTrans(ext, Step(ext, s), j - 1, t, k, u, lo, hi);
    }
  }

  /** Reaching is running: t is the state after exactly k steps. */
  lemma {:induction false} ReachesIsSteps(ext: Extension, s: State, k: nat, lo: int, hi: int, t: State)
    requires Reaches(ext, s, k, lo, hi, t)
    ensures t == Steps(ext, s, k)
    decreases k
  {
    hide Step;
    if k > 0 {
      ReachesIsSteps(ext, Step(ext, s), k - 1, lo, hi, t);
    }
  }

  /** One step inside placed code executes the word there. */
  lemma OneStep(ext: Extension, d: Data, base: int, code: seq<int>, p: nat)
    requires Placed(d.mem, base, code) && p < |code|
    ensures Reaches(ext, State(d, base + 4 * p), 1, base, base + 4 * |code|,
                    StepInstr(ext, Decode(code[p]), State(d, base + 4 * p)))
    ensures Wrap(base + 4 * p + 4) == base + 4 * (p + 1)
  {
    hide Decode, StepInstr;
    var s := State(d, base + 4 * p);
    assert Fetch(s) == Decode(code[p]);
    assert Reaches(ext, Step(ext, s), 0, base, base + 4 * |code|, Step(ext, s));
    DivUnique(base + 4 * p + 4, TWO_64, 0, base + 4 * p + 4);
  }

  /** A data instruction placed at p executes and falls through. */
  lemma DataStep(ext: Extension, d: Data, base: int, code: seq<int>, p: nat, i: Instr)
    requires Placed(d.mem, base, code) && p < |code| && Decode(code[p]) == i && IsDataOp(i)
    ensures Reaches(ext, State(d, base + 4 * p), 1, base, base + 4 * |code|,
                    State(Exec(ext, i, d, base + 4 * p), base + 4 * (p + 1)))
  {
    hide Decode, Reaches, Exec;
    OneStep(ext, d, base, code, p);
  }

  /** d' is d with register rd set to v (nothing at all if rd is the zero register). */
  ghost predicate SetsOnly(d: Data, d': Data, rd: int, v: int) {
    && (forall r :: X(d', r) == if r == rd && r != 31 then v else X(d, r))
    && d'.q == d.q && d'.sp == d.sp && d'.flags == d.flags && d'.mem == d.mem
  }

  lemma SetsOnlyTrans(a: Data, b: Data, c: Data, rd: int, v: int, w: int)
    requires SetsOnly(a, b, rd, v) && SetsOnly(b, c, rd, w)
    ensures SetsOnly(a, c, rd, w)
  {
    assert forall r :: r != rd ==> X(c, r) == X(b, r) == X(a, r);
  }

  // ----- Mov: movz and three movk -----

  function Half(imm: int, hw: int): int {
    if hw == 0 then imm % 0x1_0000
    else if hw == 1 then imm / 0x1_0000 % 0x1_0000
    else if hw == 2 then imm / TWO_32 % 0x1_0000
    else imm / 0x1_0000_0000_0000 % 0x1_0000
  }

  /** The halfwords of imm below number n. */
  function LowHalves(imm: int, n: int): int {
    if n == 1 then imm % 0x1_0000
    else if n == 2 then imm % TWO_32
    else if n == 3 then imm % 0x1_0000_0000_0000
    else imm
  }

  lemma HalvesCompose(imm: int, hw: int)
    requires 0 <= imm < TWO_64 && 0 <= hw < 4
    ensures 0 <= Half(imm, hw) < 0x1_0000
    ensures hw == 0 ==> SetHalf(0, Half(imm, 0), 0) == LowHalves(imm, 1)
    ensures hw > 0 ==> SetHalf(LowHalves(imm, hw), Half(imm, hw), hw) == LowHalves(imm, hw + 1)
  {
    if hw == 1 {
      TopHalf(imm % TWO_32, 0x1_0000);
      LowOfLow(imm, 0x1_0000);
    } else if hw == 2 {
      TopHalf(imm % 0x1_0000_0000_0000, TWO_32);
      LowOfLow(imm, TWO_32);
    } else if hw == 3 {
      TopHalf(imm, 0x1_0000_0000_0000);
    }
  }

  /** Setting the zero field above `unit` restores a value of one more halfword. */
  lemma TopHalf(x: int, unit: int)
    requires unit > 0 && 0 <= x < unit * 0x1_0000
    ensures SetField(x % unit, unit, 0x1_0000, x / unit) == x
    ensures x / unit % 0x1_0000 == x / unit
  {
    DivUnique(x % unit, unit, 0, x % unit);
    var q := x / unit;
    assert q >= 0x1_0000 ==> q * unit >= 0x1_0000 * unit;
    DivUnique(x / unit, 0x1_0000, 0, x / unit);
  }

  lemma LowOfLow(x: int, unit: int)
    requires unit == 0x1_0000 || unit == TWO_32
    ensures (x % (unit * 0x1_0000)) % unit == x % unit
    ensures (x % (unit * 0x1_0000)) / unit == x / unit % 0x1_0000
  {
    if unit == 0x1_0000 {
      var q, r := x / 0x1_0000, x % 0x1_0000;
      var hi, lo := q / 0x1_0000, q % 0x1_0000;
      DivUnique(x, TWO_32, hi, lo * 0x1_0000 + r);
      DivUnique(lo * 0x1_0000 + r, 0x1_0000, lo, r);
    } else {
      var q, r := x / TWO_32, x % TWO_32;
      var hi, lo := q / 0x1_0000, q % 0x1_0000;
      DivUnique(x, 0x1_0000_0000_0000, hi, lo * TWO_32 + r);
      DivUnique(lo * TWO_32 + r, TWO_32, lo, r);
    }
  }

  /** `Mov(rd, imm)` placed at p sets rd to imm and changes nothing else. */
  lemma MovRuns(ext: Extension, d: Data, base: int, code: seq<int>, p: nat, rd: int, imm: int) returns (d': Data)
    requires Placed(d.mem, base, code) && p + 4 <= |code| && IsReg(rd) && 0 <= imm < TWO_64
    requires code[p] == EncMovz(rd, Half(imm, 0), 0) && code[p + 1] == EncMovk(rd, Half(imm, 1), 16)
    requires code[p + 2] == EncMovk(rd, Half(imm, 2), 32) && code[p + 3] == EncMovk(rd, Half(imm, 3), 48)
    ensures Reaches(ext, State(d, base + 4 * p), 4, base, base + 4 * |code|, State(d', base + 4 * (p + 4)))
    ensures SetsOnly(d, d', rd, imm)
  {
    hide Reaches, Step, Decode, EncMovz, EncMovk, Half, LowHalves, SetHalf;
    var hi := base + 4 * |code|;
    HalvesCompose(imm, 0);
    DecodeMov(rd, Half(imm, 0), 0);
    var d1 := MovStep(ext, d, base, code, p, rd, Half(imm, 0), 0);
    HalvesCompose(imm, 1);
    DecodeMov(rd, Half(imm, 1), 1);
    var d2 := MovStep(ext, d1, base, code, p + 1, rd, Half(imm, 1), 1);
    SetsOnlyTrans(d, d1, d2, rd, LowHalves(imm, 1), LowHalves(imm, 2));
    ReachesTrans(ext, State(d, base + 4 * p), 1, State(d1, base + 4 * (p + 1)), 1, State(d2, base + 4 * (p + 2)), base,
                 hi);
    HalvesCompose(imm, 2);
    DecodeMov(rd, Half(imm, 2), 2);
    var d3 := MovStep(ext, d2, base, code, p + 2, rd, Half(imm, 2), 2);
    SetsOnlyTrans(d, d2, d3, rd, LowHalves(imm, 2), LowHalves(imm, 3));
    ReachesTrans(ext, State(d, base + 4 * p), 2, State(d2, base + 4 * (p + 2)), 1, State(d3, base + 4 * (p + 3)), base,
                 hi);
    HalvesCompose(imm, 3);
    DecodeMov(rd, Half(imm, 3), 3);
    d' := MovStep(ext, d3, base, code, p + 3, rd, Half(imm, 3), 3);
    assert LowHalves(imm, 4) == imm by { LowHalvesAll(imm); }
    SetsOnlyTrans(d, d3, d', rd, LowHalves(imm, 3), imm);
    ReachesTrans(ext, State(d, base + 4 * p), 3, State(d3, base + 4 * (p + 3)), 1, State(d', base + 4 * (p + 4)), base,
                 hi);
  }

  lemma LowHalvesAll(imm: int)
    ensures LowHalves(imm, 4) == imm
  {}

  /** One move-wide: movz for halfword 0, movk above. */
  lemma MovStep(ext: Extension, d: Data, base: int, code: seq<int>, p: nat, rd: int, h: int, hw: int) returns (d': Data)
    requires Placed(d.mem, base, code) && p < |code|
    requires Decode(code[p]) == if hw == 0 then MovZ(rd, h, 0) else MovK(rd, h, hw)
    ensures Reaches(ext, State(d, base + 4 * p), 1, base, base + 4 * |code|, State(d', base + 4 * (p + 1)))
    ensures SetsOnly(d, d', rd, SetHalf(if hw == 0 then 0 else X(d, rd), h, hw))
  {
    hide Decode, SetHalf, Reaches;
    OneStep(ext, d, base, code, p);
    d' := Exec(ext, Decode(code[p]), d, base + 4 * p);
  }

  // ----- ldr tmp, =data; br/blr tmp -----

  /** A literal load placed at p sets its register to the datum. */
  lemma LoadRuns(ext: Extension, d: Data, base: int, code: seq<int>, p: nat, rt: int, data: int) returns (d': Data)
    requires Placed(d.mem, base, code) && LoadsDatum(code, p, rt, data) && IsReg(rt)
    ensures Reaches(ext, State(d, base + 4 * p), 1, base, base + 4 * |code|, State(d', base + 4 * (p + 1)))
    ensures SetsOnly(d, d', rt, data)
  {
    hide Decode, Reaches;
    OneStep(ext, d, base, code, p);
    var slot :| IsLoadOf(code, p, rt, slot) && code[slot] == data % TWO_32 && code[slot + 1] == data / TWO_32;
    var a := base + 4 * slot;
    DivUnique(a, TWO_64, 0, a);
    DivUnique(a + 4, TWO_64, 0, a + 4);
    assert base + 4 * p + 4 * (slot - p) == a;
    assert Ld32(d.mem, base + 4 * (slot + 1)) == code[slot + 1];
    assert Ld64(d.mem, a) == data;
    d' := Exec(ext, Decode(code[p]), d, base + 4 * p);
  }

  /** A literal load of TMP_REG_0 and a branch to it: control arrives at the datum. */
  lemma LongBranchRuns(ext: Extension, d: Data, base: int, code: seq<int>, p: nat, data: int, link: bool)
    returns (d': Data)
    requires Placed(d.mem, base, code) && LoadsDatum(code, p, TMP_REG_0, data) && p + 1 < |code|
    requires code[p + 1] == if link then EncBlr(TMP_REG_0) else EncBr(TMP_REG_0)
    ensures Reaches(ext, State(d, base + 4 * p), 2, base, base + 4 * |code|, State(d', data))
    ensures !link ==> SetsOnly(d, d', TMP_REG_0, data)
    ensures link ==> exists d1 :: SetsOnly(d, d1, TMP_REG_0, data) && SetsOnly(d1, d', 30, base + 4 * (p + 2))
  {
    hide Decode, Reaches, LoadsDatum, EncBlr, EncBr;
    var d1 := LoadRuns(ext, d, base, code, p, TMP_REG_0, data);
    OneStep(ext, d1, base, code, p + 1);
    DecodeBranchReg(TMP_REG_0);
    d' := if link then SetX(d1, 30, base + 4 * (p + 2)) else d1;
    assert StepInstr(ext, Decode(code[p + 1]), State(d1, base + 4 * (p + 1))) == State(d', data);
    ReachesTrans(ext, State(d, base + 4 * p), 1, State(d1, base + 4 * (p + 1)), 1, State(d', data), base,
                 base + 4 * |code|);
    assert link ==> SetsOnly(d1, d', 30, base + 4 * (p + 2));
  }
}
