// Trampolines placed over a function's first words:
// source/TrampolineBridge/Trampoline/arm64/trampoline_arm64.cc and
// source/InterceptRouting/RoutingPlugin/NearBranchTrampoline/near_trampoline_arm64.cc.
module Trampoline {
  import opened BitFields
  import opened A64
  import opened Encoder
  import opened Assembler
  import opened Relocation
  import opened Simulation
  import opened MemoryAllocator

  const ADRP_RANGE: int := TWO_32
  const ARM64_B_XXX_RANGE: int := 0x800_0000

  predicate IsAddress(a: int) { 0 <= a < TWO_64 }

  /** `llabs((int64_t)(a - b))`, as an unsigned value. */
  function Distance(a: int, b: int): int {
    var diff := Signed(Wrap(a - b), TWO_63);
    if diff < 0 then -diff else diff
  }

  /** `to_PAGE - from_PAGE`, reinterpreted as signed. */
  function PageDelta(src: int, dst: int): int {
    Signed(Wrap(TruncPage(dst) - TruncPage(src)), TWO_63)
  }

  /** `AdrpAdd(TMP_REG_0, from, to)` and a branch. */
  function AdrpAddBr(src: int, dst: int): seq<int> {
    [EncAdrp(TMP_REG_0, PageDelta(src, dst)), EncAddImm(TMP_REG_0, TMP_REG_0, dst % 0x1000), EncBr(TMP_REG_0)]
  }

  function NormalTrampoline(src: int, dst: int): seq<int> {
    if Distance(src, dst) < ADRP_RANGE then AdrpAddBr(src, dst)
    else Relocated([Lit(dst), Raw(EncBr(TMP_REG_0))])
  }

  /** The shorter way between two addresses around the address space. */
  function Around(a: int, b: int): int {
    var d := if a < b then b - a else a - b;
    if d <= TWO_63 then d else TWO_64 - d
  }

  lemma DistanceIsAround(a: int, b: int)
    requires IsAddress(a) && IsAddress(b)
    ensures Distance(a, b) == Around(a, b)
  {
    hide Wrap, Signed;
    SignedWrap(a - b);
  }

  /** adrp, add and br exactly below a distance of 2^32 either way, and ldr, br and a literal otherwise. */
  lemma NormalTrampolineForm(src: int, dst: int)
    requires IsAddress(src) && IsAddress(dst)
    ensures -TWO_32 < dst - src < TWO_32 ==> NormalTrampoline(src, dst) == AdrpAddBr(src, dst)
    ensures Around(src, dst) < TWO_32 <==> |NormalTrampoline(src, dst)| == 3
    ensures Around(src, dst) >= TWO_32 ==>
              var code := NormalTrampoline(src, dst);
              |code| == 4 && LoadsDatum(code, 0, TMP_REG_0, dst) && code[1] == EncBr(TMP_REG_0)
  {
    hide Distance, LoadsDatum, EncAdrp, EncAddImm, EncBr, Relocated;
    DistanceIsAround(src, dst);
    LiteralTrampolineRealized(dst);
  }

  method GenerateNormalTrampolineBuffer(src: int, dst: int) returns (code: seq<int>)
    ensures code == NormalTrampoline(src, dst)
  {
    hide EncAdrp, EncAddImm, EncBr, EncLdrLiteralX, LabelsOf, Linked, Distance, PageDelta;
    var asm := new TurboAssembler();
    assert asm.view == Assembled([]) by { NothingAssembled(); }
    if Distance(src, dst) < ADRP_RANGE {
      asm.Emit(EncAdrp(TMP_REG_0, PageDelta(src, dst)));
      asm.Emit(EncAddImm(TMP_REG_0, TMP_REG_0, dst % 0x1000));
      asm.Emit(EncBr(TMP_REG_0));
      assert asm.dataLabels == [];
      asm.RelocBind();
      assert Linked(asm.view.code, []) == asm.view.code by { LinkedNone(asm.view.code); }
    } else {
      AssembledSnoc([], Lit(dst));
      AssembledSnoc([Lit(dst)], Raw(EncBr(TMP_REG_0)));
      assert [] + [Lit(dst)] == [Lit(dst)];
      assert [Lit(dst)] + [Raw(EncBr(TMP_REG_0))] == [Lit(dst), Raw(EncBr(TMP_REG_0))];
      asm.LiteralLdrBranch(dst);
      forall i | 0 <= i < |asm.dataLabels| ensures fresh(asm.dataLabels[i]) {
        assert asm.dataLabels[i] in asm.dataLabels;
      }
      asm.RelocBind();
    }
    code := asm.buffer;
  }

  // ----- adrp, add, br -----

  lemma PageDeltaLaws(src: int, dst: int)
    requires IsAddress(src) && IsAddress(dst) && Distance(src, dst) < ADRP_RANGE
    ensures PageDelta(src, dst) % 0x1000 == 0
    ensures -ADRP_RANGE <= PageDelta(src, dst) <= ADRP_RANGE
    ensures Wrap(TruncPage(src) + PageDelta(src, dst)) == TruncPage(dst)
  {
    hide Wrap, Signed;
    var s, d, delta := TruncPage(src), TruncPage(dst), PageDelta(src, dst);
    SignedWrap(src - dst);
    SignedWrap(d - s);
    assert delta == d - s || delta == d - s + TWO_64 || delta == d - s - TWO_64;
    DivUnique(s + delta, TWO_64, if delta == d - s then 0 else if delta < d - s then -1 else 1, d);
    WrapIs(s + delta);
    DivUnique(delta, 0x1000, delta / 0x1000, 0);
  }

  /** Two's complement of a difference of addresses. */
  lemma SignedWrap(x: int)
    requires -TWO_64 < x < TWO_64
    ensures Signed(Wrap(x), TWO_63) ==
            if x < -TWO_63 then x + TWO_64 else if x < TWO_63 then x else x - TWO_64
  {
    if x < 0 {
      DivUnique(x, TWO_64, -1, x + TWO_64);
    } else {
      DivUnique(x, TWO_64, 0, x);
    }
  }

  lemma WrapIs(x: int)
    ensures Wrap(x) == x % TWO_64
  {}

  /** The one page distance the guard lets through but the 21-bit field cannot hold. */
  predicate PageReachable(src: int, dst: int) {
    PageDelta(src, dst) != ADRP_RANGE
  }

  /** What the adrp word decodes to: the distance, except that +2^32 wraps to -2^32. */
  lemma AdrpDecodes(src: int, dst: int)
    requires IsAddress(src) && IsAddress(dst) && Distance(src, dst) < ADRP_RANGE
    ensures Decode(EncAdrp(TMP_REG_0, PageDelta(src, dst)))
         == Adrp(TMP_REG_0, if PageReachable(src, dst) then PageDelta(src, dst) else -ADRP_RANGE)
  {
    hide Decode, PageDelta, Distance, TruncPage;
    PageDeltaLaws(src, dst);
    if PageReachable(src, dst) {
      DecodeAdrp(TMP_REG_0, PageDelta(src, dst));
    } else {
      DecodeAdrp(TMP_REG_0, -ADRP_RANGE);
    }
  }

  /** Where adrp + add lands. */
  function AdrpAddTarget(src: int, dst: int): int {
    if PageReachable(src, dst) then dst else Wrap(dst - 2 * ADRP_RANGE)
  }

  lemma AdrpAddValue(src: int, dst: int, page: int)
    requires IsAddress(src) && IsAddress(dst) && Distance(src, dst) < ADRP_RANGE
    requires page == Wrap(TruncPage(src) + if PageReachable(src, dst) then PageDelta(src, dst) else -ADRP_RANGE)
    ensures Wrap(page + dst % 0x1000) == AdrpAddTarget(src, dst)
    ensures AdrpAddTarget(src, dst) == dst <==> PageReachable(src, dst)
  {
    hide PageDelta, Distance, Wrap;
    PageDeltaLaws(src, dst);
    var off := dst % 0x1000;
    assert TruncPage(dst) + off == dst;
    if PageReachable(src, dst) {
      WrapInside(dst);
    } else {
      var base := TruncPage(src) + ADRP_RANGE;
      WrapAdd(base, -2 * ADRP_RANGE);
      WrapAdd(base - 2 * ADRP_RANGE, off);
      WrapAdd(Wrap(base) - 2 * ADRP_RANGE, off);
      WrapMoves(dst);
    }
  }

  lemma WrapMoves(x: int)
    requires IsAddress(x)
    ensures Wrap(x - 2 * ADRP_RANGE) != x
  {
    var y := x - 2 * ADRP_RANGE;
    if y >= 0 {
      DivUnique(y, TWO_64, 0, y);
    } else {
      DivUnique(y, TWO_64, -1, y + TWO_64);
    }
  }

  lemma AdrpAddBrRuns(ext: Extension, d: Data, src: int, dst: int, code: seq<int>) returns (d': Data)
    requires IsAddress(src) && IsAddress(dst) && Distance(src, dst) < ADRP_RANGE
    requires code == AdrpAddBr(src, dst) && Placed(d.mem, src, code)
    ensures Reaches(ext, State(d, src), 3, src, src + 4 * |code|, State(d', AdrpAddTarget(src, dst)))
    ensures SetsOnly(d, d', TMP_REG_0, AdrpAddTarget(src, dst))
  {
    hide Decode, PageDelta, Distance, Reaches, EncAdrp, EncAddImm, EncBr, TruncPage, AdrpAddTarget, SetX, Placed, Wrap,
         SetsOnly;
    var delta := if PageReachable(src, dst) then PageDelta(src, dst) else -ADRP_RANGE;
    var page, off, hi := Wrap(TruncPage(src) + delta), dst % 0x1000, src + 4 * |code|;
    AdrpDecodes(src, dst);
    AdrpAddValue(src, dst, page);
    var target := Wrap(page + off);
    AdrpStep(ext, d, src, code, 0, TMP_REG_0, delta);
    var d1 := SetX(d, TMP_REG_0, page);
    ScratchSet(d, page);
    AddScratchStep(ext, d1, src, code, 1, off);
    d' := SetX(d1, TMP_REG_0, target);
    ScratchSet(d1, target);
    SetsOnlyTrans(d, d1, d', TMP_REG_0, page, target);
    BrScratchStep(ext, d', src, code, 2);
    ReachesTrans(ext, State(d, src + 4 * 0), 1, State(d1, src + 4 * 1), 1, State(d', src + 4 * 2), src, hi);
    ReachesTrans(ext, State(d, src + 4 * 0), 2, State(d', src + 4 * 2), 1, State(d', target), src, hi);
  }

  lemma ScratchSet(d: Data, v: int)
    ensures SetsOnly(d, SetX(d, TMP_REG_0, v), TMP_REG_0, v) && X(SetX(d, TMP_REG_0, v), TMP_REG_0) == v
    ensures SetX(d, TMP_REG_0, v).mem == d.mem
  {}

  /** `adrp rd` */
  lemma AdrpStep(ext: Extension, d: Data, base: int, code: seq<int>, p: nat, rd: int, offset: int)
    requires Placed(d.mem, base, code) && p < |code| && Decode(code[p]) == Adrp(rd, offset)
    ensures Reaches(ext, State(d, base + 4 * p), 1, base, base + 4 * |code|,
                    State(SetX(d, rd, Wrap(TruncPage(base + 4 * p) + offset)), base + 4 * (p + 1)))
  {
    hide Decode, Reaches, SetX, TruncPage, Wrap;
    OneStep(ext, d, base, code, p);
  }

  /** `add x17, x17, #imm` */
  lemma AddScratchStep(ext: Extension, d: Data, base: int, code: seq<int>, p: nat, imm: int)
    requires Placed(d.mem, base, code) && p < |code| && code[p] == EncAddImm(TMP_REG_0, TMP_REG_0, imm)
    requires 0 <= imm < 0x1000
    ensures Reaches(ext, State(d, base + 4 * p), 1, base, base + 4 * |code|,
                    State(SetX(d, TMP_REG_0, Wrap(X(d, TMP_REG_0) + imm)), base + 4 * (p + 1)))
  {
    hide Decode, Reaches, SetX, X, EncAddImm, Wrap;
    DecodeAddSubImm(TMP_REG_0, TMP_REG_0, imm);
    DataStep(ext, d, base, code, p, AddImm(TMP_REG_0, TMP_REG_0, imm));
  }

  /** `br x17` */
  lemma BrScratchStep(ext: Extension, d: Data, base: int, code: seq<int>, p: nat)
    requires Placed(d.mem, base, code) && p < |code| && code[p] == EncBr(TMP_REG_0)
    ensures Reaches(ext, State(d, base + 4 * p), 1, base, base + 4 * |code|, State(d, X(d, TMP_REG_0)))
  {
    hide Decode, Reaches, X, EncBr, Wrap;
    DecodeBranchReg(TMP_REG_0);
    OneStep(ext, d, base, code, p);
  }

  /** The normal trampoline, placed at src, transfers control to exactly dst and changes nothing but
      TMP_REG_0, exactly unless it uses adrp over a page distance of +2^32. */
  lemma NormalTrampolineLands(ext: Extension, d: Data, src: int, dst: int) returns (k: nat, t: State)
    requires IsAddress(src) && IsAddress(dst) && Placed(d.mem, src, NormalTrampoline(src, dst))
    ensures Reaches(ext, State(d, src), k, src, src + 4 * |NormalTrampoline(src, dst)|, t)
    ensures SetsOnly(d, t.d, TMP_REG_0, t.pc)
    ensures t.pc == dst <==> (Distance(src, dst) < ADRP_RANGE ==> PageReachable(src, dst))
  {
    hide Decode, PageDelta, Distance, Reaches, EncAdrp, EncAddImm, EncBr, TruncPage, LoadsDatum;
    var code := NormalTrampoline(src, dst);
    if Distance(src, dst) < ADRP_RANGE {
      var d' := AdrpAddBrRuns(ext, d, src, dst, code);
      k, t := 3, State(d', AdrpAddTarget(src, dst));
      AdrpAddValue(src, dst,
                   Wrap(TruncPage(src) + if PageReachable(src, dst) then PageDelta(src, dst) else -ADRP_RANGE));
    } else {
      LiteralTrampolineRealized(dst);
      var d' := LongBranchRuns(ext, d, src, code, 0, dst, false);
      k, t := 2, State(d', dst);
    }
  }

  lemma LiteralTrampolineRealized(dst: int)
    ensures var code := Relocated([Lit(dst), Raw(EncBr(TMP_REG_0))]);
      |code| == 4 && LoadsDatum(code, 0, TMP_REG_0, dst) && code[1] == EncBr(TMP_REG_0)
  {
    hide EncBr, LoadsDatum, EncLdrLiteralX;
    var items := [Lit(dst), Raw(EncBr(TMP_REG_0))];
    assert items[..1] == [Lit(dst)] && [Lit(dst)][..0] == [];
    assert LabelsOf([Lit(dst)]) == [LabelValue([0], dst)];
    assert LabelsOf(items) == LabelsOf(items[..1]);
    assert |Relocated(items)| == 4;
    RelocatedRealizes(items);
    assert RealizesItem(Relocated(items), 0 + 0, items[0]) && RealizesItem(Relocated(items), 0 + 1, items[1]);
  }

  /** A concrete pair the guard accepts and the trampoline misses. */
  lemma NormalTrampolineCanMiss()
    ensures var src, dst := 0x1000_0FFC, 0x1_1000_0FF8;
      src % 4 == 0 && dst % 4 == 0 && Distance(src, dst) < ADRP_RANGE && !PageReachable(src, dst)
  {
  }

  /** A page of slack in the distance rules the miss out. */
  lemma SlackIsEnough(src: int, dst: int)
    requires IsAddress(src) && IsAddress(dst) && Distance(src, dst) < ADRP_RANGE - 0x1000
    ensures PageReachable(src, dst)
  {
  }

  // ----- near branch trampolines -----

  /** `llabs((long long)dst - (long long)src)` */
  function SignedDistance(dst: int, src: int): int {
    var diff := Signed(dst, TWO_63) - Signed(src, TWO_63);
    if diff < 0 then -diff else diff
  }

  /** The B word at src, and the forward trampoline it goes through, if any. */
  datatype Near = Direct(b: int) | Via(b: int, at: int, forward: seq<int>)

  function MovBr(dst: int): seq<int> {
    [EncMovz(TMP_REG_0, Half(dst, 0), 0), EncMovk(TMP_REG_0, Half(dst, 1), 16), EncMovk(TMP_REG_0, Half(dst, 2), 32),
     EncMovk(TMP_REG_0, Half(dst, 3), 48), EncBr(TMP_REG_0)]
  }

  /** What `GenerateNearTrampolineBuffer` and `GenerateFastForwardTrampoline` produce; `first` and
      `second` are the answers to the near allocations of 12 and of 20 bytes. */
  function NearTrampoline(src: int, dst: int, first: Option<Block>, second: Option<Block>): Option<Near> {
    if SignedDistance(dst, src) < ARM64_B_XXX_RANGE then
      Some(Direct(EncB(BranchOffset(src, dst))))
    else if first.None? then None
    else if Distance(first.value.addr, dst) < ADRP_RANGE then
      Some(Via(EncB(BranchOffset(src, first.value.addr)), first.value.addr, AdrpAddBr(first.value.addr, dst)))
    else if second.None? then None
    else
      Some(Via(EncB(BranchOffset(src, second.value.addr)), second.value.addr, MovBr(dst)))
  }

  /** The signed difference of the addresses, read as signed themselves, fits the guard for a direct B. */
  predicate InBranchRange(src: int, dst: int) {
    var d := Signed(dst, TWO_63) - Signed(src, TWO_63);
    -0x800_0000 < d < 0x800_0000
  }

  lemma BranchRangeIs(src: int, dst: int)
    ensures SignedDistance(dst, src) < ARM64_B_XXX_RANGE <==> InBranchRange(src, dst)
    ensures 0 <= src < TWO_63 && 0 <= dst < TWO_63 ==>
              (InBranchRange(src, dst) <==> -0x800_0000 < dst - src < 0x800_0000)
  {}

  /** Which near trampoline is made, from the addresses alone: a direct B within the branch range, else
      one to adrp, add and br below 2^32, else one to mov and br, as far as the blocks are given. */
  lemma NearTrampolineForm(src: int, dst: int, first: Option<Block>, second: Option<Block>)
    requires IsAddress(src) && IsAddress(dst) && (first.Some? ==> IsAddress(first.value.addr))
    ensures var r := NearTrampoline(src, dst, first, second);
      && (InBranchRange(src, dst) <==> r.Some? && r.value.Direct?)
      && (!InBranchRange(src, dst) ==> (r.None? <==>
            first.None? || (Around(first.value.addr, dst) >= TWO_32 && second.None?)))
      && (r.Some? && r.value.Via? ==>
            if Around(first.value.addr, dst) < TWO_32
            then r.value.at == first.value.addr && r.value.forward == AdrpAddBr(first.value.addr, dst)
            else r.value.at == second.value.addr && r.value.forward == MovBr(dst))
  {
    hide Distance, AdrpAddBr, MovBr, EncB, SignedDistance, InBranchRange, Around, BranchOffset;
    BranchRangeIs(src, dst);
    if first.Some? {
      DistanceIsAround(first.value.addr, dst);
    }
  }

  /** The operating system's part in one near allocation: the process memory layout, and whether it
      grants the fixed mapping. */
  datatype SystemAnswer = SystemAnswer(regions: seq<Region>, granted: bool)

  /** What a near allocation for a B at src answers and leaves. */
  ghost predicate GivesNear(e: seq<Extent>, page: int, size: int, src: int, os: SystemAnswer, r: Option<Block>,
                            e': seq<Extent>)
    requires page > 0
  {
    NearAnswered(e, page, size, src, 0x800_0000, os.regions, os.granted, r, e')
  }

  /** The allocations of a forward trampoline: twelve bytes, and twenty more only if they are given but
      too far for adrp. */
  ghost predicate GivesForward(e: seq<Extent>, page: int, src: int, dst: int, os1: SystemAnswer, os2: SystemAnswer,
                               first: Option<Block>, second: Option<Block>, e': seq<Extent>)
    requires page > 0
  {
    exists mid ::
      && GivesNear(e, page, 12, src, os1, first, mid)
      && if first.Some? && Around(first.value.addr, dst) >= TWO_32
         then GivesNear(mid, page, 20, src, os2, second, e') else second == None && e' == mid
  }

  /** `GenerateFastForwardTrampoline`; `first` and `second` are the blocks it was given. */
  method GenerateFastForwardTrampoline(alloc: Allocator, src: int, dst: int, os1: SystemAnswer, os2: SystemAnswer)
    returns (r: Option<(int, seq<int>)>, ghost first: Option<Block>, ghost second: Option<Block>)
    requires alloc.Shape() && IsAddress(src) && IsAddress(dst)
    requires Layout(os1.regions, alloc.page) && Layout(os2.regions, alloc.page)
    modifies alloc, alloc.codeArenas
    ensures alloc.Shape()
    ensures NonNull(old(Extents(alloc.codeArenas))) ==>
              GivesForward(old(Extents(alloc.codeArenas)), alloc.page, src, dst, os1, os2, first, second,
                           Extents(alloc.codeArenas))
    ensures r == if first.None? then None
                 else if Distance(first.value.addr, dst) < ADRP_RANGE then
                   Some((first.value.addr, AdrpAddBr(first.value.addr, dst)))
                 else if second.None? then None else Some((second.value.addr, MovBr(dst)))
    ensures old(alloc.WordAligned()) && ByFour(src) ==>
              alloc.WordAligned() && GoodNearBlock(first, 12, src) && GoodNearBlock(second, 20, src)
  {
    assert alloc.page > 0;
    hide Distance, AdrpAddBr, MovBr, ByFour, Layout, GoodNearBlock, Allocator.Shape, Allocator.WordAligned, Extents,
         NonNull, GivesNear, Around, InWindow;
    ghost var e := Extents(alloc.codeArenas);
    second := None;
    assert GoodNearBlock(None, 20, src) by { NoBlockIsGood(20, src); }
    assert ByFour(12) && ByFour(20) by { BranchRangeByFour(); }
    var block := AllocateNearExecMemory(alloc, 12, src, os1);
    first := block;
    ghost var mid := Extents(alloc.codeArenas);
    if NonNull(e) {
      StaysNonNull(e, alloc.page, 12, src, os1, first, mid);
    }
    if block.None? {
      return None, first, second;
    }
    var code;
    DistanceIsAround(block.value.addr, dst);
    if Distance(block.value.addr, dst) < ADRP_RANGE {
      code := EmitAdrpAddBr(block.value.addr, dst);
    } else {
      code := EmitMovBr(dst);
      forall i | 0 <= i < |alloc.codeArenas|
        ensures alloc.codeArenas[i] in old(alloc.codeArenas) || fresh(alloc.codeArenas[i])
      {
        assert alloc.codeArenas[i] in alloc.codeArenas;
      }
      block := AllocateNearExecMemory(alloc, 20, src, os2);
      second := block;
      if block.None? {
        return None, first, second;
      }
    }
    r := Some((block.value.addr, code));
  }

  method EmitAdrpAddBr(src: int, dst: int) returns (code: seq<int>)
    ensures code == AdrpAddBr(src, dst)
  {
    hide PageDelta, EncAdrp, EncAddImm, EncBr;
    var asm := new TurboAssembler();
    asm.Emit(EncAdrp(TMP_REG_0, PageDelta(src, dst)));
    asm.Emit(EncAddImm(TMP_REG_0, TMP_REG_0, dst % 0x1000));
    asm.Emit(EncBr(TMP_REG_0));
    code := asm.buffer;
  }

  method EmitMovBr(dst: int) returns (code: seq<int>)
    ensures code == MovBr(dst)
  {
    hide EncMovz, EncMovk, EncBr, Half;
    var asm := new TurboAssembler();
    asm.Emit(EncMovz(TMP_REG_0, Half(dst, 0), 0));
    asm.Emit(EncMovk(TMP_REG_0, Half(dst, 1), 16));
    asm.Emit(EncMovk(TMP_REG_0, Half(dst, 2), 32));
    asm.Emit(EncMovk(TMP_REG_0, Half(dst, 3), 48));
    asm.Emit(EncBr(TMP_REG_0));
    code := asm.buffer;
  }

  /** `allocateNearExecMemory` in reach of a B at src. */
  method AllocateNearExecMemory(alloc: Allocator, size: int, src: int, os: SystemAnswer) returns (r: Option<Block>)
    requires alloc.Shape() && IsAddress(src) && Layout(os.regions, alloc.page) && 0 < size < TWO_32
    modifies alloc, alloc.codeArenas
    ensures NonNull(old(Extents(alloc.codeArenas))) ==>
              GivesNear(old(Extents(alloc.codeArenas)), alloc.page, size, src, os, r, Extents(alloc.codeArenas))
    ensures alloc.Shape() && (r.Some? ==> IsAddress(r.value.addr))
    ensures forall a :: a in alloc.codeArenas ==> a in old(alloc.codeArenas) || fresh(a)
    ensures old(alloc.WordAligned()) && ByFour(src) && ByFour(size) ==>
              alloc.WordAligned() && GoodNearBlock(r, size, src)
  {
    hide ByFour, Layout, Allocator.Shape, Allocator.WordAligned, ClearOfRegions, GapClash, FirstGap, Extents,
         NonNull, NearAnswered;
    assert ByFour(ARM64_B_XXX_RANGE) by { BranchRangeByFour(); }
    r := alloc.AllocateNearBlock(size, src, ARM64_B_XXX_RANGE, os.regions, os.granted);
  }

  lemma NoBlockIsGood(size: int, src: int)
    ensures GoodNearBlock(None, size, src)
  {}

  lemma StaysNonNull(e: seq<Extent>, page: int, size: int, src: int, os: SystemAnswer, r: Option<Block>,
                     e': seq<Extent>)
    requires page > 0 && 0 < size && NonNull(e) && GivesNear(e, page, size, src, os, r, e') && Layout(os.regions, page)
    ensures NonNull(e')
  {
    NearKeepsNonNull(e, page, size, src, ARM64_B_XXX_RANGE, os.regions, os.granted, r, e');
  }

  lemma BranchRangeByFour()
    ensures ByFour(12) && ByFour(20) && ByFour(ARM64_B_XXX_RANGE)
  {}

  /** `GenerateNearTrampolineBuffer` */
  method GenerateNearTrampolineBuffer(alloc: Allocator, src: int, dst: int, os1: SystemAnswer, os2: SystemAnswer)
    returns (r: Option<Near>, ghost first: Option<Block>, ghost second: Option<Block>)
    requires alloc.Shape() && IsAddress(src) && IsAddress(dst)
    requires Layout(os1.regions, alloc.page) && Layout(os2.regions, alloc.page)
    modifies alloc, alloc.codeArenas
    ensures NonNull(old(Extents(alloc.codeArenas))) ==>
              if InBranchRange(src, dst) then
                first == second == None && Extents(alloc.codeArenas) == old(Extents(alloc.codeArenas))
              else GivesForward(old(Extents(alloc.codeArenas)), alloc.page, src, dst, os1, os2, first, second,
                                Extents(alloc.codeArenas))
    ensures alloc.Shape() && r == NearTrampoline(src, dst, first, second)
    ensures old(alloc.WordAligned()) && ByFour(src) ==>
              alloc.WordAligned() && GoodNearBlock(first, 12, src) && GoodNearBlock(second, 20, src)
  {
    assert alloc.page > 0;
    hide Distance, AdrpAddBr, MovBr, EncB, SignedDistance, ByFour, Layout, GoodNearBlock, Allocator.Shape,
         Allocator.WordAligned, Extents, NonNull, GivesForward, InBranchRange;
    BranchRangeIs(src, dst);
    first, second := None, None;
    NoBlockIsGood(12, src);
    NoBlockIsGood(20, src);
    if SignedDistance(dst, src) < ARM64_B_XXX_RANGE {
      return Some(Direct(EncB(BranchOffset(src, dst)))), first, second;
    }
    var forward;
    forward, first, second := GenerateFastForwardTrampoline(alloc, src, dst, os1, os2);
    if forward.None? {
      return None, first, second;
    }
    var (at, code) := forward.value;
    r := Some(Via(EncB(BranchOffset(src, at)), at, code));
  }

  /** `dst - src` as the signed 64-bit immediate handed to `b`. */
  function BranchOffset(src: int, dst: int): int {
    Signed(Wrap(dst - src), TWO_63)
  }

  lemma BranchOffsetLaws(src: int, dst: int)
    requires IsAddress(src) && IsAddress(dst)
    ensures Wrap(src + BranchOffset(src, dst)) == dst
    ensures -TWO_63 <= dst - src < TWO_63 ==> BranchOffset(src, dst) == dst - src
    ensures SignedDistance(dst, src) < TWO_63 ==> BranchOffset(src, dst) == Signed(dst, TWO_63) - Signed(src, TWO_63)
    ensures src % 4 == 0 && dst % 4 == 0 ==> BranchOffset(src, dst) % 4 == 0
  {
    var diff := dst - src;
    if diff < 0 {
      DivUnique(diff, TWO_64, -1, diff + TWO_64);
    } else {
      DivUnique(diff, TWO_64, 0, diff);
    }
  }

  /** A B word at src to a 4-aligned address in reach gets there in one step, changing nothing. */
  lemma NearBranchRuns(ext: Extension, d: Data, src: int, dst: int)
    requires IsAddress(src) && IsAddress(dst) && src % 4 == 0 && dst % 4 == 0
    requires -ARM64_B_XXX_RANGE <= BranchOffset(src, dst) < ARM64_B_XXX_RANGE
    requires Placed(d.mem, src, [EncB(BranchOffset(src, dst))])
    ensures Decode(EncB(BranchOffset(src, dst))) == Branch(false, BranchOffset(src, dst))
    ensures Reaches(ext, State(d, src), 1, src, src + 4, State(d, dst))
  {
    hide Decode, EncB, Reaches, BranchOffset, Wrap;
    var code := [EncB(BranchOffset(src, dst))];
    BranchOffsetLaws(src, dst);
    DecodeB(BranchOffset(src, dst));
    OneStep(ext, d, src, code, 0);
    assert StepInstr(ext, Decode(code[0]), State(d, src + 4 * 0)) == State(d, dst);
  }

  lemma MovBrRuns(ext: Extension, d: Data, at: int, dst: int) returns (d': Data)
    requires IsAddress(dst) && Placed(d.mem, at, MovBr(dst))
    ensures Reaches(ext, State(d, at), 5, at, at + 20, State(d', dst))
    ensures SetsOnly(d, d', TMP_REG_0, dst)
  {
    hide Decode, Reaches, EncMovz, EncMovk, EncBr, Half;
    var code := MovBr(dst);
    d' := MovRuns(ext, d, at, code, 0, TMP_REG_0, dst);
    DecodeBranchReg(TMP_REG_0);
    OneStep(ext, d', at, code, 4);
    assert StepInstr(ext, Decode(code[4]), State(d', at + 4 * 4)) == State(d', dst);
    ReachesTrans(ext, State(d, at), 4, State(d', at + 4 * (0 + 4)), 1, State(d', dst), at, at + 4 * |code|);
  }

  /** What a near allocation from an allocator of whole words guarantees about its block. */
  predicate GoodNearBlock(b: Option<Block>, size: int, src: int) {
    b.Some? ==> InWindow(b.value, size, src, ARM64_B_XXX_RANGE) && ByFour(b.value.addr)
  }

  /** Where control has to get from the B word: to dst, or first to the forward trampoline. */
  function FirstStop(n: Near, dst: int): int {
    match n
    case Direct(_) => dst
    case Via(_, at, _) => at
  }

  /** Whenever a near trampoline is produced, its single B decodes to an in-range offset, and control
      entering src reaches dst, directly or through the forward trampoline, changing at most
      TMP_REG_0; the adrp form again misses exactly over a page distance of +2^32. */
  lemma NearTrampolineReaches(ext: Extension, d: Data, src: int, dst: int, first: Option<Block>, second: Option<Block>,
                              n: Near)
    returns (k: nat, t: State)
    requires IsAddress(src) && IsAddress(dst) && src % 4 == 0 && dst % 4 == 0
    requires GoodNearBlock(first, 12, src) && GoodNearBlock(second, 20, src)
    requires NearTrampoline(src, dst, first, second) == Some(n)
    requires Placed(d.mem, src, [n.b]) && (n.Via? ==> Placed(d.mem, n.at, n.forward))
    ensures Decode(n.b) == Branch(false, BranchOffset(src, FirstStop(n, dst)))
    ensures Reaches(ext, State(d, src), 1, src, src + 4, State(d, FirstStop(n, dst)))
    ensures n.Via? ==>
              Reaches(ext, State(d, n.at), k, n.at, n.at + 4 * |n.forward|, t) && SetsOnly(d, t.d, TMP_REG_0, t.pc)
    ensures n.Direct? ==> t == State(d, dst)
    ensures t.pc == dst <==>
            (n.Via? && Distance(first.value.addr, dst) < ADRP_RANGE ==> PageReachable(first.value.addr, dst))
  {
    hide Decode, EncB, Reaches, Distance, AdrpAddBr, MovBr, PageDelta, Placed, AdrpAddTarget;
    BranchOffsetLaws(src, FirstStop(n, dst));
    NearBranchRuns(ext, d, src, FirstStop(n, dst));
    if n.Direct? {
      k, t := 0, State(d, dst);
    } else if Distance(first.value.addr, dst) < ADRP_RANGE {
      var at := first.value.addr;
      var d' := AdrpAddBrRuns(ext, d, at, dst, n.forward);
      k, t := 3, State(d', AdrpAddTarget(at, dst));
      AdrpAddValue(at, dst, Wrap(TruncPage(at) + if PageReachable(at, dst) then PageDelta(at, dst) else -ADRP_RANGE));
    } else {
      var d' := MovBrRuns(ext, d, n.at, dst);
      k, t := 5, State(d', dst);
      assert |n.forward| == 5 by { MovBrLength(dst); }
    }
  }

  lemma MovBrLength(dst: int)
    ensures |MovBr(dst)| == 5
  {}
}
