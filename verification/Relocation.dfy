// The arm64 relocator, source/InstructionRelocation/arm64/InstructionRelocationARM64.cc: each word
// of a block is re-emitted as a sequence that means the same at another address.
module Relocation {
  import opened BitFields
  import opened Encoder
  import opened Assembler
  import A64

  // ----- classification, by the masks of the source -----

  predicate InstIsBBl(w: int) { Field(w, 0x400_0000, 0x20) == 0x05 }

  predicate InstIsLdrLiteral(w: int) { Field(w, 0x800_0000, 8) == 3 && Field(w, 0x100_0000, 4) == 0 }

  predicate InstIsAdr(w: int) { Field(w, 0x100_0000, 0x20) == 0x10 && Field(w, 0x8000_0000, 2) == 0 }

  predicate InstIsAdrp(w: int) { Field(w, 0x100_0000, 0x20) == 0x10 && Field(w, 0x8000_0000, 2) == 1 }

  predicate InstIsBCond(w: int) { Field(w, 0x200_0000, 0x80) == 0x2A }

  predicate InstIsCompareB(w: int) { Field(w, 0x200_0000, 0x40) == 0x1A }

  predicate InstIsTestB(w: int) { Field(w, 0x200_0000, 0x40) == 0x1B }

  function DecodeRt(w: int): int { Field(w, 1, 0x20) }

  /** x ^ 1 */
  function XorOne(x: int): int { if x % 2 == 0 then x + 1 else x - 1 }

  // ----- what is emitted for one word -----

  /** A word to emit: as it is, or a load of TMP_REG_0 from a literal-pool datum of its own. */
  datatype Item = Raw(word: int) | Lit(data: int)

  datatype Expansion = Items(items: seq<Item>) | Unimplemented

  /** `Mov(rd, imm)`: movz and three movk. */
  function MovItems(rd: int, imm: int): seq<Item> {
    [ Raw(EncMovz(rd, imm % 0x1_0000, 0)),
      Raw(EncMovk(rd, imm / 0x1_0000 % 0x1_0000, 16)),
      Raw(EncMovk(rd, imm / TWO_32 % 0x1_0000, 32)),
      Raw(EncMovk(rd, imm / 0x1_0000_0000_0000 % 0x1_0000, 48)) ]
  }

  /** b.cond with the condition's low bit flipped, skipping two words. */
  function InvertCond(w: int): int {
    SetField(SetField(w, 1, 0x10, XorOne(Field(w, 1, 0x10))), 0x20, 0x8_0000, 3)
  }

  /** cbz and cbnz exchanged, skipping two words. */
  function InvertCompare(w: int): int {
    SetField(SetField(w, 0x100_0000, 2, XorOne(Field(w, 0x100_0000, 2))), 0x20, 0x8_0000, 3)
  }

  /** tbz and tbnz exchanged, skipping two words. */
  function InvertTest(w: int): int {
    SetField(SetField(w, 0x100_0000, 2, XorOne(Field(w, 0x100_0000, 2))), 0x20, 0x4000, 3)
  }

  /** The loop body of `relo_relocate` for word w at address `at`. */
  function Expand(w: int, at: int): Expansion {
    if InstIsBBl(w) then
      Items([Lit(Wrap(at + DecodeImm26Offset(w))),
             Raw(if Field(w, 0x8000_0000, 2) == 1 then EncBlr(TMP_REG_0) else EncBr(TMP_REG_0))])
    else if InstIsLdrLiteral(w) then
      if Field(w, 0x4000_0000, 4) <= 1 then
        // both forms go through ldr(reg, MemOperand), which emits the 64-bit load
        Items(MovItems(TMP_REG_0, Wrap(at + DecodeImm19Offset(w))) + [Raw(EncLdrX(DecodeRt(w), TMP_REG_0, 0))])
      else Unimplemented
    else if InstIsAdr(w) then
      Items(MovItems(DecodeRt(w), Wrap(at + DecodeImmhiImmloOffset(w))))
    else if InstIsAdrp(w) then
      Items(MovItems(DecodeRt(w), TruncPage(Wrap(at + DecodeImmhiImmloZero12Offset(w)))))
    else if InstIsBCond(w) then
      Items([Raw(InvertCond(w)), Lit(Wrap(at + DecodeImm19Offset(w))), Raw(EncBr(TMP_REG_0))])
    else if InstIsCompareB(w) then
      Items([Raw(InvertCompare(w)), Lit(Wrap(at + DecodeImm19Offset(w))), Raw(EncBr(TMP_REG_0))])
    else if InstIsTestB(w) then
      Items([Raw(InvertTest(w)), Lit(Wrap(at + DecodeImm14Offset(w))), Raw(EncBr(TMP_REG_0))])
    else
      Items([Raw(w)])
  }

  // ----- the relocator's decoder agrees with the architecture's -----

  lemma TopAndLow(w: int)
    requires IsWord(w)
    ensures var top, low := w / 0x100_0000, w % 0x100_0000;
      && 0 <= top < 0x100
      && w / 0x200_0000 == top / 2 && w / 0x400_0000 == top / 4 && w / 0x800_0000 == top / 8
      && w / 0x2000_0000 == top / 0x20 && w / 0x4000_0000 == top / 0x40 && w / 0x8000_0000 == top / 0x80
      && Field(w, 0x20, 0x8_0000) == low / 0x20 && Field(w, 1, 0x20) == low % 0x20
      && Field(w, 0x20, 0x4000) == low / 0x20 % 0x4000 && Field(w, 1, 0x10) == low % 0x10
      && Field(w, 1, 0x400_0000) == top % 4 * 0x100_0000 + low
  {
    var top, low := w / 0x100_0000, w % 0x100_0000;
    DivDiv(w, 0x100_0000, 2);
    DivDiv(w, 0x100_0000, 4);
    DivDiv(w, 0x100_0000, 8);
    DivDiv(w, 0x100_0000, 0x20);
    DivDiv(w, 0x100_0000, 0x40);
    DivDiv(w, 0x100_0000, 0x80);
    LowFields(top, low);
  }

  lemma LowFields(top: int, low: int)
    requires 0 <= top < 0x100 && 0 <= low < 0x100_0000
    ensures var w := top * 0x100_0000 + low;
      && Field(w, 0x20, 0x8_0000) == low / 0x20 && Field(w, 1, 0x20) == low % 0x20
      && Field(w, 0x20, 0x4000) == low / 0x20 % 0x4000 && Field(w, 1, 0x10) == low % 0x10
      && Field(w, 1, 0x400_0000) == top % 4 * 0x100_0000 + low
  {
    var w := top * 0x100_0000 + low;
    var q, r := low / 0x20, low % 0x20;
    DivUnique(w, 0x20, top * 0x8_0000 + q, r);
    DivUnique(top * 0x8_0000 + q, 0x8_0000, top, q);
    DivUnique(top * 0x8_0000 + q, 0x4000, top * 0x20 + q / 0x4000, q % 0x4000);
    DivUnique(w, 0x10, top * 0x10_0000 + low / 0x10, low % 0x10);
    DivUnique(w, 0x400_0000, top / 4, top % 4 * 0x100_0000 + low);
  }

  /** For every 32-bit word the classifiers pick the architectural class; one unallocated pattern
      (top byte 0x55) is taken for b.cond. */
  lemma ClassesAgree(w: int)
    requires IsWord(w)
    ensures var i := A64.Decode(w);
      && (InstIsBBl(w) <==> i.Branch?)
      && (InstIsLdrLiteral(w) <==> i.LdrLiteral?)
      && (InstIsAdr(w) <==> i.Adr?) && (InstIsAdrp(w) <==> i.Adrp?)
      && (InstIsBCond(w) <==> i.BranchCond? || w / 0x100_0000 == 0x55)
      && (InstIsCompareB(w) <==> i.CompareBranch?) && (InstIsTestB(w) <==> i.TestBranch?)
      && (w / 0x100_0000 == 0x55 ==> i.OtherBranch?)
  {
    hide A64.DecodeParts;
    TopAndLow(w);
    ClassOfTop(w / 0x100_0000, w % 0x100_0000);
  }

  lemma ClassOfTop(top: int, low: int)
    requires 0 <= top < 0x100
    ensures var i := A64.DecodeParts(top, low);
      && (top / 4 % 0x20 == 5 <==> i.Branch?)
      && (top / 8 % 8 == 3 && top % 4 == 0 <==> i.LdrLiteral?)
      && (top % 0x20 == 0x10 && top / 0x80 % 2 == 0 <==> i.Adr?)
      && (top % 0x20 == 0x10 && top / 0x80 % 2 == 1 <==> i.Adrp?)
      && (top / 2 % 0x80 == 0x2A <==> i.BranchCond? || top == 0x55)
      && (top / 2 % 0x40 == 0x1A <==> i.CompareBranch?)
      && (top / 2 % 0x40 == 0x1B <==> i.TestBranch?)
      && (top == 0x55 ==> i.OtherBranch?)
  {
    hide A64.Offset26, A64.Offset21, A64.Offset19, A64.Offset14, A64.Reg0, A64.Reg5, A64.DecodeData;
    TopsOfBranches(top);
    TopsOfLiterals(top);
  }

  lemma TopsOfBranches(top: int)
    requires 0 <= top < 0x100
    ensures top / 4 % 0x20 == 5 <==> 0x14 <= top < 0x18 || 0x94 <= top < 0x98
    ensures top / 2 % 0x40 == 0x1A <==> top in {0x34, 0x35, 0xB4, 0xB5}
    ensures top / 2 % 0x40 == 0x1B <==> top in {0x36, 0x37, 0xB6, 0xB7}
    ensures top / 2 % 0x80 == 0x2A <==> top in {0x54, 0x55}
  {
  }

  lemma TopsOfLiterals(top: int)
    requires 0 <= top < 0x100
    ensures top % 0x20 == 0x10 <==> top in {0x10, 0x30, 0x50, 0x70, 0x90, 0xB0, 0xD0, 0xF0}
    ensures top / 8 % 8 == 3 && top % 4 == 0 <==> top in {0x18, 0x1C, 0x58, 0x5C, 0x98, 0x9C, 0xD8, 0xDC}
  {
    assert top / 8 % 8 == 3 <==> top / 8 in {3, 11, 19, 27};
  }

  lemma OffsetAgrees(v: int, half: int, k: int)
    requires half > 0 && k > 1 && 0 <= v < 2 * half && TWO_64 == 8 * half * k
    ensures SignExtend(v * 4, half * 4) == Signed(v, half) * 4
  {
    SignExtendIsTwosComplement(v * 4, half * 4, k);
  }

  /** The offset and register decoders return the architectural operands. */
  lemma OperandsAgree(w: int)
    requires IsWord(w)
    ensures var i := A64.Decode(w);
      && (i.Branch? ==> i.offset == DecodeImm26Offset(w) && i.link == (Field(w, 0x8000_0000, 2) == 1))
      && (i.LdrLiteral? ==> i.offset == DecodeImm19Offset(w) && i.rt == DecodeRt(w))
      && (i.LdrLiteral? ==> i.opc == Field(w, 0x4000_0000, 4))
      && (i.Adr? ==> i.offset == DecodeImmhiImmloOffset(w) && i.rd == DecodeRt(w))
      && (i.Adrp? ==> i.offset == DecodeImmhiImmloZero12Offset(w) && i.rd == DecodeRt(w))
      && (i.BranchCond? ==> i.offset == DecodeImm19Offset(w) && i.cond == Field(w, 1, 0x10))
      && (i.CompareBranch? ==> i.offset == DecodeImm19Offset(w))
      && (i.TestBranch? ==> i.offset == DecodeImm14Offset(w))
  {
    hide A64.DecodeParts, A64.Offset26, A64.Offset21, A64.Offset19, A64.Offset14, DecodeImm26Offset, DecodeImm19Offset,
         DecodeImm14Offset, DecodeImmhiImmloOffset;
    TopAndLow(w);
    OffsetsAgree(w);
    OperandsOfParts(w / 0x100_0000, w % 0x100_0000);
    assert Field(w, 0x8000_0000, 2) == w / 0x100_0000 / 0x80 && Field(w, 0x4000_0000, 4) == w / 0x100_0000 / 0x40;
  }

  /** The operands of each class, from the top byte and the low bits. */
  lemma OperandsOfParts(top: int, low: int)
    ensures var i := A64.DecodeParts(top, low);
      && (i.Branch? ==> i.offset == A64.Offset26(top, low) && i.link == (top / 0x80 == 1))
      && (i.LdrLiteral? ==> i.offset == A64.Offset19(low) && i.rt == low % 0x20 && i.opc == top / 0x40)
      && (i.Adr? ==> i.offset == A64.Offset21(top, low) && i.rd == low % 0x20)
      && (i.Adrp? ==> i.offset == A64.Offset21(top, low) * 0x1000 && i.rd == low % 0x20)
      && (i.BranchCond? ==> i.offset == A64.Offset19(low) && i.cond == low % 0x10)
      && (i.CompareBranch? ==> i.offset == A64.Offset19(low))
      && (i.TestBranch? ==> i.offset == A64.Offset14(low))
  {
    hide A64.DecodeData, A64.Offset26, A64.Offset21, A64.Offset19, A64.Offset14, A64.Reg5;
  }

  lemma OffsetsAgree(w: int)
    requires IsWord(w)
    ensures var top, low := w / 0x100_0000, w % 0x100_0000;
      && A64.Offset26(top, low) == DecodeImm26Offset(w)
      && A64.Offset21(top, low) == DecodeImmhiImmloOffset(w)
      && A64.Offset19(low) == DecodeImm19Offset(w)
      && A64.Offset14(low) == DecodeImm14Offset(w)
  {
    hide SignExtend, Signed;
    TopAndLow(w);
    OffsetAgrees(Field(w, 1, 0x400_0000), 0x200_0000, 0x10_0000_0000);
    OffsetAgrees(Field(w, 0x20, 0x8_0000), 0x4_0000, 0x800_0000_0000);
    OffsetAgrees(Field(w, 0x20, 0x4000), 0x2000, 0x1_0000_0000_0000);
    SignExtendIsTwosComplement(Field(w, 0x2000_0000, 4) + Field(w, 0x20, 0x8_0000) * 4, 0x10_0000, 0x800_0000_0000);
  }

  // ----- which words are accepted -----

  /** Every word except the literal loads that the relocator aborts on: LDRSW, PRFM and those of Q
      registers. */
  predicate Relocatable(w: int) {
    !(A64.Decode(w).LdrLiteral? && A64.Decode(w).opc > 1)
  }

  predicate AllWords(words: seq<int>) {
    forall i :: 0 <= i < |words| ==> IsWord(words[i])
  }

  predicate AllRelocatable(words: seq<int>) {
    forall i :: 0 <= i < |words| ==> Relocatable(words[i])
  }

  lemma AcceptedExactly(w: int, at: int)
    requires IsWord(w)
    ensures Expand(w, at).Items? <==> Relocatable(w)
  {
    hide A64.Decode, Field, DecodeImm26Offset, DecodeImm19Offset, DecodeImm14Offset, DecodeImmhiImmloOffset, MovItems,
         InvertCond, InvertCompare, InvertTest, EncBr, EncBlr, EncLdrX;
    ClassesAgree(w);
    OperandsAgree(w);
  }

  /** A word that is not PC-relative is emitted as it is, whatever it does. */
  lemma RawExactly(w: int, at: int)
    requires IsWord(w)
    ensures var i := A64.Decode(w);
      A64.IsDataOp(i) || i.BranchReg? || (i.OtherBranch? && w / 0x100_0000 != 0x55) <==>
      Expand(w, at) == Items([Raw(w)])
  {
    hide A64.Decode, Field, DecodeImm26Offset, DecodeImm19Offset, DecodeImm14Offset, DecodeImmhiImmloOffset,
         InvertCond, InvertCompare, InvertTest, EncBr, EncBlr, EncLdrX, EncMovz, EncMovk;
    ClassesAgree(w);
    OperandsAgree(w);
  }

  // ----- the emitted block -----

  function ItemWord(it: Item): int {
    match it
    case Raw(w) => w
    case Lit(_) => EncLdrLiteralX(TMP_REG_0)
  }

  function CodeOf(items: seq<Item>): (r: seq<int>)
    ensures |r| == |items|
  {
    seq(|items|, p requires 0 <= p < |items| => ItemWord(items[p]))
  }

  /** One label for each literal item, referred to by that item alone. */
  function LabelsOf(items: seq<Item>): seq<LabelValue> {
    if items == [] then []
    else
      var front, last := items[..|items| - 1], items[|items| - 1];
      match last
      case Raw(_) => LabelsOf(front)
      case Lit(data) => LabelsOf(front) + [LabelValue([|front|], data)]
  }

  function Assembled(items: seq<Item>): Unlinked {
    Unlinked(CodeOf(items), LabelsOf(items))
  }

  lemma AssembledSnoc(items: seq<Item>, it: Item)
    ensures it.Raw? ==> Assembled(items + [it]) == Emitted(Assembled(items), it.word)
    ensures it.Lit? ==> Assembled(items + [it]) == WithDatumLoad(Assembled(items), TMP_REG_0, it.data)
  {
    hide EncLdrLiteralX;
    assert (items + [it])[..|items|] == items;
    assert CodeOf(items + [it]) == CodeOf(items) + [ItemWord(it)];
  }

  lemma {:induction false} LabelsOfLaws(items: seq<Item>)
    ensures forall k :: 0 <= k < |LabelsOf(items)| ==>
      var l := LabelsOf(items)[k]; |l.refs| == 1 && l.refs[0] < |items| && items[l.refs[0]] == Lit(l.data)
    ensures forall k, k' :: 0 <= k < k' < |LabelsOf(items)| ==> LabelsOf(items)[k].refs[0] < LabelsOf(items)[k'].refs[0]
    ensures forall p :: 0 <= p < |items| && items[p].Lit? ==>
      exists k :: 0 <= k < |LabelsOf(items)| && LabelsOf(items)[k] == LabelValue([p], items[p].data)
    decreases |items|
  {
    if items != [] {
      var front, last := items[..|items| - 1], items[|items| - 1];
      LabelsOfLaws(front);
      var ls, ls' := LabelsOf(front), LabelsOf(items);
      forall p | 0 <= p < |items| && items[p].Lit?
        ensures exists k :: 0 <= k < |ls'| && ls'[k] == LabelValue([p], items[p].data)
      {
        if p < |front| {
          assert front[p] == items[p];
          var k :| 0 <= k < |ls| && ls[k] == LabelValue([p], front[p].data);
          assert ls'[k] == ls[k];
        } else {
          assert ls'[|ls|] == LabelValue([p], items[p].data);
        }
      }
    }
  }

  /** The linked code of a sequence of items. */
  function Relocated(items: seq<Item>): seq<int>
  {
    LabelsOfLaws(items);
    Linked(CodeOf(items), LabelsOf(items))
  }

  /** From word p on, `code` does what the items say. */
  ghost predicate Realizes(code: seq<int>, p: nat, items: seq<Item>) {
    && p + |items| <= |code|
    && forall j :: 0 <= j < |items| ==> RealizesItem(code, p + j, items[j])
  }

  ghost predicate RealizesItem(code: seq<int>, p: nat, it: Item) {
    && p < |code|
    && match it
       case Raw(w) => code[p] == w
       case Lit(data) => LoadsDatum(code, p, TMP_REG_0, data)
  }

  lemma RelocatedRealizes(items: seq<Item>)
    requires 4 * |Relocated(items)| <= 0x10_0000
    ensures Realizes(Relocated(items), 0, items)
  {
    hide EncLdrLiteralX, LoadsDatum, Linked, LabelsOf;
    LabelsOfLaws(items);
    var code, labels, r := CodeOf(items), LabelsOf(items), Relocated(items);
    assert RefsDistinct(labels);
    LinkingIsCorrect(code, labels, r);
    forall p | 0 <= p < |items|
      ensures RealizesItem(r, p, items[p])
    {
      match items[p]
      case Raw(w) =>
        assert Unrecorded(labels, p);
      case Lit(data) =>
        var k :| 0 <= k < |labels| && labels[k] == LabelValue([p], data);
        assert labels[k].refs[0] == p;
    }
  }

  /** The items of a block that starts at address src, in order. */
  function BlockItems(words: seq<int>, src: int): seq<Item> {
    if words == [] then []
    else
      var n := |words| - 1;
      BlockItems(words[..n], src)
        + (match Expand(words[n], src + 4 * n) case Items(items) => items case Unimplemented => [])
  }

  /** `relocated_offset_map`: where the image of word i starts. */
  function ImageOffset(words: seq<int>, src: int, i: nat): nat
    requires i <= |words|
  {
    |BlockItems(words[..i], src)|
  }

  /** The jump to the rest of the original function. */
  function ExitItems(words: seq<int>, src: int): seq<Item> {
    [Lit(Wrap(src + 4 * |words|)), Raw(EncBr(TMP_REG_0))]
  }

  function AllItems(words: seq<int>, src: int, branch: bool): seq<Item> {
    BlockItems(words, src) + if branch then ExitItems(words, src) else []
  }

  predicate Implemented(words: seq<int>, src: int) {
    forall i :: 0 <= i < |words| ==> Expand(words[i], src + 4 * i).Items?
  }

  lemma ImplementedExactly(words: seq<int>, src: int)
    requires AllWords(words)
    ensures Implemented(words, src) <==> AllRelocatable(words)
  {
    hide Expand, Relocatable;
    forall i | 0 <= i < |words| ensures Expand(words[i], src + 4 * i).Items? <==> Relocatable(words[i]) {
      AcceptedExactly(words[i], src + 4 * i);
    }
  }

  lemma {:induction false} ChunkAt(words: seq<int>, src: int, i: nat)
    requires i < |words| && Implemented(words, src)
    ensures ImageOffset(words, src, i + 1) == ImageOffset(words, src, i) + |Expand(words[i], src + 4 * i).items|
    ensures ImageOffset(words, src, i + 1) <= |BlockItems(words, src)|
    ensures BlockItems(words, src)[ImageOffset(words, src, i)..ImageOffset(words, src, i + 1)]
         == Expand(words[i], src + 4 * i).items
    decreases |words|
  {
    hide Expand, BlockItems;
    var n := |words| - 1;
    BlockItemsSnoc(words, src);
    var front, last := BlockItems(words[..n], src), Expand(words[n], src + 4 * n).items;
    if i == n {
      assert words[..n + 1] == words;
      assert (front + last)[|front|..|front| + |last|] == last;
    } else {
      ChunkAt(words[..n], src, i);
      assert words[..n][..i] == words[..i] && words[..n][..i + 1] == words[..i + 1];
      var lo, hi := ImageOffset(words, src, i), ImageOffset(words, src, i + 1);
      assert (front + last)[lo..hi] == front[lo..hi];
    }
  }

  lemma BlockItemsSnoc(words: seq<int>, src: int)
    requires |words| > 0 && Implemented(words, src)
    ensures var n := |words| - 1;
      && Implemented(words[..n], src)
      && BlockItems(words, src) == BlockItems(words[..n], src) + Expand(words[n], src + 4 * n).items
  {
    hide Expand;
  }

  // ----- relo_relocate -----

  /** The map has exactly the offsets of the first n words as keys, and their images' offsets as values. */
  predicate MapsImages(offsets: map<int, int>, words: seq<int>, src: int, n: nat)
    requires n <= |words|
  {
    && (forall i :: 0 <= i < n ==> 4 * i in offsets && offsets[4 * i] == 4 * ImageOffset(words, src, i))
    && (forall o :: o in offsets ==> o % 4 == 0 && 0 <= o / 4 < n)
  }

  datatype Outcome = Done(code: seq<int>, offsets: map<int, int>) | Aborted

  method EmitRaw(asm: TurboAssembler, w: int, ghost items: seq<Item>)
    requires asm.Valid() && asm.view == Assembled(items)
    modifies asm
    ensures asm.Valid() && asm.view == Assembled(items + [Raw(w)])
    ensures asm.dataLabels == old(asm.dataLabels)
  {
    AssembledSnoc(items, Raw(w));
    asm.Emit(w);
  }

  method EmitLit(asm: TurboAssembler, value: int, ghost items: seq<Item>)
    requires asm.Valid() && asm.view == Assembled(items)
    modifies asm
    ensures asm.Valid() && asm.view == Assembled(items + [Lit(value)])
    ensures forall l :: l in asm.dataLabels ==> l in old(asm.dataLabels) || fresh(l)
  {
    AssembledSnoc(items, Lit(value));
    asm.LdrData(TMP_REG_0, value);
  }

  /** `TurboAssembler::Mov` */
  method EmitMov(asm: TurboAssembler, rd: int, imm: int, ghost items: seq<Item>)
    requires asm.Valid() && asm.view == Assembled(items)
    modifies asm
    ensures asm.Valid() && asm.view == Assembled(items + MovItems(rd, imm))
    ensures asm.dataLabels == old(asm.dataLabels)
  {
    hide EncMovz, EncMovk;
    ghost var m := MovItems(rd, imm);
    EmitRaw(asm, EncMovz(rd, imm % 0x1_0000, 0), items);
    EmitRaw(asm, EncMovk(rd, imm / 0x1_0000 % 0x1_0000, 16), items + [m[0]]);
    EmitRaw(asm, EncMovk(rd, imm / TWO_32 % 0x1_0000, 32), items + [m[0]] + [m[1]]);
    EmitRaw(asm, EncMovk(rd, imm / 0x1_0000_0000_0000 % 0x1_0000, 48), items + [m[0]] + [m[1]] + [m[2]]);
    assert items + m == items + [m[0]] + [m[1]] + [m[2]] + [m[3]];
  }

  /** A branch that skips the next two words, then a long branch to the target. */
  method EmitSkippedBranch(asm: TurboAssembler, skip: int, target: int, ghost items: seq<Item>)
    requires asm.Valid() && asm.view == Assembled(items)
    modifies asm
    ensures asm.Valid() && asm.view == Assembled(items + [Raw(skip), Lit(target), Raw(EncBr(TMP_REG_0))])
    ensures forall l :: l in asm.dataLabels ==> l in old(asm.dataLabels) || fresh(l)
  {
    EmitRaw(asm, skip, items);
    EmitLit(asm, target, items + [Raw(skip)]);
    EmitRaw(asm, EncBr(TMP_REG_0), items + [Raw(skip)] + [Lit(target)]);
    assert items + [Raw(skip), Lit(target), Raw(EncBr(TMP_REG_0))]
        == items + [Raw(skip)] + [Lit(target)] + [Raw(EncBr(TMP_REG_0))];
  }

  /** The body of the loop of `relo_relocate`; false stands for the abort of UNIMPLEMENTED. */
  method RelocateOne(asm: TurboAssembler, inst: int, at: int, ghost items: seq<Item>) returns (ok: bool)
    requires asm.Valid() && asm.view == Assembled(items)
    modifies asm
    ensures ok <==> Expand(inst, at).Items?
    ensures ok ==> asm.Valid() && asm.view == Assembled(items + Expand(inst, at).items)
    ensures forall l :: l in asm.dataLabels ==> l in old(asm.dataLabels) || fresh(l)
  {
    hide Field, Wrap, DecodeImm26Offset, DecodeImm19Offset, DecodeImm14Offset, DecodeImmhiImmloOffset, TruncPage,
         Assembled, InvertCond, InvertCompare, InvertTest, EncBr, EncBlr, EncLdrX, EncMovz, EncMovk;
    ok := true;
    if InstIsBBl(inst) {
      var target := Wrap(at + DecodeImm26Offset(inst));
      EmitLit(asm, target, items);
      var br := if Field(inst, 0x8000_0000, 2) == 1 then EncBlr(TMP_REG_0) else EncBr(TMP_REG_0);
      EmitRaw(asm, br, items + [Lit(target)]);
      assert items + [Lit(target)] + [Raw(br)] == items + [Lit(target), Raw(br)];
    } else if InstIsLdrLiteral(inst) {
      var target := Wrap(at + DecodeImm19Offset(inst));
      var opc := Field(inst, 0x4000_0000, 4);
      EmitMov(asm, TMP_REG_0, target, items);
      if opc <= 1 {
        var ldr := EncLdrX(DecodeRt(inst), TMP_REG_0, 0);
        EmitRaw(asm, ldr, items + MovItems(TMP_REG_0, target));
        assert items + MovItems(TMP_REG_0, target) + [Raw(ldr)] == items + (MovItems(TMP_REG_0, target) + [Raw(ldr)]);
      } else {
        ok := false;
      }
    } else if InstIsAdr(inst) {
      EmitMov(asm, DecodeRt(inst), Wrap(at + DecodeImmhiImmloOffset(inst)), items);
    } else if InstIsAdrp(inst) {
      EmitMov(asm, DecodeRt(inst), TruncPage(Wrap(at + DecodeImmhiImmloZero12Offset(inst))), items);
    } else if InstIsBCond(inst) {
      EmitSkippedBranch(asm, InvertCond(inst), Wrap(at + DecodeImm19Offset(inst)), items);
    } else if InstIsCompareB(inst) {
      EmitSkippedBranch(asm, InvertCompare(inst), Wrap(at + DecodeImm19Offset(inst)), items);
    } else if InstIsTestB(inst) {
      EmitSkippedBranch(asm, InvertTest(inst), Wrap(at + DecodeImm14Offset(inst)), items);
    } else {
      EmitRaw(asm, inst, items);
    }
  }

  /** The loop of `relo_relocate`. */
  method RelocateWords(asm: TurboAssembler, words: seq<int>, src: int) returns (ok: bool, offsets: map<int, int>)
    requires asm.Valid() && asm.view == Assembled([])
    modifies asm
    ensures ok <==> Implemented(words, src)
    ensures ok ==> asm.Valid() && asm.view == Assembled(BlockItems(words, src))
    ensures forall l :: l in asm.dataLabels ==> l in old(asm.dataLabels) || fresh(l)
    ensures ok ==> MapsImages(offsets, words, src, |words|)
  {
    hide Expand, LabelsOf, ItemWord, MapsImages, ImageOffset;
    offsets := map[];
    var cursor := 0;
    MapsNone(words, src);
    while cursor < |words|
      invariant 0 <= cursor <= |words|
      invariant asm.Valid() && forall l :: l in asm.dataLabels ==> l in old(asm.dataLabels) || fresh(l)
      invariant asm.view == Assembled(BlockItems(words[..cursor], src))
      invariant forall i :: 0 <= i < cursor ==> Expand(words[i], src + 4 * i).Items?
      invariant MapsImages(offsets, words, src, cursor)
    {
      assert words[..cursor + 1][..cursor] == words[..cursor];
      MapsOneMore(offsets, words, src, cursor);
      assert |asm.buffer| == ImageOffset(words, src, cursor) by { BufferSize(asm.view, words, src, cursor); }
      offsets := offsets[4 * cursor := 4 * |asm.buffer|];
      ok := RelocateOne(asm, words[cursor], src + 4 * cursor, BlockItems(words[..cursor], src));
      if !ok {
        return false, offsets;
      }
      cursor := cursor + 1;
    }
    assert words[..|words|] == words;
    ok := true;
  }

  lemma MapsNone(words: seq<int>, src: int)
    ensures MapsImages(map[], words, src, 0)
  {}

  lemma MapsOneMore(offsets: map<int, int>, words: seq<int>, src: int, n: nat)
    requires n < |words| && MapsImages(offsets, words, src, n)
    ensures MapsImages(offsets[4 * n := 4 * ImageOffset(words, src, n)], words, src, n + 1)
  {
    hide ImageOffset;
  }

  lemma BufferSize(u: Unlinked, words: seq<int>, src: int, n: nat)
    requires n <= |words| && u == Assembled(BlockItems(words[..n], src))
    ensures |u.code| == ImageOffset(words, src, n)
  {
    hide BlockItems, LabelsOf;
  }

  /** `relo_relocate`: the loop, the jump to the rest of the function, and binding all labels. */
  method RelocateBlock(words: seq<int>, src: int, branch: bool) returns (r: Outcome)
    ensures r.Done? <==> Implemented(words, src)
    ensures r.Done? ==> r.code == Relocated(AllItems(words, src, branch))
    ensures r.Done? ==> MapsImages(r.offsets, words, src, |words|)
    ensures AllWords(words) ==> (r.Done? <==> AllRelocatable(words))
  {
    hide Expand, LabelsOf, ItemWord, BlockItems, ImageOffset, Linked, EncBr, EncLdrLiteralX, Wrap, MapsImages,
         Implemented, AllWords, AllRelocatable;
    if AllWords(words) {
      ImplementedExactly(words, src);
    }
    var asm := new TurboAssembler();
    assert asm.view == Assembled([]) by { NothingAssembled(); }
    var ok, offsets := RelocateWords(asm, words, src);
    if !ok {
      return Aborted;
    }
    assert forall l :: l in asm.dataLabels ==> fresh(l);
    ghost var items := BlockItems(words, src);
    if branch {
      ghost var exit := ExitItems(words, src);
      AssembledSnoc(items, exit[0]);
      AssembledSnoc(items + [exit[0]], exit[1]);
      assert items + exit == items + [exit[0]] + [exit[1]];
      asm.LiteralLdrBranch(Wrap(src + 4 * |words|));
    } else {
      assert AllItems(words, src, branch) == items;
    }
    assert forall l :: l in asm.dataLabels ==> fresh(l);
    forall i | 0 <= i < |asm.dataLabels| ensures fresh(asm.dataLabels[i]) {
      assert asm.dataLabels[i] in asm.dataLabels;
    }
    asm.RelocBind();
    r := Done(asm.buffer, offsets);
  }

  lemma NothingAssembled()
    ensures Assembled([]) == Unlinked([], [])
  {}
}
