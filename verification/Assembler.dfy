// Code buffers, labels and the literal pool: source/core/assembler/assembler.cc,
// assembler-arm64.cc, AssemblerPseudoLabel.h and the label part of assembler-arm64.h.
//
// A buffer is a sequence of 32-bit words and an offset counts words; byte offsets are 4 times that.
module Assembler {
  import opened BitFields
  import opened Encoder
  import A64

  // ----- the values that the assembler object stands for -----

  /** A data label: the offsets of the literal loads that refer to it, and its 64-bit datum. */
  datatype LabelValue = LabelValue(refs: seq<nat>, data: int)

  /** Unlinked code. */
  datatype Unlinked = Unlinked(code: seq<int>, labels: seq<LabelValue>)

  function Emitted(u: Unlinked, w: int): Unlinked {
    u.(code := u.code + [w])
  }

  /** A literal load of label k has been emitted. */
  function Referred(u: Unlinked, rt: int, k: nat): Unlinked
    requires k < |u.labels|
  {
    Unlinked(u.code + [EncLdrLiteralX(rt)],
             u.labels[k := u.labels[k].(refs := u.labels[k].refs + [|u.code|])])
  }

  /** Store into every recorded load the distance to `pos`. */
  function PatchRefs(code: seq<int>, refs: seq<nat>, pos: nat): (r: seq<int>)
    requires forall i :: 0 <= i < |refs| ==> refs[i] < |code|
    ensures |r| == |code|
    decreases |refs|
  {
    if refs == [] then code
    else
      var at := refs[0];
      PatchRefs(code[at := EncodeImm19Offset(code[at], 4 * (pos - at))], refs[1..], pos)
  }

  predicate RefsInside(labels: seq<LabelValue>, n: nat) {
    forall k, i :: 0 <= k < |labels| && 0 <= i < |labels[k].refs| ==> labels[k].refs[i] < n
  }

  /** The code after binding every label in turn to the end of the buffer and appending its datum. */
  function Linked(code: seq<int>, labels: seq<LabelValue>): (r: seq<int>)
    requires RefsInside(labels, |code|)
    ensures |r| == |code| + 2 * |labels|
    decreases |labels|
  {
    if labels == [] then code
    else
      var bound := PatchRefs(code, labels[0].refs, |code|);
      Linked(bound + [labels[0].data % TWO_32, labels[0].data / TWO_32], labels[1..])
  }

  lemma LinkedNone(code: seq<int>)
    ensures Linked(code, []) == code
  {}

  /** Linking one more label: patch its loads in what is linked so far, then append its datum. */
  lemma {:induction false} LinkedSnoc(code: seq<int>, labels: seq<LabelValue>, last: LabelValue)
    requires RefsInside(labels + [last], |code|)
    ensures RefsInside(labels, |code|) && forall i :: 0 <= i < |last.refs| ==> last.refs[i] < |code|
    ensures var c := Linked(code, labels);
      Linked(code, labels + [last]) == PatchRefs(c, last.refs, |c|) + [last.data % TWO_32, last.data / TWO_32]
    decreases |labels|
  {
    hide PatchRefs;
    var all := labels + [last];
    assert all[|labels|] == last;
    assert forall k :: 0 <= k < |labels| ==> all[k] == labels[k];
    if labels == [] {
      assert all[1..] == [] && all[0] == last;
    } else {
      assert all[1..] == labels[1..] + [last];
      var bound := PatchRefs(code, labels[0].refs, |code|);
      var rest := labels[1..] + [last];
      assert forall k :: 0 <= k < |rest| ==> rest[k] == all[k + 1];
      LinkedSnoc(bound + [labels[0].data % TWO_32, labels[0].data / TWO_32], labels[1..], last);
    }
  }

  // ----- linking theorem -----

  /** No load is recorded twice, neither under one label nor under two. */
  predicate RefsDistinct(labels: seq<LabelValue>) {
    forall k, i, k', i' ::
      && 0 <= k < |labels| && 0 <= i < |labels[k].refs|
      && 0 <= k' < |labels| && 0 <= i' < |labels[k'].refs|
      && labels[k].refs[i] == labels[k'].refs[i']
      ==> k == k' && i == i'
  }

  /** Word `at` is not a recorded load. */
  predicate Unrecorded(labels: seq<LabelValue>, at: int) {
    forall k, i :: 0 <= k < |labels| && 0 <= i < |labels[k].refs| ==> labels[k].refs[i] != at
  }

  /** Where label k's datum ends up. */
  function PoolSlot(codeSize: nat, k: nat): nat {
    codeSize + 2 * k
  }

  lemma {:induction false} PatchRefsAt(code: seq<int>, refs: seq<nat>, pos: nat, at: nat)
    requires forall i :: 0 <= i < |refs| ==> refs[i] < |code|
    requires forall i, j :: 0 <= i < j < |refs| ==> refs[i] != refs[j]
    requires at < |code|
    ensures PatchRefs(code, refs, pos)[at] ==
            if at in refs then EncodeImm19Offset(code[at], 4 * (pos - at)) else code[at]
    decreases |refs|
  {
    hide EncodeImm19Offset;
    if refs != [] {
      var r := refs[0];
      PatchRefsAt(code[r := EncodeImm19Offset(code[r], 4 * (pos - r))], refs[1..], pos, at);
    }
  }

  lemma {:induction false} LinkedOther(code: seq<int>, labels: seq<LabelValue>, at: nat)
    requires RefsInside(labels, |code|) && RefsDistinct(labels)
    requires at < |code| && Unrecorded(labels, at)
    ensures Linked(code, labels)[at] == code[at]
    decreases |labels|
  {
    hide EncodeImm19Offset;
    if labels != [] {
      PatchRefsAt(code, labels[0].refs, |code|, at);
      var bound := PatchRefs(code, labels[0].refs, |code|);
      LinkedOther(bound + [labels[0].data % TWO_32, labels[0].data / TWO_32], labels[1..], at);
    }
  }

  lemma {:induction false} LinkedRef(code: seq<int>, labels: seq<LabelValue>, k: nat, i: nat)
    requires RefsInside(labels, |code|) && RefsDistinct(labels)
    requires k < |labels| && i < |labels[k].refs|
    ensures var at := labels[k].refs[i];
      Linked(code, labels)[at] == EncodeImm19Offset(code[at], 4 * (PoolSlot(|code|, k) - at))
    decreases |labels|
  {
    hide EncodeImm19Offset;
    var at := labels[k].refs[i];
    var bound := PatchRefs(code, labels[0].refs, |code|);
    var code' := bound + [labels[0].data % TWO_32, labels[0].data / TWO_32];
    PatchRefsAt(code, labels[0].refs, |code|, at);
    if k == 0 {
      LinkedOther(code', labels[1..], at);
    } else {
      assert labels[1..][k - 1] == labels[k];
      LinkedRef(code', labels[1..], k - 1, i);
    }
  }

  lemma {:induction false} LinkedData(code: seq<int>, labels: seq<LabelValue>, k: nat)
    requires RefsInside(labels, |code|) && RefsDistinct(labels)
    requires k < |labels|
    ensures Linked(code, labels)[PoolSlot(|code|, k)] == labels[k].data % TWO_32
    ensures Linked(code, labels)[PoolSlot(|code|, k) + 1] == labels[k].data / TWO_32
    decreases |labels|
  {
    hide EncodeImm19Offset;
    var bound := PatchRefs(code, labels[0].refs, |code|);
    var code' := bound + [labels[0].data % TWO_32, labels[0].data / TWO_32];
    if k == 0 {
      LinkedOther(code', labels[1..], |code|);
      LinkedOther(code', labels[1..], |code| + 1);
    } else {
      LinkedData(code', labels[1..], k - 1);
    }
  }

  /** The word at `at` is a 64-bit literal load into rt of the datum. */
  ghost predicate LoadsDatum(r: seq<int>, at: nat, rt: int, data: int) {
    exists slot :: IsLoadOf(r, at, rt, slot) && r[slot] == data % TWO_32 && r[slot + 1] == data / TWO_32
  }

  predicate IsLoadOf(r: seq<int>, at: nat, rt: int, slot: int) {
    at < |r| && 0 <= slot && slot + 1 < |r| && A64.Decode(r[at]) == A64.LdrLiteral(1, false, rt, 4 * (slot - at))
  }

  /** Literal-pool linking, for any number of labels and references: in a buffer of less than 2^20
      bytes every recorded load loads exactly its own label's datum, its word changes only in the
      imm19 field, every other word stays, and the slots lie behind the code, two words apart. */
  lemma LinkingIsCorrect(code: seq<int>, labels: seq<LabelValue>, r: seq<int>)
    requires RefsInside(labels, |code|) && RefsDistinct(labels)
    requires r == Linked(code, labels) && 4 * |r| <= 0x10_0000
    ensures forall at :: 0 <= at < |code| && Unrecorded(labels, at) ==> r[at] == code[at]
    ensures forall k, i {:trigger labels[k].refs[i]} :: 0 <= k < |labels| && 0 <= i < |labels[k].refs| ==>
              var at := labels[k].refs[i];
              && SameOutside(r[at], code[at], 0x20, 0x8_0000)
              && forall rt :: IsReg(rt) && code[at] == EncLdrLiteralX(rt) ==>
                   IsLoadOf(r, at, rt, PoolSlot(|code|, k)) && LoadsDatum(r, at, rt, labels[k].data)
    ensures forall k :: 0 <= k < |labels| ==>
              r[PoolSlot(|code|, k)] == labels[k].data % TWO_32 && r[PoolSlot(|code|, k) + 1] == labels[k].data / TWO_32
  {
    hide EncodeImm19Offset, Linked, SameOutside, EncLdrLiteralX, A64.Decode;
    forall at | 0 <= at < |code| && Unrecorded(labels, at)
      ensures r[at] == code[at]
    {
      LinkedOther(code, labels, at);
    }
    forall k | 0 <= k < |labels|
      ensures r[PoolSlot(|code|, k)] == labels[k].data % TWO_32 && r[PoolSlot(|code|, k) + 1] == labels[k].data / TWO_32
    {
      LinkedData(code, labels, k);
    }
    forall k, i | 0 <= k < |labels| && 0 <= i < |labels[k].refs|
      ensures var at := labels[k].refs[i];
        && SameOutside(r[at], code[at], 0x20, 0x8_0000)
        && forall rt :: IsReg(rt) && code[at] == EncLdrLiteralX(rt) ==>
             IsLoadOf(r, at, rt, PoolSlot(|code|, k)) && LoadsDatum(r, at, rt, labels[k].data)
    {
      RefIsCorrect(code, labels, r, k, i);
    }
  }

  lemma RefIsCorrect(code: seq<int>, labels: seq<LabelValue>, r: seq<int>, k: nat, i: nat)
    requires RefsInside(labels, |code|) && RefsDistinct(labels)
    requires r == Linked(code, labels) && 4 * |r| <= 0x10_0000
    requires k < |labels| && i < |labels[k].refs|
    ensures var at := labels[k].refs[i];
      && SameOutside(r[at], code[at], 0x20, 0x8_0000)
      && forall rt :: IsReg(rt) && code[at] == EncLdrLiteralX(rt) ==>
           IsLoadOf(r, at, rt, PoolSlot(|code|, k)) && LoadsDatum(r, at, rt, labels[k].data)
  {
    hide EncodeImm19Offset, Linked, SameOutside, EncLdrLiteralX, A64.Decode, DecodeImm19Offset;
    var at, slot := labels[k].refs[i], PoolSlot(|code|, k);
    LinkedRef(code, labels, k, i);
    LinkedData(code, labels, k);
    Imm19RoundTrip(code[at], 4 * (slot - at));
    SameOutsideSymmetric(code[at], r[at]);
    forall rt | IsReg(rt) && code[at] == EncLdrLiteralX(rt)
      ensures IsLoadOf(r, at, rt, slot)
    {
      DecodeLdrLiteralX(r[at], rt, 4 * (slot - at));
    }
  }

  lemma SameOutsideSymmetric(w: int, w': int)
    ensures SameOutside(w, w', 0x20, 0x8_0000) == SameOutside(w', w, 0x20, 0x8_0000)
  {}

  // ----- the assembler objects -----

  /** `RelocLabel`: an unbound label has position 0. */
  class RelocLabel {
    const data: int
    var pos: nat
    var refs: seq<nat>

    constructor WithData(value: int)
      ensures data == value && pos == 0 && refs == []
    {
      data, pos, refs := value, 0, [];
    }

    method LinkTo(offset: nat)
      modifies this`refs
      ensures refs == old(refs) + [offset]
    {
      refs := refs + [offset];
    }
  }

  class TurboAssembler {
    var buffer: seq<int>
    var dataLabels: seq<RelocLabel>
    ghost var view: Unlinked  // the code and labels emitted so far

    /** The labels are distinct and hold what the view says. */
    ghost predicate Valid()
      reads this, dataLabels
    {
      && buffer == view.code
      && |dataLabels| == |view.labels|
      && (forall i, j :: 0 <= i < j < |dataLabels| ==> dataLabels[i] != dataLabels[j])
      && (forall i :: 0 <= i < |dataLabels| ==>
            && dataLabels[i].data == view.labels[i].data
            && dataLabels[i].refs == view.labels[i].refs)
      && RefsInside(view.labels, |buffer|)
    }

    constructor ()
      ensures Valid() && view == Unlinked([], []) && dataLabels == []
    {
      buffer, dataLabels := [], [];
      view := Unlinked([], []);
    }

    method Emit(w: int)
      requires Valid()
      modifies this`buffer, this`view
      ensures Valid() && view == Emitted(old(view), w)
    {
      buffer := buffer + [w];
      view := Emitted(view, w);
    }

    method AppendRelocLabel(target: RelocLabel)
      requires Valid() && target !in dataLabels && forall i :: 0 <= i < |target.refs| ==> target.refs[i] < |buffer|
      modifies this`dataLabels, this`view
      ensures Valid() && dataLabels == old(dataLabels) + [target]
      ensures view == old(view).(labels := old(view).labels + [LabelValue(target.refs, target.data)])
    {
      dataLabels := dataLabels + [target];
      view := view.(labels := view.labels + [LabelValue(target.refs, target.data)]);
    }

    /** `Ldr(rt, label)` for data label k, or with k < 0 for a label that its caller keeps: a bound label
        is addressed at once, the load of an unbound one is recorded. */
    method Ldr(rt: int, target: RelocLabel, ghost k: int)
      requires Valid() && k < |dataLabels| && (if k < 0 then target !in dataLabels else dataLabels[k] == target)
      modifies this`buffer, this`view, target`refs
      ensures Valid() && target.refs == old(target.refs) + if target.pos != 0 then [] else [|old(view).code|]
      ensures target.pos != 0 ==>
                view == Emitted(old(view), EncLdrLiteralOffset(rt, 4 * (target.pos - |old(view).code|)))
      ensures target.pos == 0 ==>
                view == if k < 0 then Emitted(old(view), EncLdrLiteralX(rt)) else Referred(old(view), rt, k)
    {
      if target.pos != 0 {
        Emit(EncLdrLiteralOffset(rt, 4 * (target.pos - |buffer|)));
      } else {
        target.LinkTo(|buffer|);
        buffer := buffer + [EncLdrLiteralX(rt)];
        view := if k < 0 then Emitted(view, EncLdrLiteralX(rt)) else Referred(view, rt, k);
      }
    }

    method EmitInt64(value: int)
      modifies this`buffer
      ensures buffer == old(buffer) + [value % TWO_32, value / TWO_32]
    {
      buffer := buffer + [value % TWO_32, value / TWO_32];
    }

    /** `RelocLabel::withData`, `AppendRelocLabel` and `Ldr` in a row. */
    method LdrData(rt: int, value: int)
      requires Valid()
      modifies this
      ensures Valid() && forall l :: l in dataLabels ==> l in old(dataLabels) || fresh(l)
      ensures view == WithDatumLoad(old(view), rt, value)
    {
      var target := new RelocLabel.WithData(value);
      AppendRelocLabel(target);
      Ldr(rt, target, |dataLabels| - 1);
      assert view.labels[|dataLabels| - 1].refs == [|old(view).code|];
      assert view.labels == WithDatumLoad(old(view), rt, value).labels;
    }

    /** `PseudoBind`, with the loop of `link_confused_instructions`. */
    method PseudoBind(target: RelocLabel)
      requires forall i :: 0 <= i < |target.refs| ==> target.refs[i] < |buffer|
      modifies this`buffer, target`pos
      ensures target.pos == |old(buffer)|
      ensures buffer == PatchRefs(old(buffer), target.refs, |old(buffer)|)
    {
      target.pos := |buffer|;
      var i := 0;
      while i < |target.refs|
        invariant 0 <= i <= |target.refs|
        invariant target.pos == |buffer| == |old(buffer)|
        invariant PatchRefs(buffer, target.refs[i..], target.pos) == PatchRefs(old(buffer), target.refs, target.pos)
      {
        var at := target.refs[i];
        var inst := buffer[at];
        assert target.refs[i..][0] == at && target.refs[i..][1..] == target.refs[i + 1..];
        buffer := buffer[at := EncodeImm19Offset(inst, 4 * (target.pos - at))];
        i := i + 1;
      }
    }

    method RelocBind()
      requires Valid()
      modifies this`buffer, dataLabels
      ensures buffer == Linked(view.code, view.labels)
    {
      ghost var labels := view.labels;
      var i := 0;
      while i < |dataLabels|
        invariant 0 <= i <= |dataLabels| == |labels|
        invariant |buffer| >= |view.code|
        invariant forall j :: 0 <= j < |dataLabels| ==>
          dataLabels[j].data == labels[j].data && dataLabels[j].refs == labels[j].refs
        invariant RefsInside(labels, |buffer|)
        invariant Linked(buffer, labels[i..]) == Linked(view.code, labels)
      {
        assert labels[i..][0] == labels[i] && labels[i..][1..] == labels[i + 1..];
        PseudoBind(dataLabels[i]);
        EmitInt64(dataLabels[i].data);
        i := i + 1;
      }
    }

    /** `CodeGen::LiteralLdrBranch` (source/core/codegen/codegen-arm64.cc). */
    method LiteralLdrBranch(address: int)
      requires Valid()
      modifies this
      ensures Valid() && forall l :: l in dataLabels ==> l in old(dataLabels) || fresh(l)
      ensures view == Emitted(WithDatumLoad(old(view), TMP_REG_0, address), EncBr(TMP_REG_0))
    {
      LdrData(TMP_REG_0, address);
      Emit(EncBr(TMP_REG_0));
    }
  }

  /** Unlinked code after a literal load of a fresh label holding `value`. */
  function WithDatumLoad(u: Unlinked, rt: int, value: int): Unlinked {
    Unlinked(u.code + [EncLdrLiteralX(rt)], u.labels + [LabelValue([|u.code|], value)])
  }
}
