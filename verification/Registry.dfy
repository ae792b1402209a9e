// Whole runs of hooks and destroys: what the process memory is at every point, and when destroying
// restores it.
module Registry {
  import opened BitFields
  import opened A64
  import opened Encoder
  import opened Trampoline
  import opened Relocation
  import opened Preservation
  import opened Hook

  // ----- runs with disjoint live ranges: any order -----

  /** The original memory overlaid with the trampolines of the live entries. */
  function Overlay(orig: Memory, entries: seq<Entry>, a: int): int {
    if entries == [] then Ld32(orig, a)
    else
      var e := entries[|entries| - 1];
      if InBlock(a, e.patchedAddr, |e.trampoline|) then e.trampoline[(a - e.patchedAddr) / 4]
      else Overlay(orig, entries[..|entries| - 1], a)
  }

  ghost predicate LiveDisjoint(entries: seq<Entry>) {
    forall i, j :: 0 <= i < j < |entries| ==>
      && entries[i].patchedAddr != entries[j].patchedAddr
      && Apart(entries[i].patchedAddr, 4 * |entries[i].trampoline|, entries[j].patchedAddr, 4 * |entries[j].trampoline|)
  }

  /** The entry saved the original words of its range, and its range is outside every image. */
  ghost predicate SavesOriginal(orig: Memory, images: set<int>, e: Entry) {
    && |e.originInsns| == |e.trampoline| > 0
    && forall p :: 0 <= p < |e.trampoline| ==>
         e.originInsns[p] == Ld32(orig, e.patchedAddr + 4 * p) && e.patchedAddr + 4 * p !in images
  }

  /** The invariant of every run: `images` are the code words handed out by the allocator. */
  ghost predicate Inv(orig: Memory, images: set<int>, w: World) {
    && LiveDisjoint(w.entries)
    && (forall i :: 0 <= i < |w.entries| ==> SavesOriginal(orig, images, w.entries[i]))
    && forall a :: a !in images ==> Ld32(w.mem, a) == Overlay(orig, w.entries, a)
  }

  /** An address covered by a live entry reads that entry's trampoline. */
  lemma {:induction false} OverlayAt(orig: Memory, entries: seq<Entry>, a: int)
    requires LiveDisjoint(entries)
    ensures (forall i :: 0 <= i < |entries| ==> !InBlock(a, entries[i].patchedAddr, |entries[i].trampoline|)) ==>
              Overlay(orig, entries, a) == Ld32(orig, a)
    ensures forall i :: 0 <= i < |entries| && InBlock(a, entries[i].patchedAddr, |entries[i].trampoline|) ==>
              Overlay(orig, entries, a) == entries[i].trampoline[(a - entries[i].patchedAddr) / 4]
    decreases |entries|
  {
    hide InBlock, Apart;
    if entries != [] {
      var n := |entries| - 1;
      var front := entries[..n];
      assert forall i :: 0 <= i < n ==> front[i] == entries[i];
      OverlayAt(orig, front, a);
      forall i | 0 <= i < n
        ensures InBlock(a, entries[i].patchedAddr, |entries[i].trampoline|) ==>
                  !InBlock(a, entries[n].patchedAddr, |entries[n].trampoline|)
      {
        NotInBoth(entries[i], entries[n], a);
      }
    }
  }

  /** Removing an entry uncovers the original words of its range and nothing else. */
  lemma {:induction false} OverlayRemove(orig: Memory, entries: seq<Entry>, i: nat, a: int)
    requires LiveDisjoint(entries) && i < |entries|
    ensures Overlay(orig, entries[..i] + entries[i + 1..], a)
         == if InBlock(a, entries[i].patchedAddr, |entries[i].trampoline|) then Ld32(orig, a)
            else Overlay(orig, entries, a)
    decreases |entries|
  {
    hide InBlock, Apart, Overlay;
    var n := |entries| - 1;
    var front, last := entries[..n], entries[n];
    assert front + [last] == entries;
    OverlaySnoc(orig, front, last, a);
    if i == n {
      assert entries[..i] + entries[i + 1..] == front;
      LastIsApart(orig, entries, a);
    } else {
      assert front[i] == entries[i];
      OverlayRemove(orig, front, i, a);
      NotInBoth(entries[i], last, a);
      var rest := front[..i] + front[i + 1..];
      assert entries[..i] + entries[i + 1..] == rest + [last];
      OverlaySnoc(orig, rest, last, a);
    }
  }

  /** Under the newest of disjoint trampolines lies the original. */
  lemma LastIsApart(orig: Memory, entries: seq<Entry>, a: int)
    requires LiveDisjoint(entries) && |entries| > 0
    ensures var last := entries[|entries| - 1];
      InBlock(a, last.patchedAddr, |last.trampoline|) ==> Overlay(orig, entries[..|entries| - 1], a) == Ld32(orig, a)
  {
    hide InBlock, Apart, Overlay;
    var n := |entries| - 1;
    var front := entries[..n];
    forall j | 0 <= j < n
      ensures front[j] == entries[j]
      ensures InBlock(a, front[j].patchedAddr, |front[j].trampoline|) ==>
                !InBlock(a, entries[n].patchedAddr, |entries[n].trampoline|)
    {
      NotInBoth(entries[j], entries[n], a);
    }
    OverlayAt(orig, front, a);
  }

  lemma NotInBoth(e: Entry, e': Entry, a: int)
    requires Apart(e.patchedAddr, 4 * |e.trampoline|, e'.patchedAddr, 4 * |e'.trampoline|)
    ensures !(InBlock(a, e.patchedAddr, |e.trampoline|) && InBlock(a, e'.patchedAddr, |e'.trampoline|))
  {}

  /** A hook on a free range, with its image in fresh memory. */
  ghost predicate FreshHook(images: set<int>, w: World, address: int, route: Route, base: int) {
    var n := |TrampolineOf(address, route)|;
    var image := ImageWords(w, address, route, base);
    && BlockWords(address, n) !! images + image
    && (forall i :: 0 <= i < |w.entries| ==>
          && w.entries[i].patchedAddr != address
          && Apart(w.entries[i].patchedAddr, 4 * |w.entries[i].trampoline|, address, 4 * n)
          && BlockWords(w.entries[i].patchedAddr, |w.entries[i].trampoline|) !! image)
  }

  lemma HookKeepsInv(orig: Memory, images: set<int>, w: World, address: int, route: Route, base: int)
    requires Inv(orig, images, w) && FreshHook(images, w, address, route, base)
    ensures Inv(orig, images + ImageWords(w, address, route, base), Hooked(w, address, route, base))
  {
    hide TrampolineOf, ImageOf, WriteBlock, BlockWords, Overlay, InBlock;
    var w', image := Hooked(w, address, route, base), ImageWords(w, address, route, base);
    var images' := images + image;
    var e, n := w'.entries[|w.entries|], |TrampolineOf(address, route)|;
    RouteSize(address, route);
    forall p | 0 <= p < n
      ensures e.originInsns[p] == Ld32(orig, address + 4 * p) && address + 4 * p !in images'
    {
      SavedWord(orig, images, w, address, route, base, p);
    }
    forall i | 0 <= i < |w.entries| ensures SavesOriginal(orig, images', w.entries[i]) {
      SavesStill(orig, images, image, w.entries[i]);
    }
    forall a | a !in images'
      ensures Ld32(w'.mem, a) == Overlay(orig, w'.entries, a)
    {
      HookedWord(w, address, route, base, a);
      OverlaySnoc(orig, w.entries, e, a);
    }
  }

  lemma OverlaySnoc(orig: Memory, entries: seq<Entry>, e: Entry, a: int)
    ensures Overlay(orig, entries + [e], a)
         == if InBlock(a, e.patchedAddr, |e.trampoline|) then e.trampoline[(a - e.patchedAddr) / 4]
            else Overlay(orig, entries, a)
  {
    assert (entries + [e])[..|entries|] == entries;
  }

  lemma SavesStill(orig: Memory, images: set<int>, image: set<int>, e: Entry)
    requires SavesOriginal(orig, images, e) && BlockWords(e.patchedAddr, |e.trampoline|) !! image
    ensures SavesOriginal(orig, images + image, e)
  {
    forall p | 0 <= p < |e.trampoline| ensures e.patchedAddr + 4 * p !in image {
      assert e.patchedAddr + 4 * p in BlockWords(e.patchedAddr, |e.trampoline|);
    }
  }

  lemma SavedWord(orig: Memory, images: set<int>, w: World, address: int, route: Route, base: int, p: nat)
    requires Inv(orig, images, w) && FreshHook(images, w, address, route, base)
    requires p < |TrampolineOf(address, route)|
    ensures Hooked(w, address, route, base).entries[|w.entries|].originInsns[p] == Ld32(orig, address + 4 * p)
    ensures address + 4 * p !in images + ImageWords(w, address, route, base)
  {
    hide TrampolineOf, ImageOf, WriteBlock, Overlay;
    var a := address + 4 * p;
    assert a in BlockWords(address, |TrampolineOf(address, route)|);
    SavedIs(w, address, route, base, p);
    OverlayAt(orig, w.entries, a);
    forall i | 0 <= i < |w.entries| ensures !InBlock(a, w.entries[i].patchedAddr, |w.entries[i].trampoline|) {
    }
  }

  lemma DestroyKeepsInv(orig: Memory, images: set<int>, w: World, i: nat)
    requires Inv(orig, images, w) && i < |w.entries|
    ensures Inv(orig, images, Destroyed(w, i))
  {
    hide WriteBlock, Overlay;
    var e, w' := w.entries[i], Destroyed(w, i);
    assert forall j :: 0 <= j < |w'.entries| ==> w'.entries[j] == w.entries[if j < i then j else j + 1];
    forall a | a !in images
      ensures Ld32(w'.mem, a) == Overlay(orig, w'.entries, a)
    {
      WriteBlockAt(w.mem, e.patchedAddr, e.originInsns, a);
      OverlayRemove(orig, w.entries, i, a);
      if InBlock(a, e.patchedAddr, |e.trampoline|) {
        assert e.patchedAddr + 4 * ((a - e.patchedAddr) / 4) == a;
      }
    }
  }

  function ImagesAfter(images: set<int>, w: World, op: Op): set<int> {
    match op
    case HookOp(address, route, base) =>
      if Accepts(w, address) then images + ImageWords(w, address, route, base) else images
    case DestroyOp(_) => images
  }

  function ApplyAll(w: World, ops: seq<Op>): World
    decreases |ops|
  {
    if ops == [] then w else ApplyAll(Apply(w, ops[0]), ops[1..])
  }

  function ImagesOf(images: set<int>, w: World, ops: seq<Op>): set<int>
    decreases |ops|
  {
    if ops == [] then images else ImagesOf(ImagesAfter(images, w, ops[0]), Apply(w, ops[0]), ops[1..])
  }

  /** Every accepted hook of the run is on a range disjoint from the live ones. */
  ghost predicate DisjointRun(images: set<int>, w: World, ops: seq<Op>)
    decreases |ops|
  {
    ops == [] ||
    (&& (ops[0].HookOp? && Accepts(w, ops[0].address) ==>
           FreshHook(images, w, ops[0].address, ops[0].route, ops[0].base))
     && DisjointRun(ImagesAfter(images, w, ops[0]), Apply(w, ops[0]), ops[1..]))
  }

  /** Over every run with disjoint live ranges, memory outside the image blocks is the original
      overlaid with the live trampolines; so once every hook is destroyed, in any order, it is the
      original again. */
  lemma {:induction false} RunKeepsInv(orig: Memory, images: set<int>, w: World, ops: seq<Op>)
    requires Inv(orig, images, w) && DisjointRun(images, w, ops)
    ensures Inv(orig, ImagesOf(images, w, ops), ApplyAll(w, ops))
    ensures ApplyAll(w, ops).entries == [] ==>
              forall a :: a !in ImagesOf(images, w, ops) ==> Ld32(ApplyAll(w, ops).mem, a) == Ld32(orig, a)
    decreases |ops|
  {
    hide Inv, Hooked, Destroyed, FreshHook, FindIndex, ImageWords;
    if ops == [] {
      InvMeans(orig, images, w);
    } else {
      match ops[0] {
        case HookOp(address, route, base) =>
          if Accepts(w, address) {
            HookKeepsInv(orig, images, w, address, route, base);
          }
        case DestroyOp(address) =>
          if FindIndex(w.entries, address) >= 0 {
            DestroyKeepsInv(orig, images, w, FindIndex(w.entries, address));
          }
      }
      RunKeepsInv(orig, ImagesAfter(images, w, ops[0]), Apply(w, ops[0]), ops[1..]);
    }
  }

  lemma InvMeans(orig: Memory, images: set<int>, w: World)
    requires Inv(orig, images, w)
    ensures w.entries == [] ==> forall a :: a !in images ==> Ld32(w.mem, a) == Ld32(orig, a)
  {}

  /** A fresh registry satisfies the invariant. */
  lemma InvInitially(orig: Memory)
    ensures Inv(orig, {}, World(orig, []))
  {}

  /** From a fresh registry, every run with disjoint live ranges leaves the overlay of its live
      trampolines, and the original memory once they are all destroyed. */
  lemma RunFromStart(orig: Memory, ops: seq<Op>)
    requires DisjointRun({}, World(orig, []), ops)
    ensures var w, images := ApplyAll(World(orig, []), ops), ImagesOf({}, World(orig, []), ops);
      && (forall a :: a !in images ==> Ld32(w.mem, a) == Overlay(orig, w.entries, a))
      && (w.entries == [] ==> forall a :: a !in images ==> Ld32(w.mem, a) == Ld32(orig, a))
  {
    hide DisjointRun, ApplyAll, ImagesOf;
    InvInitially(orig);
    RunKeepsInv(orig, {}, World(orig, []), ops);
  }

  // ----- overlapping ranges: last in, first out -----

  /** A well-nested run: hook, a nested run, destroy, and so on. */
  datatype Nested = Finished | Nest(address: int, route: Route, base: int, inner: Nested, rest: Nested)

  function RunNested(w: World, t: Nested): World
    decreases t
  {
    match t
    case Finished => w
    case Nest(address, route, base, inner, rest) =>
      var w1 := RunNested(Apply(w, HookOp(address, route, base)), inner);
      RunNested(Apply(w1, DestroyOp(address)), rest)
  }

  /** Every hook of the run is on a non-null address that is not hooked at that moment. */
  predicate Accepted(w: World, t: Nested)
    decreases t
  {
    match t
    case Finished => true
    case Nest(address, route, base, inner, rest) =>
      && Accepts(w, address)
      && Accepted(Apply(w, HookOp(address, route, base)), inner)
      && Accepted(Apply(RunNested(Apply(w, HookOp(address, route, base)), inner), DestroyOp(address)), rest)
  }

  function NestedImages(w: World, t: Nested): set<int>
    decreases t
  {
    match t
    case Finished => {}
    case Nest(address, route, base, inner, rest) =>
      var w0 := Apply(w, HookOp(address, route, base));
      var w1 := RunNested(w0, inner);
      ImageWords(w, address, route, base) + NestedImages(w0, inner) + NestedImages(Apply(w1, DestroyOp(address)), rest)
  }

  lemma FindAppended(entries: seq<Entry>, e: Entry)
    requires FindIndex(entries, e.patchedAddr) < 0
    ensures FindIndex(entries + [e], e.patchedAddr) == |entries|
  {
    hide FindIndex;
    var i := FindIndex(entries + [e], e.patchedAddr);
    assert (entries + [e])[|entries|] == e;
    assert forall j :: 0 <= j < |entries| ==> (entries + [e])[j] == entries[j];
  }

  /** Destroying the newest hook puts back what was under it, whatever else overlaps. */
  lemma UndoNewest(w: World, address: int, route: Route, base: int, w1: World, a: int)
    requires w1.entries == Hooked(w, address, route, base).entries
    requires Ld32(w1.mem, a) == Ld32(Hooked(w, address, route, base).mem, a)
    requires a !in ImageWords(w, address, route, base)
    ensures Ld32(Destroyed(w1, |w.entries|).mem, a) == Ld32(w.mem, a)
  {
    hide TrampolineOf, ImageOf, WriteBlock;
    var e, tramp := w1.entries[|w.entries|], TrampolineOf(address, route);
    HookedWord(w, address, route, base, a);
    WriteBlockAt(w1.mem, address, e.originInsns, a);
    if InBlock(a, address, |tramp|) {
      SavedIs(w, address, route, base, (a - address) / 4);
    }
  }

  /** Last-in-first-out destruction restores memory and registry even when ranges overlap. */
  lemma {:induction false} NestedRunRestores(w: World, t: Nested)
    requires Accepted(w, t)
    ensures RunNested(w, t).entries == w.entries
    ensures forall a :: a !in NestedImages(w, t) ==> Ld32(RunNested(w, t).mem, a) == Ld32(w.mem, a)
    decreases t
  {
    hide FindIndex, WriteBlock, ImageWords, TrampolineOf, ImageOf;
    match t {
      case Finished =>
      case Nest(address, route, base, inner, rest) =>
        var w0 := Hooked(w, address, route, base);
        NestedRunRestores(w0, inner);
        var w1 := RunNested(w0, inner);
        FindAppended(w.entries, w0.entries[|w.entries|]);
        var w2 := Destroyed(w1, |w.entries|);
        assert w2.entries == w.entries;
        NestedRunRestores(w2, rest);
        forall a | a !in NestedImages(w, t)
          ensures Ld32(RunNested(w, t).mem, a) == Ld32(w.mem, a)
        {
          UndoNewest(w, address, route, base, w1, a);
        }
    }
  }

  // ----- overlapping ranges: first in, first out -----

  /** Hook two addresses and destroy the first one first. */
  function TwoOutOfOrder(w: World, h1: Op, h2: Op): World
    requires h1.HookOp? && h2.HookOp?
  {
    Apply(Apply(Apply(Apply(w, h1), h2), DestroyOp(h1.address)), DestroyOp(h2.address))
  }

  /** The image words of two hooks in a row. */
  function TwoImages(w: World, h1: Op, h2: Op): set<int>
    requires h1.HookOp? && h2.HookOp?
  {
    ImagesAfter(ImagesAfter({}, w, h1), Apply(w, h1), h2)
  }

  /** Both hooks are accepted. */
  predicate TwoAccepted(w: World, h1: Op, h2: Op)
    requires h1.HookOp? && h2.HookOp?
  {
    h1.address != h2.address && Accepts(w, h1.address) && Accepts(w, h2.address)
  }

  predicate CoveredBy(a: int, h: Op)
    requires h.HookOp?
  {
    InBlock(a, h.address, |TrampolineOf(h.address, h.route)|)
  }

  /** Two hooks destroyed in the order they were made restore memory exactly when the first trampoline
      changed no word that both cover, because the second hook saved the first one's words. */
  lemma OutOfOrderExactly(w: World, h1: Op, h2: Op)
    requires h1.HookOp? && h2.HookOp? && TwoAccepted(w, h1, h2)
    ensures TwoOutOfOrder(w, h1, h2).entries == w.entries
    ensures (forall a :: a !in TwoImages(w, h1, h2) ==> Ld32(TwoOutOfOrder(w, h1, h2).mem, a) == Ld32(w.mem, a)) <==>
            (forall a :: a !in TwoImages(w, h1, h2) && CoveredBy(a, h1) && CoveredBy(a, h2) ==>
               TrampolineOf(h1.address, h1.route)[(a - h1.address) / 4] == Ld32(w.mem, a))
  {
    hide TrampolineOf, Hooked, Destroyed, FindIndex, TwoOutOfOrder, TwoImages, CoveredBy;
    forall a | a !in TwoImages(w, h1, h2)
      ensures CoveredBy(a, h1) ==> 0 <= (a - h1.address) / 4 < |TrampolineOf(h1.address, h1.route)|
      ensures Ld32(TwoOutOfOrder(w, h1, h2).mem, a) ==
              if CoveredBy(a, h1) && CoveredBy(a, h2) then TrampolineOf(h1.address, h1.route)[(a - h1.address) / 4]
              else Ld32(w.mem, a)
    {
      WordOutOfOrder(w, h1, h2, a);
    }
    OutOfOrderEntries(w, h1, h2);
  }

  /** The registry along the four calls. */
  lemma OutOfOrderEntries(w: World, h1: Op, h2: Op)
    requires h1.HookOp? && h2.HookOp? && TwoAccepted(w, h1, h2)
    ensures var w1 := Hooked(w, h1.address, h1.route, h1.base);
      var w2 := Hooked(w1, h2.address, h2.route, h2.base);
      var w3 := Destroyed(w2, |w.entries|);
      && |w1.entries| == |w.entries| + 1 && |w2.entries| == |w.entries| + 2
      && w3.entries == w.entries + [w2.entries[|w.entries| + 1]]
      && TwoOutOfOrder(w, h1, h2) == Destroyed(w3, |w.entries|)
      && TwoOutOfOrder(w, h1, h2).entries == w.entries
  {
    hide FindIndex, WriteBlock, TrampolineOf, ImageOf;
    var w1 := Hooked(w, h1.address, h1.route, h1.base);
    var w2 := Hooked(w1, h2.address, h2.route, h2.base);
    var n := |w.entries|;
    var e1, e2 := w1.entries[n], w2.entries[n + 1];
    assert w1.entries == w.entries + [e1] && w2.entries == w.entries + [e1] + [e2];
    FindAppended(w.entries, e1);
    FindOther(w.entries, e1, h2.address);
    FindFirst(w.entries + [e1], e2, h1.address);
    var w3 := Destroyed(w2, n);
    assert w3.entries == w.entries + [e2];
    FindAppended(w.entries, e2);
    assert Destroyed(w3, n).entries == w.entries;
  }

  lemma FindOther(entries: seq<Entry>, e: Entry, addr: int)
    requires FindIndex(entries, addr) < 0 && e.patchedAddr != addr
    ensures FindIndex(entries + [e], addr) < 0
  {
    hide FindIndex;
    var all := entries + [e];
    assert forall j :: 0 <= j < |entries| ==> all[j] == entries[j];
  }

  lemma FindFirst(entries: seq<Entry>, e: Entry, addr: int)
    requires FindIndex(entries, addr) >= 0
    ensures FindIndex(entries + [e], addr) == FindIndex(entries, addr)
  {
    hide FindIndex;
    var all := entries + [e];
    assert forall j :: 0 <= j < |entries| ==> all[j] == entries[j];
  }

  lemma WordOutOfOrder(w: World, h1: Op, h2: Op, a: int)
    requires h1.HookOp? && h2.HookOp? && TwoAccepted(w, h1, h2) && a !in TwoImages(w, h1, h2)
    ensures CoveredBy(a, h1) ==> 0 <= (a - h1.address) / 4 < |TrampolineOf(h1.address, h1.route)|
    ensures Ld32(TwoOutOfOrder(w, h1, h2).mem, a) ==
            if CoveredBy(a, h1) && CoveredBy(a, h2) then TrampolineOf(h1.address, h1.route)[(a - h1.address) / 4]
            else Ld32(w.mem, a)
  {
    hide TrampolineOf, ImageOf, WriteBlock, FindIndex, TwoOutOfOrder;
    var w1 := Hooked(w, h1.address, h1.route, h1.base);
    var w2 := Hooked(w1, h2.address, h2.route, h2.base);
    var n := |w.entries|;
    OutOfOrderEntries(w, h1, h2);
    var w3 := Destroyed(w2, n);
    assert Accepts(w1, h2.address) by { FindOther(w.entries, w1.entries[n], h2.address); }
    HookedWord(w, h1.address, h1.route, h1.base, a);
    HookedWord(w1, h2.address, h2.route, h2.base, a);
    assert w2.entries[n] == w1.entries[n];
    DestroyedWord(w2, n, w, h1.address, h1.route, h1.base, a);
    DestroyedWord(w3, n, w1, h2.address, h2.route, h2.base, a);
  }

  /** Destroying entry i, made by a hook in world w0, puts w0's word back. */
  lemma DestroyedWord(w: World, i: nat, w0: World, address: int, route: Route, base: int, a: int)
    requires i < |w.entries| && w.entries[i] == Hooked(w0, address, route, base).entries[|w0.entries|]
    requires a !in ImageWords(w0, address, route, base)
    ensures Ld32(Destroyed(w, i).mem, a) ==
            if InBlock(a, address, |TrampolineOf(address, route)|) then Ld32(w0.mem, a) else Ld32(w.mem, a)
  {
    hide TrampolineOf, ImageOf, WriteBlock;
    var e := w.entries[i];
    WriteBlockAt(w.mem, e.patchedAddr, e.originInsns, a);
    if InBlock(a, address, |TrampolineOf(address, route)|) {
      SavedIs(w0, address, route, base, (a - address) / 4);
    }
  }

  /** Two hooks eight bytes apart, the first by adrp, add and br: destroyed in the order they
      were made, they leave the first trampoline's br in the third word, whatever was there. */
  lemma OutOfOrderLeavesBranch(w: World, h1: Op, h2: Op)
    requires h1.HookOp? && h2.HookOp? && TwoAccepted(w, h1, h2) && h2.address == h1.address + 8
    requires h1.route.Normal? && Distance(h1.address, h1.route.target) < ADRP_RANGE
    requires h2.address !in TwoImages(w, h1, h2)
    ensures Ld32(TwoOutOfOrder(w, h1, h2).mem, h2.address) == EncBr(TMP_REG_0)
  {
    hide TwoOutOfOrder, TwoImages, Distance, EncAdrp, EncAddImm, EncBr, Relocated, PageDelta;
    RouteSize(h2.address, h2.route);
    WordOutOfOrder(w, h1, h2, h2.address);
  }

  /** In a memory of nops, with replacements and images elsewhere. */
  lemma OutOfOrderDoesNotRestore()
    ensures var w := World(map[0x1_0000 := NOP, 0x1_0004 := NOP, 0x1_0008 := NOP, 0x1_000C := NOP], []);
      var h1, h2 := HookOp(0x1_0000, Normal(0x2_0000), 0x3_0000), HookOp(0x1_0008, Normal(0x2_1000), 0x4_0000);
      && TwoAccepted(w, h1, h2) && 0x1_0008 !in TwoImages(w, h1, h2)
      && Ld32(w.mem, 0x1_0008) == NOP && Ld32(TwoOutOfOrder(w, h1, h2).mem, 0x1_0008) == EncBr(TMP_REG_0) != NOP
  {
    hide TwoOutOfOrder, Hooked, ImageOf, NormalTrampoline, ReadBlock;
    var w := World(map[0x1_0000 := NOP, 0x1_0004 := NOP, 0x1_0008 := NOP, 0x1_000C := NOP], []);
    var h1, h2 := HookOp(0x1_0000, Normal(0x2_0000), 0x3_0000), HookOp(0x1_0008, Normal(0x2_1000), 0x4_0000);
    var w1 := Apply(w, h1);
    BlockWordsIn(0x1_0008, 0x3_0000, |ImageOf(w, 0x1_0000, h1.route)|);
    BlockWordsIn(0x1_0008, 0x4_0000, |ImageOf(w1, 0x1_0008, h2.route)|);
    OutOfOrderLeavesBranch(w, h1, h2);
  }

  const NOP: int := 0xD503_201F
}
