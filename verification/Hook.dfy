// Hooking and unhooking: DobbyHook (source/InterceptRouting/Routing/FunctionInlineHook/
// FunctionInlineHook.cc), DobbyDestroy (source/dobby.cpp), InterceptRouting.cpp and Interceptor.cpp.
module Hook {
  import opened BitFields
  import opened A64
  import opened Encoder
  import opened Relocation
  import opened Simulation
  import opened Preservation
  import opened Trampoline
  import opened Domain
  import opened MemoryAllocator

  /** How control gets from the function to its replacement: by a normal trampoline, or by the near
      branch trampoline that the plugin made. */
  datatype Route = Normal(target: int) | NearBranch(near: Near, target: int)

  /** `InterceptEntry`, with the trampoline and the route that its routing holds. */
  datatype Entry =
    Entry(patchedAddr: int, relocatedAddr: int, originInsns: seq<int>, trampoline: seq<int>, route: Route)

  // ----- memory blocks -----

  /** `DobbyCodePatch`: write exactly these words. */
  function WriteBlock(m: Memory, base: int, code: seq<int>): Memory
    decreases |code|
  {
    if code == [] then m else WriteBlock(m[base := code[0]], base + 4, code[1..])
  }

  function ReadBlock(m: Memory, base: int, n: nat): (r: seq<int>)
    ensures |r| == n
    ensures forall p :: 0 <= p < n ==> r[p] == Ld32(m, base + 4 * p)
  {
    seq(n, p requires 0 <= p < n => Ld32(m, base + 4 * p))
  }

  /** Address a is word number (a - base) / 4 of a block of n words at base. */
  predicate InBlock(a: int, base: int, n: nat) {
    base <= a < base + 4 * n && (a - base) % 4 == 0
  }

  lemma {:induction false} WriteBlockAt(m: Memory, base: int, code: seq<int>, a: int)
    ensures Ld32(WriteBlock(m, base, code), a)
         == if InBlock(a, base, |code|) then code[(a - base) / 4] else Ld32(m, a)
    decreases |code|
  {
    if code != [] {
      WriteBlockAt(m[base := code[0]], base + 4, code[1..], a);
    }
  }

  /** Memories that read the same everywhere. */
  ghost predicate SameMemory(m: Memory, m': Memory) {
    forall a :: Ld32(m, a) == Ld32(m', a)
  }

  /** Writing back what was read undoes a write. */
  lemma WriteBackRestores(m: Memory, base: int, code: seq<int>)
    ensures SameMemory(WriteBlock(WriteBlock(m, base, code), base, ReadBlock(m, base, |code|)), m)
  {
    hide WriteBlock;
    var saved := ReadBlock(m, base, |code|);
    forall a
      ensures Ld32(WriteBlock(WriteBlock(m, base, code), base, saved), a) == Ld32(m, a)
    {
      WriteBlockAt(m, base, code, a);
      WriteBlockAt(WriteBlock(m, base, code), base, saved, a);
      if InBlock(a, base, |code|) {
        assert base + 4 * ((a - base) / 4) == a;
      }
    }
  }

  // ----- the registry -----

  function FindIndex(entries: seq<Entry>, addr: int): (i: int)
    ensures -1 <= i < |entries|
    ensures i >= 0 ==> entries[i].patchedAddr == addr
    ensures forall j :: 0 <= j < |entries| && (j < i || i < 0) ==> entries[j].patchedAddr != addr
  {
    if entries == [] then -1
    else if entries[0].patchedAddr == addr then 0
    else
      var i := FindIndex(entries[1..], addr);
      if i < 0 then -1 else i + 1
  }

  datatype World = World(mem: Memory, entries: seq<Entry>)

  /** The words patched over the function. */
  function TrampolineOf(address: int, route: Route): seq<int> {
    match route
    case Normal(target) => NormalTrampoline(address, target)
    case NearBranch(near, _) => [near.b]
  }

  /** The forward trampoline of a near branch, if any. */
  function ForwardCode(route: Route): seq<int> {
    if route.NearBranch? && route.near.Via? then route.near.forward else []
  }

  function ForwardAddress(route: Route): int {
    if route.NearBranch? && route.near.Via? then route.near.at else 0
  }

  /** Making the trampoline writes the forward trampoline into its near block. */
  function Prepared(m: Memory, route: Route): Memory {
    WriteBlock(m, ForwardAddress(route), ForwardCode(route))
  }

  /** The words that a hook at `address` moves. */
  function PatchedWords(w: World, address: int, route: Route): seq<int> {
    ReadBlock(Prepared(w.mem, route), address, |TrampolineOf(address, route)|)
  }

  function ImageOf(w: World, address: int, route: Route): seq<int> {
    Relocated(AllItems(PatchedWords(w, address, route), address, true))
  }

  /** The hook's memory effect: the forward trampoline, the image into fresh code memory, then the
      trampoline over the function. */
  function Hooked(w: World, address: int, route: Route, base: int): World {
    var tramp := TrampolineOf(address, route);
    var m := WriteBlock(Prepared(w.mem, route), base, ImageOf(w, address, route));
    World(WriteBlock(m, address, tramp),
          w.entries + [Entry(address, base, ReadBlock(m, address, |tramp|), tramp, route)])
  }

  /** The fresh words that a hook made in world w uses. */
  function ImageWords(w: World, address: int, route: Route, base: int): set<int> {
    BlockWords(base, |ImageOf(w, address, route)|) + BlockWords(ForwardAddress(route), |ForwardCode(route)|)
  }

  function Destroyed(w: World, i: nat): World
    requires i < |w.entries|
  {
    var e := w.entries[i];
    World(WriteBlock(w.mem, e.patchedAddr, e.originInsns), w.entries[..i] + w.entries[i + 1..])
  }

  // ----- one call -----

  datatype Op = HookOp(address: int, route: Route, base: int) | DestroyOp(address: int)

  /** `DobbyHook` accepts the address. */
  predicate Accepts(w: World, address: int) {
    address != 0 && FindIndex(w.entries, address) < 0
  }

  /** One call; a call that is refused changes nothing. */
  function Apply(w: World, op: Op): World {
    match op
    case HookOp(address, route, base) =>
      if Accepts(w, address) then Hooked(w, address, route, base) else w
    case DestroyOp(address) =>
      var i := FindIndex(w.entries, address);
      if i < 0 then w else Destroyed(w, i)
  }

  function RouteFor(target: int, near: Option<Near>): Route {
    if near.Some? then NearBranch(near.value, target) else Normal(target)
  }

  lemma WriteNothing(m: Memory)
    ensures WriteBlock(m, 0, []) == m
  {}

  class Interceptor {
    var entries: seq<Entry>
    var mem: Memory  // the process memory that the engine patches

    ghost function View(): World
      reads this
    {
      World(mem, entries)
    }

    method Find(addr: int) returns (i: int)
      ensures i == FindIndex(entries, addr)
    {
      hide FindIndex;
      i := 0;
      while i < |entries|
        invariant 0 <= i <= |entries|
        invariant forall j :: 0 <= j < i ==> entries[j].patchedAddr != addr
      {
        if entries[i].patchedAddr == addr {
          return i;
        }
        i := i + 1;
      }
      return -1;
    }

    /** `DobbyHook`; `near` is what the near branch plugin made (none if it is disabled or failed),
        `permitted` the answer of SetPermission, `base` the block that the allocator hands out, and
        `wantOrigin` tells that `origin_func` is not null.  The result is 0, or -1 with nothing changed;
        `aborted` is the relocator's UNIMPLEMENTED. */
    method DobbyHook(address: int, replaceFunc: int, near: Option<Near>, wantOrigin: bool, permitted: bool, base: int)
      returns (ret: int, originFunc: Option<int>, aborted: bool)
      modifies this
      ensures var accepted := address != 0 && permitted && FindIndex(old(entries), address) < 0;
        var route := RouteFor(replaceFunc, near);
        && (aborted <==> accepted && !Implemented(PatchedWords(old(View()), address, route), address))
        && (AllWords(PatchedWords(old(View()), address, route)) ==>
              (aborted <==> accepted && !AllRelocatable(PatchedWords(old(View()), address, route))))
        && (ret == 0 <==> accepted && !aborted)
        && (originFunc == if ret == 0 && wantOrigin then Some(base) else None)
        && (ret == 0 ==> View() == Hooked(old(View()), address, route, base))
        && (ret != 0 ==> ret == -1 && entries == old(entries))
        && (!accepted ==> View() == old(View()))
        && (permitted && !aborted ==> View() == Apply(old(View()), HookOp(address, route, base)))
    {
      hide NormalTrampoline, Relocated, AllItems, Implemented, WriteBlock, FindIndex, AllWords, AllRelocatable;
      ret, originFunc, aborted := -1, None, false;
      if address == 0 || !permitted {
        return;
      }
      var found := Find(address);
      if found >= 0 {
        return;
      }
      var tramp;
      if near.Some? {
        tramp := [near.value.b];
        if near.value.Via? {
          mem := WriteBlock(mem, near.value.at, near.value.forward);
        }
      } else {
        tramp := GenerateNormalTrampolineBuffer(address, replaceFunc);
      }
      assert mem == Prepared(old(mem), RouteFor(replaceFunc, near)) by {
        WriteNothing(old(mem));
      }
      var words := ReadBlock(mem, address, |tramp|);
      var r := RelocateBlock(words, address, true);
      if r.Aborted? {
        aborted := true;
        return;
      }
      mem := WriteBlock(mem, base, r.code);
      var saved := ReadBlock(mem, address, |tramp|);
      if wantOrigin {
        originFunc := Some(base);
      }
      mem := WriteBlock(mem, address, tramp);
      entries := entries + [Entry(address, base, saved, tramp, RouteFor(replaceFunc, near))];
      ret := 0;
    }

    /** `DobbyDestroy` */
    method DobbyDestroy(address: int) returns (ret: int)
      modifies this
      ensures FindIndex(old(entries), address) < 0 ==> ret == -1 && View() == old(View())
      ensures FindIndex(old(entries), address) >= 0 ==>
                ret == 0 && View() == Destroyed(old(View()), FindIndex(old(entries), address))
      ensures View() == Apply(old(View()), DestroyOp(address))
    {
      hide WriteBlock, FindIndex;
      var i := Find(address);
      if i < 0 {
        return -1;
      }
      var e := entries[i];
      mem := WriteBlock(mem, address, e.originInsns);
      entries := entries[..i] + entries[i + 1..];
      ret := 0;
    }
  }

  // ----- the hook end to end -----

  lemma ExpandSize(w: int, at: int)
    ensures Expand(w, at).Items? ==> |Expand(w, at).items| <= 5
  {
    hide Field, DecodeImm26Offset, DecodeImm19Offset, DecodeImm14Offset, DecodeImmhiImmloOffset, InvertCond,
         InvertCompare, InvertTest, EncBr, EncBlr, EncLdrX, EncMovz, EncMovk;
  }

  lemma {:induction false} BlockSize(words: seq<int>, src: int)
    ensures |BlockItems(words, src)| <= 5 * |words|
    decreases |words|
  {
    hide Expand;
    if words != [] {
      var n := |words| - 1;
      BlockSize(words[..n], src);
      ExpandSize(words[n], src + 4 * n);
    }
  }

  lemma {:induction false} LabelCount(items: seq<Item>)
    ensures |LabelsOf(items)| <= |items|
    decreases |items|
  {
    if items != [] {
      LabelCount(items[..|items| - 1]);
    }
  }

  /** The image of a patched function is short, so its literal pool is always within reach. */
  lemma ImageIsShort(words: seq<int>, src: int)
    requires |words| <= 4
    ensures |Relocated(AllItems(words, src, true))| <= 66
  {
    hide BlockItems, LabelsOf, CodeOf;
    var items := AllItems(words, src, true);
    BlockSize(words, src);
    LabelCount(items);
    LabelsOfLaws(items);
  }

  lemma TrampolineSize(src: int, dst: int)
    ensures 3 <= |NormalTrampoline(src, dst)| <= 4
  {
    hide Relocated, EncAdrp, EncAddImm, EncBr, Distance;
    LiteralTrampolineRealized(dst);
  }

  lemma RouteSize(address: int, route: Route)
    ensures 1 <= |TrampolineOf(address, route)| <= 4
  {
    hide NormalTrampoline;
    if route.Normal? {
      TrampolineSize(address, route.target);
    }
  }

  /** A word outside the fresh blocks after a hook. */
  lemma HookedWord(w: World, address: int, route: Route, base: int, a: int)
    requires a !in ImageWords(w, address, route, base)
    ensures var tramp := TrampolineOf(address, route);
      Ld32(Hooked(w, address, route, base).mem, a) ==
      if InBlock(a, address, |tramp|) then tramp[(a - address) / 4] else Ld32(w.mem, a)
  {
    hide TrampolineOf, ImageOf, WriteBlock, ForwardCode, ForwardAddress;
    var m := Prepared(w.mem, route);
    BlockWordsIn(a, base, |ImageOf(w, address, route)|);
    BlockWordsIn(a, ForwardAddress(route), |ForwardCode(route)|);
    WriteBlockAt(w.mem, ForwardAddress(route), ForwardCode(route), a);
    WriteBlockAt(m, base, ImageOf(w, address, route), a);
    WriteBlockAt(WriteBlock(m, base, ImageOf(w, address, route)), address, TrampolineOf(address, route), a);
  }

  /** What the new entry saves outside the fresh blocks. */
  lemma SavedIs(w: World, address: int, route: Route, base: int, p: nat)
    requires p < |TrampolineOf(address, route)| && address + 4 * p !in ImageWords(w, address, route, base)
    ensures var e := Hooked(w, address, route, base).entries[|w.entries|];
      && e.patchedAddr == address && e.trampoline == TrampolineOf(address, route)
      && |e.originInsns| == |e.trampoline| && e.originInsns[p] == Ld32(w.mem, address + 4 * p)
  {
    hide TrampolineOf, ImageOf, WriteBlock, ForwardCode, ForwardAddress;
    var a := address + 4 * p;
    BlockWordsIn(a, base, |ImageOf(w, address, route)|);
    BlockWordsIn(a, ForwardAddress(route), |ForwardCode(route)|);
    WriteBlockAt(w.mem, ForwardAddress(route), ForwardCode(route), a);
    WriteBlockAt(Prepared(w.mem, route), base, ImageOf(w, address, route), a);
  }

  /** The site that a hook creates. */
  function HookSite(w: World, address: int, route: Route, base: int): Site {
    var words := PatchedWords(w, address, route);
    Site(words, address, true, ImageOf(w, address, route), base,
         BlockWords(address, |words|) + ImageWords(w, address, route, base))
  }

  /** The trampoline of the route reaches the replacement: the one page distance that adrp cannot
      express is excluded, and a near branch is one that its generator makes, from blocks that the
      allocator hands out. */
  ghost predicate RouteReaches(address: int, route: Route) {
    && IsAddress(address) && IsAddress(route.target)
    && match route
       case Normal(target) => Distance(address, target) < ADRP_RANGE ==> PageReachable(address, target)
       case NearBranch(near, target) =>
         && address % 4 == 0 && target % 4 == 0
         && exists first, second :: MakesNear(address, target, first, second, near)
  }

  /** The near trampoline is made from these blocks. */
  predicate MakesNear(address: int, target: int, first: Option<Block>, second: Option<Block>, near: Near) {
    && GoodNearBlock(first, 12, address) && GoodNearBlock(second, 20, address)
    && NearTrampoline(address, target, first, second) == Some(near)
    && (near.Via? && Distance(first.value.addr, target) < ADRP_RANGE ==> PageReachable(first.value.addr, target))
  }

  /** The patched words, the image and the forward trampoline lie at word addresses below the top of
      memory, and apart. */
  ghost predicate LaidOut(w: World, address: int, route: Route, base: int) {
    var n, m := |PatchedWords(w, address, route)|, |ImageOf(w, address, route)|;
    var at, forward := ForwardAddress(route), ForwardCode(route);
    && 0 <= address && 0 <= base && 0 <= at && ByFour(address) && ByFour(base)
    && address + 4 * n < TWO_64 && base + 4 * m < TWO_64 && at + 4 * |forward| < TWO_64
    && Apart(base, 4 * m, address, 4 * n)
    && Apart(at, 4 * |forward|, address, 4 * n) && Apart(at, 4 * |forward|, base, 4 * m)
  }

  /** The blocks are laid out, the trampoline reaches the replacement, and the relocator does not abort
      on the patched words. */
  ghost predicate Hookable(w: World, address: int, route: Route, base: int) {
    && LaidOut(w, address, route, base) && RouteReaches(address, route)
    && Implemented(PatchedWords(w, address, route), address)
  }

  lemma BlockWordsIn(a: int, base: int, n: nat)
    ensures a in BlockWords(base, n) <==> InBlock(a, base, n)
  {
    if InBlock(a, base, n) {
      var p := (a - base) / 4;
      assert 0 <= p < n && base + 4 * p == a;
    }
  }

  /** Reading a block back right after writing it, or after writing another one. */
  lemma PlacedAfterWrite(m: Memory, base: int, code: seq<int>)
    requires 0 <= base && base + 4 * |code| < TWO_64
    ensures Placed(WriteBlock(m, base, code), base, code)
  {
    hide WriteBlock;
    forall p | 0 <= p < |code| ensures Ld32(WriteBlock(m, base, code), base + 4 * p) == code[p] {
      WriteBlockAt(m, base, code, base + 4 * p);
    }
  }

  lemma PlacedElsewhere(m: Memory, base: int, code: seq<int>, b: int, other: seq<int>)
    requires Placed(m, base, code) && Apart(base, 4 * |code|, b, 4 * |other|)
    ensures Placed(WriteBlock(m, b, other), base, code)
  {
    hide WriteBlock;
    forall p | 0 <= p < |code| ensures Ld32(WriteBlock(m, b, other), base + 4 * p) == code[p] {
      WriteBlockAt(m, b, other, base + 4 * p);
    }
  }

  /** After a hook the patched memory holds the trampoline, the forward trampoline and the image. */
  lemma HookPlaces(w: World, address: int, route: Route, base: int, m: Memory)
    requires LaidOut(w, address, route, base) && m == Hooked(w, address, route, base).mem
    ensures Placed(m, address, TrampolineOf(address, route))
    ensures Placed(m, base, ImageOf(w, address, route))
    ensures Placed(m, ForwardAddress(route), ForwardCode(route))
  {
    hide TrampolineOf, ImageOf, WriteBlock, ForwardCode, ForwardAddress, Placed, ByFour;
    var tramp, code := TrampolineOf(address, route), ImageOf(w, address, route);
    var at, forward := ForwardAddress(route), ForwardCode(route);
    var m0 := Prepared(w.mem, route);
    var m1 := WriteBlock(m0, base, code);
    PlacedAfterWrite(w.mem, at, forward);
    PlacedElsewhere(m0, at, forward, base, code);
    PlacedElsewhere(m1, at, forward, address, tramp);
    PlacedAfterWrite(m0, base, code);
    PlacedElsewhere(m1, base, code, address, tramp);
    PlacedAfterWrite(m1, address, tramp);
  }

  /** The words that the hook moves are those of the unpatched memory. */
  lemma OriginalPlaced(w: World, address: int, route: Route, base: int)
    requires LaidOut(w, address, route, base)
    ensures Placed(w.mem, address, PatchedWords(w, address, route))
  {
    hide TrampolineOf, WriteBlock, ForwardCode, ForwardAddress, ImageOf, ByFour;
    var words := PatchedWords(w, address, route);
    forall p | 0 <= p < |words| ensures Ld32(w.mem, address + 4 * p) == words[p] {
      WriteBlockAt(w.mem, ForwardAddress(route), ForwardCode(route), address + 4 * p);
    }
  }

  /** After a hook the two memories are related. */
  lemma HookRelates(w: World, address: int, route: Route, base: int, o: Data)
    requires Hookable(w, address, route, base) && o.mem == w.mem
    ensures var u := HookSite(w, address, route, base); var r := o.(mem := Hooked(w, address, route, base).mem);
      GoodSite(u) && Related(u, o, r)
  {
    hide Hooked, Relocated, AllItems, TrampolineOf, Implemented, BlockWords, RouteReaches, ReadBlock, PatchedWords,
         Placed;
    var u, m := HookSite(w, address, route, base), Hooked(w, address, route, base).mem;
    assert |u.words| <= 4 by { PatchedSize(w, address, route); }
    ImageIsShort(u.words, address);
    HookPlaces(w, address, route, base, m);
    OriginalPlaced(w, address, route, base);
    forall a | a !in u.zone ensures Ld32(o.mem, a) == Ld32(m, a) {
      BlockWordsIn(a, address, |u.words|);
      HookedWord(w, address, route, base, a);
      PatchedSize(w, address, route);
    }
    var r := o.(mem := m);
    assert forall n :: X(r, n) == X(o, n) && Q(r, n) == Q(o, n);
  }

  lemma PatchedSize(w: World, address: int, route: Route)
    ensures |PatchedWords(w, address, route)| == |TrampolineOf(address, route)| <= 4
  {
    hide TrampolineOf;
    RouteSize(address, route);
  }

  /** Only the scratch register differs. */
  ghost predicate OnlyScratch(d: Data, d': Data) {
    SetsOnly(d, d', TMP_REG_0, X(d', TMP_REG_0))
  }

  /** Entering the patched function leads to the replacement. */
  lemma RouteRuns(ext: Extension, r: Data, address: int, route: Route) returns (k: nat, entered: State)
    requires RouteReaches(address, route) && Placed(r.mem, address, TrampolineOf(address, route))
    requires Placed(r.mem, ForwardAddress(route), ForwardCode(route))
    ensures Steps(ext, State(r, address), k) == entered && entered.pc == route.target && OnlyScratch(r, entered.d)
  {
    hide NormalTrampoline, NearTrampoline, Reaches, Steps, Placed, Distance, PageReachable, GoodNearBlock, Decode;
    match route {
      case Normal(target) =>
        k, entered := NormalTrampolineLands(ext, r, address, target);
        ReachesIsSteps(ext, State(r, address), k, address, address + 4 * |NormalTrampoline(address, target)|, entered);
      case NearBranch(near, target) =>
        var first, second :| MakesNear(address, target, first, second, near);
        k, entered := NearTrampolineReaches(ext, r, address, target, first, second, near);
        var stop := FirstStop(near, target);
        ReachesIsSteps(ext, State(r, address), 1, address, address + 4, State(r, stop));
        if near.Via? {
          ReachesIsSteps(ext, State(r, near.at), k, near.at, near.at + 4 * |near.forward|, entered);
          StepsAdd(ext, State(r, address), 1, k);
          k := 1 + k;
        } else {
          k := 1;
        }
    }
  }

  /** End to end.  In the hooked memory, entering the function reaches the replacement with only
      TMP_REG_0 changed, and entering the origin pointer behaves as the function did before the hook,
      until it leaves the relocated words, if the words it executes until then are in the domain. */
  lemma HookEndToEnd(ext: Extension, w: World, address: int, route: Route, base: int, o: Data)
    returns (k: nat, entered: State, k': nat, t: State)
    requires Hookable(w, address, route, base) && o.mem == w.mem
    requires RunInDomain(ext, HookSite(w, address, route, base), 0, o)
    ensures var u := HookSite(w, address, route, base); var r := o.(mem := Hooked(w, address, route, base).mem);
      && Steps(ext, State(r, address), k) == entered && entered.pc == route.target && OnlyScratch(r, entered.d)
      && Reaches(ext, State(r, base), k', base, base + 4 * |u.code|, t)
      && Preserved(u, RunBlock(ext, State(o, address), 0, |u.words|), t)
  {
    hide Hooked, TrampolineOf, Relocated, AllItems, RunInDomain, Implemented, Reaches, RunBlock, Preserved, GoodSite,
         Related, Placed, SetsOnly, RouteReaches, Steps, PatchedWords, ImageOf;
    var u, r := HookSite(w, address, route, base), o.(mem := Hooked(w, address, route, base).mem);
    HookRelates(w, address, route, base, o);
    HookPlaces(w, address, route, base, r.mem);
    k, entered := RouteRuns(ext, r, address, route);
    assert ImageOffset(u.words, u.src, 0) == 0;
    k', t := RelocationPreservesMeaning(ext, u, 0, o, r);
  }

  /** The same for a function that starts by pushing a frame and a normal trampoline: it only takes a
      stack that is not in the patched or the image words. */
  lemma FrameFunctionHooked(ext: Extension, w: World, address: int, target: int, base: int, o: Data, rd: int, page: int)
    returns (k: nat, entered: State, k': nat, t: State)
    requires var u := HookSite(w, address, Normal(target), base);
      && u.words == FramePrologue(rd, page) && 16 <= o.sp < TWO_64 && ByFour(o.sp) && Words128(o.sp - 16) !! u.zone
    requires IsAddress(address) && IsAddress(target) && Distance(address, target) < ADRP_RANGE - 0x1000
    requires IsReg(rd) && page % 0x1000 == 0 && -0x1_0000_0000 <= page < 0x1_0000_0000 && o.mem == w.mem
    requires 0 <= base && base + 4 * 66 < TWO_64 && address + 12 < TWO_64 && Apart(base, 4 * 66, address, 12)
    requires ByFour(address) && ByFour(base)
    ensures var u := HookSite(w, address, Normal(target), base);
      var r := o.(mem := Hooked(w, address, Normal(target), base).mem);
      && Steps(ext, State(r, address), k) == entered && entered.pc == target && OnlyScratch(r, entered.d)
      && Reaches(ext, State(r, base), k', base, base + 4 * |u.code|, t)
      && Preserved(u, RunBlock(ext, State(o, address), 0, 3), t)
  {
    hide Hooked, TrampolineOf, Relocated, AllItems, RunInDomain, Reaches, RunBlock, Preserved, Placed, SetsOnly, Steps,
         Distance, PageReachable, EncStpXPre, EncAddImm, EncAdrp, Words128, Implemented, PatchedWords, BlockWords;
    var u := HookSite(w, address, Normal(target), base);
    FramePrologueInDomain(ext, u, o, rd, page);
    ImageIsShort(u.words, address);
    SlackIsEnough(address, target);
    k, entered, k', t := HookEndToEnd(ext, w, address, Normal(target), base, o);
  }
}
