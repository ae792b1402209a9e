// Every live hook keeps working: after any run of hooks and destroys on disjoint ranges, with images in
// fresh memory, each live hook still leads to its replacement, and its origin pointer still behaves as
// the function did before the run.
module LiveHooks {
  import opened BitFields
  import opened A64
  import opened Encoder
  import opened Relocation
  import opened Simulation
  import opened Preservation
  import opened Hook
  import opened Registry

  /** A hook on a free range whose image and forward trampoline go into memory that no earlier hook
      used. */
  ghost predicate PlacedHook(images: set<int>, w: World, address: int, route: Route, base: int) {
    && FreshHook(images, w, address, route, base) && LaidOut(w, address, route, base)
    && ImageWords(w, address, route, base) !! images
  }

  /** Every accepted hook of the run is such a hook. */
  ghost predicate PlacedRun(images: set<int>, w: World, ops: seq<Op>)
    decreases |ops|
  {
    ops == [] ||
    (&& (ops[0].HookOp? && Accepts(w, ops[0].address) ==>
           PlacedHook(images, w, ops[0].address, ops[0].route, ops[0].base))
     && PlacedRun(ImagesAfter(images, w, ops[0]), Apply(w, ops[0]), ops[1..]))
  }

  lemma {:induction false} PlacedRunIsDisjoint(images: set<int>, w: World, ops: seq<Op>)
    requires PlacedRun(images, w, ops)
    ensures DisjointRun(images, w, ops)
    decreases |ops|
  {
    hide FreshHook, LaidOut, ImageWords, Accepts, Apply, ImagesAfter;
    if ops != [] {
      PlacedRunIsDisjoint(ImagesAfter(images, w, ops[0]), Apply(w, ops[0]), ops[1..]);
    }
  }

  // ----- what a live entry owns -----

  /** The image of the words that an entry saved. */
  function EntryImage(e: Entry): seq<int> {
    Relocated(AllItems(e.originInsns, e.patchedAddr, true))
  }

  /** The entry's image and forward trampoline are in memory, in words that belong to images. */
  ghost predicate Live(images: set<int>, m: Memory, e: Entry) {
    && e.trampoline == TrampolineOf(e.patchedAddr, e.route)
    && 0 <= e.patchedAddr && e.patchedAddr + 4 * |e.trampoline| < TWO_64
    && ByFour(e.patchedAddr) && ByFour(e.relocatedAddr)
    && Placed(m, e.relocatedAddr, EntryImage(e)) && BlockWords(e.relocatedAddr, |EntryImage(e)|) <= images
    && Placed(m, ForwardAddress(e.route), ForwardCode(e.route))
    && BlockWords(ForwardAddress(e.route), |ForwardCode(e.route)|) <= images
  }

  ghost predicate AllLive(images: set<int>, w: World) {
    forall i :: 0 <= i < |w.entries| ==> Live(images, w.mem, w.entries[i])
  }

  /** Words that belong to images keep their values. */
  ghost predicate Kept(images: set<int>, m: Memory, m': Memory) {
    forall a :: a in images ==> Ld32(m', a) == Ld32(m, a)
  }

  lemma PlacedKeptIn(images: set<int>, m: Memory, m': Memory, base: int, code: seq<int>)
    requires Placed(m, base, code) && Kept(images, m, m') && BlockWords(base, |code|) <= images
    ensures Placed(m', base, code)
  {
    forall p | 0 <= p < |code| ensures Ld32(m', base + 4 * p) == code[p] {
      assert base + 4 * p in BlockWords(base, |code|);
    }
  }

  lemma LiveKept(images: set<int>, images': set<int>, m: Memory, m': Memory, e: Entry)
    requires Live(images, m, e) && Kept(images, m, m') && images <= images'
    ensures Live(images', m', e)
  {
    hide EntryImage, ForwardCode, ForwardAddress, TrampolineOf, Placed, BlockWords, ByFour, Kept;
    PlacedKeptIn(images, m, m', e.relocatedAddr, EntryImage(e));
    PlacedKeptIn(images, m, m', ForwardAddress(e.route), ForwardCode(e.route));
  }

  // ----- hooks and destroys keep it -----

  lemma HookKeepsImages(images: set<int>, w: World, address: int, route: Route, base: int)
    requires PlacedHook(images, w, address, route, base)
    ensures Kept(images, w.mem, Hooked(w, address, route, base).mem)
  {
    hide Hooked, ImageWords, TrampolineOf, BlockWords, LaidOut;
    var n := |TrampolineOf(address, route)|;
    forall a | a in images ensures Ld32(Hooked(w, address, route, base).mem, a) == Ld32(w.mem, a) {
      HookedWord(w, address, route, base, a);
      BlockWordsIn(a, address, n);
    }
  }

  /** The words that the new entry saves are those that its image was made from. */
  lemma SavedAreMoved(w: World, address: int, route: Route, base: int)
    requires BlockWords(address, |TrampolineOf(address, route)|) !! ImageWords(w, address, route, base)
    ensures Hooked(w, address, route, base).entries[|w.entries|].originInsns == PatchedWords(w, address, route)
  {
    hide TrampolineOf, ImageOf, WriteBlock, ForwardCode, ForwardAddress;
    var saved := Hooked(w, address, route, base).entries[|w.entries|].originInsns;
    var words, n := PatchedWords(w, address, route), |TrampolineOf(address, route)|;
    forall p | 0 <= p < n ensures saved[p] == words[p] {
      assert address + 4 * p in BlockWords(address, n);
      SavedIs(w, address, route, base, p);
      BlockWordsIn(address + 4 * p, ForwardAddress(route), |ForwardCode(route)|);
      WriteBlockAt(w.mem, ForwardAddress(route), ForwardCode(route), address + 4 * p);
    }
  }

  lemma NewEntryIsLive(images: set<int>, w: World, address: int, route: Route, base: int)
    requires PlacedHook(images, w, address, route, base)
    ensures var w' := Hooked(w, address, route, base);
      Live(images + ImageWords(w, address, route, base), w'.mem, w'.entries[|w.entries|])
  {
    hide TrampolineOf, Relocated, AllItems, WriteBlock, ForwardCode, ForwardAddress, Placed, BlockWords, ByFour,
         PatchedWords;
    var w' := Hooked(w, address, route, base);
    HookPlaces(w, address, route, base, w'.mem);
    SavedAreMoved(w, address, route, base);
    PatchedSize(w, address, route);
    assert EntryImage(w'.entries[|w.entries|]) == ImageOf(w, address, route);
  }

  lemma HookKeepsLive(images: set<int>, w: World, address: int, route: Route, base: int)
    requires PlacedHook(images, w, address, route, base) && AllLive(images, w)
    ensures AllLive(images + ImageWords(w, address, route, base), Hooked(w, address, route, base))
  {
    hide PlacedHook, Live, ImageWords, ImageOf, TrampolineOf, WriteBlock, Kept;
    var w', images' := Hooked(w, address, route, base), images + ImageWords(w, address, route, base);
    HookKeepsImages(images, w, address, route, base);
    NewEntryIsLive(images, w, address, route, base);
    forall i | 0 <= i < |w'.entries| ensures Live(images', w'.mem, w'.entries[i]) {
      if i < |w.entries| {
        LiveKept(images, images', w.mem, w'.mem, w.entries[i]);
      }
    }
  }

  lemma SavedOutside(orig: Memory, images: set<int>, e: Entry)
    requires SavesOriginal(orig, images, e)
    ensures BlockWords(e.patchedAddr, |e.trampoline|) !! images
  {}

  lemma DestroyKeepsLive(orig: Memory, images: set<int>, w: World, i: nat)
    requires Inv(orig, images, w) && AllLive(images, w) && i < |w.entries|
    ensures AllLive(images, Destroyed(w, i))
  {
    hide Live, WriteBlock, Overlay, LiveDisjoint;
    var e, w' := w.entries[i], Destroyed(w, i);
    assert SavesOriginal(orig, images, e);
    SavedOutside(orig, images, e);
    forall a | a in images ensures Ld32(w'.mem, a) == Ld32(w.mem, a) {
      WriteBlockAt(w.mem, e.patchedAddr, e.originInsns, a);
      BlockWordsIn(a, e.patchedAddr, |e.trampoline|);
    }
    forall j | 0 <= j < |w'.entries| ensures Live(images, w'.mem, w'.entries[j]) {
      var k := if j < i then j else j + 1;
      assert w'.entries[j] == w.entries[k];
      LiveKept(images, images, w.mem, w'.mem, w.entries[k]);
    }
  }

  lemma {:induction false} RunKeepsLive(orig: Memory, images: set<int>, w: World, ops: seq<Op>)
    requires Inv(orig, images, w) && AllLive(images, w) && PlacedRun(images, w, ops)
    ensures AllLive(ImagesOf(images, w, ops), ApplyAll(w, ops))
    decreases |ops|
  {
    hide Inv, AllLive, Hooked, Destroyed, FindIndex, ImageWords, FreshHook, LaidOut;
    if ops != [] {
      match ops[0] {
        case HookOp(address, route, base) =>
          if Accepts(w, address) {
            HookKeepsInv(orig, images, w, address, route, base);
            HookKeepsLive(images, w, address, route, base);
          }
        case DestroyOp(address) =>
          if FindIndex(w.entries, address) >= 0 {
            DestroyKeepsInv(orig, images, w, FindIndex(w.entries, address));
            DestroyKeepsLive(orig, images, w, FindIndex(w.entries, address));
          }
      }
      RunKeepsLive(orig, ImagesAfter(images, w, ops[0]), Apply(w, ops[0]), ops[1..]);
    }
  }

  // ----- every live hook, end to end -----

  /** The words patched by live hooks. */
  function LiveWords(entries: seq<Entry>): set<int> {
    if entries == [] then {}
    else
      var n := |entries| - 1;
      LiveWords(entries[..n]) + BlockWords(entries[n].patchedAddr, |entries[n].trampoline|)
  }

  lemma {:induction false} LiveWordsOf(entries: seq<Entry>, i: nat)
    requires i < |entries|
    ensures BlockWords(entries[i].patchedAddr, |entries[i].trampoline|) <= LiveWords(entries)
    decreases |entries|
  {
    hide BlockWords;
    var n := |entries| - 1;
    if i < n {
      LiveWordsOf(entries[..n], i);
    }
  }

  /** The site of a live entry; its zone is everything that hooks have written. */
  function LiveSite(images: set<int>, w: World, e: Entry): Site {
    Site(e.originInsns, e.patchedAddr, true, EntryImage(e), e.relocatedAddr, images + LiveWords(w.entries))
  }

  /** Outside the images and the live ranges memory is the original. */
  lemma OutsideIsOriginal(orig: Memory, images: set<int>, w: World, a: int)
    requires Inv(orig, images, w) && a !in images + LiveWords(w.entries)
    ensures Ld32(w.mem, a) == Ld32(orig, a)
  {
    hide Overlay, LiveWords, BlockWords, InBlock;
    forall i | 0 <= i < |w.entries| ensures !InBlock(a, w.entries[i].patchedAddr, |w.entries[i].trampoline|) {
      LiveWordsOf(w.entries, i);
      BlockWordsIn(a, w.entries[i].patchedAddr, |w.entries[i].trampoline|);
    }
    OverlayAt(orig, w.entries, a);
  }

  /** A live entry's trampoline is in memory. */
  lemma TrampolinePlaced(orig: Memory, images: set<int>, w: World, i: nat)
    requires Inv(orig, images, w) && i < |w.entries| && Live(images, w.mem, w.entries[i])
    ensures Placed(w.mem, w.entries[i].patchedAddr, TrampolineOf(w.entries[i].patchedAddr, w.entries[i].route))
  {
    hide Overlay, TrampolineOf, EntryImage, ForwardCode, ForwardAddress;
    var e := w.entries[i];
    assert SavesOriginal(orig, images, e);
    forall p | 0 <= p < |e.trampoline| ensures Ld32(w.mem, e.patchedAddr + 4 * p) == e.trampoline[p] {
      OverlayAt(orig, w.entries, e.patchedAddr + 4 * p);
      assert InBlock(e.patchedAddr + 4 * p, e.patchedAddr, |e.trampoline|);
    }
  }

  /** A live entry's function and image, as a site between the original and the present memory. */
  lemma LiveRelates(orig: Memory, images: set<int>, w: World, i: nat, o: Data)
    requires Inv(orig, images, w) && i < |w.entries| && Live(images, w.mem, w.entries[i]) && o.mem == orig
    requires Implemented(w.entries[i].originInsns, w.entries[i].patchedAddr)
    ensures var u := LiveSite(images, w, w.entries[i]); GoodSite(u) && Related(u, o, o.(mem := w.mem))
  {
    hide Overlay, Inv, TrampolineOf, Relocated, AllItems, ForwardCode, ForwardAddress, LiveWords, BlockWords,
         Implemented, ByFour;
    var e := w.entries[i];
    var u, r := LiveSite(images, w, e), o.(mem := w.mem);
    InvEntry(orig, images, w, i);
    RouteSize(e.patchedAddr, e.route);
    ImageIsShort(u.words, u.src);
    assert Placed(o.mem, u.src, u.words);
    assert BlockWords(u.src, |u.words|) <= u.zone by { LiveWordsOf(w.entries, i); }
    forall a | a !in u.zone ensures Ld32(orig, a) == Ld32(w.mem, a) {
      OutsideIsOriginal(orig, images, w, a);
    }
    assert forall n :: X(r, n) == X(o, n) && Q(r, n) == Q(o, n);
  }

  lemma InvEntry(orig: Memory, images: set<int>, w: World, i: nat)
    requires Inv(orig, images, w) && i < |w.entries|
    ensures SavesOriginal(orig, images, w.entries[i])
  {}

  /** After every run from a fresh registry, every live hook works: entering the function reaches the
      replacement with only TMP_REG_0 changed, and entering the origin pointer behaves as the function
      did in the memory before the run, until it leaves the relocated words. */
  lemma LiveHooksWork(ext: Extension, orig: Memory, ops: seq<Op>, i: nat, o: Data)
    returns (k: nat, entered: State, k': nat, t: State)
    requires PlacedRun({}, World(orig, []), ops) && o.mem == orig && i < |ApplyAll(World(orig, []), ops).entries|
    requires var w := ApplyAll(World(orig, []), ops); var e := w.entries[i];
      && RouteReaches(e.patchedAddr, e.route) && Implemented(e.originInsns, e.patchedAddr)
      && RunInDomain(ext, LiveSite(ImagesOf({}, World(orig, []), ops), w, e), 0, o)
    ensures var w := ApplyAll(World(orig, []), ops); var e, r := w.entries[i], o.(mem := w.mem);
      var u := LiveSite(ImagesOf({}, World(orig, []), ops), w, e);
      && Steps(ext, State(r, e.patchedAddr), k) == entered
      && entered.pc == e.route.target && OnlyScratch(r, entered.d)
      && Reaches(ext, State(r, e.relocatedAddr), k', u.base, u.base + 4 * |u.code|, t)
      && Preserved(u, RunBlock(ext, State(o, e.patchedAddr), 0, |u.words|), t)
  {
    hide PlacedRun, ApplyAll, ImagesOf, RunInDomain, Implemented, RouteReaches, Steps, Reaches, Preserved, RunBlock,
         OnlyScratch, GoodSite, Related, Inv, EntryImage, TrampolineOf, Placed, LiveWords, ForwardCode, ForwardAddress,
         BlockWords, ByFour;
    var start := World(orig, []);
    var w, images := ApplyAll(start, ops), ImagesOf({}, start, ops);
    assert Inv(orig, {}, start) by { InvInitially(orig); }
    PlacedRunIsDisjoint({}, start, ops);
    RunKeepsInv(orig, {}, start, ops);
    RunKeepsLive(orig, {}, start, ops);
    var e, r := w.entries[i], o.(mem := w.mem);
    assert Live(images, w.mem, e);
    TrampolinePlaced(orig, images, w, i);
    k, entered := RouteRuns(ext, r, e.patchedAddr, e.route);
    LiveRelates(orig, images, w, i, o);
    var u := LiveSite(images, w, e);
    assert ImageOffset(u.words, u.src, 0) == 0 by { NoImageBefore(u.words, u.src); }
    k', t := RelocationPreservesMeaning(ext, u, 0, o, r);
  }

  lemma NoImageBefore(words: seq<int>, src: int)
    ensures ImageOffset(words, src, 0) == 0
  {}

  /** One laid-out hook is such a run, so the theorem speaks about it. */
  lemma OneHookIsPlaced(orig: Memory, address: int, route: Route, base: int)
    requires address != 0 && LaidOut(World(orig, []), address, route, base)
    ensures var w, op := World(orig, []), HookOp(address, route, base);
      PlacedRun({}, w, [op]) && ApplyAll(w, [op]) == Hooked(w, address, route, base)
  {
    hide Hooked, TrampolineOf, ImageOf, ForwardCode, ForwardAddress, BlockWords, ByFour;
    var w, op, n := World(orig, []), HookOp(address, route, base), |TrampolineOf(address, route)|;
    PatchedSize(w, address, route);
    BlocksDisjoint(address, n, base, |ImageOf(w, address, route)|);
    BlocksDisjoint(address, n, ForwardAddress(route), |ForwardCode(route)|);
    assert [op][1..] == [];
    assert PlacedRun(ImagesAfter({}, w, op), Apply(w, op), []);
    assert ApplyAll(Apply(w, op), []) == Apply(w, op);
  }

  lemma BlocksDisjoint(a: int, n: nat, b: int, m: nat)
    requires Apart(a, 4 * n, b, 4 * m)
    ensures BlockWords(a, n) !! BlockWords(b, m)
  {}
}
