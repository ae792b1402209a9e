// Executable memory: bump arenas with first fit (source/MemoryAllocator/MemoryAllocator.cc) and
// window-constrained search (source/MemoryAllocator/NearMemoryAllocator.cc).  The operating system's
// answers are parameters: where it maps fresh pages, which regions it lists, whether it grants a
// fixed mapping.
module MemoryAllocator {
  import opened BitFields

  datatype Option<T> = None | Some(value: T)

  datatype Block = Block(addr: int, size: int)

  datatype Region = Region(start: int, size: int)

  predicate Inside(a: int, n: int, lo: int, hi: int) {
    lo <= a && a + n <= hi
  }

  predicate Aligned(x: int, page: int)
    requires page > 0
  {
    x % page == 0
  }

  function AlignFloor(x: int, page: int): int
    requires page > 0
  {
    x - x % page
  }

  function AlignCeil(x: int, page: int): int
    requires page > 0
  {
    AlignFloor(x + page - 1, page)
  }

  class MemoryArena {
    const addr: int
    const size: int
    var cursor: int

    ghost predicate Valid()
      reads this
    {
      0 <= addr <= cursor <= addr + size
    }

    constructor (addr: int, size: int)
      requires 0 <= addr && 0 <= size
      ensures Valid() && this.addr == addr && this.size == size && cursor == addr
    {
      this.addr, this.size, cursor := addr, size, addr;
    }

    /** `allocMemBlock`: fails exactly when the rest of the arena is too small. */
    method AllocMemBlock(n: int) returns (r: Option<Block>)
      requires Valid() && 0 <= n
      modifies this
      ensures Valid()
      ensures r.Some? <==> old(cursor) + n <= addr + size
      ensures r.Some? ==> r.value == Block(old(cursor), n) && cursor == old(cursor) + n
      ensures r.None? ==> cursor == old(cursor)
    {
      if addr + size - cursor < n {
        return None;
      }
      r := Some(Block(cursor, n));
      cursor := cursor + n;
    }
  }

  ghost predicate ArenasApart(arenas: seq<MemoryArena>) {
    forall i, j :: 0 <= i < j < |arenas| ==> Apart(arenas[i].addr, arenas[i].size, arenas[j].addr, arenas[j].size)
  }

  ghost predicate ApartFromAll(arenas: seq<MemoryArena>, addr: int, size: int) {
    forall i :: 0 <= i < |arenas| ==> Apart(arenas[i].addr, arenas[i].size, addr, size)
  }

  ghost predicate BlocksApart(blocks: seq<Block>) {
    forall k, l :: 0 <= k < l < |blocks| ==> Apart(blocks[k].addr, blocks[k].size, blocks[l].addr, blocks[l].size)
  }

  /** A block apart from all others joins them. */
  lemma BlocksApartSnoc(blocks: seq<Block>, b: Block)
    requires BlocksApart(blocks)
    requires forall k :: 0 <= k < |blocks| ==> Apart(blocks[k].addr, blocks[k].size, b.addr, b.size)
    ensures BlocksApart(blocks + [b])
  {}

  /** The value of an arena. */
  datatype Extent = Extent(addr: int, size: int, cursor: int)

  ghost function Extents(arenas: seq<MemoryArena>): (e: seq<Extent>)
    reads arenas`cursor
    ensures |e| == |arenas|
  {
    if arenas == [] then []
    else
      var n := |arenas| - 1;
      Extents(arenas[..n]) + [Extent(arenas[n].addr, arenas[n].size, arenas[n].cursor)]
  }

  lemma {:induction false} ExtentAt(arenas: seq<MemoryArena>, i: nat)
    requires i < |arenas|
    ensures Extents(arenas)[i] == Extent(arenas[i].addr, arenas[i].size, arenas[i].cursor)
    decreases |arenas|
  {
    var n := |arenas| - 1;
    if i < n {
      ExtentAt(arenas[..n], i);
    }
  }

  lemma {:induction false} ExtentsSnoc(arenas: seq<MemoryArena>, a: MemoryArena)
    ensures Extents(arenas + [a]) == Extents(arenas) + [Extent(a.addr, a.size, a.cursor)]
  {
    assert (arenas + [a])[..|arenas|] == arenas;
  }

  /** A block ending at `end` has been taken from arena i. */
  function TakenUpTo(e: seq<Extent>, i: nat, end: int): seq<Extent>
    requires i < |e|
  {
    e[i := e[i].(cursor := end)]
  }

  lemma TakenExtents(arenas: seq<MemoryArena>, e: seq<Extent>, i: nat)
    requires |e| == |arenas| && i < |e|
    requires forall j :: 0 <= j < |e| ==>
      e[j] == Extent(arenas[j].addr, arenas[j].size, if j == i then e[j].cursor else arenas[j].cursor)
    ensures Extents(arenas) == TakenUpTo(e, i, arenas[i].cursor)
  {
    hide Extents;
    forall j | 0 <= j < |e| ensures Extents(arenas)[j] == TakenUpTo(e, i, arenas[i].cursor)[j] {
      ExtentAt(arenas, j);
    }
  }

  predicate HasRoom(e: Extent, size: int) {
    e.cursor + size <= e.addr + e.size
  }

  /** Arena k is the first one with room. */
  predicate FirstWithRoom(e: seq<Extent>, k: nat, size: int) {
    k < |e| && HasRoom(e[k], size) && forall j :: 0 <= j < k ==> !HasRoom(e[j], size)
  }

  /** The block comes from the cursor of the first arena with room, and nothing else moved. */
  ghost predicate TookFirst(e: seq<Extent>, size: int, b: Block, e': seq<Extent>) {
    exists k: nat ::
      FirstWithRoom(e, k, size) && b == Block(e[k].cursor, size) && e' == TakenUpTo(e, k, e[k].cursor + size)
  }

  lemma FoundFirst(e: seq<Extent>, size: int, k: nat)
    requires FirstWithRoom(e, k, size)
    ensures TookFirst(e, size, Block(e[k].cursor, size), TakenUpTo(e, k, e[k].cursor + size))
  {}

  /** What `allocateExecBlock` answers and leaves: a block at the cursor of the first arena with room,
      and nothing else moved; or else exactly one new arena, of the rounded size modulo 2^32, with the
      block at its start if that is enough. */
  ghost predicate ExecAnswered(e: seq<Extent>, page: int, size: int, mapped: int, r: Option<Block>, e': seq<Extent>)
    requires page > 0
  {
    || (r.Some? && TookFirst(e, size, r.value, e'))
    || (var arenaSize := AlignCeil(size, page) % TWO_32;
        && (forall k :: 0 <= k < |e| ==> !HasRoom(e[k], size))
        && r == (if size <= arenaSize then Some(Block(mapped, size)) else None)
        && e' == e + [Extent(mapped, arenaSize, if size <= arenaSize then mapped + size else mapped)])
  }

  lemma TakenNothing(e: seq<Extent>, i: nat)
    requires i < |e|
    ensures TakenUpTo(e, i, e[i].cursor) == e
  {}

  lemma TakenFromLast(e: seq<Extent>, addr: int, size: int, end: int)
    ensures TakenUpTo(e + [Extent(addr, size, addr)], |e|, end) == e + [Extent(addr, size, end)]
  {}

  lemma ExecFound(e: seq<Extent>, page: int, size: int, mapped: int, b: Block, e': seq<Extent>)
    requires page > 0 && TookFirst(e, size, b, e')
    ensures ExecAnswered(e, page, size, mapped, Some(b), e')
  {}

  lemma ExecGrown(e: seq<Extent>, page: int, size: int, mapped: int)
    requires page > 0 && forall k :: 0 <= k < |e| ==> !HasRoom(e[k], size)
    ensures var arenaSize := AlignCeil(size, page) % TWO_32;
      && (size <= arenaSize ==>
            ExecAnswered(e, page, size, mapped, Some(Block(mapped, size)),
                         e + [Extent(mapped, arenaSize, mapped + size)]))
      && (size > arenaSize ==> ExecAnswered(e, page, size, mapped, None, e + [Extent(mapped, arenaSize, mapped)]))
  {}

  /** The answer is settled by the state: no two answers fit. */
  lemma ExecAnswerIsOne(e: seq<Extent>, page: int, size: int, mapped: int, r: Option<Block>, e': seq<Extent>,
                        r2: Option<Block>, e2: seq<Extent>)
    requires page > 0 && ExecAnswered(e, page, size, mapped, r, e') && ExecAnswered(e, page, size, mapped, r2, e2)
    ensures r == r2 && e' == e2
    ensures r.None? <==> AlignCeil(size, page) % TWO_32 < size && forall k :: 0 <= k < |e| ==> !HasRoom(e[k], size)
  {
    hide AlignCeil;
    if k: nat :| FirstWithRoom(e, k, size) {
      assert forall j: nat :: FirstWithRoom(e, j, size) ==> j == k;
    }
  }

  // ----- what the window search answers -----

  /** The window around pos does not wrap around the address space. */
  predicate OpenWindow(pos: int, range: int) { range <= pos && pos + range < TWO_64 }

  /** The lowest place for the block in [start, end) and the window. */
  ghost predicate Place(s: int, start: int, end: int, pos: int, range: int, size: int) {
    OpenWindow(pos, range) && Fits(s, start, end, pos, range, size)
    && forall s' :: Fits(s', start, end, pos, range, size) ==> s <= s'
  }

  /** There is no place; in particular a window that wraps around has none. */
  ghost predicate NoPlace(start: int, end: int, pos: int, range: int, size: int) {
    OpenWindow(pos, range) ==> forall s :: !Fits(s, start, end, pos, range, size)
  }

  ghost predicate NoPlaceInArena(e: Extent, pos: int, range: int, size: int) {
    NoPlace(e.cursor, e.addr + e.size, pos, range, size)
  }

  ghost predicate NoPlaceInArenas(e: seq<Extent>, n: nat, pos: int, range: int, size: int) {
    forall j :: 0 <= j < n && j < |e| ==> NoPlaceInArena(e[j], pos, range, size)
  }

  /** The block is at the lowest place of the first arena that has one, and nothing else moved. */
  ghost predicate TookNear(e: seq<Extent>, size: int, pos: int, range: int, b: Block, e': seq<Extent>) {
    exists k: nat ::
      && k < |e| && Place(b.addr, e[k].cursor, e[k].addr + e[k].size, pos, range, size) && b.size == size
      && NoPlaceInArenas(e, k, pos, range, size) && e' == TakenUpTo(e, k, b.addr + size)
  }

  ghost predicate NoPlaceBehind(regions: seq<Region>, g: nat, pos: int, range: int, size: int)
    requires g + 1 < |regions|
  {
    NoPlace(regions[g].start + regions[g].size, regions[g + 1].start, pos, range, size)
  }

  ghost predicate NoPlaceInGaps(regions: seq<Region>, n: nat, pos: int, range: int, size: int) {
    forall j :: 0 <= j < n && j + 1 < |regions| ==> NoPlaceBehind(regions, j, pos, range, size)
  }

  /** The block is at the lowest place of the first gap that has one. */
  ghost predicate InFirstGap(regions: seq<Region>, size: int, pos: int, range: int, b: Block) {
    exists g: nat ::
      && g + 1 < |regions| && b.size == size
      && Place(b.addr, regions[g].start + regions[g].size, regions[g + 1].start, pos, range, size)
      && NoPlaceInGaps(regions, g, pos, range, size)
  }

  /** The arena mapped around a block found in a gap. */
  function NearExtent(b: Block, page: int): Extent
    requires page > 0
  {
    Extent(ArenaOf(b, page).start, ArenaOf(b, page).size, b.addr + b.size)
  }

  /** What `allocateNearBlock` answers and leaves: the lowest place in the first arena that has one; or
      else the lowest place in the first gap that has one, in a new arena around it, if the mapping is
      granted; or else nothing, and nothing changed. */
  ghost predicate NearAnswered(e: seq<Extent>, page: int, size: int, pos: int, range: int, regions: seq<Region>,
                               granted: bool, r: Option<Block>, e': seq<Extent>)
    requires page > 0
  {
    || (r.Some? && TookNear(e, size, pos, range, r.value, e'))
    || (NoPlaceInArenas(e, |e|, pos, range, size) && GapAnswered(e, page, size, pos, range, regions, granted, r, e'))
  }

  ghost predicate GapAnswered(e: seq<Extent>, page: int, size: int, pos: int, range: int, regions: seq<Region>,
                              granted: bool, r: Option<Block>, e': seq<Extent>)
    requires page > 0
  {
    || (granted && r.Some? && InFirstGap(regions, size, pos, range, r.value) && e' == e + [NearExtent(r.value, page)])
    || ((!granted || NoPlaceInGaps(regions, |regions|, pos, range, size)) && r == None && e' == e)
  }

  /** No arena has handed out address 0. */
  predicate NonNull(e: seq<Extent>) {
    forall i :: 0 <= i < |e| ==> 0 < e[i].cursor
  }

  /** The requests that the search is made for: some bytes, in a window of less than half the address
      space, from arenas that do not lie at 0, which the search takes for failure. */
  predicate PlainRequest(e: seq<Extent>, size: int, range: int) {
    0 < size && range < TWO_63 && NonNull(e)
  }

  /** The search finds the lowest place exactly when there is one. */
  lemma NearStartExactly(start: int, end: int, pos: int, range: int, size: int)
    requires 0 < start && 0 < size && 0 <= range < TWO_63 && 0 <= pos < TWO_64
    ensures var found := NearStart(start, end, Wrap(pos - range), Wrap(pos + range), size);
      && (found != 0 ==> Place(found, start, end, pos, range, size))
      && (found == 0 ==> NoPlace(start, end, pos, range, size))
  {
    hide Wrap;
    var found := NearStart(start, end, Wrap(pos - range), Wrap(pos + range), size);
    if OpenWindow(pos, range) {
      NearStartComplete(start, end, pos, range, size);
    } else {
      WrapSides(pos, range);
    }
  }

  /** A window that wraps around is empty to the search. */
  lemma WrapSides(pos: int, range: int)
    requires 0 <= range < TWO_63 && 0 <= pos < TWO_64 && !OpenWindow(pos, range)
    ensures Wrap(pos + range) < Wrap(pos - range)
  {
    if range <= pos {
      WrapInside(pos - range);
      DivUnique(pos + range, TWO_64, 1, pos + range - TWO_64);
    } else {
      DivUnique(pos - range, TWO_64, -1, pos - range + TWO_64);
      if pos + range < TWO_64 {
        WrapInside(pos + range);
      } else {
        DivUnique(pos + range, TWO_64, 1, pos + range - TWO_64);
      }
    }
  }

  /** A window around a low address wraps around, and the search misses the place that there is. */
  lemma WrappedWindowFindsNothing()
    ensures var start, end, pos, range := 0x200_0000, 0x300_0000, 0x100_0000, 0x800_0000;
      && Fits(start, start, end, pos, range, 12) && !OpenWindow(pos, range)
      && NearStart(start, end, Wrap(pos - range), Wrap(pos + range), 12) == 0
  {
    hide Wrap;
    WrapSides(0x100_0000, 0x800_0000);
  }

  /** The answer is settled by the state and the operating system: no two answers fit. */
  lemma NearAnswerIsOne(e: seq<Extent>, page: int, size: int, pos: int, range: int, regions: seq<Region>, granted: bool,
                        r: Option<Block>, e': seq<Extent>, r2: Option<Block>, e2: seq<Extent>)
    requires page > 0 && NearAnswered(e, page, size, pos, range, regions, granted, r, e')
    requires NearAnswered(e, page, size, pos, range, regions, granted, r2, e2)
    ensures r == r2 && e' == e2
  {
    hide Place, NoPlace, ArenaOf, TookNear, InFirstGap, NoPlaceInArenas, NoPlaceInGaps;
    if r.Some? && TookNear(e, size, pos, range, r.value, e') {
      TookNearOnce(e, size, pos, range, r.value, e', r2, e2);
    }
    if r2.Some? && TookNear(e, size, pos, range, r2.value, e2) {
      TookNearOnce(e, size, pos, range, r2.value, e2, r, e');
    }
    if granted && r.Some? && InFirstGap(regions, size, pos, range, r.value) {
      InFirstGapOnce(regions, size, pos, range, r.value, r2);
    }
    if granted && r2.Some? && InFirstGap(regions, size, pos, range, r2.value) {
      InFirstGapOnce(regions, size, pos, range, r2.value, r);
    }
  }

  lemma PlaceOnce(s: int, start: int, end: int, pos: int, range: int, size: int)
    requires Place(s, start, end, pos, range, size)
    ensures !NoPlace(start, end, pos, range, size)
    ensures forall s2 :: Place(s2, start, end, pos, range, size) ==> s2 == s
  {}

  lemma NoneBefore(e: seq<Extent>, n: nat, j: nat, pos: int, range: int, size: int)
    ensures NoPlaceInArenas(e, n, pos, range, size) && j < n && j < |e| ==> NoPlaceInArena(e[j], pos, range, size)
  {}

  lemma NoneBehind(regions: seq<Region>, n: nat, j: nat, pos: int, range: int, size: int)
    ensures NoPlaceInGaps(regions, n, pos, range, size) && j < n && j + 1 < |regions| ==>
              NoPlaceBehind(regions, j, pos, range, size)
  {}

  lemma TookNearOnce(e: seq<Extent>, size: int, pos: int, range: int, b: Block, e': seq<Extent>,
                     r2: Option<Block>, e2: seq<Extent>)
    requires TookNear(e, size, pos, range, b, e')
    ensures !NoPlaceInArenas(e, |e|, pos, range, size)
    ensures r2.Some? && TookNear(e, size, pos, range, r2.value, e2) ==> r2.value == b && e2 == e'
  {
    hide Place, NoPlace;
    var k: nat :| k < |e| && Place(b.addr, e[k].cursor, e[k].addr + e[k].size, pos, range, size) && b.size == size
                  && NoPlaceInArenas(e, k, pos, range, size) && e' == TakenUpTo(e, k, b.addr + size);
    PlaceOnce(b.addr, e[k].cursor, e[k].addr + e[k].size, pos, range, size);
    if r2.Some? && TookNear(e, size, pos, range, r2.value, e2) {
      var b2 := r2.value;
      var j: nat :| j < |e| && Place(b2.addr, e[j].cursor, e[j].addr + e[j].size, pos, range, size) && b2.size == size
                    && NoPlaceInArenas(e, j, pos, range, size) && e2 == TakenUpTo(e, j, b2.addr + size);
      PlaceOnce(b2.addr, e[j].cursor, e[j].addr + e[j].size, pos, range, size);
      NoneBefore(e, k, j, pos, range, size);
      NoneBefore(e, j, k, pos, range, size);
    }
    NoneBefore(e, |e|, k, pos, range, size);
  }

  lemma InFirstGapOnce(regions: seq<Region>, size: int, pos: int, range: int, b: Block, r2: Option<Block>)
    requires InFirstGap(regions, size, pos, range, b)
    ensures !NoPlaceInGaps(regions, |regions|, pos, range, size)
    ensures r2.Some? && InFirstGap(regions, size, pos, range, r2.value) ==> r2.value == b
  {
    hide Place, NoPlace;
    var g: nat :| g + 1 < |regions| && b.size == size
                  && Place(b.addr, regions[g].start + regions[g].size, regions[g + 1].start, pos, range, size)
                  && NoPlaceInGaps(regions, g, pos, range, size);
    PlaceOnce(b.addr, regions[g].start + regions[g].size, regions[g + 1].start, pos, range, size);
    if r2.Some? && InFirstGap(regions, size, pos, range, r2.value) {
      var b2 := r2.value;
      var j: nat :| j + 1 < |regions| && b2.size == size
                    && Place(b2.addr, regions[j].start + regions[j].size, regions[j + 1].start, pos, range, size)
                    && NoPlaceInGaps(regions, j, pos, range, size);
      PlaceOnce(b2.addr, regions[j].start + regions[j].size, regions[j + 1].start, pos, range, size);
      NoneBehind(regions, g, j, pos, range, size);
      NoneBehind(regions, j, g, pos, range, size);
    }
    NoneBehind(regions, |regions|, g, pos, range, size);
  }

  lemma NearKeepsNonNull(e: seq<Extent>, page: int, size: int, pos: int, range: int, regions: seq<Region>,
                         granted: bool, r: Option<Block>, e': seq<Extent>)
    requires page > 0 && NearAnswered(e, page, size, pos, range, regions, granted, r, e')
    requires PlainRequest(e, size, range)
    requires forall i :: 0 <= i < |regions| ==> 0 <= regions[i].start && 0 < regions[i].size
    ensures NonNull(e')
  {
    hide ArenaOf;
  }

  lemma NoneYet(e: seq<Extent>, pos: int, range: int, size: int)
    ensures NoPlaceInArenas(e, 0, pos, range, size)
  {}

  /** One turn of the search over the arenas. */
  lemma ArenaSearched(e: seq<Extent>, i: nat, pos: int, range: int, size: int)
    requires i < |e| && 0 <= range && 0 <= pos < TWO_64
    ensures PlainRequest(e, size, range) && NoPlaceInArenas(e, i, pos, range, size) ==>
              var found := NearStart(e[i].cursor, e[i].addr + e[i].size, Wrap(pos - range), Wrap(pos + range), size);
              if found == 0 then NoPlaceInArenas(e, i + 1, pos, range, size)
              else TookNear(e, size, pos, range, Block(found, size), TakenUpTo(e, i, found + size))
  {
    hide NearStart, Wrap, Place, NoPlace, TakenUpTo;
    if PlainRequest(e, size, range) && NoPlaceInArenas(e, i, pos, range, size) {
      NearStartExactly(e[i].cursor, e[i].addr + e[i].size, pos, range, size);
    }
  }

  lemma NoneYetBehind(regions: seq<Region>, pos: int, range: int, size: int)
    ensures NoPlaceInGaps(regions, 0, pos, range, size)
  {}

  /** One turn of the search over the gaps. */
  lemma GapSearched(e: seq<Extent>, regions: seq<Region>, page: int, i: nat, pos: int, range: int, size: int)
    requires i + 1 < |regions| && Layout(regions, page) && 0 <= range && 0 <= pos < TWO_64
    ensures PlainRequest(e, size, range) && NoPlaceInGaps(regions, i, pos, range, size) ==>
              var found := NearStart(AlignFloor(regions[i].start + regions[i].size, 4), regions[i + 1].start,
                                     Wrap(pos - range), Wrap(pos + range), size);
              if found == 0 then NoPlaceInGaps(regions, i + 1, pos, range, size)
              else InFirstGap(regions, size, pos, range, Block(found, size))
  {
    hide NearStart, Wrap, Place, NoPlace, AlignFloor, Aligned;
    if PlainRequest(e, size, range) && NoPlaceInGaps(regions, i, pos, range, size) {
      SumAligned(regions[i].start, regions[i].size, page);
      FloorOfFour(regions[i].start + regions[i].size, page);
      NearStartExactly(regions[i].start + regions[i].size, regions[i + 1].start, pos, range, size);
    }
  }

  lemma NothingFound(e: seq<Extent>, page: int, size: int, pos: int, range: int, regions: seq<Region>, granted: bool,
                     i: nat)
    requires page > 0
    ensures !granted || (i + 1 >= |regions| && NoPlaceInGaps(regions, i, pos, range, size)) ==>
              GapAnswered(e, page, size, pos, range, regions, granted, None, e)
  {}

  lemma PlaceFound(e: seq<Extent>, page: int, size: int, pos: int, range: int, regions: seq<Region>, b: Block)
    requires page > 0
    ensures InFirstGap(regions, size, pos, range, b) ==>
              GapAnswered(e, page, size, pos, range, regions, true, Some(b), e + [NearExtent(b, page)])
  {}

  class Allocator {
    const page: int
    var codeArenas: seq<MemoryArena>
    ghost var blocks: seq<Block>  // every block handed out so far
    ghost var home: seq<nat>      // the arena of each block

    /** Arenas are disjoint, cursors stay inside, and every block handed out lies below its arena's
        cursor, apart from every other. */
    ghost predicate Valid()
      reads this, codeArenas
    {
      Shape() && ArenasApart(codeArenas) && BlocksApart(blocks)
    }

    ghost predicate Shape()
      reads this, codeArenas
    {
      && page > 0
      && (forall i :: 0 <= i < |codeArenas| ==> codeArenas[i].Valid())
      && (forall i, j :: 0 <= i < j < |codeArenas| ==> codeArenas[i] != codeArenas[j])
      && |home| == |blocks|
      && (forall k :: 0 <= k < |blocks| ==>
            && home[k] < |codeArenas| && blocks[k].size >= 0
            && codeArenas[home[k]].addr <= blocks[k].addr
            && blocks[k].addr + blocks[k].size <= codeArenas[home[k]].cursor)
    }

    /** All requests so far were for multiples of 4 bytes at multiples of 4. */
    ghost predicate WordAligned()
      reads this, codeArenas
    {
      ByFour(page) && forall i :: 0 <= i < |codeArenas| ==> ByFour(codeArenas[i].cursor)
    }

    constructor (page: int)
      requires page > 0
      ensures Valid() && blocks == [] && codeArenas == [] && this.page == page
    {
      this.page, codeArenas, blocks, home := page, [], [], [];
    }

    /** Take a block from arena i, if it fits, and record it. */
    method Take(i: nat, n: int) returns (r: Option<Block>)
      requires Shape() && i < |codeArenas| && 0 <= n
      modifies codeArenas[i], this`blocks, this`home
      ensures Shape() && (old(Valid()) ==> Valid())
      ensures r.Some? <==> old(codeArenas[i].cursor) + n <= codeArenas[i].addr + codeArenas[i].size
      ensures r.Some? ==> r.value == Block(old(codeArenas[i].cursor), n)
      ensures codeArenas[i].cursor == old(codeArenas[i].cursor) + if r.Some? then n else 0
      ensures blocks == old(blocks) + if r.Some? then [r.value] else []
      ensures old(WordAligned()) && ByFour(n) ==> WordAligned()
      ensures Extents(codeArenas) == TakenUpTo(old(Extents(codeArenas)), i, codeArenas[i].cursor)
    {
      hide ByFour, ArenasApart, BlocksApart, Shape, Extents, TakenUpTo;
      if ByFour(codeArenas[i].cursor) && ByFour(n) {
        ByFourAdd(codeArenas[i].cursor, n);
      }
      ghost var e := Extents(codeArenas);
      forall j | 0 <= j < |codeArenas|
        ensures e[j] == Extent(codeArenas[j].addr, codeArenas[j].size, codeArenas[j].cursor)
      {
        ExtentAt(codeArenas, j);
      }
      r := TakeUnaligned(i, n);
      TakenExtents(codeArenas, e, i);
    }

    /** The same, without following the alignment of the cursors. */
    method TakeUnaligned(i: nat, n: int) returns (r: Option<Block>)
      requires Shape() && i < |codeArenas| && 0 <= n
      modifies codeArenas[i], this`blocks, this`home
      ensures Shape() && (old(Valid()) ==> Valid())
      ensures r.Some? <==> old(codeArenas[i].cursor) + n <= codeArenas[i].addr + codeArenas[i].size
      ensures r.Some? ==> r.value == Block(old(codeArenas[i].cursor), n)
      ensures codeArenas[i].cursor == old(codeArenas[i].cursor) + if r.Some? then n else 0
      ensures blocks == old(blocks) + if r.Some? then [r.value] else []
      ensures forall j :: 0 <= j < |codeArenas| && j != i ==> codeArenas[j].cursor == old(codeArenas[j].cursor)
    {
      hide ArenasApart, BlocksApart, Extents;
      var arena := codeArenas[i];
      if Valid() && arena.cursor + n <= arena.addr + arena.size {
        NextBlockApart(i, n);
      }
      r := arena.AllocMemBlock(n);
      if r.Some? {
        blocks, home := blocks + [r.value], home + [i];
      }
    }

    /** A block at an arena's cursor joins the blocks handed out. */
    lemma NextBlockApart(i: nat, n: int)
      requires Valid() && i < |codeArenas| && 0 <= n
      requires codeArenas[i].cursor + n <= codeArenas[i].addr + codeArenas[i].size
      ensures BlocksApart(blocks + [Block(codeArenas[i].cursor, n)])
    {
      var arena := codeArenas[i];
      var b := Block(arena.cursor, n);
      forall k | 0 <= k < |blocks| ensures Apart(blocks[k].addr, blocks[k].size, b.addr, n) {
        var h := home[k];
        assert h < i ==> Apart(codeArenas[h].addr, codeArenas[h].size, arena.addr, arena.size);
        assert i < h ==> Apart(arena.addr, arena.size, codeArenas[h].addr, codeArenas[h].size);
      }
      BlocksApartSnoc(blocks, b);
    }

    /** Skip to `at` with a placeholder block, and take a block there. */
    method TakeAt(i: nat, at: int, size: int) returns (r: Option<Block>)
      requires Shape() && i < |codeArenas| && 0 <= size
      requires codeArenas[i].cursor <= at && at + size <= codeArenas[i].addr + codeArenas[i].size
      modifies codeArenas[i], this`blocks, this`home
      ensures Shape() && (old(Valid()) ==> Valid())
      ensures r == Some(Block(at, size)) && r.value in blocks && old(blocks) <= blocks
      ensures codeArenas[i].cursor == at + size
      ensures Extents(codeArenas) == TakenUpTo(old(Extents(codeArenas)), i, at + size)
      ensures old(WordAligned()) && ByFour(at) && ByFour(size) ==> WordAligned()
    {
      hide ByFour, ArenasApart, BlocksApart, Extents;
      if ByFour(at) && ByFour(codeArenas[i].cursor) {
        ByFourAdd(at, codeArenas[i].cursor);
      }
      var placeholder := Take(i, at - codeArenas[i].cursor);
      r := Take(i, size);
      assert blocks[|blocks| - 1] == r.value;
    }

    /** Register a new arena; the allocator stays valid if the arena is apart from all others. */
    method AddArena(addr: int, size: int)
      requires Shape() && 0 <= addr && 0 <= size
      modifies this`codeArenas
      ensures Shape()
      ensures old(Valid()) && ApartFromAll(old(codeArenas), addr, size) ==> Valid()
      ensures |codeArenas| == |old(codeArenas)| + 1 && codeArenas[..|old(codeArenas)|] == old(codeArenas)
      ensures var a := codeArenas[|old(codeArenas)|]; fresh(a) && a.addr == a.cursor == addr && a.size == size
      ensures old(WordAligned()) && ByFour(addr) ==> WordAligned()
      ensures Extents(codeArenas) == old(Extents(codeArenas)) + [Extent(addr, size, addr)]
    {
      hide Extents;
      var arena := new MemoryArena(addr, size);
      ExtentsSnoc(codeArenas, arena);
      codeArenas := codeArenas + [arena];
    }

    /** `allocateExecBlock`: first fit, else a new arena of whole pages at `mapped`, the address the
        operating system answers with.  The arena size goes through a 32-bit parameter. */
    method AllocateExecBlock(size: int, mapped: int) returns (r: Option<Block>)
      requires Valid() && 0 <= size < TWO_32 && 0 <= mapped
      requires ApartFromAll(codeArenas, mapped, AlignCeil(size, page) % TWO_32)
      modifies this`codeArenas, this`blocks, this`home, codeArenas
      ensures Valid() && blocks == old(blocks) + if r.Some? then [r.value] else []
      ensures ExecAnswered(old(Extents(codeArenas)), page, size, mapped, r, Extents(codeArenas))
      ensures old(WordAligned()) && ByFour(size) && ByFour(mapped) ==> WordAligned()
      ensures old(WordAligned()) && ByFour(mapped) && r.Some? ==> ByFour(r.value.addr)
    {
      assert page > 0;
      hide ByFour, ArenasApart, BlocksApart, ApartFromAll, ExecAnswered, AlignCeil, Shape, HasRoom, TakenUpTo,
           TookFirst, Extents;
      ghost var e := Extents(codeArenas);
      r := SearchArenas(size);
      if r.Some? {
        ExecFound(e, page, size, mapped, r.value, Extents(codeArenas));
        return;
      }
      var arenaSize := AlignCeil(size, page) % TWO_32;
      r := GrowAndTake(size, mapped, arenaSize);
      ExecGrown(e, page, size, mapped);
    }

    /** Register a new arena and take the block at its start, if it fits. */
    method GrowAndTake(size: int, mapped: int, arenaSize: int) returns (r: Option<Block>)
      requires Valid() && 0 <= size && 0 <= mapped && 0 <= arenaSize && ApartFromAll(codeArenas, mapped, arenaSize)
      modifies this`codeArenas, this`blocks, this`home
      ensures Valid() && blocks == old(blocks) + if r.Some? then [r.value] else []
      ensures r == if size <= arenaSize then Some(Block(mapped, size)) else None
      ensures Extents(codeArenas) == old(Extents(codeArenas))
                + [Extent(mapped, arenaSize, if size <= arenaSize then mapped + size else mapped)]
      ensures old(WordAligned()) && ByFour(mapped) && (r.Some? ==> ByFour(size)) ==> WordAligned()
    {
      hide ByFour, ArenasApart, BlocksApart, ApartFromAll, Shape, TakenUpTo, Extents;
      ghost var e := Extents(codeArenas);
      AddArena(mapped, arenaSize);
      r := Take(|codeArenas| - 1, size);
      TakenFromLast(e, mapped, arenaSize, mapped + if r.Some? then size else 0);
    }

    /** The first-fit loop. */
    method SearchArenas(size: int) returns (r: Option<Block>)
      requires Valid() && 0 <= size
      modifies this`blocks, this`home, codeArenas
      ensures Valid() && codeArenas == old(codeArenas) && blocks == old(blocks) + if r.Some? then [r.value] else []
      ensures old(WordAligned()) && (r.Some? ==> ByFour(size)) ==> WordAligned()
      ensures old(WordAligned()) && r.Some? ==> ByFour(r.value.addr)
      ensures r.Some? ==> TookFirst(old(Extents(codeArenas)), size, r.value, Extents(codeArenas))
      ensures r.None? ==> Extents(codeArenas) == old(Extents(codeArenas))
      ensures r.None? ==> forall k :: 0 <= k < |codeArenas| ==> !HasRoom(old(Extents(codeArenas))[k], size)
    {
      hide ByFour, ArenasApart, BlocksApart, Shape, TakenUpTo, TookFirst, Extents;
      ghost var e := Extents(codeArenas);
      var i := 0;
      while i < |codeArenas|
        invariant 0 <= i <= |codeArenas| && Valid() && codeArenas == old(codeArenas)
        invariant blocks == old(blocks) && (old(WordAligned()) ==> WordAligned())
        invariant Extents(codeArenas) == e
        invariant forall k :: 0 <= k < i ==> !HasRoom(e[k], size)
      {
        ExtentAt(codeArenas, i);
        r := Take(i, size);
        if r.Some? {
          FoundFirst(e, size, i);
          return;
        }
        TakenNothing(e, i);
        i := i + 1;
      }
      r := None;
    }

    // ----- near allocation -----

    /** No arena has room in the window. */
    ghost predicate NoArenaRoom(size: int, pos: int, range: int)
      reads this, codeArenas
    {
      forall i :: 0 <= i < |codeArenas| ==>
        NearStart(codeArenas[i].cursor, codeArenas[i].addr + codeArenas[i].size,
                  Wrap(pos - range), Wrap(pos + range), size) == 0
    }

    /** `allocateNearBlockFromDefaultAllocator`, executable side. */
    method AllocateNearBlockFromDefaultAllocator(size: int, pos: int, range: int) returns (r: Option<Block>)
      requires Shape() && 0 <= size < TWO_32 && 0 <= pos < TWO_64 && 0 <= range < TWO_64
      modifies this`blocks, this`home, codeArenas
      ensures Shape() && (old(Valid()) ==> Valid()) && codeArenas == old(codeArenas)
      ensures r.None? <==> old(NoArenaRoom(size, pos, range))
      ensures r.None? ==> Extents(codeArenas) == old(Extents(codeArenas))
      ensures PlainRequest(old(Extents(codeArenas)), size, range) ==>
                if r.Some? then TookNear(old(Extents(codeArenas)), size, pos, range, r.value, Extents(codeArenas))
                else NoPlaceInArenas(old(Extents(codeArenas)), |codeArenas|, pos, range, size)
      ensures r.Some? ==> InWindow(r.value, size, pos, range) && r.value in blocks
      ensures old(blocks) <= blocks && (r.None? ==> blocks == old(blocks) && (old(WordAligned()) ==> WordAligned()))
      ensures forall i :: 0 <= i < |codeArenas| ==> codeArenas[i].cursor >= old(codeArenas[i].cursor)
      ensures old(WordAligned()) && AlignedRequest(size, pos, range) ==>
                WordAligned() && (r.Some? ==> ByFour(r.value.addr))
    {
      hide Wrap, NearStart, ByFour, ArenasApart, BlocksApart, Extents, TakenUpTo, PlainRequest, NoPlaceInArenas,
           TookNear, NoArenaRoom;
      var i, unused := SearchWindow(size, pos, range);
      if unused == 0 {
        return None;
      }
      NearStartLaws(codeArenas[i].cursor, codeArenas[i].addr + codeArenas[i].size, pos, range, size);
      if AlignedRequest(size, pos, range) && ByFour(codeArenas[i].cursor) {
        NearStartAligned(codeArenas[i].cursor, codeArenas[i].addr + codeArenas[i].size, pos, range, size);
      }
      r := TakeAt(i, unused, size);
    }

    /** The search loop: the first arena with room in the window and the address there, or 0. */
    method SearchWindow(size: int, pos: int, range: int) returns (i: nat, unused: int)
      requires Shape() && 0 <= size < TWO_32 && 0 <= pos < TWO_64 && 0 <= range < TWO_64
      ensures unused == 0 <==> NoArenaRoom(size, pos, range)
      ensures unused == 0 && PlainRequest(Extents(codeArenas), size, range) ==>
                NoPlaceInArenas(Extents(codeArenas), |codeArenas|, pos, range, size)
      ensures unused != 0 ==> i < |codeArenas| && unused == NearStart(codeArenas[i].cursor,
                codeArenas[i].addr + codeArenas[i].size, Wrap(pos - range), Wrap(pos + range), size)
      ensures unused != 0 && PlainRequest(Extents(codeArenas), size, range) ==>
                TookNear(Extents(codeArenas), size, pos, range, Block(unused, size),
                         TakenUpTo(Extents(codeArenas), i, unused + size))
    {
      hide Wrap, NearStart, Shape, Extents, TakenUpTo, PlainRequest, NoPlaceInArenas, TookNear;
      ghost var e := Extents(codeArenas);
      NoneYet(e, pos, range, size);
      var lo, hi := Wrap(pos - range), Wrap(pos + range);
      i, unused := 0, 0;
      while i < |codeArenas|
        invariant 0 <= i <= |codeArenas| && unused == 0
        invariant PlainRequest(e, size, range) ==> NoPlaceInArenas(e, i, pos, range, size)
        invariant forall k :: 0 <= k < i ==>
          NearStart(codeArenas[k].cursor, codeArenas[k].addr + codeArenas[k].size, lo, hi, size) == 0
      {
        unused := NearStart(codeArenas[i].cursor, codeArenas[i].addr + codeArenas[i].size, lo, hi, size);
        ExtentAt(codeArenas, i);
        ArenaSearched(e, i, pos, range, size);
        if unused != 0 {
          return;
        }
        i := i + 1;
      }
    }

    /** `allocateNearBlockFromUnusedRegion`, executable side: `regions` is the process memory layout,
        `granted` the answer to the fixed mapping request. */
    method AllocateNearBlockFromUnusedRegion(size: int, pos: int, range: int, regions: seq<Region>, granted: bool)
      returns (r: Option<Block>)
      requires Shape() && 0 <= size < TWO_32 && 0 <= pos < TWO_64 && 0 <= range < TWO_64 && Layout(regions, page)
      modifies this`codeArenas, this`blocks, this`home
      ensures var i := FirstGap(regions, 0, pos, range, size);
        r == if granted && i + 1 < |regions| then Some(Block(GapLow(regions, i, pos, range), size)) else None
      ensures PlainRequest(old(Extents(codeArenas)), size, range) ==>
                GapAnswered(old(Extents(codeArenas)), page, size, pos, range, regions, granted, r, Extents(codeArenas))
      ensures r.Some? ==> InWindow(r.value, size, pos, range) && r.value in blocks
      ensures r.Some? ==> (ClearOfRegions(regions, ArenaOf(r.value, page)) <==> !GapClash(regions, pos, range, size))
      ensures Shape() && old(blocks) <= blocks && (r.None? ==> blocks == old(blocks) && codeArenas == old(codeArenas))
      ensures forall a :: a in codeArenas ==> a in old(codeArenas) || fresh(a)
      ensures old(Valid()) && old(AllListed(regions)) && !(granted && GapClash(regions, pos, range, size)) ==> Valid()
      ensures old(WordAligned()) && AlignedRequest(size, pos, range) ==>
                WordAligned() && (r.Some? ==> ByFour(r.value.addr))
    {
      hide AlignFloor, NearStart, Wrap, Aligned, ByFour, ArenasApart, BlocksApart, ApartFromAll, ClearOfRegions,
           Extents, PlainRequest, GapAnswered, NoPlaceInGaps, InFirstGap;
      ghost var e := Extents(codeArenas);
      NoneYetBehind(regions, pos, range, size);
      var lo, hi := Wrap(pos - range), Wrap(pos + range);
      var i, unused := 0, 0;
      while i + 1 < |regions|
        invariant 0 <= i && unused == 0
        invariant PlainRequest(e, size, range) ==> NoPlaceInGaps(regions, i, pos, range, size)
        invariant FirstGap(regions, 0, pos, range, size) == FirstGap(regions, i, pos, range, size)
        modifies {}
      {
        unused := NearStart(AlignFloor(regions[i].start + regions[i].size, 4), regions[i + 1].start, lo, hi, size);
        GapSearched(e, regions, page, i, pos, range, size);
        if unused != 0 {
          break;
        }
        i := i + 1;
      }
      if unused == 0 || !granted {
        NothingFound(e, page, size, pos, range, regions, granted, i);
        return None;
      }
      PlaceFound(e, page, size, pos, range, regions, Block(unused, size));
      assert FirstGap(regions, 0, pos, range, size) == i;
      GapLaws(regions, page, i, Block(unused, size), pos, range);
      GapAligned(regions, page, i, pos, range, size);
      ghost var a := ArenaOf(Block(unused, size), page);
      if AllListed(regions) && ClearOfRegions(regions, a) {
        ListedAllApart(codeArenas, regions, a);
      }
      r := RegisterNearArena(unused, size);
    }

    /** Every arena is part of a listed region. */
    ghost predicate AllListed(regions: seq<Region>)
      reads this
    {
      forall i :: 0 <= i < |codeArenas| ==>
        0 <= codeArenas[i].size && Listed(regions, codeArenas[i].addr, codeArenas[i].size)
    }

    /** `allocateNearBlock`.  A new arena is mapped over a listed region exactly when no arena has room,
        the mapping is granted, and the block in the first gap with room ends where the next region
        starts; otherwise the allocator stays valid. */
    method AllocateNearBlock(size: int, pos: int, range: int, regions: seq<Region>, granted: bool)
      returns (r: Option<Block>)
      requires Shape() && 0 <= size < TWO_32 && 0 <= pos < TWO_64 && 0 <= range < TWO_64 && Layout(regions, page)
      modifies this`codeArenas, this`blocks, this`home, codeArenas
      ensures Shape() && old(blocks) <= blocks
      ensures forall a :: a in codeArenas ==> a in old(codeArenas) || fresh(a)
      ensures PlainRequest(old(Extents(codeArenas)), size, range) ==>
                NearAnswered(old(Extents(codeArenas)), page, size, pos, range, regions, granted, r, Extents(codeArenas))
      ensures r.None? <==> && old(NoArenaRoom(size, pos, range))
                           && (!granted || FirstGap(regions, 0, pos, range, size) + 1 >= |regions|)
      ensures r.Some? ==> InWindow(r.value, size, pos, range) && r.value in blocks
      ensures old(NoArenaRoom(size, pos, range)) && r.Some? ==>
                (ClearOfRegions(regions, ArenaOf(r.value, page)) <==> !GapClash(regions, pos, range, size))
      ensures old(Valid()) && old(AllListed(regions)) ==>
                Valid() || (old(NoArenaRoom(size, pos, range)) && granted && GapClash(regions, pos, range, size))
      ensures old(WordAligned()) && AlignedRequest(size, pos, range) ==>
                WordAligned() && (r.Some? ==> ByFour(r.value.addr))
    {
      hide NearStart, Layout, Listed, ArenaOf, Shape, ArenasApart, BlocksApart, FirstGap, GapClash, ClearOfRegions,
           ByFour, Extents, PlainRequest, TookNear, GapAnswered, NoPlaceInArenas;
      r := AllocateNearBlockFromDefaultAllocator(size, pos, range);
      if r.None? {
        r := AllocateNearBlockFromUnusedRegion(size, pos, range, regions, granted);
      }
    }

    /** Map the pages around the block, register them as an arena, skip to the block and take it. */
    method RegisterNearArena(unused: int, size: int) returns (r: Option<Block>)
      requires Shape() && 0 <= size && 0 <= unused
      modifies this`codeArenas, this`blocks, this`home
      ensures r == Some(Block(unused, size)) && Shape() && old(blocks) <= blocks && r.value in blocks
      ensures Extents(codeArenas) == old(Extents(codeArenas)) + [NearExtent(Block(unused, size), page)]
      ensures forall a :: a in codeArenas ==> a in old(codeArenas) || fresh(a)
      ensures var a := ArenaOf(Block(unused, size), page);
        old(Valid()) && ApartFromAll(old(codeArenas), a.start, a.size) ==> Valid()
      ensures old(WordAligned()) && ByFour(size) && ByFour(unused) ==> WordAligned()
    {
      assert page > 0;
      hide AlignFloor, Aligned, ArenasApart, BlocksApart, ApartFromAll, ByFour, Shape, Extents, ArenaOf, NearExtent,
           WordAligned;
      ArenaCovers(unused, size, page);
      ArenaIs(unused, size, page);
      WordAlignedPage();
      var first := AlignFloor(unused, page);
      var arenaSize := AlignFloor(unused + size, page) - first + page;
      r := GrowAndTakeAt(first, arenaSize, unused, size);
    }

    lemma WordAlignedPage()
      ensures WordAligned() ==> ByFour(page)
    {}

    /** Register a new arena and take the block at `at` in it. */
    method GrowAndTakeAt(first: int, arenaSize: int, at: int, size: int) returns (r: Option<Block>)
      requires Shape() && 0 <= first <= at && 0 <= size && 0 <= arenaSize && at + size <= first + arenaSize
      modifies this`codeArenas, this`blocks, this`home
      ensures r == Some(Block(at, size)) && Shape() && old(blocks) <= blocks && r.value in blocks
      ensures Extents(codeArenas) == old(Extents(codeArenas)) + [Extent(first, arenaSize, at + size)]
      ensures forall a :: a in codeArenas ==> a in old(codeArenas) || fresh(a)
      ensures old(Valid()) && ApartFromAll(old(codeArenas), first, arenaSize) ==> Valid()
      ensures old(WordAligned()) && ByFour(size) && ByFour(at) && ByFour(first) ==> WordAligned()
    {
      hide ArenasApart, BlocksApart, ApartFromAll, ByFour, Shape, Extents, TakenUpTo, WordAligned;
      ghost var e := Extents(codeArenas);
      AddArena(first, arenaSize);
      r := TakeAt(|codeArenas| - 1, at, size);
      TakenFromLast(e, first, arenaSize, at + size);
    }
  }

  /** The pages around a block are those that touch it, and the one behind it if it ends on a page. */
  lemma ArenaCovers(at: int, size: int, page: int)
    requires page > 0 && 0 <= at && 0 <= size
    ensures var a := ArenaOf(Block(at, size), page);
      && 0 <= a.start <= at < a.start + page && Aligned(a.start, page)
      && 0 <= a.size && at + size < a.start + a.size <= at + size + page && Aligned(a.start + a.size, page)
      && (ByFour(page) ==> ByFour(a.start))
  {
    hide AlignFloor, Aligned, ByFour;
    FloorLaws(at, page);
    FloorLaws(at + size, page);
    FloorNonNegative(at, page);
    FloorOrdered(at, at + size, page);
    assert Aligned(page, page) by { PageAligned(page); }
    SumAligned(AlignFloor(at + size, page), page, page);
    if ByFour(page) {
      FloorByFour(at, page);
    }
  }

  lemma ArenaIs(at: int, size: int, page: int)
    requires page > 0
    ensures var b, first := Block(at, size), AlignFloor(at, page);
      && ArenaOf(b, page) == Region(first, AlignFloor(at + size, page) - first + page)
      && NearExtent(b, page) == Extent(ArenaOf(b, page).start, ArenaOf(b, page).size, at + size)
  {}

  lemma PageAligned(page: int)
    requires page > 0
    ensures Aligned(page, page)
  {
    DivUnique(page, page, 1, 0);
  }

  lemma FloorOrdered(x: int, y: int, page: int)
    requires page > 0 && x <= y
    ensures AlignFloor(x, page) <= AlignFloor(y, page)
  {
    hide AlignFloor, Aligned;
    FloorLaws(x, page);
    FloorAbove(AlignFloor(x, page), y, page);
  }

  lemma FloorNonNegative(x: int, page: int)
    requires page > 0 && 0 <= x
    ensures 0 <= AlignFloor(x, page)
  {
    DivUnique(0, page, 0, 0);
    FloorAbove(0, x, page);
  }

  lemma ListedApart(regions: seq<Region>, addr: int, size: int, b: int, m: int)
    requires Listed(regions, addr, size) && 0 <= size
    requires forall i :: 0 <= i < |regions| ==> Apart(regions[i].start, regions[i].size, b, m)
    ensures Apart(addr, size, b, m)
  {
    var i :| 0 <= i < |regions| && regions[i].start <= addr && addr + size <= regions[i].start + regions[i].size;
  }

  /** The block found in the gap behind region i starts at the end of that region or of the window, and
      its arena of whole pages stays clear of every listed region exactly unless the block ends where
      the next region starts. */
  lemma GapLaws(regions: seq<Region>, page: int, i: nat, b: Block, pos: int, range: int)
    requires Layout(regions, page) && i + 1 < |regions| && 0 <= b.size
    requires 0 <= pos < TWO_64 && 0 <= range < TWO_64 && b.addr != 0
    requires b.addr == GapStart(regions, i, pos, range, b.size)
    ensures b.addr == GapLow(regions, i, pos, range) && InWindow(b, b.size, pos, range)
    ensures regions[i].start + regions[i].size <= b.addr && b.addr + b.size <= regions[i + 1].start
    ensures ClearOfRegions(regions, ArenaOf(b, page)) <==> b.addr + b.size != regions[i + 1].start
  {
    hide AlignFloor, NearStart, Wrap, Aligned;
    var gap, next := regions[i].start + regions[i].size, regions[i + 1].start;
    SumAligned(regions[i].start, regions[i].size, page);
    FloorOfFour(gap, page);
    NearStartLaws(gap, next, pos, range, b.size);
    var a := ArenaOf(b, page);
    FloorLaws(b.addr, page);
    FloorAbove(gap, b.addr, page);
    CeilBelow(b.addr + b.size, next, page);
    if b.addr + b.size != next {
      BetweenRegions(regions, page, i, a.start, a.size);
    } else {
      assert !Apart(regions[i + 1].start, regions[i + 1].size, a.start, a.size);
    }
  }

  lemma GapAligned(regions: seq<Region>, page: int, i: nat, pos: int, range: int, size: int)
    requires Layout(regions, page) && i + 1 < |regions|
    ensures AlignedRequest(size, pos, range) ==> ByFour(GapStart(regions, i, pos, range, size))
  {
    hide NearStart, Wrap, AlignFloor, Aligned, ByFour;
    var gap := regions[i].start + regions[i].size;
    if AlignedRequest(size, pos, range) {
      assert ByFour(4) by { FourByFour(); }
      FloorByFour(gap, 4);
      NearStartAligned(AlignFloor(gap, 4), regions[i + 1].start, pos, range, size);
    }
  }

  /** A region apart from every listed one is apart from every arena in a listed one. */
  lemma ListedAllApart(arenas: seq<MemoryArena>, regions: seq<Region>, a: Region)
    requires forall i :: 0 <= i < |arenas| ==> 0 <= arenas[i].size && Listed(regions, arenas[i].addr, arenas[i].size)
    requires ClearOfRegions(regions, a)
    ensures ApartFromAll(arenas, a.start, a.size)
  {
    hide Listed;
    forall k | 0 <= k < |arenas| ensures Apart(arenas[k].addr, arenas[k].size, a.start, a.size) {
      ListedApart(regions, arenas[k].addr, arenas[k].size, a.start, a.size);
    }
  }

  lemma BetweenRegions(regions: seq<Region>, page: int, i: nat, start: int, size: int)
    requires Layout(regions, page) && i + 1 < |regions|
    requires regions[i].start + regions[i].size <= start && start + size <= regions[i + 1].start
    ensures forall k :: 0 <= k < |regions| ==> Apart(regions[k].start, regions[k].size, start, size)
  {
    hide Aligned;
    forall k | 0 <= k < |regions| ensures Apart(regions[k].start, regions[k].size, start, size) {
      assert k < i ==> regions[k].start + regions[k].size <= regions[i].start;
      assert i + 1 < k ==> regions[i + 1].start + regions[i + 1].size <= regions[k].start;
    }
  }

  lemma FloorByFour(x: int, page: int)
    requires page > 0 && ByFour(page)
    ensures ByFour(AlignFloor(x, page))
  {
    var k, q := page / 4, x / page;
    DivUnique(q * page, 4, q * k, 0);
    FloorIsMultiple(x, page);
  }

  lemma FloorIsMultiple(x: int, page: int)
    requires page > 0
    ensures AlignFloor(x, page) == x / page * page
  {}

  lemma SumAligned(x: int, y: int, page: int)
    requires page > 0 && Aligned(x, page) && Aligned(y, page)
    ensures Aligned(x + y, page)
  {
    DivUnique(x + y, page, x / page + y / page, 0);
  }

  lemma FloorOfFour(x: int, page: int)
    requires page > 0 && page % 4 == 0 && Aligned(x, page)
    ensures AlignFloor(x, 4) == x
  {
    var k, q := page / 4, x / page;
    DivUnique(x, 4, q * k, 0);
  }

  /** Rounding down does not pass a page boundary. */
  lemma FloorAbove(x: int, y: int, page: int)
    requires page > 0 && Aligned(x, page) && x <= y
    ensures x <= AlignFloor(y, page)
  {
    Gap(y / page, x / page, page);
  }

  /** One page past the page of x is at or below the page boundary y, unless x is y itself. */
  lemma CeilBelow(x: int, y: int, page: int)
    requires page > 0 && Aligned(y, page) && x <= y
    ensures AlignFloor(x, page) + page <= y <==> x != y
  {
    Gap(x / page, y / page, page);
    Gap(y / page, x / page, page);
  }

  /** The operating system's listing: sorted, disjoint, page-aligned regions. */
  ghost predicate Layout(regions: seq<Region>, page: int) {
    && page > 0 && page % 4 == 0
    && (forall i :: 0 <= i < |regions| ==>
          && regions[i].start >= 0 && regions[i].size > 0
          && Aligned(regions[i].start, page) && Aligned(regions[i].size, page))
    && (forall i, j :: 0 <= i < j < |regions| ==> regions[i].start + regions[i].size <= regions[j].start)
  }

  /** The mapped range is part of a listed region. */
  ghost predicate Listed(regions: seq<Region>, addr: int, size: int) {
    exists i :: 0 <= i < |regions| && regions[i].start <= addr && addr + size <= regions[i].start + regions[i].size
  }

  /** The arena of whole pages mapped around a block: from the block's first page to one page past
      the page of its end. */
  function ArenaOf(b: Block, page: int): Region
    requires page > 0
  {
    var first := AlignFloor(b.addr, page);
    Region(first, AlignFloor(b.addr + b.size, page) - first + page)
  }

  /** The window checks shared by both searches: the first address at or above `start` from which
      `size` bytes fit below `end` inside [lo, hi], or 0. */
  function NearStart(start: int, end: int, lo: int, hi: int, size: int): int {
    if end < lo || start > hi then 0
    else
      var s := if start > lo then start else lo;
      var e := if end < hi then end else hi;
      if s >= e || e - s < size then 0 else s
  }

  /** Where a block of `size` bytes fits behind region i, or 0. */
  function GapStart(regions: seq<Region>, i: nat, pos: int, range: int, size: int): int
    requires i + 1 < |regions|
  {
    NearStart(AlignFloor(regions[i].start + regions[i].size, 4), regions[i + 1].start,
              Wrap(pos - range), Wrap(pos + range), size)
  }

  /** The first gap from number i on that has room in the window, or the number of gaps. */
  function FirstGap(regions: seq<Region>, i: nat, pos: int, range: int, size: int): (g: nat)
    decreases |regions| - i
  {
    if i + 1 >= |regions| || GapStart(regions, i, pos, range, size) != 0 then i
    else FirstGap(regions, i + 1, pos, range, size)
  }

  /** The lowest address behind region i in the window. */
  function GapLow(regions: seq<Region>, i: nat, pos: int, range: int): int
    requires i < |regions|
  {
    var end, lo := regions[i].start + regions[i].size, Wrap(pos - range);
    if end > lo then end else lo
  }

  /** In the first gap with room, a block at the lowest address ends where the next region starts. */
  predicate GapClash(regions: seq<Region>, pos: int, range: int, size: int) {
    var i := FirstGap(regions, 0, pos, range, size);
    i + 1 < |regions| && GapLow(regions, i, pos, range) + size == regions[i + 1].start
  }

  ghost predicate ClearOfRegions(regions: seq<Region>, a: Region) {
    forall k :: 0 <= k < |regions| ==> Apart(regions[k].start, regions[k].size, a.start, a.size)
  }

  /** A 12-byte request of the near trampoline whose window starts 12 bytes below a region: the arena
      mapped for it covers that region's first page. */
  lemma NearArenaClashes()
    ensures var regions := [Region(0x0F00_0000, 0x1000), Region(0x1000_0000, 0x1000)];
      var pos, range := 0x1000_0000 - 12 + 0x800_0000, 0x800_0000;
      && Layout(regions, 0x1000) && GapClash(regions, pos, range, 12)
      && ArenaOf(Block(GapLow(regions, 0, pos, range), 12), 0x1000) == Region(0x0FFF_F000, 0x2000)
      && !ClearOfRegions(regions, Region(0x0FFF_F000, 0x2000))
  {
    hide Wrap, AlignFloor;
    var regions := [Region(0x0F00_0000, 0x1000), Region(0x1000_0000, 0x1000)];
    var pos, range := 0x1000_0000 - 12 + 0x800_0000, 0x800_0000;
    WrapInside(pos - range);
    WrapInside(pos + range);
    assert AlignFloor(0x0F00_1000, 4) == 0x0F00_1000 by { FloorIs(0x0F00_1000, 4, 0x3C0_0400, 0); }
    assert AlignFloor(0x0FFF_FFF4, 0x1000) == 0x0FFF_F000 by { FloorIs(0x0FFF_FFF4, 0x1000, 0xFFFF, 0xFF4); }
    assert AlignFloor(0x1000_0000, 0x1000) == 0x1000_0000 by { FloorIs(0x1000_0000, 0x1000, 0x1_0000, 0); }
    assert FirstGap(regions, 0, pos, range, 12) == 0;
    assert !Apart(regions[1].start, regions[1].size, 0x0FFF_F000, 0x2000);
  }

  lemma FloorIs(x: int, page: int, q: int, r: int)
    requires page > 0 && x == q * page + r && 0 <= r < page
    ensures AlignFloor(x, page) == q * page
  {
    DivUnique(x, page, q, r);
  }

  /** The block lies within `range` of pos, and below the top of memory. */
  predicate InWindow(b: Block, size: int, pos: int, range: int) {
    b.size == size && Inside(b.addr, size, pos - range, pos + range) && 0 <= b.addr < TWO_64
  }

  /** A request for whole words around a word address. */
  predicate AlignedRequest(size: int, pos: int, range: int) {
    ByFour(size) && ByFour(pos) && ByFour(range)
  }

  lemma NearStartAligned(start: int, end: int, pos: int, range: int, size: int)
    requires ByFour(start) && AlignedRequest(size, pos, range)
    ensures ByFour(NearStart(start, end, Wrap(pos - range), Wrap(pos + range), size))
  {
    hide Wrap, ByFour;
    ByFourAdd(pos, range);
    WrapByFour(pos - range);
    assert ByFour(0) by { ZeroByFour(); }
  }

  lemma ZeroByFour()
    ensures ByFour(0)
  {}

  lemma FourByFour()
    ensures ByFour(4)
  {}

  lemma WrapByFour(x: int)
    requires ByFour(x)
    ensures ByFour(Wrap(x))
  {
    var q := x / TWO_64;
    DivUnique(Wrap(x), 4, x / 4 - q * 0x4000_0000_0000_0000, 0);
  }

  /** A block of `size` bytes at s lies in [start, end) and within `range` of pos. */
  predicate Fits(s: int, start: int, end: int, pos: int, range: int, size: int) {
    Inside(s, size, start, end) && Inside(s, size, pos - range, pos + range)
  }

  /** While the window does not wrap around and address 0 is out of it, the search finds a place
      exactly when there is one, and it is the lowest. */
  lemma NearStartComplete(start: int, end: int, pos: int, range: int, size: int)
    requires 0 <= start && 0 < size && 0 <= range <= pos && pos + range < TWO_64 && (0 < start || range < pos)
    ensures var found := NearStart(start, end, Wrap(pos - range), Wrap(pos + range), size);
      && (found != 0 <==> exists s :: Fits(s, start, end, pos, range, size))
      && (found != 0 ==> Fits(found, start, end, pos, range, size))
      && (found != 0 ==> forall s :: Fits(s, start, end, pos, range, size) ==> found <= s)
  {
    DivUnique(pos - range, TWO_64, 0, pos - range);
    DivUnique(pos + range, TWO_64, 0, pos + range);
    var found := NearStart(start, end, Wrap(pos - range), Wrap(pos + range), size);
    if found != 0 {
      assert Fits(found, start, end, pos, range, size);
    }
  }

  /** A non-zero answer is in the true window, although the window's ends were computed modulo 2^64. */
  lemma NearStartLaws(start: int, end: int, pos: int, range: int, size: int)
    requires 0 <= pos < TWO_64 && 0 <= range < TWO_64 && 0 <= size
    ensures var s := NearStart(start, end, Wrap(pos - range), Wrap(pos + range), size);
      && (s != 0 ==> start <= s && s + size <= end && Inside(s, size, pos - range, pos + range) && 0 <= s < TWO_64)
      && (s != 0 ==> s == if start > Wrap(pos - range) then start else Wrap(pos - range))
  {
  }

  lemma CeilCovers(x: int, page: int)
    requires page > 0
    ensures x <= AlignCeil(x, page) < x + page
    ensures Aligned(AlignCeil(x, page), page)
  {
    FloorLaws(x + page - 1, page);
  }

  lemma FloorLaws(x: int, page: int)
    requires page > 0
    ensures x - page < AlignFloor(x, page) <= x && Aligned(AlignFloor(x, page), page)
  {
    DivUnique(AlignFloor(x, page), page, x / page, 0);
  }

  /** Growing the arena list fails exactly for requests that round up past 32 bits. */
  lemma GrowthFailsExactly(size: int, page: int)
    requires page > 0 && Aligned(TWO_32, page) && 0 <= size < TWO_32
    ensures AlignCeil(size, page) % TWO_32 < size <==> size > TWO_32 - page
  {
    hide AlignCeil, Aligned;
    CeilCovers(size, page);
    var c := AlignCeil(size, page);
    if size > TWO_32 - page {
      CeilReaches(c, TWO_32, page);
      DivUnique(c, TWO_32, 1, 0);
    } else {
      CeilReaches(c, TWO_32, page);
      CeilAtMost(size, page, TWO_32 - page);
      DivUnique(c, TWO_32, 0, c);
    }
  }

  /** A request for all but one byte of 4 GiB: the new arena is mapped with size 0. */
  lemma GrowthCanFail()
    ensures Aligned(TWO_32, 0x1000) && AlignCeil(TWO_32 - 1, 0x1000) % TWO_32 == 0
  {
    hide AlignFloor;
    FloorIs(TWO_32 - 1 + 0xFFF, 0x1000, 0x10_0000, 0xFFE);
  }

  /** Distinct multiples are a page apart. */
  lemma CeilReaches(c: int, y: int, page: int)
    requires page > 0 && Aligned(c, page) && Aligned(y, page)
    ensures c < y ==> c + page <= y
    ensures y < c ==> y + page <= c
  {
    Gap(c / page, y / page, page);
    Gap(y / page, c / page, page);
  }

  lemma Gap(p: int, q: int, page: int)
    requires page > 0
    ensures p < q ==> p * page + page <= q * page
    ensures p >= q ==> p * page >= q * page
  {
    var d := q - p;
    Multiples(d, page);
    assert q * page == p * page + d * page by { Distribute(p, d, page); }
  }

  lemma Distribute(p: int, d: int, page: int)
    ensures (p + d) * page == p * page + d * page
  {}

  lemma Multiples(d: int, page: int)
    requires page > 0
    ensures d >= 1 ==> d * page >= page
    ensures d <= 0 ==> d * page <= 0
  {}

  lemma CeilAtMost(x: int, page: int, y: int)
    requires page > 0 && Aligned(y + page, page) && x <= y
    ensures AlignCeil(x, page) <= y
  {
    hide AlignCeil, Aligned;
    CeilCovers(x, page);
    CeilReaches(AlignCeil(x, page), y + page, page);
  }
}
