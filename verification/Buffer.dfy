// The growable buffer behind tinystl's containers: external/TINYSTL/buffer.h.
//
// A buffer's three pointers become an array of cells, whose length is the capacity, and the number
// of cells in use.  A range of elements to insert lies either in the buffer itself or elsewhere.
module Buffer {

  /** The arguments `first` and `last` of `buffer_insert`. */
  datatype Range<T> = Own(first: nat, last: nat) | Outside(values: seq<T>)

  predicate RangeFits<T>(r: Range<T>, n: nat) {
    r.Own? ==> r.first <= r.last <= n
  }

  function Count<T>(r: Range<T>): int {
    match r case Own(first, last) => last - first case Outside(values) => |values|
  }

  /** The elements of the range before the call. */
  function Elements<T>(s: seq<T>, r: Range<T>): seq<T>
    requires RangeFits(r, |s|)
  {
    match r case Own(first, last) => s[first..last] case Outside(values) => values
  }

  /** The range lies on both sides of the insertion point. */
  predicate Straddles<T>(r: Range<T>, at: nat) {
    r.Own? && r.first < at < r.last
  }

  /** The i-th element that is read when the range straddles: once the copying reaches the gap it
      reads what it has just written there. */
  function Echo<T>(s: seq<T>, first: nat, at: nat, i: nat): T
    requires first < at <= |s|
    decreases i
  {
    if first + i < at then s[first + i] else Echo(s, first, at, i - (at - first))
  }

  /** What `buffer_insert` puts into the gap. */
  function Filling<T>(s: seq<T>, at: nat, r: Range<T>): seq<T>
    requires RangeFits(r, |s|) && at <= |s|
  {
    if Straddles(r, at) then seq(Count(r), i requires 0 <= i => Echo(s, r.first, at, i)) else Elements(s, r)
  }

  function Spliced<T>(s: seq<T>, at: nat, middle: seq<T>): seq<T>
    requires at <= |s|
  {
    s[..at] + middle + s[at..]
  }

  // ----- properties of the specification -----

  /** Elements of the buffer are inserted with their original values exactly when the range does not
      straddle the insertion point, or repeats itself with the distance from its start to that point. */
  lemma SelfInsertExactly<T>(s: seq<T>, at: nat, r: Range<T>)
    requires RangeFits(r, |s|) && at <= |s|
    ensures Filling(s, at, r) == Elements(s, r) <==>
            (Straddles(r, at) ==> forall j :: at <= j < r.last ==> s[j] == s[j - (at - r.first)])
  {
    if Straddles(r, at) {
      var period := at - r.first;
      if Filling(s, at, r) == Elements(s, r) {
        forall j | at <= j < r.last ensures s[j] == s[j - period] {
          EchoIs(s, r.first, at, j - r.first);
          assert Filling(s, at, r)[j - r.first] == Elements(s, r)[j - r.first];
          assert Filling(s, at, r)[j - r.first - period] == Elements(s, r)[j - r.first - period];
        }
      }
      if forall j :: at <= j < r.last ==> s[j] == s[j - period] {
        forall i | 0 <= i < Count(r) ensures Filling(s, at, r)[i] == Elements(s, r)[i] {
          EchoOfPeriodic(s, r.first, at, r.last, i);
        }
      }
    }
  }

  /** Inserting [x, y] out of [x, y, z] between its own elements inserts [x, x]. */
  lemma SelfInsertCanRepeat<T>(x: T, y: T, z: T)
    ensures Filling([x, y, z], 1, Own(0, 2)) == [x, x] && Elements([x, y, z], Own(0, 2)) == [x, y]
    ensures Spliced([x, y, z], 1, Filling([x, y, z], 1, Own(0, 2))) == [x, x, x, y, z]
  {
    EchoIs([x, y, z], 0, 1, 1);
  }

  lemma EchoIs<T>(s: seq<T>, first: nat, at: nat, i: nat)
    requires first < at <= |s| && at <= first + i
    ensures Echo(s, first, at, i) == Echo(s, first, at, i - (at - first))
  {}

  lemma {:induction false} EchoOfPeriodic<T>(s: seq<T>, first: nat, at: nat, last: nat, i: nat)
    requires first < at <= last <= |s| && first + i < last
    requires forall j :: at <= j < last ==> s[j] == s[j - (at - first)]
    ensures Echo(s, first, at, i) == s[first + i]
    decreases i
  {
    if first + i >= at {
      EchoOfPeriodic(s, first, at, last, i - (at - first));
    }
  }

  function Without<T>(s: seq<T>, first: nat, last: nat): seq<T>
    requires first <= last <= |s|
  {
    s[..first] + s[last..]
  }

  /** Erasing what was inserted gives the old contents back, and inserting what was erased too. */
  lemma EraseUndoesInsert<T>(s: seq<T>, at: nat, middle: seq<T>)
    requires at <= |s|
    ensures Without(Spliced(s, at, middle), at, at + |middle|) == s
    ensures forall last :: at <= last <= |s| ==> Spliced(Without(s, at, last), at, s[at..last]) == s
  {
    forall last | at <= last <= |s| ensures Spliced(Without(s, at, last), at, s[at..last]) == s {
      var w := Without(s, at, last);
      assert w[..at] == s[..at] && w[at..] == s[last..];
      assert s == s[..at] + s[at..last] + s[last..];
    }
  }

  // ----- the copying loop of `buffer_insert` -----

  /** Of m, the first i elements are in the gap at `at`; the elements of s lie on either side of it. */
  ghost predicate FilledUpTo<T>(c: seq<T>, s: seq<T>, at: nat, m: seq<T>, i: nat) {
    && at <= |s| && i <= |m| && |c| >= |s| + |m|
    && c[..at] == s[..at] && c[at..at + i] == m[..i] && c[at + |m|..|s| + |m|] == s[at..]
  }

  lemma FillOne<T>(c: seq<T>, s: seq<T>, at: nat, m: seq<T>, i: nat)
    requires FilledUpTo(c, s, at, m, i) && i < |m|
    ensures FilledUpTo(c[at + i := m[i]], s, at, m, i + 1)
  {
    var c' := c[at + i := m[i]];
    assert c'[..at] == c[..at];
    assert c'[at..at + (i + 1)] == c[at..at + i] + [m[i]];
    assert c'[at + |m|..|s| + |m|] == c[at + |m|..|s| + |m|];
  }

  lemma Filled<T>(c: seq<T>, s: seq<T>, at: nat, m: seq<T>)
    requires FilledUpTo(c, s, at, m, |m|)
    ensures c[..|s| + |m|] == Spliced(s, at, m)
  {
    assert c[..|s| + |m|] == c[..at] + c[at..at + |m|] + c[at + |m|..|s| + |m|];
  }

  /** What the three parts of the cells hold, by index. */
  lemma FilledAt<T>(c: seq<T>, s: seq<T>, at: nat, m: seq<T>, i: nat, j: nat)
    requires FilledUpTo(c, s, at, m, i) && j < |c|
    ensures j < at ==> c[j] == s[j]
    ensures at <= j < at + i ==> c[j] == m[j - at]
    ensures at + |m| <= j < |s| + |m| ==> c[j] == s[j - |m|]
  {
    assert j < at ==> c[j] == c[..at][j];
    assert at <= j < at + i ==> c[j] == c[at..at + i][j - at];
    assert at + |m| <= j < |s| + |m| ==> c[j] == c[at + |m|..|s| + |m|][j - at - |m|];
  }

  /** The cell that `buffer_insert` reads first when the range is its own. */
  function ReadOffset<T>(at: nat, r: Range<T>): nat
    requires r.Own? && r.first <= r.last
  {
    if at <= r.first then r.first + Count(r) else r.first
  }

  lemma ReadIsFilling<T>(c: seq<T>, s: seq<T>, at: nat, r: Range<T>, i: nat)
    requires r.Own? && RangeFits(r, |s|) && at <= |s| && i < Count(r) && FilledUpTo(c, s, at, Filling(s, at, r), i)
    ensures ReadOffset(at, r) + i < |c| && c[ReadOffset(at, r) + i] == Filling(s, at, r)[i]
  {
    hide FilledUpTo;
    var m := Filling(s, at, r);
    assert |c| >= |s| + |m| by { FilledSize(c, s, at, m, i); }
    FilledAt(c, s, at, m, i, ReadOffset(at, r) + i);
    if Straddles(r, at) && at <= r.first + i {
      EchoIs(s, r.first, at, i);
    }
  }

  lemma NothingFilled<T>(c: seq<T>, s: seq<T>, at: nat, m: seq<T>)
    requires at <= |s| && |c| >= |s| + |m| && c[..at] == s[..at] && c[at + |m|..|s| + |m|] == s[at..]
    ensures FilledUpTo(c, s, at, m, 0)
  {}

  lemma FillingSize<T>(s: seq<T>, at: nat, r: Range<T>)
    requires RangeFits(r, |s|) && at <= |s|
    ensures |Filling(s, at, r)| == Count(r) && (r.Outside? ==> Filling(s, at, r) == r.values)
  {}

  lemma FilledSize<T>(c: seq<T>, s: seq<T>, at: nat, m: seq<T>, i: nat)
    requires FilledUpTo(c, s, at, m, i)
    ensures |c| >= |s| + |m|
  {}

  // ----- the moving loops -----

  /** In c, the elements of s from `it` up to `last` have been moved from `first` to `dest`. */
  ghost predicate MovedFrom<T>(c: seq<T>, s: seq<T>, dest: nat, first: nat, last: nat, it: nat) {
    && first <= it <= last && first <= dest && dest + (last - first) <= |s| == |c|
    && (forall j :: 0 <= j < it + (dest - first) ==> c[j] == s[j])
    && (forall j :: it + (dest - first) <= j < dest + (last - first) ==> c[j] == s[j - (dest - first)])
  }

  lemma MovedNone<T>(s: seq<T>, dest: nat, first: nat, last: nat)
    requires first <= last && first <= dest && dest + (last - first) <= |s|
    ensures MovedFrom(s, s, dest, first, last, last)
  {}

  lemma MoveStep<T>(c: seq<T>, s: seq<T>, dest: nat, first: nat, last: nat, it: nat)
    requires MovedFrom(c, s, dest, first, last, it) && first < it
    ensures MovedFrom(c[it - 1 + (dest - first) := c[it - 1]], s, dest, first, last, it - 1)
  {}

  lemma MovedAll<T>(c: seq<T>, s: seq<T>, dest: nat, first: nat, last: nat)
    requires MovedFrom(c, s, dest, first, last, first)
    ensures c[dest..dest + (last - first)] == s[first..last] && forall j :: 0 <= j < dest ==> c[j] == s[j]
  {}

  /** In c, the elements of s from `last` up to `it` have been moved down to `first`. */
  ghost predicate ErasedUpTo<T>(c: seq<T>, s: seq<T>, first: nat, last: nat, it: nat) {
    && first <= last <= it <= |s| == |c|
    && (forall j :: 0 <= j < first ==> c[j] == s[j])
    && (forall j :: first <= j < it - (last - first) ==> c[j] == s[j + (last - first)])
    && (forall j :: it <= j < |s| ==> c[j] == s[j])
  }

  lemma ErasedNone<T>(s: seq<T>, first: nat, last: nat)
    requires first <= last <= |s|
    ensures ErasedUpTo(s, s, first, last, last)
  {}

  lemma EraseStep<T>(c: seq<T>, s: seq<T>, first: nat, last: nat, it: nat)
    requires ErasedUpTo(c, s, first, last, it) && it < |s|
    ensures ErasedUpTo(c[it - (last - first) := c[it]], s, first, last, it + 1)
  {}

  lemma ErasedAll<T>(c: seq<T>, s: seq<T>, first: nat, last: nat, n: nat)
    requires ErasedUpTo(c, s, first, last, n)
    ensures c[..n - (last - first)] == Without(s[..n], first, last)
  {
    var e := Without(s[..n], first, last);
    assert forall j :: 0 <= j < |e| ==> e[j] == s[if j < first then j else j + (last - first)];
  }

  // ----- the buffer -----

  class Buffer<T(0)> {
    var cells: array<T>
    var size: nat

    ghost predicate Valid()
      reads this
    {
      size <= cells.Length
    }

    ghost function Contents(): seq<T>
      requires Valid()
      reads this, cells
    {
      cells[..size]
    }

    constructor ()
      ensures Valid() && fresh(cells) && Contents() == []
    {
      cells, size := new T[0], 0;
    }

    /** `buffer_reserve`, with `buffer_move_urange` as its loop. */
    method Reserve(capacity: nat)
      requires Valid()
      modifies this`cells
      ensures Valid() && Contents() == old(Contents()) && cells.Length >= capacity
      ensures if capacity <= old(cells.Length) then cells == old(cells) else fresh(cells) && cells.Length == capacity
    {
      if capacity <= cells.Length {
        return;
      }
      var moved := new T[capacity];
      var i := 0;
      while i < size
        invariant 0 <= i <= size && moved[..i] == cells[..i]
        modifies moved
      {
        moved[i] := cells[i];
        i := i + 1;
      }
      cells := moved;
    }

    /** `buffer_bmove_urange(dest, first, last)`: upward, from the last cell to the first. */
    method MoveBackward(dest: nat, first: nat, last: nat)
      requires first <= last && first <= dest && dest + (last - first) <= cells.Length
      modifies cells
      ensures cells[dest..dest + (last - first)] == old(cells[first..last])
      ensures forall j :: 0 <= j < dest ==> cells[j] == old(cells[j])
    {
      hide MovedFrom;
      ghost var s := cells[..];
      var it, to := last, dest + (last - first);
      MovedNone(s, dest, first, last);
      while it != first
        invariant first <= it <= last && to - it == dest - first && cells.Length == |s|
        invariant MovedFrom(cells[..], s, dest, first, last, it)
        decreases it
      {
        MoveStep(cells[..], s, dest, first, last, it);
        ghost var c := cells[..];
        cells[to - 1] := cells[it - 1];
        assert cells[..] == c[to - 1 := c[it - 1]];
        it, to := it - 1, to - 1;
      }
      MovedAll(cells[..], s, dest, first, last);
    }

    /** `buffer_insert_common`: room for `count` elements at `at`; what is in the gap is not said. */
    method InsertCommon(at: nat, count: nat)
      requires Valid() && at <= size
      modifies this, cells
      ensures Valid() && size == old(size) + count && (cells == old(cells) || fresh(cells))
      ensures cells[..at] == old(Contents()[..at]) && cells[at + count..size] == old(Contents()[at..])
      ensures cells.Length == if size <= old(cells.Length) then old(cells.Length) else size * 3 / 2
    {
      var newsize := size + count;
      if newsize > cells.Length {
        Reserve(newsize * 3 / 2);
      }
      assert cells[..size] == old(Contents());
      assert cells[at..size] == old(Contents()[at..]);
      if at != size {
        MoveBackward(at + count, at, size);
      }
      size := newsize;
    }

    /** `buffer_insert`, from the buffer itself or from elsewhere. */
    method Insert(at: nat, r: Range<T>)
      requires Valid() && at <= size && RangeFits(r, size)
      modifies this, cells
      ensures Valid() && (cells == old(cells) || fresh(cells))
      ensures Contents() == Spliced(old(Contents()), at, Filling(old(Contents()), at, r))
      ensures cells.Length == if size <= old(cells.Length) then old(cells.Length) else size * 3 / 2
    {
      hide Filling, FilledUpTo, Spliced;
      ghost var s, m := Contents(), Filling(Contents(), at, r);
      FillingSize(s, at, r);
      var count := Count(r);
      var offset := 0;
      if r.Own? {
        offset := r.first;
        if at <= r.first {
          offset := offset + count;
        }
      }
      InsertCommon(at, count);
      NothingFilled(cells[..], s, at, m);
      CopyRange(at, r, offset, s);
      Filled(cells[..], s, at, m);
      assert cells[..][..size] == cells[..size];
    }

    /** The loop of `buffer_insert`, reading the range and constructing into the gap. */
    method CopyRange(at: nat, r: Range<T>, offset: nat, ghost s: seq<T>)
      requires RangeFits(r, |s|) && at <= |s| && FilledUpTo(cells[..], s, at, Filling(s, at, r), 0)
      requires r.Own? ==> offset == ReadOffset(at, r)
      modifies cells
      ensures FilledUpTo(cells[..], s, at, Filling(s, at, r), Count(r))
    {
      hide Filling, FilledUpTo;
      ghost var m := Filling(s, at, r);
      FillingSize(s, at, r);
      var i := 0;
      while i < Count(r)
        invariant 0 <= i <= Count(r)
        invariant FilledUpTo(cells[..], s, at, m, i)
      {
        FilledSize(cells[..], s, at, m, i);
        FillOne(cells[..], s, at, m, i);
        if r.Own? {
          ReadIsFilling(cells[..], s, at, r, i);
        }
        ghost var before := cells[..];
        cells[at + i] := if r.Own? then cells[offset + i] else r.values[i];
        assert cells[..] == before[at + i := m[i]];
        i := i + 1;
      }
    }

    /** `buffer_append`: the element is one of the buffer's own, or lies elsewhere. */
    method Append(own: bool, index: nat, value: T)
      requires Valid() && (own ==> index < size)
      modifies this, cells
      ensures Valid() && (cells == old(cells) || fresh(cells))
      ensures Contents() == old(Contents()) + [if own then old(Contents())[index] else value]
      ensures cells.Length == if size <= old(cells.Length) then old(cells.Length) else size * 3 / 2
    {
      if cells.Length != size {
        cells[size] := if own then cells[index] else value;
        size := size + 1;
      } else {
        Insert(size, if own then Own(index, index + 1) else Outside([value]));
      }
    }

    /** `buffer_erase`. */
    method Erase(first: nat, last: nat)
      requires Valid() && first <= last <= size
      modifies this`size, cells
      ensures Valid() && Contents() == Without(old(Contents()), first, last)
    {
      hide ErasedUpTo;
      ghost var s, n := cells[..], size;
      var it, dest := last, first;
      ErasedNone(s, first, last);
      while it != size
        invariant last <= it <= size == n && it - dest == last - first && cells.Length == |s|
        invariant ErasedUpTo(cells[..], s, first, last, it)
        decreases size - it
        modifies cells
      {
        EraseStep(cells[..], s, first, last, it);
        ghost var c := cells[..];
        cells[dest] := cells[it];
        assert cells[..] == c[dest := c[it]];
        it, dest := it + 1, dest + 1;
      }
      size := size - (last - first);
      ErasedAll(cells[..], s, first, last, n);
      assert cells[..][..size] == cells[..size] && s[..n] == old(Contents());
    }
  }
}
