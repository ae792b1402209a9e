// The Mach-O export trie: builtin-plugin/SymbolResolver/macho/macho_ctx.cc, `read_uleb128` and
// `tail_walk`.
module ExportTrie {
  import opened BitFields

  type byte = x: int | 0 <= x < 256

  // ----- ULEB128 (section 7.6 of DWARF version 5) -----

  datatype Number = Number(value: nat, next: nat) | Truncated

  /** The unsigned number encoded from position p on, and the position after it. */
  function Uleb(b: seq<byte>, p: nat): (r: Number)
    ensures r.Number? ==> p < r.next <= |b|
    decreases |b| - p
  {
    if p >= |b| then Truncated
    else if b[p] < 128 then Number(b[p], p + 1)
    else match Uleb(b, p + 1)
         case Truncated => Truncated
         case Number(v, next) => Number(b[p] - 128 + 128 * v, next)
  }

  /** The same number in a 64-bit register. */
  function Uleb64(b: seq<byte>, p: nat): (r: Number)
    ensures r.Number? ==> p < r.next <= |b| && r.value < TWO_64
  {
    match Uleb(b, p)
    case Truncated => Truncated
    case Number(v, next) => Number(v % TWO_64, next)
  }

  /** The shortest encoding. */
  function UlebBytes(v: nat): seq<byte> {
    if v < 128 then [v] else [128 + v % 128] + UlebBytes(v / 128)
  }

  /** Decoding undoes encoding, wherever the encoding stands. */
  lemma {:induction false} UlebRoundTrip(pre: seq<byte>, v: nat, post: seq<byte>)
    ensures Uleb(pre + UlebBytes(v) + post, |pre|) == Number(v, |pre| + |UlebBytes(v)|)
    decreases v
  {
    var b := pre + UlebBytes(v) + post;
    assert b[|pre|] == UlebBytes(v)[0];
    if v >= 128 {
      var first: byte := 128 + v % 128;
      UlebRoundTrip(pre + [first], v / 128, post);
      assert b == (pre + [first]) + UlebBytes(v / 128) + post;
    }
  }

  lemma Pow2Seven(n: nat)
    ensures Pow2(n + 7) == 128 * Pow2(n)
  {
    assert Pow2(n + 7) == 2 * Pow2(n + 6) == 4 * Pow2(n + 5) == 8 * Pow2(n + 4);
    assert Pow2(n + 4) == 2 * Pow2(n + 3) == 4 * Pow2(n + 2) == 8 * Pow2(n + 1);
  }

  /** The weight of the next byte, as the loop of `read_uleb128` sees it, is the true weight modulo
      2^64: from the eleventh byte on both are zero. */
  ghost predicate WeightIs(bit: int, w: nat) {
    bit % 7 == 0 && 0 <= bit <= 70 && (if bit <= 63 then w == Pow2(bit) else w % TWO_64 == 0)
  }

  /** Reads to the first byte below 128; `|` into a zero field is written `+`.  Reading past the end
      of the bytes is reported, where the original has an assertion that compiles to nothing. */
  method ReadUleb128(b: seq<byte>, start: nat) returns (r: Number)
    ensures r == Uleb64(b, start)
  {
    hide Pow2, Uleb, Uleb64, ReadSoFar;
    var p, result, bit := start, 0, 0;
    ghost var w: nat, k: int := 1, 0;
    ReadNothing(b, start);
    while true
      invariant start <= p && ReadSoFar(b, start, p, bit, result, w, k)
      decreases |b| - p
    {
      if p >= |b| {
        ReadPastEnd(b, start, p, bit, result, w, k);
        return Truncated;
      }
      w, k := ReadStep(b, start, p, bit, result, w, k);
      var slice := b[p] % 128;
      if bit <= 63 {
        result := result + slice * Pow2(bit) % TWO_64;
        bit := bit + 7;
      }
      p := p + 1;
      if b[p - 1] < 128 {
        return Number(result, p);
      }
    }
  }

  /** Before the byte at p: what `read_uleb128` has in its register, the weight w of the next byte, and
      the multiple k of 2^64 that is lost. */
  ghost predicate ReadSoFar(b: seq<byte>, start: nat, p: nat, bit: int, result: int, w: nat, k: int) {
    && WeightIs(bit, w) && 0 <= result < TWO_64 && (bit <= 63 ==> result < w)
    && (Uleb(b, start).Number? <==> Uleb(b, p).Number?)
    && (Uleb(b, p).Number? ==> Uleb(b, start).next == Uleb(b, p).next)
    && (Uleb(b, p).Number? ==> Uleb(b, start).value == result + Uleb(b, p).value * w + k * TWO_64)
  }

  lemma ReadNothing(b: seq<byte>, start: nat)
    ensures ReadSoFar(b, start, start, 0, 0, 1, 0)
  {
    hide Uleb;
    Weights();
  }

  lemma ReadPastEnd(b: seq<byte>, start: nat, p: nat, bit: int, result: int, w: nat, k: int)
    requires ReadSoFar(b, start, p, bit, result, w, k) && p >= |b|
    ensures Uleb64(b, start) == Truncated
  {}

  /** The first byte of a number against the rest. */
  lemma UlebUnfolds(b: seq<byte>, p: nat)
    requires p < |b|
    ensures b[p] < 128 ==> Uleb(b, p) == Number(b[p], p + 1)
    ensures b[p] >= 128 ==> (Uleb(b, p).Number? <==> Uleb(b, p + 1).Number?)
    ensures b[p] >= 128 && Uleb(b, p).Number? ==>
              Uleb(b, p).next == Uleb(b, p + 1).next && Uleb(b, p).value == b[p] % 128 + 128 * Uleb(b, p + 1).value
  {}

  /** One turn of the loop. */
  lemma ReadStep(b: seq<byte>, start: nat, p: nat, bit: int, result: int, w: nat, k: int) returns (w': nat, k': int)
    requires ReadSoFar(b, start, p, bit, result, w, k) && p < |b|
    ensures var bit' := if bit <= 63 then bit + 7 else bit;
      var result' := if bit <= 63 then result + b[p] % 128 * Pow2(bit) % TWO_64 else result;
      if b[p] < 128 then Uleb64(b, start) == Number(result', p + 1)
      else ReadSoFar(b, start, p + 1, bit', result', w', k')
  {
    hide Pow2, Uleb;
    var slice := b[p] % 128;
    var more := b[p] >= 128 && Uleb(b, p + 1).Number?;
    var rest := if more then Uleb(b, p + 1).value else 0;
    UlebUnfolds(b, p);
    var low := if bit > 63 then 0 else slice * w % TWO_64;
    AddSlice(bit, w, slice, result, rest);
    w', k' := 128 * w, k + (slice * w - low) / TWO_64;
    if b[p] < 128 {
      assert Uleb(b, start).value == (result + low) + k' * TWO_64;
      ModUnique(Uleb(b, start).value, k', result + low);
    } else if more {
      assert Uleb(b, start).value == (result + low) + rest * w' + k' * TWO_64;
    }
  }

  lemma ModUnique(x: int, k: int, r: int)
    requires x == r + k * TWO_64 && 0 <= r < TWO_64
    ensures x % TWO_64 == r
  {}

  /** One more byte: what it adds to the register, and what is lost above bit 63. */
  lemma AddSlice(bit: int, w: nat, slice: int, result: nat, rest: nat)
    requires WeightIs(bit, w) && 0 <= slice < 128 && result < TWO_64 && (bit <= 63 ==> result < w)
    ensures var low := if bit > 63 then 0 else slice * w % TWO_64;
      var high := (slice * w - low) / TWO_64;
      && (slice + 128 * rest) * w == low + rest * (128 * w) + high * TWO_64
      && WeightIs(if bit <= 63 then bit + 7 else bit, 128 * w)
      && result + low < TWO_64 && (bit + 7 <= 63 ==> result + low < 128 * w)
  {
    hide Pow2;
    var low := if bit > 63 then 0 else slice * w % TWO_64;
    var high := (slice * w - low) / TWO_64;
    Distribute(slice, rest, w);
    if bit > 63 {
      var q := w / TWO_64;
      Scale(slice, q, w);
      Scale(128, q, w);
      assert slice * w == high * TWO_64;
    } else {
      Pow2Seven(bit);
      assert slice * w == low + high * TWO_64;
      if bit == 63 {
        Weight63(slice);
      } else {
        WeightBelow(bit, slice);
      }
    }
  }

  lemma Distribute(slice: int, rest: int, w: int)
    ensures (slice + 128 * rest) * w == slice * w + rest * (128 * w)
  {}

  lemma Scale(n: int, q: int, w: int)
    requires w == q * TWO_64
    ensures n * w == n * q * TWO_64 && n * w % TWO_64 == 0
  {
    ModUnique(n * w, n * q, 0);
  }

  lemma Weight63(slice: int)
    ensures Pow2(63) == 0x8000_0000_0000_0000 && slice * Pow2(63) % TWO_64 <= 0x8000_0000_0000_0000
    ensures 128 * Pow2(63) % TWO_64 == 0
  {
    Weights();
    ModUnique(slice * 0x8000_0000_0000_0000, slice / 2, slice % 2 * 0x8000_0000_0000_0000);
  }

  lemma WeightBelow(bit: int, slice: int)
    requires bit % 7 == 0 && 0 <= bit < 63 && 0 <= slice < 128
    ensures slice * Pow2(bit) % TWO_64 == slice * Pow2(bit) <= 127 * Pow2(bit) < TWO_64 - Pow2(bit)
  {
    hide Pow2;
    Weights();
    var w := Pow2(bit);
    assert w <= 0x100_0000_0000_0000;
    AtMost(slice, w);
    ModUnique(slice * w, 0, slice * w);
  }

  lemma AtMost(slice: int, w: nat)
    requires 0 <= slice <= 127
    ensures 0 <= slice * w <= 127 * w
  {}

  lemma Weights()
    ensures Pow2(0) == 1 && Pow2(7) == 0x80 && Pow2(14) == 0x4000 && Pow2(21) == 0x20_0000 && Pow2(28) == 0x1000_0000
    ensures Pow2(35) == 0x8_0000_0000 && Pow2(42) == 0x400_0000_0000 && Pow2(49) == 0x2_0000_0000_0000
    ensures Pow2(56) == 0x100_0000_0000_0000 && Pow2(63) == 0x8000_0000_0000_0000
  {
    Pow2Seven(0); Pow2Seven(7); Pow2Seven(14); Pow2Seven(21); Pow2Seven(28);
    Pow2Seven(35); Pow2Seven(42); Pow2Seven(49); Pow2Seven(56);
  }

  // ----- what `tail_walk` computes -----

  /** `Wild` stands for undefined behaviour: a read past the end, or a write past the 128 recorded
      node offsets. */
  datatype Outcome = Found(at: nat) | Missing | Wild

  /** What the scan over one node's edges decides. */
  datatype Choice = Descend(offset: nat, rest: seq<byte>) | NoEdge | Malformed | Overrun

  const MAX_NODES: int := 128

  /** The position of the first zero byte from p on, or the end. */
  function NulAt(b: seq<byte>, p: nat): (q: nat)
    requires p <= |b|
    ensures p <= q <= |b| && 0 !in b[p..q] && (q < |b| ==> b[q] == 0)
    decreases |b| - p
  {
    if p == |b| || b[p] == 0 then p
    else
      var q := NulAt(b, p + 1);
      assert b[p..q] == [b[p]] + b[p + 1..q];
      q
  }

  /** The first of the remaining edges whose text the symbol starts with. */
  function Choose(b: seq<byte>, p: nat, remaining: nat, symbol: seq<byte>): Choice
    requires p <= |b|
    decreases remaining
  {
    if remaining == 0 then NoEdge
    else
      var q := NulAt(b, p);
      if q == |b| then Overrun
      else
        match Uleb64(b, q + 1)
        case Truncated => Overrun
        case Number(offset, next) =>
          if b[p..q] <= symbol then
            if offset == 0 || offset > |b| then Malformed else Descend(offset, symbol[q - p..])
          else Choose(b, next, remaining - 1, symbol)
  }

  /** The walk from the node at `off`, with `visited` recorded so far. */
  function Walk(b: seq<byte>, off: nat, symbol: seq<byte>, visited: seq<int>): Outcome
    requires |visited| <= MAX_NODES
    decreases MAX_NODES - |visited|
  {
    if off >= |b| then Missing
    else
      match Uleb64(b, off)
      case Truncated => Wild
      case Number(size, p) =>
        if symbol == [] && size != 0 then Found(p)
        else if p + size > |b| then Missing
        else if p + size == |b| then Wild
        else
          match Choose(b, p + size + 1, b[p + size], symbol)
          case Overrun => Wild
          case Malformed => Missing
          case NoEdge => Missing
          case Descend(offset, rest) =>
            if offset in visited then Missing
            else if |visited| == MAX_NODES then Wild
            else Walk(b, offset, rest, visited + [offset % TWO_32])
  }

  // ----- the trie that the bytes encode -----

  /** A node: the position and bytes of its terminal payload (none when empty), and its edges. */
  datatype Trie = Trie(at: nat, payload: seq<byte>, edges: seq<Edge>)

  datatype Edge = Edge(text: seq<byte>, child: Trie)

  /** The node at `off` is the root of t. */
  ghost predicate Encodes(b: seq<byte>, off: nat, t: Trie)
    decreases t, |t.edges| + 1
  {
    match Uleb(b, off)
    case Truncated => false
    case Number(size, p) =>
      && t.at == p && size == |t.payload| && p + size < |b| && b[p..p + size] == t.payload
      && b[p + size] == |t.edges| && EncodesEdges(b, p + size + 1, t, 0)
  }

  /** The edges of t from number i on lie from p on: text, a zero byte, and the child's offset. */
  ghost predicate EncodesEdges(b: seq<byte>, p: nat, t: Trie, i: nat)
    requires i <= |t.edges|
    decreases t, |t.edges| - i
  {
    i == |t.edges| ||
      (var e := t.edges[i];
       var q := p + |e.text|;
       && q < |b| && b[p..q] == e.text && 0 !in e.text && b[q] == 0
       && match Uleb(b, q + 1)
          case Truncated => false
          case Number(offset, next) => Encodes(b, offset, e.child) && EncodesEdges(b, next, t, i + 1))
  }

  /** The export map: symbol is spelled by the edges from the root of t to a terminal node whose
      payload is at `at`. */
  ghost predicate Exports(t: Trie, symbol: seq<byte>, at: nat)
    decreases t
  {
    || (symbol == [] && t.payload != [] && t.at == at)
    || exists i :: 0 <= i < |t.edges| && ExportsVia(t, i, symbol, at)
  }

  ghost predicate ExportsVia(t: Trie, i: nat, symbol: seq<byte>, at: nat)
    requires i < |t.edges|
    decreases t, 0
  {
    t.edges[i].text <= symbol && Exports(t.edges[i].child, symbol[|t.edges[i].text|..], at)
  }

  /** Edges are not empty, and no edge of a node is a prefix of another one. */
  ghost predicate Tidy(t: Trie)
    decreases t
  {
    && (forall i :: 0 <= i < |t.edges| ==> t.edges[i].text != [] && Tidy(t.edges[i].child))
    && (forall i, j :: 0 <= i < |t.edges| && 0 <= j < |t.edges| && t.edges[i].text <= t.edges[j].text ==> i == j)
  }

  /** The number of nodes on a longest path. */
  function Height(t: Trie): (h: nat)
    decreases t, |t.edges| + 1
  {
    1 + HeightFrom(t, 0)
  }

  function HeightFrom(t: Trie, i: nat): (h: nat)
    requires i <= |t.edges|
    decreases t, |t.edges| - i
  {
    if i == |t.edges| then 0
    else
      var h, rest := Height(t.edges[i].child), HeightFrom(t, i + 1);
      if h > rest then h else rest
  }

  lemma {:induction false} HeightOfChild(t: Trie, i: nat, j: nat)
    requires i <= j < |t.edges|
    ensures Height(t.edges[j].child) <= HeightFrom(t, i)
    decreases j - i
  {
    if i < j {
      HeightOfChild(t, i + 1, j);
    }
  }

  // ----- one offset, one trie -----

  lemma {:induction false} EncodesOne(b: seq<byte>, off: nat, t: Trie, t': Trie)
    requires Encodes(b, off, t) && Encodes(b, off, t')
    ensures t == t'
    decreases t, |t.edges| + 1
  {
    var n := Uleb(b, off);
    EncodesOneEdges(b, n.next + n.value + 1, t, t', 0);
    assert t.edges == t'.edges;
  }

  lemma {:induction false} EncodesOneEdges(b: seq<byte>, p: nat, t: Trie, t': Trie, i: nat)
    requires i <= |t.edges| == |t'.edges| && EncodesEdges(b, p, t, i) && EncodesEdges(b, p, t', i)
    ensures forall j :: i <= j < |t.edges| ==> t.edges[j] == t'.edges[j]
    decreases t, |t.edges| - i
  {
    if i < |t.edges| {
      var e, e' := t.edges[i], t'.edges[i];
      TextEnds(b, p, |e.text|, |e'.text|);
      var n := Uleb(b, p + |e.text| + 1);
      EncodesOne(b, n.value, e.child, e'.child);
      EncodesOneEdges(b, n.next, t, t', i + 1);
    }
  }

  /** A text without zero bytes that ends in one has one length. */
  lemma TextEnds(b: seq<byte>, p: nat, m: nat, n: nat)
    requires p + m < |b| && p + n < |b| && b[p + m] == 0 && b[p + n] == 0 && 0 !in b[p..p + m] && 0 !in b[p..p + n]
    ensures m == n
  {
  }

  // ----- the walk is the first-match lookup of the trie -----

  /** The first edge from number i on that the symbol starts with, or their number. */
  function FirstEdge(t: Trie, i: nat, symbol: seq<byte>): (j: nat)
    requires i <= |t.edges|
    ensures i <= j <= |t.edges|
    ensures forall k :: i <= k < j ==> !(t.edges[k].text <= symbol)
    ensures j < |t.edges| ==> t.edges[j].text <= symbol
    decreases |t.edges| - i
  {
    if i == |t.edges| || t.edges[i].text <= symbol then i else FirstEdge(t, i + 1, symbol)
  }

  function Lookup(t: Trie, symbol: seq<byte>): Outcome
    decreases t
  {
    if symbol == [] && t.payload != [] then Found(t.at)
    else
      var j := FirstEdge(t, 0, symbol);
      if j == |t.edges| then Missing else Lookup(t.edges[j].child, symbol[|t.edges[j].text|..])
  }

  /** The number of nodes that the lookup goes through. */
  function Visits(t: Trie, symbol: seq<byte>): (n: nat)
    ensures n > 0
    decreases t
  {
    if symbol == [] && t.payload != [] then 1
    else
      var j := FirstEdge(t, 0, symbol);
      if j == |t.edges| then 1 else 1 + Visits(t.edges[j].child, symbol[|t.edges[j].text|..])
  }

  lemma {:induction false} VisitsAtMostHeight(t: Trie, symbol: seq<byte>)
    ensures Visits(t, symbol) <= Height(t)
    decreases t
  {
    var j := FirstEdge(t, 0, symbol);
    if j < |t.edges| {
      VisitsAtMostHeight(t.edges[j].child, symbol[|t.edges[j].text|..]);
      HeightOfChild(t, 0, j);
    }
  }

  lemma Uleb64Is(b: seq<byte>, p: nat)
    requires |b| <= TWO_32 && Uleb(b, p).Number? && Uleb(b, p).value <= |b|
    ensures Uleb64(b, p) == Uleb(b, p)
  {
    ModUnique(Uleb(b, p).value, 0, Uleb(b, p).value);
  }

  /** The scan over a node's edges picks the first matching edge and reads its child's offset. */
  lemma {:induction false} ChooseAgrees(b: seq<byte>, p: nat, t: Trie, i: nat, symbol: seq<byte>) returns (offset: nat)
    requires i <= |t.edges| && p <= |b| <= TWO_32 && EncodesEdges(b, p, t, i)
    ensures var j := FirstEdge(t, i, symbol);
      if j == |t.edges| then Choose(b, p, |t.edges| - i, symbol) == NoEdge
      else
        && Encodes(b, offset, t.edges[j].child)
        && Choose(b, p, |t.edges| - i, symbol) ==
             if offset == 0 then Malformed else Descend(offset, symbol[|t.edges[j].text|..])
    decreases |t.edges| - i
  {
    hide Encodes, Uleb, NulAt, Uleb64;
    offset := 0;
    if i < |t.edges| {
      var e, q := t.edges[i], NulAt(b, p);
      NulIs(b, p, |e.text|);
      var n := Uleb(b, q + 1);
      OffsetInside(b, n.value, e.child);
      Uleb64Is(b, q + 1);
      if e.text <= symbol {
        offset := n.value;
      } else {
        offset := ChooseAgrees(b, n.next, t, i + 1, symbol);
      }
    }
  }

  lemma NulIs(b: seq<byte>, p: nat, n: nat)
    requires p + n < |b| && b[p + n] == 0 && 0 !in b[p..p + n]
    ensures NulAt(b, p) == p + n
  {
  }

  lemma OffsetInside(b: seq<byte>, off: nat, t: Trie)
    requires Encodes(b, off, t)
    ensures off < |b| && Uleb(b, off).Number? && Uleb(b, off).value < |b|
  {}

  /** Every recorded offset is a node at least as high as t. */
  ghost predicate Above(b: seq<byte>, visited: seq<int>, t: Trie) {
    forall i :: 0 <= i < |visited| ==> IsAbove(b, visited[i], t)
  }

  ghost predicate IsAbove(b: seq<byte>, off: int, t: Trie) {
    0 <= off && exists a :: Encodes(b, off, a) && Height(a) >= Height(t)
  }

  /** A child of t is not at a recorded offset: a finite trie is never entered twice. */
  lemma NotRevisited(b: seq<byte>, visited: seq<int>, t: Trie, j: nat, offset: nat)
    requires Above(b, visited, t) && j < |t.edges| && Encodes(b, offset, t.edges[j].child)
    ensures offset !in visited && Above(b, visited + [offset], t.edges[j].child)
  {
    var c := t.edges[j].child;
    HeightOfChild(t, 0, j);
    assert Height(c) < Height(t);
    forall i | 0 <= i < |visited| ensures visited[i] != offset && IsAbove(b, visited[i], c) {
      assert IsAbove(b, visited[i], t);
      var a :| Encodes(b, visited[i], a) && Height(a) >= Height(t);
      if visited[i] == offset {
        EncodesOne(b, offset, a, c);
      }
    }
    assert IsAbove(b, offset, c);
  }

  /** For every trie the bytes encode, the walk is its lookup, as long as the lookup goes through at
      most 128 nodes; beyond that it writes past its array. */
  lemma {:induction false} WalkAgrees(b: seq<byte>, off: nat, t: Trie, symbol: seq<byte>, visited: seq<int>)
    requires Encodes(b, off, t) && |b| <= TWO_32 && 0 < |visited| <= MAX_NODES && visited[0] == 0
    requires Above(b, visited, t)
    ensures Walk(b, off, symbol, visited) ==
            if |visited| + Visits(t, symbol) <= MAX_NODES + 1 then Lookup(t, symbol) else Wild
    decreases t
  {
    hide Above, Encodes, EncodesEdges, Choose, Uleb, Uleb64;
    OffsetInside(b, off, t);
    Uleb64Is(b, off);
    HeaderOf(b, off, t);
    var p := t.at + |t.payload|;
    if !(symbol == [] && t.payload != []) {
      var offset := ChooseAgrees(b, p + 1, t, 0, symbol);
      var j := FirstEdge(t, 0, symbol);
      if j < |t.edges| {
        var c := t.edges[j].child;
        NotRevisited(b, visited, t, j, offset);
        assert offset != 0;
        OffsetInside(b, offset, c);
        assert offset % TWO_32 == offset;
        if |visited| < MAX_NODES {
          WalkAgrees(b, offset, c, symbol[|t.edges[j].text|..], visited + [offset]);
        }
      }
    }
  }

  /** The fields of the node at off. */
  ghost predicate Header(b: seq<byte>, off: nat, t: Trie) {
    var p := t.at + |t.payload|;
    && Uleb(b, off) == Number(|t.payload|, t.at) && p < |b| && b[p] == |t.edges|
    && EncodesEdges(b, p + 1, t, 0)
  }

  lemma HeaderOf(b: seq<byte>, off: nat, t: Trie)
    requires Encodes(b, off, t)
    ensures Header(b, off, t)
  {}

  // ----- the lookup is the export map -----

  /** In a tidy trie at most one edge fits, so the first match is the only one. */
  lemma {:induction false} LookupIsExport(t: Trie, symbol: seq<byte>, at: nat)
    requires Tidy(t)
    ensures Lookup(t, symbol) == Found(at) <==> Exports(t, symbol, at)
    decreases t
  {
    var j := FirstEdge(t, 0, symbol);
    forall i | 0 <= i < |t.edges| && ExportsVia(t, i, symbol, at) ensures i == j {
      PrefixesCompare(t.edges[i].text, t.edges[j].text, symbol);
    }
    if symbol == [] {
      assert forall i :: 0 <= i < |t.edges| ==> t.edges[i].text != [];
    }
    if j < |t.edges| {
      LookupIsExport(t.edges[j].child, symbol[|t.edges[j].text|..], at);
      assert ExportsVia(t, j, symbol, at) <==> Exports(t.edges[j].child, symbol[|t.edges[j].text|..], at);
    }
  }

  lemma PrefixesCompare(a: seq<byte>, b: seq<byte>, s: seq<byte>)
    requires a <= s && b <= s
    ensures a <= b || b <= a
  {}

  lemma LookupIsNotWild(t: Trie, symbol: seq<byte>)
    ensures Lookup(t, symbol) != Wild
    decreases t
  {}

  /** The export-trie theorem: in every encoded trie with tidy edges and at most 128 nodes on a
      path, `tail_walk` returns the payload position of a symbol exactly when the symbol is
      exported, and null exactly when it is not. */
  lemma TailWalkIsExportMap(b: seq<byte>, t: Trie, symbol: seq<byte>)
    requires Encodes(b, 0, t) && |b| <= TWO_32 && Tidy(t) && Height(t) <= MAX_NODES
    ensures forall at :: Walk(b, 0, symbol, [0]) == Found(at) <==> Exports(t, symbol, at)
    ensures Walk(b, 0, symbol, [0]) == Missing <==> !exists at :: Exports(t, symbol, at)
  {
    hide Walk, Encodes, Tidy, Exports, Lookup, Height;
    assert Above(b, [0], t) by {
      assert IsAbove(b, 0, t);
    }
    WalkAgrees(b, 0, t, symbol, [0]);
    VisitsAtMostHeight(t, symbol);
    LookupIsNotWild(t, symbol);
    forall at ensures Lookup(t, symbol) == Found(at) <==> Exports(t, symbol, at) {
      LookupIsExport(t, symbol, at);
    }
    if Lookup(t, symbol).Found? {
      assert Exports(t, symbol, Lookup(t, symbol).at);
    }
  }

  // ----- concrete tries -----

  lemma UlebOne(b: seq<byte>, p: nat)
    requires p < |b| && b[p] < 128
    ensures Uleb(b, p) == Number(b[p], p + 1)
  {}

  lemma UlebTwo(b: seq<byte>, p: nat)
    requires p + 1 < |b| && b[p] >= 128 && b[p + 1] < 128
    ensures var lo: int, hi: int := b[p], b[p + 1]; Uleb(b, p) == Number(lo - 128 + 128 * hi, p + 2)
  {
    UlebOne(b, p + 1);
  }

  /** A node whose terminal size is one byte. */
  lemma NodeIs(b: seq<byte>, off: nat, t: Trie)
    requires off < |b| && b[off] < 128 && b[off] == |t.payload| && t.at == off + 1 && off + 1 + b[off] < |b|
    requires b[off + 1..off + 1 + b[off]] == t.payload && b[off + 1 + b[off]] == |t.edges|
    requires EncodesEdges(b, off + 2 + b[off], t, 0)
    ensures Encodes(b, off, t)
  {
    hide Uleb, EncodesEdges;
    UlebOne(b, off);
  }

  lemma EdgeIs(b: seq<byte>, p: nat, t: Trie, i: nat, offset: nat, next: nat)
    requires i < |t.edges| && 0 !in t.edges[i].text
    requires var q := p + |t.edges[i].text|;
      q < |b| && b[p..q] == t.edges[i].text && b[q] == 0 && Uleb(b, q + 1) == Number(offset, next)
    requires Encodes(b, offset, t.edges[i].child) && EncodesEdges(b, next, t, i + 1)
    ensures EncodesEdges(b, p, t, i)
  {
    hide Uleb, Encodes;
  }

  lemma NoMoreEdges(b: seq<byte>, p: nat, t: Trie)
    ensures EncodesEdges(b, p, t, |t.edges|)
  {}

  lemma SliceOne(b: seq<byte>, p: nat)
    requires p < |b|
    ensures b[p..p + 1] == [b[p]]
  {}

  lemma SliceTwo(b: seq<byte>, p: nat)
    requires p + 1 < |b|
    ensures b[p..p + 2] == [b[p], b[p + 1]]
  {}

  const UNTIDY_BYTES: seq<byte> := [0, 2, 97, 0, 9, 97, 98, 0, 12, 1, 7, 0, 1, 8, 0]
  const UNTIDY: Trie := Trie(1, [], [Edge([97], Trie(10, [7], [])), Edge([97, 98], Trie(13, [8], []))])

  lemma UntidyEncodes()
    ensures Encodes(UNTIDY_BYTES, 0, UNTIDY)
  {
    hide Uleb, Encodes, EncodesEdges;
    var b, t := UNTIDY_BYTES, UNTIDY;
    var leaf1, leaf2 := t.edges[0].child, t.edges[1].child;
    SliceOne(b, 10);
    SliceOne(b, 13);
    SliceOne(b, 2);
    SliceTwo(b, 5);
    NoMoreEdges(b, 12, leaf1);
    NodeIs(b, 9, leaf1);
    NoMoreEdges(b, 15, leaf2);
    NodeIs(b, 12, leaf2);
    NoMoreEdges(b, 9, t);
    UlebOne(b, 8);
    EdgeIs(b, 5, t, 1, 12, 9);
    UlebOne(b, 4);
    EdgeIs(b, 2, t, 0, 9, 5);
    NodeIs(b, 0, t);
  }

  lemma UntidyLookup()
    ensures Exports(UNTIDY, [97, 98], 13) && Lookup(UNTIDY, [97, 98]) == Missing && Visits(UNTIDY, [97, 98]) == 2
  {
    var t, leaf1 := UNTIDY, Trie(10, [7], []);
    var symbol: seq<byte> := [97, 98];
    assert symbol[2..] == [] && symbol[1..] == [98];
    assert ExportsVia(t, 1, symbol, 13);
    assert FirstEdge(t, 0, symbol) == 0;
    assert Lookup(leaf1, [98]) == Missing && Visits(leaf1, [98]) == 1;
  }

  /** Without tidy edges the first match can hide an exported symbol: edges "a" and "ab" in one node. */
  lemma UntidyEdgesHideSymbols()
    ensures Encodes(UNTIDY_BYTES, 0, UNTIDY) && Exports(UNTIDY, [97, 98], 13)
    ensures Walk(UNTIDY_BYTES, 0, [97, 98], [0]) == Missing
  {
    hide Walk, Encodes, Exports, Lookup, Visits;
    UntidyEncodes();
    UntidyLookup();
    assert Above(UNTIDY_BYTES, [0], UNTIDY) by { assert IsAbove(UNTIDY_BYTES, 0, UNTIDY); }
    WalkAgrees(UNTIDY_BYTES, 0, UNTIDY, [97, 98], [0]);
  }

  /** One symbol "a", exported from an eight-byte trie. */
  lemma SmallTrie()
    ensures var b: seq<byte> := [0, 1, 97, 0, 5, 1, 7, 0];
      var t := Trie(1, [], [Edge([97], Trie(6, [7], []))]);
      Encodes(b, 0, t) && Tidy(t) && Height(t) <= MAX_NODES && Walk(b, 0, [97], [0]) == Found(6)
  {
    hide Uleb, Encodes, EncodesEdges, Walk;
    var b: seq<byte> := [0, 1, 97, 0, 5, 1, 7, 0];
    var leaf := Trie(6, [7], []);
    var t := Trie(1, [], [Edge([97], leaf)]);
    NoMoreEdges(b, 8, leaf);
    NodeIs(b, 5, leaf);
    NoMoreEdges(b, 5, t);
    UlebOne(b, 4);
    EdgeIs(b, 2, t, 0, 5, 5);
    NodeIs(b, 0, t);
    assert Height(leaf) == 1 && HeightFrom(t, 1) == 0;
    assert ExportsVia(t, 0, [97], 6) && [97][1..] == [];
    TailWalkIsExportMap(b, t, [97]);
  }

  /** Malformed tries give null: a node that is its own child, a child at offset 0, a child behind the
      end, and a terminal size that runs past the end. */
  lemma MalformedIsMissing()
    ensures Walk([0, 1, 97, 0, 5, 0, 1, 97, 0, 5], 0, [97, 97], [0]) == Missing
    ensures Walk([0, 1, 97, 0, 0], 0, [97], [0]) == Missing
    ensures Walk([0, 1, 97, 0, 9], 0, [97], [0]) == Missing
    ensures Walk([9, 0], 0, [97], [0]) == Missing
  {
    hide Walk;
    var loop: seq<byte> := [0, 1, 97, 0, 5, 0, 1, 97, 0, 5];
    WalkLoneEdge(loop, 0, 5, [97, 97], [0]);
    WalkLoneEdge(loop, 5, 5, [97], [0, 5]);
    assert [0] + [5] == [0, 5] && [97, 97][1..] == [97];
    WalkLoneEdge([0, 1, 97, 0, 0], 0, 0, [97], [0]);
    WalkLoneEdge([0, 1, 97, 0, 9], 0, 9, [97], [0]);
    WalkLongHeader([9, 0], [97], [0]);
  }

  /** Where the original reads past the end: a number, the number of edges, an edge's text, or a child's
      offset that the end cuts off. */
  lemma CutOffIsWild(symbol: seq<byte>)
    requires symbol != []
    ensures Walk([128], 0, symbol, [0]) == Wild && Walk([0], 0, symbol, [0]) == Wild
    ensures Walk([0, 1, 97], 0, symbol, [0]) == Wild && Walk([0, 1, 97, 0], 0, symbol, [0]) == Wild
  {
    hide Uleb, NulAt;
    UlebOne([0], 0);
    CutNumber([128]);
    UlebOne([0, 1, 97], 0);
    NoNul([0, 1, 97], 2);
    UlebOne([0, 1, 97, 0], 0);
    NulIs([0, 1, 97, 0], 2, 1);
    PastEnd([0, 1, 97, 0], 4);
  }

  lemma CutNumber(b: seq<byte>)
    requires |b| == 1 && b[0] >= 128
    ensures Uleb(b, 0) == Truncated
  {
    PastEnd(b, 1);
  }

  lemma PastEnd(b: seq<byte>, p: nat)
    requires p >= |b|
    ensures Uleb(b, p) == Truncated
  {}

  lemma NoNul(b: seq<byte>, p: nat)
    requires p <= |b| && forall i :: p <= i < |b| ==> b[i] != 0
    ensures NulAt(b, p) == |b|
  {}

  lemma WalkLongHeader(b: seq<byte>, symbol: seq<byte>, visited: seq<int>)
    requires |b| > 0 && b[0] < 128 && 1 + b[0] > |b| && symbol != [] && |visited| <= MAX_NODES
    ensures Walk(b, 0, symbol, visited) == Missing
  {
    hide Uleb;
    UlebOne(b, 0);
  }

  /** The walk at a node without payload and with one edge "a" to `child`. */
  lemma WalkLoneEdge(b: seq<byte>, off: nat, child: byte, symbol: seq<byte>, visited: seq<int>)
    requires off + 4 < |b| && b[off] == 0 && b[off + 1] == 1 && b[off + 2] == 97 && b[off + 3] == 0
    requires b[off + 4] == child < 128 && symbol != [] && symbol[0] == 97 && |visited| < MAX_NODES
    ensures Walk(b, off, symbol, visited) ==
            if child == 0 || child > |b| || child in visited then Missing
            else Walk(b, child, symbol[1..], visited + [child])
  {
    hide Uleb, NulAt;
    UlebOne(b, off);
    UlebOne(b, off + 4);
    SliceOne(b, off + 2);
    NulIs(b, off + 2, 1);
    assert symbol[..1] == [97];
    var c: int := child;
    assert c % TWO_32 == c;
    assert Choose(b, off + 2, 1, symbol) ==
           if child == 0 || child > |b| then Malformed else Descend(child, symbol[1..]);
  }

  // ----- a path of any length -----

  /** n nodes with one edge "a" each, six bytes apart, and a terminal node. */
  function ChainByte(n: nat, p: nat): byte
    requires n <= 2000
  {
    if p < 6 * n then
      var child := 6 * (p / 6 + 1);
      match p % 6
      case 0 => 0
      case 1 => 1
      case 2 => 97
      case 3 => 0
      case 4 => 128 + child % 128
      case _ => child / 128
    else if p == 6 * n then 1
    else if p == 6 * n + 1 then 7
    else 0
  }

  function ChainBytes(n: nat): seq<byte>
    requires n <= 2000
  {
    seq(6 * n + 3, p requires 0 <= p => ChainByte(n, p))
  }

  /** The trie from node k on. */
  function ChainTrie(n: nat, k: nat): Trie
    requires k <= n
    decreases n - k
  {
    if k == n then Trie(6 * n + 1, [7], []) else Trie(6 * k + 1, [], [Edge([97], ChainTrie(n, k + 1))])
  }

  /** "aaa..." */
  function ChainSymbol(m: nat): seq<byte> {
    seq(m, _ => 97)
  }

  lemma ChainAt(n: nat, k: nat)
    requires k < n <= 2000
    ensures var b, child := ChainBytes(n), 6 * (k + 1);
      && |b| == 6 * n + 3 && b[6 * k] == 0 && b[6 * k + 1] == 1 && b[6 * k + 2] == 97 && b[6 * k + 3] == 0
      && b[6 * k + 4] == 128 + child % 128 && b[6 * k + 5] == child / 128
  {
    DivUnique(6 * k, 6, k, 0);
    DivUnique(6 * k + 1, 6, k, 1);
    DivUnique(6 * k + 2, 6, k, 2);
    DivUnique(6 * k + 3, 6, k, 3);
    DivUnique(6 * k + 4, 6, k, 4);
    DivUnique(6 * k + 5, 6, k, 5);
  }

  lemma {:induction false} ChainEncodes(n: nat, k: nat)
    requires k <= n <= 2000
    ensures Encodes(ChainBytes(n), 6 * k, ChainTrie(n, k))
    decreases n - k
  {
    hide ChainByte, Uleb, Encodes, EncodesEdges;
    var b, t := ChainBytes(n), ChainTrie(n, k);
    if k == n {
      ChainEnd(n);
      NoMoreEdges(b, 6 * n + 3, t);
      NodeIs(b, 6 * n, t);
    } else {
      ChainAt(n, k);
      ChainEncodes(n, k + 1);
      UlebTwo(b, 6 * k + 4);
      NoMoreEdges(b, 6 * k + 6, t);
      EdgeIs(b, 6 * k + 2, t, 0, 6 * (k + 1), 6 * k + 6);
      NodeIs(b, 6 * k, t);
    }
  }

  lemma ChainEnd(n: nat)
    requires n <= 2000
    ensures var b := ChainBytes(n); |b| == 6 * n + 3 && b[6 * n] == 1 && b[6 * n + 1] == 7 && b[6 * n + 2] == 0
  {}

  lemma {:induction false} ChainLookup(n: nat, k: nat)
    requires k <= n
    ensures var t, symbol := ChainTrie(n, k), ChainSymbol(n - k);
      && Tidy(t) && Lookup(t, symbol) == Found(6 * n + 1) && Visits(t, symbol) == n - k + 1
    decreases n - k
  {
    if k < n {
      var t, symbol := ChainTrie(n, k), ChainSymbol(n - k);
      ChainLookup(n, k + 1);
      assert symbol[0] == 97 && symbol[..1] == [97] && symbol[1..] == ChainSymbol(n - (k + 1));
      assert FirstEdge(t, 0, symbol) == 0;
    }
  }

  /** A tidy trie exporting one symbol of n letters on a path of n + 1 nodes: it is found up to 128
      nodes, and beyond that the walk writes past its array. */
  lemma LongPathOverruns(n: nat)
    requires n <= 2000
    ensures var b, t, symbol := ChainBytes(n), ChainTrie(n, 0), ChainSymbol(n);
      && Encodes(b, 0, t) && Tidy(t) && Exports(t, symbol, 6 * n + 1)
      && Walk(b, 0, symbol, [0]) == if n < 128 then Found(6 * n + 1) else Wild
  {
    hide Walk, Encodes, Tidy, Exports, Lookup, Visits, ChainByte, ChainTrie;
    var b, t, symbol := ChainBytes(n), ChainTrie(n, 0), ChainSymbol(n);
    ChainEncodes(n, 0);
    ChainLookup(n, 0);
    LookupIsExport(t, symbol, 6 * n + 1);
    assert Above(b, [0], t) by { assert IsAbove(b, 0, t); }
    WalkAgrees(b, 0, t, symbol, [0]);
  }

  // ----- the code -----

  lemma PrefixSnoc(a: seq<byte>, x: byte, s: seq<byte>)
    ensures a + [x] <= s <==> a <= s && |a| < |s| && s[|a|] == x
  {
    if a <= s && |a| < |s| && s[|a|] == x {
      assert s[..|a| + 1] == a + [x];
    }
    if a + [x] <= s {
      assert (a + [x])[|a|] == s[|a|];
      assert a == s[..|a|];
    }
  }

  /** The text from `start` up to p is a prefix of the symbol. */
  predicate Matches(b: seq<byte>, start: nat, p: nat, symbol: seq<byte>)
    requires start <= p <= |b|
  {
    b[start..p] <= symbol
  }

  lemma ScanStep(b: seq<byte>, start: nat, p: nat, symbol: seq<byte>)
    requires start <= p < |b| && b[p] != 0
    ensures NulAt(b, p + 1) == NulAt(b, p)
    ensures Matches(b, start, p + 1, symbol) <==>
            Matches(b, start, p, symbol) && p - start < |symbol| && symbol[p - start] == b[p]
  {
    assert b[start..p + 1] == b[start..p] + [b[p]];
    PrefixSnoc(b[start..p], b[p], symbol);
  }

  lemma ScanEnds(b: seq<byte>, p: nat)
    requires p <= |b| && (p == |b| || b[p] == 0)
    ensures NulAt(b, p) == p
  {}

  lemma MatchesStart(b: seq<byte>, start: nat, symbol: seq<byte>)
    requires start <= |b|
    ensures Matches(b, start, start, symbol)
  {}

  /** The scan over one edge's text, comparing with the symbol until they differ. */
  method ScanText(b: seq<byte>, start: nat, symbol: seq<byte>) returns (p: nat, wrong: bool)
    requires start <= |b|
    ensures p == NulAt(b, start) && wrong == !Matches(b, start, p, symbol)
  {
    hide NulAt, Matches;
    p, wrong := start, false;
    MatchesStart(b, start, symbol);
    var ss := 0;
    while p < |b| && b[p] != 0
      invariant start <= p <= |b| && NulAt(b, p) == NulAt(b, start)
      invariant wrong == !Matches(b, start, p, symbol)
      invariant !wrong ==> ss == p - start <= |symbol|
    {
      ScanStep(b, start, p, symbol);
      if !wrong {
        if ss == |symbol| || b[p] != symbol[ss] {
          wrong := true;
        }
        ss := ss + 1;
      }
      p := p + 1;
    }
    ScanEnds(b, p);
  }

  /** Skip a number: past the first byte below 128. */
  method SkipUleb(b: seq<byte>, start: nat) returns (p: nat)
    requires start <= |b|
    ensures match Uleb(b, start) case Truncated => p == |b| + 1 case Number(_, next) => p == next
  {
    p := start;
    while p < |b| && b[p] >= 128
      invariant start <= p <= |b|
      invariant Uleb(b, p).Number? <==> Uleb(b, start).Number?
      invariant Uleb(b, p).Number? ==> Uleb(b, p).next == Uleb(b, start).next
    {
      p := p + 1;
    }
    p := p + 1;
  }

  /** The loop over a node's edges. */
  method ScanEdges(b: seq<byte>, start: nat, count: nat, symbol: seq<byte>) returns (c: Choice)
    requires start <= |b|
    ensures c == Choose(b, start, count, symbol)
  {
    hide NulAt, Uleb;
    var p: nat, remaining: nat := start, count;
    while remaining > 0
      invariant p <= |b| && Choose(b, p, remaining, symbol) == Choose(b, start, count, symbol)
    {
      var edge := p;
      var wrong;
      p, wrong := ScanText(b, p, symbol);
      if p == |b| {
        return Overrun;
      }
      p := p + 1;
      if wrong {
        p := SkipUleb(b, p);
        if p > |b| {
          return Overrun;
        }
      } else {
        var n := ReadUleb128(b, p);
        if n.Truncated? {
          return Overrun;
        }
        if n.value == 0 || n.value > |b| {
          return Malformed;
        }
        return Descend(n.value, symbol[p - 1 - edge..]);
      }
      remaining := remaining - 1;
    }
    return NoEdge;
  }

  /** `tail_walk` over the bytes of the trie; the symbol is the C string without its terminator. */
  method TailWalk(b: seq<byte>, symbol: seq<byte>) returns (r: Outcome)
    ensures r == Walk(b, 0, symbol, [0])
  {
    hide Choose, Uleb;
    var visited := new int[MAX_NODES](_ => 0);
    var count, p: nat, rest := 1, 0, symbol;
    assert visited[..1] == [0];
    while p < |b|
      invariant 1 <= count <= MAX_NODES == visited.Length
      invariant Walk(b, p, rest, visited[..count]) == Walk(b, 0, symbol, [0])
      decreases MAX_NODES - count, |b| - p
    {
      var header := ReadUleb128(b, p);
      if header.Truncated? {
        return Wild;
      }
      var size, children := header.value, header.next + header.value;
      if rest == [] && size != 0 {
        return Found(header.next);
      }
      if children > |b| {
        return Missing;
      }
      if children == |b| {
        return Wild;
      }
      var c := ScanEdges(b, children + 1, b[children], rest);
      match c {
        case Overrun => return Wild;
        case Malformed => return Missing;
        case NoEdge => p := |b|;
        case Descend(offset, rest') =>
          var i := 0;
          while i < count
            invariant 0 <= i <= count && offset !in visited[..i]
          {
            if visited[i] == offset {
              assert offset in visited[..count];
              return Missing;
            }
            i := i + 1;
          }
          if count == MAX_NODES {
            return Wild;
          }
          ghost var before := visited[..count];
          visited[count] := offset % TWO_32;
          assert visited[..count + 1] == before + [offset % TWO_32];
          count, p, rest := count + 1, offset, rest';
      }
    }
    return Missing;
  }
}
