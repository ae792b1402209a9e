// tinystl::unordered_map: external/TINYSTL/hash_base.h and external/TINYSTL/unordered_map.h.
//
// All nodes sit on one doubly linked list ordered by bucket; slot b of an array of N + 1 pointers
// is the first node whose bucket is at least b.
module UnorderedMap {
  import opened BitFields

  // ----- bucket masks -----

  /** x & y */
  function And(x: nat, y: nat): nat {
    if x == 0 || y == 0 then 0 else (x % 2) * (y % 2) + 2 * And(x / 2, y / 2)
  }

  /** Masking with 2^e - 1 is the remainder modulo 2^e. */
  lemma {:induction false} AndMask(h: nat, e: nat)
    ensures And(h, Pow2(e) - 1) == h % Pow2(e)
    decreases e
  {
    hide And, Pow2;
    Pow2Step(e);
    if h == 0 {
      AndZero(Pow2(e) - 1);
      DivUnique(0, Pow2(e), 0, 0);
    } else if e == 0 {
      AndZero(h);
      DivUnique(h, 1, h, 0);
    } else {
      var m := Pow2(e - 1);
      AndMask(h / 2, e - 1);
      AndStep(h, m);
      DoubleRemainder(h, m);
    }
  }

  lemma Pow2Step(e: nat)
    ensures Pow2(e) == if e == 0 then 1 else 2 * Pow2(e - 1)
  {}

  lemma AndZero(x: nat)
    ensures And(0, x) == 0 && And(x, 0) == 0
  {}

  lemma AndStep(h: nat, m: nat)
    requires h > 0 && m > 0
    ensures And(h, 2 * m - 1) == h % 2 + 2 * And(h / 2, m - 1)
  {
    assert (2 * m - 1) / 2 == m - 1 && (2 * m - 1) % 2 == 1;
  }

  lemma DoubleRemainder(h: nat, m: nat)
    requires m > 0
    ensures h % (2 * m) == h % 2 + 2 * (h / 2 % m)
  {
    var g := h / 2;
    var q, r := g / m, g % m;
    calc {
      h;
      2 * g + h % 2;
      { assert g == q * m + r; }
      2 * (q * m) + (2 * r + h % 2);
      q * (2 * m) + (2 * r + h % 2);
    }
    DivUnique(h, 2 * m, q, 2 * r + h % 2);
  }

  class Node<K, V> {
    const first: K
    var second: V
    var next: Node?<K, V>
    var prev: Node?<K, V>

    constructor (key: K, value: V)
      ensures first == key && second == value && next == null && prev == null
    {
      first, second, next, prev := key, value, null, null;
    }
  }

  ghost function After<K, V>(s: seq<Node<K, V>>, i: int): Node?<K, V> {
    if 0 <= i + 1 < |s| then s[i + 1] else null
  }

  ghost function Before<K, V>(s: seq<Node<K, V>>, i: int): Node?<K, V> {
    if 0 < i <= |s| then s[i - 1] else null
  }

  ghost predicate Distinct<T>(s: seq<T>) {
    forall i, j :: 0 <= i < j < |s| ==> s[i] != s[j]
  }

  /** next and prev link the nodes of s in this order, both ways. */
  ghost predicate Linked<K, V>(s: seq<Node<K, V>>)
    reads s`next, s`prev
  {
    (forall i :: 0 <= i < |s| ==> s[i].next == After(s, i) && s[i].prev == Before(s, i))
  }

  /** start[b] is the number of nodes in buckets below b. */
  ghost predicate Starts<K, V>(s: seq<Node<K, V>>, start: seq<int>, bucket: K -> nat) {
    && |start| > 0
    && (forall b :: 0 <= b < |start| ==> 0 <= start[b] <= |s|)
    && (forall b, i :: 0 <= b < |start| && 0 <= i < |s| ==> (i < start[b] <==> bucket(s[i].first) < b))
    && (forall i :: 0 <= i < |s| ==> bucket(s[i].first) < |start| - 1)
  }

  /** Slot b points at node start[b]. */
  ghost predicate Slots<K, V>(s: seq<Node<K, V>>, start: seq<int>, buckets: seq<Node?<K, V>>) {
    && |buckets| == |start|
    && forall b :: 0 <= b < |start| ==>
         0 <= start[b] <= |s| && buckets[b] == (if start[b] < |s| then s[start[b]] else null)
  }

  ghost predicate DistinctKeys<K, V>(s: seq<Node<K, V>>) {
    forall i, j :: 0 <= i < j < |s| ==> s[i].first != s[j].first
  }

  function InsertAt<T>(s: seq<T>, j: nat, x: T): (r: seq<T>)
    requires j <= |s|
    ensures |r| == |s| + 1
    ensures forall k :: 0 <= k < |r| ==> r[k] == if k < j then s[k] else if k == j then x else s[k - 1]
  {
    s[..j] + [x] + s[j..]
  }

  function RemoveAt<T>(s: seq<T>, j: nat): (r: seq<T>)
    requires j < |s|
    ensures |r| == |s| - 1
    ensures forall k :: 0 <= k < |r| ==> r[k] == if k < j then s[k] else s[k + 1]
  {
    s[..j] + s[j + 1..]
  }

  /** Slot starts after a node of bucket b0 was inserted or removed. */
  function Shifted(start: seq<int>, b0: nat, delta: int): (r: seq<int>)
    ensures |r| == |start|
  {
    seq(|start|, b requires 0 <= b < |start| => if b > b0 then start[b] + delta else start[b])
  }

  // ----- laws of the ordered list -----

  lemma StartsInsert<K, V>(s: seq<Node<K, V>>, start: seq<int>, bucket: K -> nat, n: Node<K, V>)
    requires Starts(s, start, bucket)
    requires bucket(n.first) + 1 < |start|
    ensures var b0 := bucket(n.first); Starts(InsertAt(s, start[b0 + 1], n), Shifted(start, b0, 1), bucket)
  {
    var b0 := bucket(n.first);
    var j := start[b0 + 1];
    var s', start' := InsertAt(s, j, n), Shifted(start, b0, 1);
    forall b, i | 0 <= b < |start'| && 0 <= i < |s'|
      ensures i < start'[b] <==> bucket(s'[i].first) < b
    {
      StartMonotonic(s, start, bucket, b, b0 + 1);
      if i < j {
        assert s'[i] == s[i];
      } else if i > j {
        assert s'[i] == s[i - 1];
      }
    }
    forall i | 0 <= i < |s'|
      ensures bucket(s'[i].first) < |start'| - 1
    {
      assert s'[i] == if i < j then s[i] else if i == j then n else s[i - 1];
    }
  }

  lemma StartMonotonic<K, V>(s: seq<Node<K, V>>, start: seq<int>, bucket: K -> nat, b: nat, c: nat)
    requires Starts(s, start, bucket) && b < |start| && c < |start|
    ensures b <= c ==> start[b] <= start[c]
    ensures c <= b ==> start[c] <= start[b]
  {
    if start[c] < |s| {
      assert start[c] < start[b] <==> bucket(s[start[c]].first) < b;
      assert start[c] < start[c] <==> bucket(s[start[c]].first) < c;
    }
    if start[b] < |s| {
      assert start[b] < start[c] <==> bucket(s[start[b]].first) < c;
      assert start[b] < start[b] <==> bucket(s[start[b]].first) < b;
    }
  }

  lemma StartsRemove<K, V>(s: seq<Node<K, V>>, start: seq<int>, bucket: K -> nat, i0: nat)
    requires Starts(s, start, bucket) && i0 < |s|
    ensures var b0 := bucket(s[i0].first);
      (forall b :: b0 < b < |start| ==> start[b] > i0) && Starts(RemoveAt(s, i0), Shifted(start, b0, -1), bucket)
  {
    var b0 := bucket(s[i0].first);
    var s', start' := RemoveAt(s, i0), Shifted(start, b0, -1);
    forall b, i | 0 <= b < |start'| && 0 <= i < |s'|
      ensures i < start'[b] <==> bucket(s'[i].first) < b
    {
      assert s'[i] == s[if i < i0 then i else i + 1];
    }
    forall b | 0 <= b < |start'| ensures 0 <= start'[b] <= |s'| {
      assert i0 < start[b] <==> b0 < b;
    }
  }

  function BucketOf<K>(hash: K -> nat, n: nat): K -> nat {
    k => if n > 0 then And(hash(k), n - 1) else 0
  }

  /** In a table of 8^e buckets a key's bucket is its hash modulo their number. */
  lemma BucketIsRemainder<K>(hash: K -> nat, e: nat, key: K)
    ensures BucketOf(hash, Pow2(3 * e))(key) == hash(key) % Pow2(3 * e)
  {
    AndMask(hash(key), 3 * e);
  }

  /** Position j of s is behind every node of n's bucket and of those below, in front of all others. */
  ghost predicate BehindItsBucket<K, V>(s: seq<Node<K, V>>, bucket: K -> nat, j: nat, n: Node<K, V>) {
    forall i :: 0 <= i < |s| ==> (i < j <==> bucket(s[i].first) <= bucket(n.first))
  }

  lemma StartIsBehind<K, V>(s: seq<Node<K, V>>, start: seq<int>, bucket: K -> nat, n: Node<K, V>)
    requires Starts(s, start, bucket) && bucket(n.first) + 1 < |start|
    ensures BehindItsBucket(s, bucket, start[bucket(n.first) + 1], n)
  {}

  // ----- pointer surgery -----

  /** A node n stands between s[j - 1] and s[j] of an otherwise linked list: it is linked with n. */
  lemma LinkedInsert<K, V>(s: seq<Node<K, V>>, j: nat, n: Node<K, V>)
    requires j <= |s| && n !in s
    requires n.next == After(s, j - 1) && n.prev == Before(s, j)
    requires forall i :: 0 <= i < |s| ==>
      && s[i].next == (if i == j - 1 then n else After(s, i))
      && s[i].prev == (if i == j then n else Before(s, i))
    ensures Linked(InsertAt(s, j, n))
  {
    var s' := InsertAt(s, j, n);
    forall i | 0 <= i < |s'|
      ensures s'[i].next == After(s', i) && s'[i].prev == Before(s', i)
    {
      assert s'[i] == if i < j then s[i] else if i == j then n else s[i - 1];
    }
  }

  /** The links of s bridge s[j]: the list without s[j] is linked. */
  lemma LinkedRemove<K, V>(s: seq<Node<K, V>>, j: nat)
    requires j < |s|
    requires forall i :: 0 <= i < |s| && i != j ==>
      && s[i].next == (if i == j - 1 then After(s, j) else After(s, i))
      && s[i].prev == (if i == j + 1 then Before(s, j) else Before(s, i))
    ensures Linked(RemoveAt(s, j))
  {
    var s' := RemoveAt(s, j);
    forall i | 0 <= i < |s'|
      ensures s'[i].next == After(s', i) && s'[i].prev == Before(s', i)
    {
      assert s'[i] == s[if i < j then i else i + 1];
    }
  }

  class Map<K(==), V> {
    const hash: K -> nat
    var size: nat
    var buckets: seq<Node?<K, V>>
    ghost var list: seq<Node<K, V>>  // the nodes in list order
    ghost var start: seq<int>        // for each slot, the position it points at
    ghost var exponent: nat          // the number of buckets is 8^exponent

    /** The index structure: a power-of-8 table over one linked list ordered by bucket. */
    ghost predicate Index()
      reads this, list`next, list`prev
    {
      && exponent > 0 && |buckets| == Pow2(3 * exponent) + 1
      && Distinct(list) && Linked(list)
      && Starts(list, start, BucketOf(hash, |buckets| - 1))
      && Slots(list, start, buckets)
    }

    /** `unordered_hash_node_insert`: the node goes behind the others of its bucket. */
    method InsertNode(node: Node<K, V>) returns (ghost j: nat)
      requires Index() && node !in list
      modifies this`buckets, this`list, this`start, list`next, list`prev, node`next, node`prev
      ensures Index() && exponent == old(exponent) && |buckets| == |old(buckets)|
      ensures j <= |old(list)| && list == InsertAt(old(list), j, node)
      ensures BehindItsBucket(old(list), BucketOf(hash, |buckets| - 1), j, node)
    {
      hide And, Pow2, Starts, Linked, Distinct, Slots, BehindItsBucket;
      SlotBounds(list, start, buckets);
      BucketInRange(hash(node.first), exponent);
      StartIsBehind(list, start, BucketOf(hash, |buckets| - 1), node);
      j := InsertIntoIndex(node);
    }

    method InsertIntoIndex(node: Node<K, V>) returns (ghost j: nat)
      requires Index() && node !in list
      modifies this`buckets, this`list, this`start, list`next, list`prev, node`next, node`prev
      ensures Index() && exponent == old(exponent) && |buckets| == |old(buckets)|
      ensures j <= |old(list)| && list == InsertAt(old(list), j, node)
      ensures BucketOf(hash, |buckets| - 1)(node.first) + 1 < |old(start)|
      ensures j == old(start)[BucketOf(hash, |buckets| - 1)(node.first) + 1]
    {
      hide And, Pow2, Shifted, Starts, Linked, Distinct, Slots;
      SlotBounds(list, start, buckets);
      var n := |buckets| - 1;
      var bucket := And(hash(node.first), n - 1);
      BucketInRange(hash(node.first), exponent);
      StartsInsert(list, start, BucketOf(hash, n), node);
      StartZero(list, start, BucketOf(hash, n));
      var it := buckets[bucket + 1];
      j := start[bucket + 1];
      ghost var s, starts := InsertAt(list, j, node), Shifted(start, bucket, 1);
      DistinctInsert(list, j, node);
      LinkIn(node, it, bucket);
      Propagate(node, it, bucket);
      list, start := s, starts;
    }

    /** Propagate an inserted node downward through the slots that pointed at its successor. */
    method Propagate(node: Node<K, V>, it: Node?<K, V>, bucket: nat)
      requires |buckets| > 0 && Starts(list, start, BucketOf(hash, |buckets| - 1)) && Slots(list, start, buckets)
      requires Distinct(list)
      requires bucket == BucketOf(hash, |buckets| - 1)(node.first) && bucket + 1 < |buckets|
      requires it == buckets[bucket + 1]
      modifies this`buckets
      ensures Slots(InsertAt(list, start[bucket + 1], node), Shifted(start, bucket, 1), buckets)
      ensures |buckets| == |old(buckets)|
    {
      hide And, Pow2, Starts, Slots, Distinct, Shifted;
      SlotBounds(list, start, buckets);
      var b: int := bucket;
      while b >= 0 && it == buckets[b]
        invariant -1 <= b <= bucket && |buckets| == |start|
        invariant forall c :: 0 <= c < |start| ==>
          buckets[c] == (if b < c <= bucket then node else old(buckets)[c])
        invariant forall c :: b < c <= bucket ==> start[c] == start[bucket + 1]
      {
        SlotEqualsIt(list, start, old(buckets), b, bucket + 1);
        buckets := buckets[b := node];
        b := b - 1;
      }
      if b >= 0 {
        SlotEqualsIt(list, start, old(buckets), b, bucket + 1);
      }
      SlotsInserted(list, start, old(buckets), buckets, BucketOf(hash, |buckets| - 1), node, b);
    }

    /** The pointer part of `unordered_hash_node_insert`. */
    method LinkIn(node: Node<K, V>, it: Node?<K, V>, bucket: nat)
      requires Distinct(list) && Linked(list) && Slots(list, start, buckets) && node !in list
      requires bucket + 1 < |buckets| && it == buckets[bucket + 1] && start[0] == 0
      modifies list`next, list`prev, node`next, node`prev
      ensures Linked(InsertAt(list, start[bucket + 1], node))
    {
      hide Linked, Distinct;
      ghost var j := start[bucket + 1];
      assert it == (if j < |list| then list[j] else null);
      if it != null {
        LinkBefore(node, it, j);
      } else {
        var prev := Last(bucket);
        LinkLast(node, prev);
      }
    }

    /** Link a node in front of the node at position j. */
    method LinkBefore(node: Node<K, V>, it: Node<K, V>, ghost j: nat)
      requires Distinct(list) && Linked(list) && node !in list && j < |list| && it == list[j]
      modifies list`next, list`prev, node`next, node`prev
      ensures Linked(InsertAt(list, j, node))
    {
      assert it.prev == Before(list, j);
      node.next := it;
      node.prev := it.prev;
      it.prev := node;
      if node.prev != null {
        node.prev.next := node;
      }
      LinkedInsert(list, j, node);
    }

    /** Link a node behind the last one. */
    method LinkLast(node: Node<K, V>, prev: Node?<K, V>)
      requires Distinct(list) && Linked(list) && node !in list && prev == Before(list, |list|)
      modifies list`next, node`next, node`prev
      ensures Linked(InsertAt(list, |list|, node))
    {
      node.next := null;
      node.prev := prev;
      if prev != null {
        prev.next := node;
      }
      LinkedInsert(list, |list|, node);
    }

    /** Find the last node, starting from the nearest used slot at or below `bucket`. */
    method Last(bucket: nat) returns (prev: Node?<K, V>)
      requires Linked(list) && Slots(list, start, buckets) && bucket < |buckets| && start[0] == 0
      ensures prev == Before(list, |list|)
    {
      var newbucket := bucket;
      while newbucket != 0 && buckets[newbucket] == null
        invariant 0 <= newbucket <= bucket < |buckets|
      {
        newbucket := newbucket - 1;
      }
      prev := buckets[newbucket];
      ghost var p := start[newbucket];
      while prev != null && prev.next != null
        invariant prev != null ==> 0 <= p < |list| && list[p] == prev
        invariant prev == null ==> |list| == 0
        decreases |list| - p
      {
        prev := prev.next;
        p := p + 1;
      }
    }

    /** `unordered_hash_node_erase` of the node at position i. */
    method EraseNode(victim: Node<K, V>, ghost i: nat)
      requires Index() && i < |list| && list[i] == victim
      modifies this`buckets, this`list, this`start, list`next, list`prev
      ensures Index() && exponent == old(exponent) && list == RemoveAt(old(list), i) && |buckets| == |old(buckets)|
    {
      hide And, Pow2, Shifted, Starts, Linked;
      var bucket := And(hash(victim.first), |buckets| - 2);
      BucketInRange(hash(victim.first), exponent);
      StartsRemove(list, start, BucketOf(hash, |buckets| - 1), i);
      var next := victim.next;
      assert next == After(list, i) by { NextOf(list, i); }
      Retract(victim, next, bucket, i);
      Unlink(victim, i);
      list, start := RemoveAt(list, i), Shifted(start, bucket, -1);
    }

    /** Move the slots that pointed at the erased node to its successor. */
    method Retract(victim: Node<K, V>, next: Node?<K, V>, bucket: nat, ghost i: nat)
      requires |buckets| > 0 && Starts(list, start, BucketOf(hash, |buckets| - 1)) && Slots(list, start, buckets)
      requires Distinct(list) && i < |list| && list[i] == victim && next == After(list, i)
      requires bucket == BucketOf(hash, |buckets| - 1)(victim.first) && bucket < |buckets|
      modifies this`buckets
      ensures Slots(RemoveAt(list, i), Shifted(start, bucket, -1), buckets)
    {
      hide And, Pow2, Starts;
      var b: int := bucket;
      while b >= 0 && buckets[b] == victim
        invariant -1 <= b <= bucket && |buckets| == |start|
        invariant forall c :: 0 <= c < |start| ==>
          buckets[c] == (if b < c <= bucket then next else old(buckets)[c])
        invariant forall c :: b < c <= bucket ==> start[c] == i
      {
        SlotPointsAt(list, start, old(buckets), b, i);
        buckets := buckets[b := next];
        b := b - 1;
      }
      if b >= 0 {
        SlotPointsAt(list, start, old(buckets), b, i);
      }
      SlotsRemoved(list, start, old(buckets), buckets, BucketOf(hash, |buckets| - 1), i, b);
    }

    /** The pointer part of `unordered_hash_node_erase`. */
    method Unlink(victim: Node<K, V>, ghost i: nat)
      requires Distinct(list) && Linked(list) && i < |list| && list[i] == victim
      modifies list`next, list`prev
      ensures Linked(RemoveAt(list, i))
    {
      var next := victim.next;
      if victim.prev != null {
        victim.prev.next := victim.next;
      }
      if next != null {
        next.prev := victim.prev;
      }
      LinkedRemove(list, i);
    }

    /** `unordered_hash_find`: a node exactly when the key is present. */
    method FindNode(key: K) returns (it: Node?<K, V>, ghost i: nat)
      requires Index() && DistinctKeys(list)
      ensures it == null ==> forall k :: 0 <= k < |list| ==> list[k].first != key
      ensures it != null ==> i < |list| && it == list[i] && it.first == key
    {
      hide And, Pow2, Starts, Linked;
      var bucket := And(hash(key), |buckets| - 2);
      BucketInRange(hash(key), exponent);
      it := buckets[bucket];
      var end := buckets[bucket + 1];
      i := start[bucket];
      StartMonotonic(list, start, BucketOf(hash, |buckets| - 1), bucket, bucket + 1);
      while it != end
        invariant start[bucket] <= i <= start[bucket + 1] <= |list|
        invariant it == (if i < |list| then list[i] else null)
        invariant forall k :: start[bucket] <= k < i ==> list[k].first != key
        decreases |list| - i
      {
        if it.first == key {
          return;
        }
        NextOf(list, i);
        it := it.next;
        i := i + 1;
      }
      assert i == start[bucket + 1];
      it := null;
      AbsentOutside(list, start, BucketOf(hash, |buckets| - 1), key);
    }

    // ----- unordered_map.h -----

    ghost predicate Valid()
      reads this, list
    {
      Index() && DistinctKeys(list) && size == |list| && size + 1 <= 4 * |buckets|
    }

    /** The finite map that the table stands for. */
    ghost function Contents(): map<K, V>
      requires Valid()
      reads this, list
    {
      ContentsOf(list)
    }

    constructor (hash: K -> nat)
      ensures Valid() && Contents() == map[] && list == [] && this.hash == hash && |buckets| == 9
    {
      this.hash := hash;
      size, buckets := 0, seq(9, _ => null);
      list, start, exponent := [], seq(9, _ => 0), 1;
      new;
      assert Pow2(3) == 8;
    }

    method Find(key: K) returns (it: Node?<K, V>)
      requires Valid()
      ensures it != null <==> key in Contents()
      ensures it != null ==> it in list && it.first == key && it.second == Contents()[key]
    {
      ghost var i;
      it, i := FindNode(key);
    }

    /** `insert`: an existing entry is kept. */
    method Insert(key: K, value: V) returns (it: Node<K, V>, inserted: bool)
      requires Valid()
      modifies this, list`next, list`prev
      ensures Valid() && forall x :: x in list ==> x in old(list) || fresh(x)
      ensures inserted <==> key !in old(Contents())
      ensures Contents() == if inserted then old(Contents())[key := value] else old(Contents())
      ensures it in list && it.first == key
      ensures |buckets| == if inserted && size + 1 > 4 * old(|buckets|) then (old(|buckets|) - 1) * 8 + 1
                           else old(|buckets|)
    {
      hide Pow2, Linked, Starts, Slots, DistinctKeys;
      var found, i := FindNode(key);
      if found != null {
        return found, false;
      }
      it := new Node(key, value);
      inserted := true;
      Append(it);
    }

    /** The part of `insert` after the new node is made. */
    method Append(it: Node<K, V>)
      requires Valid() && it !in list && forall i :: 0 <= i < |list| ==> list[i].first != it.first
      modifies this, list`next, list`prev, it`next, it`prev
      ensures Valid() && Contents() == old(Contents())[it.first := it.second]
      ensures forall x :: x in list <==> x in old(list) || x == it
      ensures |buckets| == if size + 1 > 4 * old(|buckets|) then (old(|buckets|) - 1) * 8 + 1 else old(|buckets|)
    {
      hide Pow2, Linked, Starts, Slots, And, ContentsOf, DistinctKeys;
      var nbuckets := |buckets|;
      ghost var s := list;
      ghost var j := InsertNode(it);
      ContentsInsert(s, j, it);
      InInsertAt(s, j, it);
      size := size + 1;
      Rehash(nbuckets);
    }

    /** `rehash`: eight times the buckets, the same nodes. */
    method Rehash(nbuckets: nat)
      requires Index() && DistinctKeys(list) && size == |list| && nbuckets == |buckets| && size <= 4 * |buckets|
      modifies this`buckets, this`list, this`start, this`exponent, list`next, list`prev
      ensures Valid() && forall x :: x in list <==> x in old(list)
      ensures ContentsOf(list) == old(ContentsOf(list))
      ensures |buckets| == if size + 1 > 4 * old(|buckets|) then (old(|buckets|) - 1) * 8 + 1 else old(|buckets|)
      ensures |buckets| == old(|buckets|) ==> buckets == old(buckets) && list == old(list)
    {
      if size + 1 > 4 * nbuckets {
        Regrow();
      }
    }

    /** One turn of the relinking loop: move the first node of the old chain into the new table. */
    method MoveOne(root: Node<K, V>, ghost rest: seq<Node<K, V>>) returns (next: Node?<K, V>)
      requires Index() && Chain(rest) && |rest| > 0 && rest[0] == root
      requires forall x :: x in list ==> x !in rest
      modifies this`buckets, this`list, this`start, list`next, list`prev, root`next, root`prev
      ensures Index() && |buckets| == |old(buckets)| && exponent == old(exponent)
      ensures next == After(rest[1..], -1) && Chain(rest[1..])
      ensures |list| == |old(list)| + 1
      ensures forall x :: x in list <==> x in old(list) || x == root
      ensures forall x :: x in rest <==> x in rest[1..] || x == root
      ensures root !in rest[1..]
    {
      hide And, Pow2, Starts, Slots, Linked, Chain;
      ghost var tail := rest[1..];
      ChainTail(rest);
      assert rest == [root] + tail && root in rest && root !in list && root !in tail;
      next := root.next;
      root.next, root.prev := null, null;
      ghost var s := list;
      assert forall x :: x in tail ==> x in rest && x !in s;
      ghost var j := InsertNode(root);
      assert forall k :: 0 <= k < |tail| ==> tail[k] in tail;
      assert forall x :: x in tail ==> x.next == old(x.next);
      assert Chain(tail);
      InInsertAt(s, j, root);
    }

    /** The relinking loop of `rehash`. */
    method Regrow()
      requires Index() && DistinctKeys(list)
      modifies this`buckets, this`list, this`start, this`exponent, list`next, list`prev
      ensures Index() && DistinctKeys(list) && |buckets| - 1 == (|old(buckets)| - 1) * 8 && |list| == |old(list)|
      ensures (forall x :: x in list <==> x in old(list)) && ContentsOf(list) == old(ContentsOf(list))
    {
      hide And, Starts, Slots, ContentsOf, DistinctKeys, Pow2, Linked, Chain;
      var root := buckets[0];
      ghost var rest := list;
      ChainOf(list);
      StartZero(list, start, BucketOf(hash, |buckets| - 1));
      assert root == After(rest, -1) by { FirstSlot(list, start, buckets, BucketOf(hash, |buckets| - 1)); }
      var newnbuckets := (|buckets| - 1) * 8;
      buckets := seq(newnbuckets + 1, _ => null);
      list, start, exponent := [], seq(newnbuckets + 1, _ => 0), exponent + 1;
      EmptyTable(start, buckets, BucketOf(hash, newnbuckets));
      EmptyLinked<K, V>();
      NextExponent(exponent - 1);
      while root != null
        invariant Index() && |buckets| == newnbuckets + 1
        invariant root == After(rest, -1) && Chain(rest)
        invariant |list| + |rest| == |old(list)|
        invariant forall x :: x in old(list) <==> x in list || x in rest
        invariant forall x :: x in list ==> x !in rest
        decreases |rest|
      {
        assert root == rest[0] && root in rest;
        forall i | 0 <= i < |list| ensures list[i] in old(list) { assert list[i] in list; }
        var next := MoveOne(root, rest);
        root, rest := next, rest[1..];
      }
      SameNodes(old(list), list);
    }

    /** `erase` of the node of a key, as found by `find`. */
    method Erase(victim: Node<K, V>)
      requires Valid() && victim in list
      modifies this, list`next, list`prev
      ensures Valid() && Contents() == old(Contents()) - {victim.first}
      ensures forall x :: x in list ==> x in old(list)
      ensures |buckets| == old(|buckets|)
      ensures exists i: nat :: i < |old(list)| && old(list)[i] == victim && list == RemoveAt(old(list), i)
    {
      hide Pow2, Linked, Starts, Slots, And, ContentsOf;
      ghost var s := list;
      ghost var i :| 0 <= i < |s| && s[i] == victim;
      ContentsRemove(s, i);
      EraseNode(victim, i);
      size := size - 1;
      ContentsRemove(s, i);
    }

    /** `operator[]`: the entry of the key, made with a default value if there was none. */
    method At(key: K, default: V) returns (it: Node<K, V>)
      requires Valid()
      modifies this, list`next, list`prev
      ensures Valid() && it in list && it.first == key && (it in old(list) || fresh(it))
      ensures Contents() == if key in old(Contents()) then old(Contents()) else old(Contents())[key := default]
    {
      hide Index, ContentsOf;
      var inserted;
      it, inserted := Insert(key, default);
    }

    /** Assignment through the reference that `operator[]` returns. */
    method SetAt(key: K, value: V, default: V)
      requires Valid()
      modifies this, list
      ensures Valid() && Contents() == old(Contents())[key := value]
    {
      hide Index, ContentsOf, DistinctKeys;
      var it := At(key, default);
      Assign(it, value);
    }

    /** Writing through a reference to a node's value touches neither links nor slots. */
    method Assign(it: Node<K, V>, value: V)
      requires Valid() && it in list
      modifies it`second
      ensures Valid() && Contents() == old(Contents())[it.first := value]
    {
      hide Index, ContentsOf, DistinctKeys;
      ghost var before, s := Contents(), list;
      EntriesOf(s);
      it.second := value;
      Assigned(s, it, before);
    }

    /** `clear`: every node is destroyed, in list order, and the slots are reset. */
    method Clear() returns (destroyed: seq<Node<K, V>>)
      requires Valid()
      modifies this
      ensures Valid() && Contents() == map[] && size == 0 && |buckets| == 9
      ensures destroyed == old(list)
    {
      destroyed := DestroyNodes();
      size, buckets := 0, seq(9, _ => null);
      list, start, exponent := [], seq(9, _ => 0), 1;
      assert Pow2(3) == 8;
    }

    /** Follow next from slot 0, destroying each node after reading its successor. */
    method DestroyNodes() returns (destroyed: seq<Node<K, V>>)
      requires Valid()
      ensures destroyed == list
    {
      hide Pow2, And, ContentsOf, Starts, Linked, DistinctKeys;
      destroyed := [];
      StartZero(list, start, BucketOf(hash, |buckets| - 1));
      var it := buckets[0];
      while it != null
        invariant |destroyed| <= |list| && destroyed == list[..|destroyed|]
        invariant it == (if |destroyed| < |list| then list[|destroyed|] else null)
        decreases |list| - |destroyed|
      {
        NextOf(list, |destroyed|);
        var next := it.next;
        destroyed := destroyed + [it];
        it := next;
      }
      assert list[..|list|] == list;
    }

    /** The copy constructor. */
    constructor Copy(other: Map<K, V>)
      requires other.Valid()
      ensures Valid() && Contents() == other.Contents() && hash == other.hash && |buckets| == |other.buckets|
      ensures fresh(list)
    {
      hash := other.hash;
      size := other.size;
      buckets := seq(|other.buckets|, _ => null);
      list, start, exponent := [], seq(|other.buckets|, _ => 0), other.exponent;
      new;
      CopyNodes(other);
    }

    method CopyNodes(other: Map<K, V>)
      requires other != this && other.Valid() && Index() && list == [] && hash == other.hash
      requires |buckets| == |other.buckets| && size == other.size
      modifies this`buckets, this`list, this`start
      ensures Valid() && Contents() == other.Contents() && fresh(list) && |buckets| == |old(buckets)|
    {
      hide Pow2, And, Starts, Linked, ContentsOf, DistinctKeys;
      ghost var s, p := other.list, 0;
      var it := other.buckets[0];
      StartZero(s, other.start, BucketOf(hash, |buckets| - 1));
      NothingThere<K, V>();
      while it != null
        invariant 0 <= p <= |s| && it == (if p < |s| then s[p] else null)
        invariant Index() && |buckets| == |old(buckets)| && |list| == p && forall x :: x in list ==> fresh(x)
        invariant DistinctKeys(list) && DistinctKeys(s[..p]) && ContentsOf(list) == ContentsOf(s[..p])
        decreases |s| - p
      {
        forall i | 0 <= i < |list| ensures fresh(list[i]) { assert list[i] in list; }
        it := CopyOne(it, s, p);
        p := p + 1;
      }
      assert s[..p] == s;
      forall i | 0 <= i < |list| ensures fresh(list[i]) { assert list[i] in list; }
    }

    /** One turn of the copying loop. */
    method CopyOne(it: Node<K, V>, ghost s: seq<Node<K, V>>, ghost p: nat) returns (next: Node?<K, V>)
      requires Index() && Linked(s) && DistinctKeys(s) && p < |s| && it == s[p] && forall x :: x in list ==> x !in s
      requires DistinctKeys(list) && DistinctKeys(s[..p]) && ContentsOf(list) == ContentsOf(s[..p])
      modifies this`buckets, this`list, this`start, list`next, list`prev
      ensures Index() && |buckets| == |old(buckets)| && |list| == |old(list)| + 1
      ensures next == (if p + 1 < |s| then s[p + 1] else null)
      ensures forall x :: x in list ==> x in old(list) || fresh(x)
      ensures DistinctKeys(list) && DistinctKeys(s[..p + 1]) && ContentsOf(list) == ContentsOf(s[..p + 1])
    {
      hide Pow2, And, Starts, Slots, Linked, ContentsOf, DistinctKeys;
      NextOf(s, p);
      next := it.next;
      PrefixStep(s, p);
      AbsentKey(list, s[..p], it.first);
      var node := new Node(it.first, it.second);
      ghost var l := list;
      ghost var j := InsertNode(node);
      ContentsInsert(l, j, node);
      InInsertAt(l, j, node);
    }

    /** Following next from slot 0 visits every key exactly once. */
    method Keys() returns (keys: seq<K>)
      requires Valid()
      ensures |keys| == size && Distinct(keys)
      ensures forall k :: k in keys <==> k in Contents()
      ensures forall i :: 0 <= i < |keys| ==> keys[i] == list[i].first
    {
      hide Pow2, And, ContentsOf, Starts, Linked, DistinctKeys;
      keys := [];
      StartZero(list, start, BucketOf(hash, |buckets| - 1));
      var it := buckets[0];
      while it != null
        invariant |keys| <= |list| && it == (if |keys| < |list| then list[|keys|] else null)
        invariant forall i :: 0 <= i < |keys| ==> keys[i] == list[i].first
        decreases |list| - |keys|
      {
        NextOf(list, |keys|);
        keys := keys + [it.first];
        it := it.next;
      }
      KeysAre(list, keys);
    }
  }

  lemma NothingThere<K, V>()
    ensures DistinctKeys<K, V>([]) && ContentsOf<K, V>([]) == map[]
  {}

  lemma AbsentKey<K, V>(s: seq<Node<K, V>>, s': seq<Node<K, V>>, key: K)
    requires DistinctKeys(s) && DistinctKeys(s') && ContentsOf(s) == ContentsOf(s')
    requires forall i :: 0 <= i < |s'| ==> s'[i].first != key
    ensures forall i :: 0 <= i < |s| ==> s[i].first != key
  {
    hide ContentsOf;
    forall i | 0 <= i < |s| ensures s[i].first != key {
      EntryOf(s, i);
      var h := PositionOf(s', s[i].first);
    }
  }

  lemma KeysAre<K, V>(s: seq<Node<K, V>>, keys: seq<K>)
    requires DistinctKeys(s) && |keys| == |s| && forall i :: 0 <= i < |keys| ==> keys[i] == s[i].first
    ensures Distinct(keys) && forall k :: k in keys <==> k in ContentsOf(s)
  {
    hide ContentsOf;
    forall k | k in keys ensures k in ContentsOf(s) {
      var i :| 0 <= i < |keys| && keys[i] == k;
      EntryOf(s, i);
    }
    forall k | k in ContentsOf(s) ensures k in keys {
      var i := PositionOf(s, k);
      assert keys[i] == k;
    }
  }

  /** The keys of s are the keys of m. */
  ghost predicate SameKeys<K, V>(s: seq<Node<K, V>>, m: map<K, V>) {
    && (forall i :: 0 <= i < |s| ==> s[i].first in m)
    && (forall k :: k in m ==> exists i :: 0 <= i < |s| && s[i].first == k)
  }

  lemma EntriesOf<K, V>(s: seq<Node<K, V>>)
    requires DistinctKeys(s)
    ensures SameKeys(s, ContentsOf(s))
    ensures forall i :: 0 <= i < |s| ==> s[i].first in ContentsOf(s) && ContentsOf(s)[s[i].first] == s[i].second
  {}

  lemma Assigned<K, V>(s: seq<Node<K, V>>, it: Node<K, V>, before: map<K, V>)
    requires DistinctKeys(s) && it in s && SameKeys(s, before)
    requires forall i :: 0 <= i < |s| && s[i] != it ==> before[s[i].first] == s[i].second
    ensures ContentsOf(s) == before[it.first := it.second]
  {
    hide ContentsOf;
    var m := before[it.first := it.second];
    var j :| 0 <= j < |s| && s[j] == it;
    forall i | 0 <= i < |s| ensures s[i].first in m && m[s[i].first] == s[i].second {
    }
    forall k | k in m ensures k in ContentsOf(s) {
      var i :| 0 <= i < |s| && s[i].first == k;
      EntryOf(s, i);
    }
    ContentsAre(s, m);
  }

  /** Taking one more node into a prefix adds its entry. */
  lemma PrefixStep<K, V>(s: seq<Node<K, V>>, p: nat)
    requires DistinctKeys(s) && p < |s|
    ensures DistinctKeys(s[..p]) && DistinctKeys(s[..p + 1])
    ensures forall i :: 0 <= i < p ==> s[..p][i].first != s[p].first
    ensures ContentsOf(s[..p + 1]) == ContentsOf(s[..p])[s[p].first := s[p].second]
  {
    hide ContentsOf;
    assert InsertAt(s[..p], p, s[p]) == s[..p + 1];
    ContentsInsert(s[..p], p, s[p]);
  }

  lemma InInsertAt<T>(s: seq<T>, j: nat, n: T)
    requires j <= |s|
    ensures forall x :: x in InsertAt(s, j, n) <==> x in s || x == n
  {}

  /** The not yet moved part of the old list: only the forward links matter. */
  ghost predicate Chain<K, V>(s: seq<Node<K, V>>)
    reads s
  {
    Distinct(s) && forall k :: 0 <= k < |s| ==> s[k].next == After(s, k)
  }

  lemma ChainOf<K, V>(s: seq<Node<K, V>>)
    requires Distinct(s) && Linked(s)
    ensures Chain(s) && (s == [] ==> Linked(s))
  {}

  lemma EmptyLinked<K, V>()
    ensures Linked<K, V>([])
  {}

  lemma ChainTail<K, V>(s: seq<Node<K, V>>)
    requires Chain(s) && |s| > 0
    ensures Chain(s[1..]) && s[0].next == After(s[1..], -1) && s[0] !in s[1..]
  {
    forall k | 0 <= k < |s| - 1 ensures s[1..][k].next == After(s[1..], k) {
      assert s[1..][k] == s[k + 1];
    }
  }

  lemma FirstSlot<K, V>(s: seq<Node<K, V>>, start: seq<int>, buckets: seq<Node?<K, V>>, bucket: K -> nat)
    requires Slots(s, start, buckets) && Starts(s, start, bucket) && start[0] == 0
    ensures buckets[0] == After(s, -1)
  {}

  lemma EmptyTable<K, V>(start: seq<int>, buckets: seq<Node?<K, V>>, bucket: K -> nat)
    requires 0 < |start| == |buckets| && (forall b :: 0 <= b < |start| ==> start[b] == 0 && buckets[b] == null)
    ensures Starts<K, V>([], start, bucket) && Slots<K, V>([], start, buckets)
  {}

  lemma NextExponent(e: nat)
    ensures Pow2(3 * (e + 1)) == Pow2(3 * e) * 8
  {
    assert Pow2(3 * e + 3) == 2 * Pow2(3 * e + 2);
    assert Pow2(3 * e + 2) == 2 * Pow2(3 * e + 1);
  }

  ghost function ContentsOf<K, V>(s: seq<Node<K, V>>): map<K, V>
    requires DistinctKeys(s)
    reads s`second
  {
    map i | 0 <= i < |s| :: s[i].first := s[i].second
  }

  lemma EntryOf<K, V>(s: seq<Node<K, V>>, i: nat)
    requires DistinctKeys(s) && i < |s|
    ensures s[i].first in ContentsOf(s) && ContentsOf(s)[s[i].first] == s[i].second
  {}

  lemma PositionOf<K, V>(s: seq<Node<K, V>>, k: K) returns (i: nat)
    requires DistinctKeys(s) && k in ContentsOf(s)
    ensures i < |s| && s[i].first == k
  {
    i :| 0 <= i < |s| && s[i].first == k;
  }

  /** A map that holds the entries of s, and no key besides, is the contents of s. */
  lemma ContentsAre<K, V>(s: seq<Node<K, V>>, m: map<K, V>)
    requires DistinctKeys(s)
    requires forall i :: 0 <= i < |s| ==> s[i].first in m && m[s[i].first] == s[i].second
    requires forall k :: k in m ==> k in ContentsOf(s)
    ensures ContentsOf(s) == m
  {
  }

  lemma KeysInsert<K, V>(s: seq<Node<K, V>>, j: nat, n: Node<K, V>)
    requires DistinctKeys(s) && j <= |s| && forall i :: 0 <= i < |s| ==> s[i].first != n.first
    ensures DistinctKeys(InsertAt(s, j, n))
  {
    var s' := InsertAt(s, j, n);
    forall i, k | 0 <= i < k < |s'| ensures s'[i].first != s'[k].first {
      assert s'[i] == if i < j then s[i] else if i == j then n else s[i - 1];
      assert s'[k] == if k < j then s[k] else if k == j then n else s[k - 1];
    }
  }

  lemma ContentsInsert<K, V>(s: seq<Node<K, V>>, j: nat, n: Node<K, V>)
    requires DistinctKeys(s) && j <= |s| && forall i :: 0 <= i < |s| ==> s[i].first != n.first
    ensures DistinctKeys(InsertAt(s, j, n))
    ensures ContentsOf(InsertAt(s, j, n)) == ContentsOf(s)[n.first := n.second]
  {
    hide ContentsOf, DistinctKeys;
    var s' := InsertAt(s, j, n);
    KeysInsert(s, j, n);
    var m := ContentsOf(s)[n.first := n.second];
    forall i | 0 <= i < |s'| ensures s'[i].first in m && m[s'[i].first] == s'[i].second {
      if i != j {
        EntryOf(s, if i < j then i else i - 1);
      }
    }
    forall k | k in m ensures k in ContentsOf(s') {
      if k == n.first {
        EntryOf(s', j);
      } else {
        var i := PositionOf(s, k);
        EntryOf(s', if i < j then i else i + 1);
      }
    }
    ContentsAre(s', m);
  }

  lemma KeysRemove<K, V>(s: seq<Node<K, V>>, i: nat)
    requires DistinctKeys(s) && i < |s|
    ensures DistinctKeys(RemoveAt(s, i))
  {
    var s' := RemoveAt(s, i);
    forall h, k | 0 <= h < k < |s'| ensures s'[h].first != s'[k].first {
      assert s'[h] == s[if h < i then h else h + 1] && s'[k] == s[if k < i then k else k + 1];
    }
  }

  lemma ContentsRemove<K, V>(s: seq<Node<K, V>>, i: nat)
    requires DistinctKeys(s) && i < |s|
    ensures DistinctKeys(RemoveAt(s, i))
    ensures ContentsOf(RemoveAt(s, i)) == ContentsOf(s) - {s[i].first}
  {
    hide ContentsOf;
    var s' := RemoveAt(s, i);
    KeysRemove(s, i);
    var m := ContentsOf(s) - {s[i].first};
    forall h | 0 <= h < |s'| ensures s'[h].first in m && m[s'[h].first] == s'[h].second {
      EntryOf(s, if h < i then h else h + 1);
    }
    forall k | k in m ensures k in ContentsOf(s') {
      var h := PositionOf(s, k);
      EntryOf(s', if h < i then h else h - 1);
    }
    ContentsAre(s', m);
  }

  /** The contents depend only on the set of nodes. */
  lemma SameNodes<K, V>(s: seq<Node<K, V>>, s': seq<Node<K, V>>)
    requires DistinctKeys(s) && Distinct(s') && forall x :: x in s <==> x in s'
    ensures DistinctKeys(s') && ContentsOf(s') == ContentsOf(s)
  {
    hide ContentsOf;
    forall i, j | 0 <= i < j < |s'| ensures s'[i].first != s'[j].first {
      assert s'[i] in s && s'[j] in s;
    }
    var m := ContentsOf(s);
    forall i | 0 <= i < |s'| ensures s'[i].first in m && m[s'[i].first] == s'[i].second {
      assert s'[i] in s;
      var h :| 0 <= h < |s| && s[h] == s'[i];
      EntryOf(s, h);
    }
    forall k | k in m ensures k in ContentsOf(s') {
      var h := PositionOf(s, k);
      assert s[h] in s';
      var i :| 0 <= i < |s'| && s'[i] == s[h];
      EntryOf(s', i);
    }
    ContentsAre(s', m);
  }

  /** A key can only be in its own bucket. */
  lemma AbsentOutside<K, V>(s: seq<Node<K, V>>, start: seq<int>, bucket: K -> nat, key: K)
    requires Starts(s, start, bucket) && bucket(key) + 1 < |start|
    requires forall k :: start[bucket(key)] <= k < start[bucket(key) + 1] ==> s[k].first != key
    ensures forall k :: 0 <= k < |s| ==> s[k].first != key
  {
    forall k | 0 <= k < |s| ensures s[k].first != key {
      assert k < start[bucket(key)] <==> bucket(s[k].first) < bucket(key);
      assert k < start[bucket(key) + 1] <==> bucket(s[k].first) < bucket(key) + 1;
    }
  }

  lemma SlotBounds<K, V>(s: seq<Node<K, V>>, start: seq<int>, buckets: seq<Node?<K, V>>)
    requires Slots(s, start, buckets)
    ensures |start| == |buckets| && forall b :: 0 <= b < |start| ==> 0 <= start[b] <= |s|
  {}

  lemma DistinctInsert<T>(s: seq<T>, j: nat, n: T)
    requires Distinct(s) && n !in s && j <= |s|
    ensures Distinct(InsertAt(s, j, n))
  {}

  lemma NextOf<K, V>(s: seq<Node<K, V>>, i: nat)
    requires Linked(s) && i < |s|
    ensures s[i].next == After(s, i)
  {}

  lemma SlotPointsAt<K, V>(s: seq<Node<K, V>>, start: seq<int>, buckets: seq<Node?<K, V>>, b: nat, i: nat)
    requires Slots(s, start, buckets) && Distinct(s) && b < |start| && i < |s|
    ensures buckets[b] == s[i] <==> start[b] == i
  {
  }

  /** The slots after the back-propagating loop of an erasure. */
  lemma SlotsRemoved<K, V>(s: seq<Node<K, V>>, start: seq<int>, buckets: seq<Node?<K, V>>, buckets': seq<Node?<K, V>>,
                           bucket: K -> nat, i: nat, b: int)
    requires Starts(s, start, bucket) && Slots(s, start, buckets) && i < |s|
    requires var b0 := bucket(s[i].first);
      && -1 <= b <= b0 < |start| && |buckets'| == |start|
      && (forall c :: 0 <= c < |start| ==> buckets'[c] == (if b < c <= b0 then After(s, i) else buckets[c]))
      && (forall c :: b < c <= b0 ==> start[c] == i)
      && (b >= 0 ==> start[b] != i)
    ensures Slots(RemoveAt(s, i), Shifted(start, bucket(s[i].first), -1), buckets')
  {
    var b0, s' := bucket(s[i].first), RemoveAt(s, i);
    forall c | 0 <= c < |start|
      ensures var p := Shifted(start, b0, -1)[c];
        0 <= p <= |s'| && buckets'[c] == (if p < |s'| then s'[p] else null)
    {
      assert i < start[c] <==> b0 < c;
      if 0 <= b {
        assert i < start[b] <==> b0 < b;
        StartMonotonic(s, start, bucket, c, b);
      }
    }
  }

  lemma StartZero<K, V>(s: seq<Node<K, V>>, start: seq<int>, bucket: K -> nat)
    requires Starts(s, start, bucket)
    ensures start[0] == 0
  {
    if |s| > 0 {
      assert 0 < start[0] <==> bucket(s[0].first) < 0;
    }
  }

  lemma BucketInRange(h: nat, e: nat)
    ensures And(h, Pow2(3 * e) - 1) < Pow2(3 * e)
  {
    AndMask(h, 3 * e);
  }

  /** Two slots hold the same pointer exactly when they start at the same node. */
  lemma SlotEqualsIt<K, V>(s: seq<Node<K, V>>, start: seq<int>, buckets: seq<Node?<K, V>>, b: nat, c: nat)
    requires Slots(s, start, buckets) && b < |start| && c < |start|
    requires Distinct(s)
    ensures buckets[b] == buckets[c] <==> start[b] == start[c]
  {
  }

  /** The slots after the back-propagating loop of an insertion. */
  lemma SlotsInserted<K, V>(s: seq<Node<K, V>>, start: seq<int>, buckets: seq<Node?<K, V>>, buckets': seq<Node?<K, V>>,
                            bucket: K -> nat, n: Node<K, V>, b: int)
    requires Starts(s, start, bucket) && Slots(s, start, buckets) && bucket(n.first) + 1 < |start|
    requires var b0 := bucket(n.first); var j := start[b0 + 1];
      && -1 <= b <= b0 && |buckets'| == |start|
      && (forall c :: 0 <= c < |start| ==> buckets'[c] == (if b < c <= b0 then n else buckets[c]))
      && (forall c :: b < c <= b0 ==> start[c] == j)
      && (b >= 0 ==> start[b] != j)
    ensures var b0 := bucket(n.first);
      Slots(InsertAt(s, start[b0 + 1], n), Shifted(start, b0, 1), buckets')
  {
    var b0 := bucket(n.first);
    var j := start[b0 + 1];
    var s' := InsertAt(s, j, n);
    forall c | 0 <= c < |start|
      ensures var p := Shifted(start, b0, 1)[c];
        0 <= p <= |s'| && buckets'[c] == (if p < |s'| then s'[p] else null)
    {
      StartMonotonic(s, start, bucket, c, b0 + 1);
      if 0 <= b { StartMonotonic(s, start, bucket, c, b); StartMonotonic(s, start, bucket, b, b0 + 1); }
    }
  }
}
