/** The chained hash table that libcxx/src/debug.cpp keeps twice, once for containers and
    once for iterators: __insert_c and __insert_iterator grow it alike, __erase_c and
    __erase_i unlink from it alike. */
module HashTable {
  import opened Primality
  import NextPrime

  // calloc of n pointers of eight bytes cannot succeed from this n on.
  const MAX_BUCKETS: nat := 0x2000_0000_0000_0000

  /** Which of the allocations that a call may make would succeed: a bucket array, a node, an
      array of back-pointers. */
  datatype Memory = Memory(table: bool, node: bool, back: bool)

  /** How a call ends: as it should, or with bad_alloc from one of its allocations. */
  datatype Outcome = Done | NoTable | NoNode | NoArray

  /** The length of the bucket array that replaces one of the given length. */
  ghost predicate NextLength(length: nat, nc: nat) {
    NextPrime.LeastPrimeFrom(2 * length + 1, nc)
  }

  /** A bucket array of that length can be allocated at all. */
  ghost predicate Growable(length: nat) {
    exists nc: nat :: NextLength(length, nc) && nc < MAX_BUCKETS
  }

  lemma NextLengthIsUnique(length: nat, a: nat, b: nat)
    requires NextLength(length, a) && NextLength(length, b)
    ensures a == b
  {
  }

  lemma NextLengthIsLonger(length: nat, nc: nat)
    requires NextLength(length, nc)
    ensures 2 * length < nc && IsPrime(nc) && forall p :: 2 * length < p < nc ==> !IsPrime(p)
  {
  }

  class Node<V> {
    const key: nat
    var next: Node?<V>
    var val: V
    ghost var rank: nat  // falls along the chain

    constructor (key: nat, val: V)
      ensures this.key == key && this.next == null && this.val == val
    {
      this.key, this.next, this.val := key, null, val;
    }
  }

  function Slot(hash: nat -> nat, key: nat, size: nat): (h: nat)
    requires size > 0
    ensures h < size
  {
    hash(key) % size
  }

  lemma SlotMeans(hash: nat -> nat, key: nat, size: nat)
    requires size > 0
    ensures Slot(hash, key, size) == hash(key) % size
  {
  }

  ghost predicate SameSlot<V>(hash: nat -> nat, size: nat, m: Node<V>, n: Node<V>) {
    size > 0 && Slot(hash, m.key, size) == Slot(hash, n.key, size)
  }

  // A next link stays in its bucket and leads to a lower rank.
  ghost predicate NextOk<V>(hash: nat -> nat, size: nat, nodes: set<Node<V>>, m: Node<V>)
    reads m`next, m`rank, nodes`rank
  {
    m.next != null ==> m.next in nodes && SameSlot(hash, size, m, m.next) && m.next.rank < m.rank
  }

  // Different nodes differ in key; in one bucket they differ in rank, and the next link of
  // the higher one does not skip the lower one.
  ghost predicate PairOk<V>(hash: nat -> nat, size: nat, m: Node<V>, n: Node<V>)
    reads m`next, m`rank, n`rank, (if m.next == null then {} else {m.next})`rank
  {
    && m.key != n.key
    && (SameSlot(hash, size, m, n) ==> m.rank != n.rank)
    && (SameSlot(hash, size, m, n) && n.rank < m.rank ==> m.next != null && n.rank <= m.next.rank)
  }

  // The node's bucket has a head that ranks no lower.
  ghost predicate Headed<V>(hash: nat -> nat, heads: seq<Node?<V>>, nodes: set<Node<V>>, n: Node<V>)
    reads n`rank, nodes`rank
  {
    && |heads| > 0
    && var head := heads[Slot(hash, n.key, |heads|)];
       head != null && head in nodes && n.rank <= head.rank
  }

  ghost predicate HeadOk<V>(hash: nat -> nat, heads: seq<Node?<V>>, nodes: set<Node<V>>, h: nat)
    requires h < |heads|
  {
    heads[h] != null ==> heads[h] in nodes && Slot(hash, heads[h].key, |heads|) == h
  }

  /** From the given bucket heads, the next links reach exactly the given nodes, each in the
      bucket that its key hashes to, and no two nodes share a key. */
  ghost predicate Holds<V>(hash: nat -> nat, heads: seq<Node?<V>>, nodes: set<Node<V>>)
    reads nodes`next, nodes`rank
  {
    && (forall h {:trigger HeadOk(hash, heads, nodes, h)} :: 0 <= h < |heads| ==> HeadOk(hash, heads, nodes, h))
    && (forall n {:trigger Headed(hash, heads, nodes, n)} :: n in nodes ==> Headed(hash, heads, nodes, n))
    && (forall n {:trigger NextOk(hash, |heads|, nodes, n)} :: n in nodes ==> NextOk(hash, |heads|, nodes, n))
    && (forall m, n {:trigger PairOk(hash, |heads|, m, n)} :: m in nodes && n in nodes && m != n ==>
          NextOk(hash, |heads|, nodes, m) && PairOk(hash, |heads|, m, n))
  }

  /** Links node q at the head of its bucket. */
  method Push<V>(hash: nat -> nat, ghost heads: seq<Node?<V>>, ghost nodes: set<Node<V>>, q: Node<V>, head: Node?<V>)
    requires Holds(hash, heads, nodes) && |heads| > 0 && head == heads[Slot(hash, q.key, |heads|)]
    requires q !in nodes && forall n :: n in nodes ==> n.key != q.key
    modifies q`next, q`rank
    ensures Holds(hash, heads[Slot(hash, q.key, |heads|) := q], nodes + {q})
  {
    hide Slot;
    ghost var h, size := Slot(hash, q.key, |heads|), |heads|;
    ghost var heads', nodes' := heads[h := q], nodes + {q};
    assert HeadOk(hash, heads, nodes, h);
    q.next := head;
    q.rank := if head == null then 0 else head.rank + 1;
    forall n | n in nodes'
      ensures NextOk(hash, size, nodes', n) && Headed(hash, heads', nodes', n)
    {
      if n != q {
        assert old(NextOk(hash, size, nodes, n) && Headed(hash, heads, nodes, n));
      }
    }
    forall m, n | m in nodes' && n in nodes' && m != n
      ensures NextOk(hash, size, nodes', m) && PairOk(hash, size, m, n)
    {
      if m != q && n != q {
        assert old(PairOk(hash, size, m, n) && NextOk(hash, size, nodes, m));
      } else if m == q {
        assert old(Headed(hash, heads, nodes, n));
      } else {
        assert old(Headed(hash, heads, nodes, m));
      }
    }
    forall g | 0 <= g < size
      ensures HeadOk(hash, heads', nodes', g)
    {
      assert HeadOk(hash, heads, nodes, g);
    }
  }

  /** The head of a bucket may be dropped in favour of its successor. */
  lemma PopHead<V>(hash: nat -> nat, heads: seq<Node?<V>>, nodes: set<Node<V>>, h: nat)
    requires Holds(hash, heads, nodes) && h < |heads| && heads[h] != null
    ensures Holds(hash, heads[h := heads[h].next], nodes - {heads[h]})
  {
    hide Slot;
    var q, size := heads[h], |heads|;
    var heads', nodes': set<Node<V>> := heads[h := q.next], nodes - {q};
    assert HeadOk(hash, heads, nodes, h) && NextOk(hash, size, nodes, q);
    forall n | n in nodes'
      ensures NextOk(hash, size, nodes', n) && Headed(hash, heads', nodes', n)
    {
      assert NextOk(hash, size, nodes, n) && Headed(hash, heads, nodes, n);
      assert PairOk(hash, size, q, n) && PairOk(hash, size, n, q);
      assert HeadOk(hash, heads, nodes, Slot(hash, n.key, size));
    }
    forall m, n | m in nodes' && n in nodes' && m != n
      ensures NextOk(hash, size, nodes', m) && PairOk(hash, size, m, n)
    {
      assert PairOk(hash, size, m, n);
    }
    forall g | 0 <= g < size
      ensures HeadOk(hash, heads', nodes', g)
    {
      assert HeadOk(hash, heads, nodes, g);
    }
  }

  // Only q links to p, and p heads no bucket.
  lemma SoleLink<V>(hash: nat -> nat, heads: seq<Node?<V>>, nodes: set<Node<V>>, q: Node<V>, p: Node<V>)
    requires Holds(hash, heads, nodes) && q in nodes && q.next == p
    ensures forall n :: n in nodes && n != q ==> n.next != p
    ensures |heads| > 0 && p !in heads
  {
    hide Slot;
    var size := |heads|;
    assert Headed(hash, heads, nodes, q) && NextOk(hash, size, nodes, q);
    forall n | n in nodes && n != q
      ensures n.next != p
    {
      assert NextOk(hash, size, nodes, n) && PairOk(hash, size, n, q) && PairOk(hash, size, q, n);
    }
    forall h | 0 <= h < size
      ensures heads[h] != p
    {
      assert HeadOk(hash, heads, nodes, h);
    }
  }

  /** An inner node is bypassed when its predecessor takes over its next link. */
  method Bypass<V>(hash: nat -> nat, ghost heads: seq<Node?<V>>, ghost nodes: set<Node<V>>, q: Node<V>, p: Node<V>)
    requires Holds(hash, heads, nodes) && q in nodes && q.next == p
    modifies q`next
    ensures Holds(hash, heads, nodes - {p})
  {
    hide Slot;
    ghost var size, nodes': set<Node<V>> := |heads|, nodes - {p};
    SoleLink(hash, heads, nodes, q, p);
    assert NextOk(hash, size, nodes, q) && NextOk(hash, size, nodes, p);
    ghost var after := p.next;
    SetNext(q, p.next);
    assert forall n :: n in nodes ==> n.rank == old(n.rank);
    assert forall n :: n in nodes && n != q ==> n.next == old(n.next);
    forall m, n | m in nodes' && n in nodes' && m != n
      ensures PairOk(hash, size, m, n)
    {
      assert old(PairOk(hash, size, m, n) && NextOk(hash, size, nodes, m));
      if m == q {
        assert old(PairOk(hash, size, p, n));
      }
    }
    forall n | n in nodes'
      ensures NextOk(hash, size, nodes', n) && Headed(hash, heads, nodes', n)
    {
      assert old(NextOk(hash, size, nodes, n) && Headed(hash, heads, nodes, n));
    }
    forall g | 0 <= g < size
      ensures HeadOk(hash, heads, nodes', g)
    {
      assert HeadOk(hash, heads, nodes, g);
    }
  }

  method SetNext<V>(q: Node<V>, next: Node?<V>)
    modifies q`next
    ensures q.next == next
  {
    q.next := next;
  }

  ghost predicate DistinctKeys<V>(nodes: set<Node<V>>) {
    forall m, n :: m in nodes && n in nodes && m != n ==> m.key != n.key
  }

  lemma HoldsDistinctKeys<V>(hash: nat -> nat, heads: seq<Node?<V>>, nodes: set<Node<V>>)
    requires Holds(hash, heads, nodes)
    ensures DistinctKeys(nodes)
  {
    forall m, n | m in nodes && n in nodes && m != n
      ensures m.key != n.key
    {
      assert PairOk(hash, |heads|, m, n);
    }
  }

  // Without heads there are no nodes.
  lemma NoHeads<V>(hash: nat -> nat, heads: seq<Node?<V>>, nodes: set<Node<V>>)
    requires Holds(hash, heads, nodes) && forall h :: 0 <= h < |heads| ==> heads[h] == null
    ensures nodes == {}
  {
    if nodes != {} {
      var n :| n in nodes;
      HasHead(hash, heads, nodes, n);
    }
  }

  lemma HasHead<V>(hash: nat -> nat, heads: seq<Node?<V>>, nodes: set<Node<V>>, n: Node<V>)
    requires Holds(hash, heads, nodes) && n in nodes
    ensures |heads| > 0 && heads[Slot(hash, n.key, |heads|)] != null
  {
    assert Headed(hash, heads, nodes, n);
  }

  /** Moves node q from the head of old bucket b to the head of its new bucket. */
  method MoveNode<V>(hash: nat -> nat, ghost heads: seq<Node?<V>>, ghost rest: set<Node<V>>, ghost b: nat, q: Node<V>,
                     cbeg: array<Node?<V>>, ghost moved: set<Node<V>>)
    requires Holds(hash, heads, rest) && b < |heads| && heads[b] == q && q in rest
    requires Holds(hash, cbeg[..], moved) && cbeg.Length > 0
    requires q !in moved && forall n :: n in moved ==> n.key != q.key
    modifies cbeg, q`next, q`rank
    ensures Holds(hash, heads[b := old(q.next)], rest - {q})
    ensures Holds(hash, cbeg[..], moved + {q})
  {
    hide Slot, Holds;
    PopHead(hash, heads, rest, b);
    var h := Slot(hash, q.key, cbeg.Length);
    Push(hash, cbeg[..], moved, q, cbeg[h]);
    ghost var was := cbeg[..];
    cbeg[h] := q;
    assert cbeg[..] == was[h := q];
  }

  lemma NextInTurn<V>(
    hash: nat -> nat, heads: seq<Node?<V>>, nodes: set<Node<V>>, rest: set<Node<V>>, b: nat, q: Node<V>)
    requires Holds(hash, heads, rest) && b < |heads| && heads[b] == q
    requires DistinctKeys(nodes) && rest <= nodes
    ensures q in rest && q !in nodes - rest
    ensures forall n :: n in nodes - rest ==> n.key != q.key
    ensures nodes - rest + {q} == nodes - (rest - {q})
  {
    assert HeadOk(hash, heads, rest, b);
  }

  /** Moves the whole chain of old bucket b; the nodes outside rest have been moved before. */
  method RelinkChain<V>(
    hash: nat -> nat, ghost heads: seq<Node?<V>>, ghost nodes: set<Node<V>>, ghost rest: set<Node<V>>,
    ghost b: nat, head: Node?<V>, cbeg: array<Node?<V>>)
    returns (ghost left: set<Node<V>>)
    requires Holds(hash, heads, rest) && b < |heads| && heads[b] == head
    requires Holds(hash, cbeg[..], nodes - rest) && cbeg.Length > 0
    requires rest <= nodes && DistinctKeys(nodes)
    modifies cbeg, nodes`next, nodes`rank
    ensures left <= rest && Holds(hash, heads[b := null], left)
    ensures Holds(hash, cbeg[..], nodes - left)
  {
    hide Slot, Holds, DistinctKeys;
    var q := head;
    left := rest;
    ghost var now := heads;
    while q != null
      invariant left <= rest && now == heads[b := q]
      invariant Holds(hash, now, left) && Holds(hash, cbeg[..], nodes - left)
      decreases |left|
    {
      NextInTurn(hash, now, nodes, left, b, q);
      var r := q.next;
      MoveNode(hash, now, left, b, q, cbeg, nodes - left);
      left, now := left - {q}, now[b := r];
      q := r;
    }
  }

  /** Relinks every node hanging off the old buckets into the new, empty ones. */
  method RelinkAll<V>(hash: nat -> nat, from: array<Node?<V>>, cbeg: array<Node?<V>>, ghost nodes: set<Node<V>>)
    requires Holds(hash, from[..], nodes) && from != cbeg
    requires cbeg.Length > 0 && forall h :: 0 <= h < cbeg.Length ==> cbeg[h] == null
    modifies cbeg, nodes`next, nodes`rank
    ensures Holds(hash, cbeg[..], nodes)
  {
    HoldsDistinctKeys(hash, from[..], nodes);
    ghost var heads: seq<Node?<V>>, rest: set<Node<V>> := from[..], nodes;
    assert Holds(hash, cbeg[..], nodes - rest);
    hide Slot, Holds, DistinctKeys;
    for b := 0 to from.Length
      invariant rest <= nodes && |heads| == from.Length
      invariant forall k :: 0 <= k < |heads| ==> heads[k] == if k < b then null else from[k]
      invariant Holds(hash, heads, rest) && Holds(hash, cbeg[..], nodes - rest)
    {
      rest := RelinkChain(hash, heads, nodes, rest, b, from[b], cbeg);
      heads := heads[b := null];
    }
    NoHeads(hash, heads, rest);
    assert nodes - rest == nodes;
  }

  class Table<V> {
    const hash: nat -> nat
    var buckets: array<Node?<V>>
    var size: nat
    ghost var nodes: set<Node<V>>

    ghost predicate Valid()
      reads this, buckets, nodes`next, nodes`rank
    {
      && Holds(hash, buckets[..], nodes)
      && size == |nodes| <= buckets.Length < MAX_BUCKETS
      && (buckets.Length == 0 || IsPrime(buckets.Length))
    }

    ghost predicate HasKey(key: nat)
      reads this
    {
      exists n :: n in nodes && n.key == key
    }

    constructor (hash: nat -> nat)
      ensures Valid() && fresh(buckets)
      ensures this.hash == hash && nodes == {} && buckets.Length == 0
    {
      this.hash := hash;
      buckets := new Node?<V>[0];
      size, nodes := 0, {};
    }

    /** The head of a bucket is a node whose hash leads to the bucket, and so is whatever a link leads to. */
    lemma InOwnBucket(n: Node<V>)
      requires Valid()
      ensures forall h :: 0 <= h < buckets.Length && buckets[h] == n ==>
        n in nodes && hash(n.key) % buckets.Length == h
      ensures n in nodes && n.next != null ==>
        && n.next in nodes && buckets.Length > 0
        && hash(n.next.key) % buckets.Length == hash(n.key) % buckets.Length
    {
      hide IsPrime;
      forall h | 0 <= h < buckets.Length
        ensures buckets[h] == n ==> n in nodes && Slot(hash, n.key, buckets.Length) == h
      {
        assert HeadOk(hash, buckets[..], nodes, h);
      }
      if n in nodes {
        assert NextOk(hash, |buckets[..]|, nodes, n);
      }
    }

    /** The chain walk of the finders and of the erasing functions: p is the node of the key
        and q its predecessor in the chain. */
    method Walk(key: nat, h: nat) returns (q: Node?<V>, p: Node?<V>)
      requires Valid() && buckets.Length > 0 && h == Slot(hash, key, buckets.Length)
      ensures p == null <==> !HasKey(key)
      ensures p != null ==> p in nodes && p.key == key
      ensures if q == null then p == buckets[h] else q in nodes && q.next == p
    {
      hide Slot;
      q, p := null, buckets[h];
      ghost var size_ := |buckets[..]|;
      assert HeadOk(hash, buckets[..], nodes, h);
      assert forall n :: n in nodes ==> Headed(hash, buckets[..], nodes, n);
      while p != null && p.key != key
        invariant p != null ==> p in nodes && Slot(hash, p.key, size_) == h
        invariant if q == null then p == buckets[h] else q in nodes && q.next == p
        invariant forall n :: n in nodes && n.key == key ==> p != null && n.rank <= p.rank
        decreases if p == null then 0 else p.rank + 1
      {
        assert NextOk(hash, size_, nodes, p);
        forall n | n in nodes && n.key == key
          ensures p.next != null && n.rank <= p.next.rank
        {
          assert PairOk(hash, size_, p, n) && Headed(hash, buckets[..], nodes, n);
        }
        q := p;
        p := p.next;
      }
    }

    method Find(key: nat) returns (p: Node?<V>)
      requires Valid()
      ensures p == null <==> !HasKey(key)
      ensures p != null ==> p in nodes && p.key == key
    {
      hide Slot;
      if buckets.Length == 0 {
        NoHeads(hash, buckets[..], nodes);
        return null;
      }
      var h := Slot(hash, key, buckets.Length);
      var q, node := Walk(key, h);
      p := node;
    }

    // A bucket array of prime length, all null.
    method NewBuckets(available: bool) returns (cbeg: array?<Node?<V>>)
      requires Valid()
      ensures cbeg != null <==> available && Growable(buckets.Length)
      ensures cbeg != null ==> fresh(cbeg) && IsPrime(cbeg.Length) && cbeg.Length < MAX_BUCKETS
      ensures cbeg != null ==> NextLength(buckets.Length, cbeg.Length)
      ensures cbeg != null ==> forall h :: 0 <= h < cbeg.Length ==> cbeg[h] == null
    {
      hide IsPrime, Holds;
      var prime := NextPrime.NextPrime((2 * buckets.Length + 1) as NextPrime.size_t);
      var nc := prime.value as int;
      assert NextLength(buckets.Length, nc);
      forall other: nat | NextLength(buckets.Length, other)
        ensures other == nc
      {
        NextLengthIsUnique(buckets.Length, nc, other);
      }
      if nc >= MAX_BUCKETS || !available {
        return null;
      }
      cbeg := new Node?<V>[nc](_ => null);
    }

    /** Relinks every node into a bucket array of prime length, or fails with bad_alloc and
        changes nothing. */
    method Grow(available: bool) returns (ok: bool)
      requires Valid()
      modifies this`buckets, nodes`next, nodes`rank
      ensures Valid()
      ensures ok <==> available && Growable(old(buckets.Length))
      ensures !ok ==> buckets == old(buckets) && forall n :: n in nodes ==> n.next == old(n.next)
      ensures ok ==> fresh(buckets) && NextLength(old(buckets.Length), buckets.Length)
      ensures ok ==> 2 * old(buckets.Length) < buckets.Length && IsPrime(buckets.Length)
      ensures ok ==> forall p :: 2 * old(buckets.Length) < p < buckets.Length ==> !IsPrime(p)
    {
      hide Holds, IsPrime, NextLength, Growable;
      var cbeg := NewBuckets(available);
      if cbeg == null {
        return false;
      }
      NextLengthIsLonger(buckets.Length, cbeg.Length);
      RelinkAll(hash, buckets, cbeg, nodes);
      buckets := cbeg;
      return true;
    }

    /** There is a free bucket, or a bigger array can be had. */
    ghost predicate HasRoom(memory: Memory)
      reads this
    {
      size < buckets.Length || (memory.table && Growable(buckets.Length))
    }

    /** Among so many buckets some node would share the key's. */
    ghost predicate SharesBucket(key: nat, length: nat)
      reads this
    {
      length > 0 && exists n :: n in nodes && hash(n.key) % length == hash(key) % length
    }

    /** In a valid table that is the same as a chain in the key's bucket. */
    lemma SharingMeansChain(key: nat)
      requires Valid() && buckets.Length > 0
      ensures SharesBucket(key, buckets.Length) <==> buckets[hash(key) % buckets.Length] != null
    {
      var h := Slot(hash, key, buckets.Length);
      assert HeadOk(hash, buckets[..], nodes, h);
      forall n | n in nodes
        ensures buckets[Slot(hash, n.key, buckets.Length)] != null
      {
        HasHead(hash, buckets[..], nodes, n);
      }
    }

    // The number of buckets when there is a place for one more node.
    ghost predicate LengthForOneMore(length: nat)
      reads this
    {
      if size < buckets.Length then length == buckets.Length else NextLength(buckets.Length, length)
    }

    /** A new node for the key would share its bucket, once there is a place for it. */
    ghost predicate Collides(key: nat)
      reads this
    {
      exists length: nat :: LengthForOneMore(length) && SharesBucket(key, length)
    }

    lemma CollidesHere(key: nat, length: nat)
      requires LengthForOneMore(length)
      ensures Collides(key) <==> SharesBucket(key, length)
    {
      hide NextLength, SharesBucket;
      forall other: nat | LengthForOneMore(other)
        ensures other == length
      {
        if size >= buckets.Length {
          NextLengthIsUnique(buckets.Length, length, other);
        }
      }
    }

    /** A node in the bucket of the key, and a place that is free. */
    lemma SameBucketCollides(n: Node<V>, key: nat)
      requires n in nodes && size < buckets.Length
      requires Slot(hash, n.key, buckets.Length) == Slot(hash, key, buckets.Length)
      ensures Collides(key)
    {
      assert LengthForOneMore(buckets.Length) && SharesBucket(key, buckets.Length);
    }

    /** The first bucket array has two buckets. */
    lemma TwoAtFirst(length: nat)
      requires Valid() && nodes == {} && buckets.Length == 0 && LengthForOneMore(length)
      ensures length == 2
    {
      assert NextLength(0, 2);
      NextLengthIsUnique(0, length, 2);
    }

    /** The first two nodes find room. */
    lemma RoomForTwo(memory: Memory)
      requires Valid() && |nodes| <= 1 && memory.table
      ensures HasRoom(memory)
    {
      hide Holds;
      if size >= buckets.Length {
        assert buckets.Length == 0;
        assert NextLength(0, 2);
      }
    }

    /** Adds a node for a key that has none. Without room nothing changes; without memory for the
        node the table may have grown, and it stays valid exactly if the key's bucket is empty, for
        the head of that bucket is overwritten before bad_alloc is thrown. */
    method Insert(key: nat, val: V, memory: Memory) returns (outcome: Outcome, r: Node?<V>)
      requires Valid() && !HasKey(key)
      modifies this, buckets, nodes`next, nodes`rank
      ensures outcome == if !old(HasRoom(memory)) then NoTable else if !memory.node then NoNode else Done
      ensures r != null <==> outcome.Done?
      ensures !outcome.Done? ==> nodes == old(nodes)
      ensures outcome.NoTable? ==> Valid() && buckets == old(buckets) && buckets[..] == old(buckets[..])
      ensures outcome.NoTable? ==> forall n :: n in nodes ==> n.next == old(n.next)
      ensures !outcome.NoTable? ==> var length := buckets.Length; old(LengthForOneMore(length))
      ensures outcome.NoNode? ==> (Valid() <==> !old(Collides(key)))
      ensures outcome.NoNode? ==> old(Collides(key)) == SharesBucket(key, buckets.Length)
      ensures outcome.Done? ==>
        Valid() && fresh(r) && r.key == key && r.val == val && nodes == old(nodes) + {r}
      ensures buckets == old(buckets) || fresh(buckets)
      ensures !outcome.NoTable? && old(size < buckets.Length) ==> buckets == old(buckets)
      ensures !outcome.NoTable? && !old(size < buckets.Length) ==>
        NextLength(old(buckets.Length), buckets.Length)
    {
      hide Slot, Holds, IsPrime, NextLength, Growable, Collides;
      forall length: nat | LengthForOneMore(length)
        ensures Collides(key) <==> SharesBucket(key, length)
      {
        CollidesHere(key, length);
      }
      if size + 1 > buckets.Length {
        var ok := Grow(memory.table);
        if !ok {
          return NoTable, null;
        }
        NextLengthIsLonger(old(buckets.Length), buckets.Length);
      }
      ghost var length := buckets.Length;
      assert old(LengthForOneMore(length));
      if !memory.node {
        FailToLink(key);
        return NoNode, null;
      }
      r := LinkNew(key, val);
      outcome := Done;
    }

    method LinkNew(key: nat, val: V) returns (r: Node<V>)
      requires Valid() && !HasKey(key) && size < buckets.Length
      modifies this`size, this`nodes, buckets
      ensures Valid()
      ensures fresh(r) && r.key == key && r.val == val && nodes == old(nodes) + {r}
    {
      hide Slot, Holds, IsPrime;
      r := new Node(key, val);
      var h := Slot(hash, key, buckets.Length);
      Push(hash, buckets[..], nodes, r, buckets[h]);
      ghost var was := buckets[..];
      buckets[h] := r;
      assert buckets[..] == was[h := r];
      ghost var all: set<Node<V>> := nodes + {r};
      nodes, size := all, size + 1;
    }

    /** When no node can be allocated, the head of the bucket is overwritten before bad_alloc is
        thrown, and the chain behind it is lost. */
    method FailToLink(key: nat)
      requires Valid() && size < buckets.Length
      modifies buckets
      ensures Valid() <==> !old(SharesBucket(key, buckets.Length))
    {
      hide Slot, IsPrime;
      var h := Slot(hash, key, buckets.Length);
      ghost var was := buckets[..];
      SharingMeansChain(key);
      SlotMeans(hash, key, buckets.Length);
      assert HeadOk(hash, was, nodes, h);
      buckets[h] := null;
      if was[h] == null {
        assert buckets[..] == was;
      } else {
        assert !Headed(hash, buckets[..], nodes, was[h]);
      }
    }

    /** Unlinks and returns the node of a key. */
    method Unlink(key: nat) returns (p: Node?<V>)
      requires Valid()
      modifies this`size, this`nodes, buckets, nodes`next
      ensures Valid()
      ensures p == null <==> old(!HasKey(key))
      ensures p == null ==> nodes == old(nodes)
      ensures p != null ==> p in old(nodes) && p.key == key && nodes == old(nodes) - {p}
    {
      hide Slot, IsPrime;
      if buckets.Length == 0 {
        NoHeads(hash, buckets[..], nodes);
        return null;
      }
      hide Holds;
      var h := Slot(hash, key, buckets.Length);
      var q, node := Walk(key, h);
      p := node;
      if p == null {
        return;
      }
      Detach(h, q, p);
    }

    // Bucket h, or node q, takes over the next link of p.
    method Detach(h: nat, q: Node?<V>, p: Node<V>)
      requires Valid() && h < buckets.Length && p in nodes
      requires if q == null then p == buckets[h] else q in nodes && q.next == p
      modifies this`size, this`nodes, buckets, nodes`next
      ensures Valid() && nodes == old(nodes) - {p}
    {
      hide Slot, Holds, IsPrime;
      ghost var rest: set<Node<V>> := nodes - {p};
      assert |rest| == |nodes| - 1;
      if q == null {
        PopHead(hash, buckets[..], nodes, h);
        ghost var was := buckets[..];
        buckets[h] := p.next;
        assert buckets[..] == was[h := p.next];
      } else {
        Bypass(hash, buckets[..], nodes, q, p);
      }
      nodes, size := rest, size - 1;
    }
  }
}
