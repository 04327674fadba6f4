/** The debug database of libcxx/src/debug.cpp: two hash tables whose nodes point at each
    other, an iterator's node at its owner's node, a container's node at its live iterators. */
module DebugDb {
  import opened HashTable
  import opened Wrappers
  import M = OwnershipModel

  type CNode = Node<Back>
  type CNodeRef = Node?<Back>
  type INode = Node<CNodeRef>
  type INodeRef = Node?<CNodeRef>

  // beg_, end_ and cap_ of a container node: the live iterators are beg[..end].
  datatype Back = Back(beg: array<INodeRef>, end: nat)

  // ----- How the pointers represent a model

  // The back-pointers of c spell the list of its live iterators.
  ghost predicate RangeRep(m: M.Model, nodes: set<INode>, c: CNode)
    reads c`val, c.val.beg
  {
    && c.key in m.live
    && c.val.end == |m.live[c.key]| <= c.val.beg.Length
    && forall k :: 0 <= k < |m.live[c.key]| ==>
         c.val.beg[k] != null && c.val.beg[k] in nodes && c.val.beg[k].key == m.live[c.key][k]
  }

  // The owner pointer of i names its owner.
  ghost predicate OwnerRep(m: M.Model, containers: set<CNode>, i: INode)
    reads i`val
  {
    && i.key in m.owner
    && m.owner[i.key] == (if i.val == null then None else Some(i.val.key))
    && (i.val != null ==> i.val in containers)
  }

  ghost function Begs(containers: set<CNode>): set<object>
    reads containers`val
  {
    set c | c in containers :: c.val.beg
  }

  ghost predicate KeysAre<V>(keys: set<nat>, nodes: set<Node<V>>) {
    && DistinctKeys(nodes)
    && (forall n :: n in nodes ==> n.key in keys)
    && (forall x :: x in keys ==> exists n :: n in nodes && n.key == x)
  }

  ghost predicate OwnArray(containers: set<CNode>, c: CNode)
    reads containers`val, c`val
  {
    forall d :: d in containers && d != c ==> d.val.beg != c.val.beg
  }

  /** The pointers between the nodes represent the model; the links of the tables do not matter. */
  ghost predicate Linkage(m: M.Model, containers: set<CNode>, nodes: set<INode>)
    reads containers`val, nodes`val, Begs(containers)
  {
    && KeysAre(m.live.Keys, containers)
    && KeysAre(m.owner.Keys, nodes)
    && (forall c {:trigger RangeRep(m, nodes, c)} :: c in containers ==> RangeRep(m, nodes, c))
    && (forall c {:trigger OwnArray(containers, c)} :: c in containers ==> OwnArray(containers, c))
    && (forall i {:trigger OwnerRep(m, containers, i)} :: i in nodes ==> OwnerRep(m, containers, i))
  }

  lemma BegsPlus(containers: set<CNode>, c: CNode)
    ensures Begs(containers + {c}) == Begs(containers) + {c.val.beg}
  {
  }

  lemma LinkContainer(m: M.Model, containers: set<CNode>, nodes: set<INode>, c: CNode)
    requires Linkage(m, containers, nodes) && c.key !in m.live && c.val.end == 0
    requires c.val.beg !in Begs(containers)
    ensures Linkage(M.InsertC(m, c.key), containers + {c}, nodes)
  {
    var m', all: set<CNode> := M.InsertC(m, c.key), containers + {c};
    forall d | d in all ensures RangeRep(m', nodes, d) && OwnArray(all, d) {
      if d != c { assert RangeRep(m, nodes, d) && OwnArray(containers, d); }
    }
    forall i | i in nodes ensures OwnerRep(m', all, i) {
      assert OwnerRep(m, containers, i);
    }
  }

  lemma LinkIterator(m: M.Model, containers: set<CNode>, nodes: set<INode>, i: INode)
    requires Linkage(m, containers, nodes) && i.key !in m.owner && i.val == null
    ensures Linkage(M.InsertI(m, i.key), containers, nodes + {i})
  {
    var m', all: set<INode> := M.InsertI(m, i.key), nodes + {i};
    forall d | d in containers ensures RangeRep(m', all, d) {
      assert RangeRep(m, nodes, d);
    }
    forall j | j in all ensures OwnerRep(m', containers, j) {
      if j != i { assert OwnerRep(m, containers, j); }
    }
  }

  // ----- The steps that the operations are made of

  function SetOwner(m: M.Model, i: nat, o: Option<nat>): M.Model {
    m.(owner := m.owner[i := o])
  }

  function SetLive(m: M.Model, c: nat, s: seq<nat>): M.Model {
    m.(live := m.live[c := s])
  }

  /** i->__c_ = c */
  method Point(ghost m: M.Model, ghost containers: set<CNode>, ghost nodes: set<INode>, i: INode, c: CNodeRef)
    requires Linkage(m, containers, nodes) && i in nodes && (c != null ==> c in containers)
    modifies i`val
    ensures i.val == c
    ensures Linkage(SetOwner(m, i.key, if c == null then None else Some(c.key)), containers, nodes)
  {
    ghost var m' := SetOwner(m, i.key, if c == null then None else Some(c.key));
    i.val := c;
    assert i.key in m.owner;
    forall d | d in containers ensures RangeRep(m', nodes, d) && OwnArray(containers, d) {
      assert old(RangeRep(m, nodes, d) && OwnArray(containers, d));
    }
    forall j | j in nodes ensures OwnerRep(m', containers, j) {
      assert old(OwnerRep(m, containers, j));
    }
  }

  /** The growth of __c_node::__add: a full array is replaced by one of twice the length, and
      without memory for that bad_alloc is thrown and nothing changes. */
  method Reserve(ghost m: M.Model, ghost containers: set<CNode>, ghost nodes: set<INode>, c: CNode, available: bool)
    returns (ok: bool)
    requires Linkage(m, containers, nodes) && c in containers
    modifies c`val
    ensures Linkage(m, containers, nodes)
    ensures ok <==> old(c.val.end != c.val.beg.Length) || available
    ensures c.val.end == old(c.val.end)
    ensures !ok || old(c.val.end != c.val.beg.Length) ==> c.val == old(c.val)
    ensures ok && !old(c.val.end != c.val.beg.Length) ==>
      fresh(c.val.beg) && c.val.beg.Length == old(if c.val.beg.Length == 0 then 1 else 2 * c.val.beg.Length)
    ensures ok ==> c.val.end < c.val.beg.Length
  {
    assert RangeRep(m, nodes, c);
    var beg := c.val.beg;
    if c.val.end == beg.Length {
      var nc := 2 * beg.Length;
      if nc == 0 {
        nc := 1;
      }
      if !available {
        return false;
      }
      var bigger := new INodeRef[nc](_ => null);
      if nc > 1 {
        for k := 0 to nc / 2
          invariant forall j :: 0 <= j < k ==> bigger[j] == beg[j]
          invariant c.val == old(c.val)
        {
          bigger[k] := beg[k];
        }
      }
      Relocate(m, containers, nodes, c, bigger, nc / 2);
    }
    return true;
  }

  method Relocate(ghost m: M.Model, ghost containers: set<CNode>, ghost nodes: set<INode>, c: CNode,
                  bigger: array<INodeRef>, end: nat)
    requires Linkage(m, containers, nodes) && c in containers
    requires bigger !in Begs(containers) && end == c.val.end <= c.val.beg.Length && end <= bigger.Length
    requires forall j :: 0 <= j < end ==> bigger[j] == c.val.beg[j]
    modifies c`val
    ensures Linkage(m, containers, nodes)
    ensures c.val == Back(bigger, end)
  {
    c.val := Back(bigger, end);
    forall d | d in containers ensures RangeRep(m, nodes, d) && OwnArray(containers, d) {
      assert old(RangeRep(m, nodes, d) && OwnArray(containers, d));
      assert d != c ==> d.val.beg in old(Begs(containers));
    }
    forall i | i in nodes ensures OwnerRep(m, containers, i) {
      assert old(OwnerRep(m, containers, i));
    }
  }

  /** __c_node::__add: fails exactly if the array is full and no bigger one can be had. */
  method Add(ghost m: M.Model, ghost containers: set<CNode>, ghost nodes: set<INode>, c: CNode, i: INode,
             available: bool)
    returns (ok: bool)
    requires Linkage(m, containers, nodes) && c in containers && c.key in m.live && i in nodes
    modifies c`val, c.val.beg
    ensures ok <==> old(c.val.end != c.val.beg.Length) || available
    ensures ok ==> Linkage(SetLive(m, c.key, m.live[c.key] + [i.key]), containers, nodes)
    ensures !ok ==> Linkage(m, containers, nodes) && c.val == old(c.val)
    ensures ok && old(c.val.end != c.val.beg.Length) ==> c.val.beg == old(c.val.beg)
    ensures ok && !old(c.val.end != c.val.beg.Length) ==>
      fresh(c.val.beg) && c.val.beg.Length == old(if c.val.beg.Length == 0 then 1 else 2 * c.val.beg.Length)
  {
    hide Linkage;
    ok := Reserve(m, containers, nodes, c, available);
    if ok {
      Append(m, containers, nodes, c, i);
    }
  }

  method Append(ghost m: M.Model, ghost containers: set<CNode>, ghost nodes: set<INode>, c: CNode, i: INode)
    requires Linkage(m, containers, nodes) && c in containers && c.key in m.live && i in nodes
    requires c.val.end < c.val.beg.Length
    modifies c`val, c.val.beg
    ensures Linkage(SetLive(m, c.key, m.live[c.key] + [i.key]), containers, nodes)
    ensures c.val.beg == old(c.val.beg)
  {
    ghost var m' := SetLive(m, c.key, m.live[c.key] + [i.key]);
    assert RangeRep(m, nodes, c);
    c.val.beg[c.val.end] := i;
    c.val := c.val.(end := c.val.end + 1);
    forall d | d in containers ensures RangeRep(m', nodes, d) && OwnArray(containers, d) {
      assert old(RangeRep(m, nodes, d) && OwnArray(containers, d));
      assert d != c ==> d.key != c.key;
    }
    forall j | j in nodes ensures OwnerRep(m', containers, j) {
      assert old(OwnerRep(m, containers, j));
    }
  }

  /** std::find over the live range; p's registration is known to be in it. */
  method IndexOf(ghost m: M.Model, ghost containers: set<CNode>, ghost nodes: set<INode>, c: CNode, p: INode)
    returns (r: nat)
    requires Linkage(m, containers, nodes) && c in containers && p in nodes
    requires c.key in m.live && p.key in m.live[c.key]
    ensures r < c.val.end == |m.live[c.key]| <= c.val.beg.Length
    ensures m.live[c.key][r] == p.key && p.key !in m.live[c.key][..r]
  {
    assert RangeRep(m, nodes, c);
    r := 0;
    while r < c.val.end && c.val.beg[r] != p
      invariant 0 <= r <= c.val.end && p.key !in m.live[c.key][..r]
    {
      r := r + 1;
    }
  }

  /** The memmove of __c_node::__remove. */
  method ShiftDown(beg: array<INodeRef>, r: nat, end: nat)
    requires r <= end < beg.Length
    modifies beg
    ensures forall k :: 0 <= k < r ==> beg[k] == old(beg[k])
    ensures forall k :: r <= k < end ==> beg[k] == old(beg[k + 1])
  {
    for k := r to end
      invariant forall j :: 0 <= j < r ==> beg[j] == old(beg[j])
      invariant forall j :: r <= j < k ==> beg[j] == old(beg[j + 1])
      invariant forall j :: k <= j < beg.Length ==> beg[j] == old(beg[j])
    {
      beg[k] := beg[k + 1];
    }
  }

  /** __c_node::__remove */
  method Remove(ghost m: M.Model, ghost containers: set<CNode>, ghost nodes: set<INode>, c: CNode, p: INode)
    requires Linkage(m, containers, nodes) && c in containers && p in nodes
    requires c.key in m.live && p.key in m.live[c.key]
    modifies c`val, c.val.beg
    ensures Linkage(SetLive(m, c.key, M.Drop(m.live[c.key], p.key)), containers, nodes)
    ensures c.val.beg == old(c.val.beg)
  {
    var r := IndexOf(m, containers, nodes, c, p);
    ghost var live := m.live[c.key];
    M.DropAt(live, p.key, r);
    assert RangeRep(m, nodes, c);
    ghost var m' := SetLive(m, c.key, live[..r] + live[r + 1..]);
    var end := c.val.end - 1;
    c.val := c.val.(end := end);
    if end != r {
      ShiftDown(c.val.beg, r, end);
    }
    forall d | d in containers ensures RangeRep(m', nodes, d) && OwnArray(containers, d) {
      assert old(RangeRep(m, nodes, d) && OwnArray(containers, d));
      assert d != c ==> d.key != c.key;
    }
    forall j | j in nodes ensures OwnerRep(m', containers, j) {
      assert old(OwnerRep(m, containers, j));
    }
  }

  // The owners after redirecting every iterator of a list.
  function Redirect(owner: map<nat, Option<nat>>, s: seq<nat>, o: Option<nat>): map<nat, Option<nat>> {
    map i | i in owner :: if i in s then o else owner[i]
  }

  lemma RedirectOne(owner: map<nat, Option<nat>>, s: seq<nat>, x: nat, o: Option<nat>)
    requires x in owner
    ensures Redirect(owner, s, o)[x := o] == Redirect(owner, s + [x], o) == Redirect(owner, [x] + s, o)
  {
  }

  method Shrink(ghost m: M.Model, ghost containers: set<CNode>, ghost nodes: set<INode>, c: CNode)
    requires Linkage(m, containers, nodes) && c in containers && c.key in m.live && c.val.end > 0
    modifies c`val
    ensures c.val == old(c.val.(end := c.val.end - 1)) && c.val.end == |m.live[c.key]| - 1
    ensures c.val.end < c.val.beg.Length
    ensures Linkage(SetLive(m, c.key, m.live[c.key][..c.val.end]), containers, nodes)
  {
    assert RangeRep(m, nodes, c);
    c.val := c.val.(end := c.val.end - 1);
    ghost var m' := SetLive(m, c.key, m.live[c.key][..c.val.end]);
    forall d | d in containers ensures RangeRep(m', nodes, d) && OwnArray(containers, d) {
      assert old(RangeRep(m, nodes, d) && OwnArray(containers, d));
      assert d != c ==> d.key != c.key;
    }
    forall j | j in nodes ensures OwnerRep(m', containers, j) {
      assert old(OwnerRep(m, containers, j));
    }
  }

  // The model once the live iterators of c from number e on have lost their owner.
  function Cleared(m: M.Model, c: nat, e: nat): M.Model
    requires c in m.live && e <= |m.live[c]|
  {
    M.Model(Redirect(m.owner, m.live[c][e..], None), m.live[c := m.live[c][..e]])
  }

  lemma ClearedStep(m: M.Model, c: nat, e: nat)
    requires c in m.live && e < |m.live[c]| && m.live[c][e] in m.owner
    ensures SetOwner(SetLive(Cleared(m, c, e + 1), c, m.live[c][..e]), m.live[c][e], None) == Cleared(m, c, e)
  {
    var live := m.live[c];
    RedirectOne(m.owner, live[e + 1..], live[e], None);
    assert [live[e]] + live[e + 1..] == live[e..];
    assert m.live[c := live[..e + 1]][c := live[..e]] == m.live[c := live[..e]];
  }

  lemma ClearedEnds(m: M.Model, c: nat)
    requires c in m.live
    ensures Cleared(m, c, |m.live[c]|) == m
    ensures Cleared(m, c, 0) == M.Model(Redirect(m.owner, m.live[c], None), m.live[c := []])
  {
    var live := m.live[c];
    assert live[..|live|] == live && live[0..] == live;
    assert Redirect(m.owner, [], None) == m.owner && m.live[c := live] == m.live;
  }

  /** --end_; (*end_)->__c_ = nullptr; */
  method ClearLast(ghost m: M.Model, ghost containers: set<CNode>, ghost nodes: set<INode>, c: CNode)
    requires c in containers && c.key in m.live && 0 < c.val.end <= |m.live[c.key]|
    requires Linkage(Cleared(m, c.key, c.val.end), containers, nodes)
    modifies c`val, nodes`val
    ensures c.val == old(c.val.(end := c.val.end - 1))
    ensures Linkage(Cleared(m, c.key, c.val.end), containers, nodes)
  {
    ghost var now := Cleared(m, c.key, c.val.end);
    assert RangeRep(now, nodes, c);
    var last := c.val.beg[c.val.end - 1];
    assert last.key == m.live[c.key][c.val.end - 1] && OwnerRep(now, containers, last);
    Shrink(now, containers, nodes, c);
    assert m.live[c.key][..c.val.end + 1][..c.val.end] == m.live[c.key][..c.val.end];
    ClearedStep(m, c.key, c.val.end);
    Point(SetLive(now, c.key, m.live[c.key][..c.val.end]), containers, nodes, last, null);
  }

  /** The loop of __invalidate_all and __erase_c: every live iterator loses its owner. */
  method Clear(ghost m: M.Model, ghost containers: set<CNode>, ghost nodes: set<INode>, c: CNode)
    requires Linkage(m, containers, nodes) && c in containers && c.key in m.live
    modifies c`val, nodes`val
    ensures c.val.beg == old(c.val.beg)
    ensures Linkage(M.Model(Redirect(m.owner, m.live[c.key], None), m.live[c.key := []]), containers, nodes)
  {
    assert RangeRep(m, nodes, c);
    ClearedEnds(m, c.key);
    hide Linkage;
    while c.val.end != 0
      invariant c.val.beg == old(c.val.beg) && c.val.end <= |m.live[c.key]|
      invariant Linkage(Cleared(m, c.key, c.val.end), containers, nodes)
      decreases c.val.end
    {
      ClearLast(m, containers, nodes, c);
    }
  }

  // The model once the first k live iterators of c have been pointed at c.
  function Claimed(m: M.Model, c: nat, k: nat): M.Model
    requires c in m.live && k <= |m.live[c]|
  {
    m.(owner := Redirect(m.owner, m.live[c][..k], Some(c)))
  }

  lemma ClaimedStep(m: M.Model, c: nat, k: nat)
    requires c in m.live && k < |m.live[c]| && m.live[c][k] in m.owner
    ensures SetOwner(Claimed(m, c, k), m.live[c][k], Some(c)) == Claimed(m, c, k + 1)
  {
    RedirectOne(m.owner, m.live[c][..k], m.live[c][k], Some(c));
    assert m.live[c][..k + 1] == m.live[c][..k] + [m.live[c][k]];
  }

  /** The loops of swap: every live iterator of c is pointed back at c. */
  method Claim(ghost m: M.Model, ghost containers: set<CNode>, ghost nodes: set<INode>, c: CNode)
    requires Linkage(m, containers, nodes) && c in containers && c.key in m.live
    modifies nodes`val
    ensures Linkage(m.(owner := Redirect(m.owner, m.live[c.key], Some(c.key))), containers, nodes)
  {
    ghost var live := m.live[c.key];
    assert RangeRep(m, nodes, c);
    assert Claimed(m, c.key, 0) == m by { assert Redirect(m.owner, [], Some(c.key)) == m.owner; }
    for k := 0 to c.val.end
      invariant c.val.end == |live| && Linkage(Claimed(m, c.key, k), containers, nodes)
    {
      ghost var now := Claimed(m, c.key, k);
      assert RangeRep(now, nodes, c);
      var i := c.val.beg[k];
      assert OwnerRep(now, containers, i);
      ClaimedStep(m, c.key, k);
      Point(now, containers, nodes, i, c);
    }
    assert live[..|live|] == live;
  }

  /** The three std::swap calls on the ranges of two nodes. */
  method SwapRanges(ghost m: M.Model, ghost containers: set<CNode>, ghost nodes: set<INode>, p1: CNode, p2: CNode)
    requires Linkage(m, containers, nodes) && p1 in containers && p2 in containers
    requires p1.key in m.live && p2.key in m.live
    modifies p1`val, p2`val
    ensures Linkage(m.(live := m.live[p1.key := m.live[p2.key]][p2.key := m.live[p1.key]]), containers, nodes)
    ensures p1.val == old(p2.val) && p2.val == old(p1.val)
  {
    ghost var m' := m.(live := m.live[p1.key := m.live[p2.key]][p2.key := m.live[p1.key]]);
    assert RangeRep(m, nodes, p1) && RangeRep(m, nodes, p2);
    assert OwnArray(containers, p1) && OwnArray(containers, p2);
    var back := p1.val;
    p1.val := p2.val;
    p2.val := back;
    forall d | d in containers ensures RangeRep(m', nodes, d) && OwnArray(containers, d) {
      assert old(RangeRep(m, nodes, d) && OwnArray(containers, d));
      assert (d != p1 ==> d.key != p1.key) && (d != p2 ==> d.key != p2.key);
    }
    forall j | j in nodes ensures OwnerRep(m', containers, j) {
      assert old(OwnerRep(m, containers, j));
    }
  }

  // ----- Nodes that leave their table

  lemma UnlinkIterator(m: M.Model, containers: set<CNode>, nodes: set<INode>, p: INode)
    requires Linkage(m, containers, nodes) && p in nodes
    requires forall c :: c in m.live ==> p.key !in m.live[c]
    ensures Linkage(m.(owner := m.owner - {p.key}), containers, nodes - {p})
  {
    var m', rest: set<INode> := m.(owner := m.owner - {p.key}), nodes - {p};
    assert KeysAre(m'.owner.Keys, rest) by {
      forall x | x in m'.owner ensures exists n :: n in rest && n.key == x {
        var n :| n in nodes && n.key == x;
        assert n in rest;
      }
    }
    forall d | d in containers ensures RangeRep(m', rest, d) {
      assert RangeRep(m, nodes, d);
      assert forall k :: 0 <= k < |m.live[d.key]| ==> m.live[d.key][k] in m.live[d.key];
    }
    forall j | j in rest ensures OwnerRep(m', containers, j) {
      assert OwnerRep(m, containers, j);
    }
  }

  lemma UnlinkContainer(m: M.Model, containers: set<CNode>, nodes: set<INode>, p: CNode)
    requires Linkage(m, containers, nodes) && p in containers
    requires forall i :: i in m.owner ==> m.owner[i] != Some(p.key)
    ensures Linkage(m.(live := m.live - {p.key}), containers - {p}, nodes)
  {
    var m', rest: set<CNode> := m.(live := m.live - {p.key}), containers - {p};
    assert KeysAre(m'.live.Keys, rest) by {
      forall x | x in m'.live ensures exists n :: n in rest && n.key == x {
        var n :| n in containers && n.key == x;
        assert n in rest;
      }
    }
    forall d | d in rest ensures RangeRep(m', nodes, d) && OwnArray(rest, d) {
      assert RangeRep(m, nodes, d) && OwnArray(containers, d);
    }
    forall j | j in nodes ensures OwnerRep(m', rest, j) {
      assert OwnerRep(m, containers, j);
    }
  }

  // ----- The steps put together, on models

  // The state that __iterator_copy throws in when the back-pointers of the owner cannot grow.
  ghost predicate Uncoupled(m: M.Model, i: nat, o: Option<nat>, m': M.Model) {
    i in m.owner && o.Some? && m' == SetOwner(M.Detach(m, i), i, o) && !M.Coupled(m')
  }

  lemma CopyCases(m: M.Model, i: nat, i0: nat)
    ensures var m1 := if i in m.owner || i0 !in m.owner then m else M.InsertI(m, i);
            M.IteratorCopy(m, i, i0) ==
            if i in m1.owner then M.Assign(m1, i, if i0 in m.owner then m.owner[i0] else None) else m
  {
  }

  // Once detached, an iterator that merely points at an owner is not coupled.
  lemma LeaveSteps(m: M.Model, i: nat, o: Option<nat>)
    requires M.Coupled(m) && i in m.owner && (o.Some? ==> o.value in m.live)
    ensures M.Detach(m, i).live.Keys == m.live.Keys && i in M.Detach(m, i).owner
    ensures o.Some? ==> Uncoupled(m, i, o, SetOwner(M.Detach(m, i), i, o))
    ensures o.Some? ==> var d := M.Detach(m, i);
            SetLive(SetOwner(d, i, o), o.value, d.live[o.value] + [i]) == M.Attach(d, i, o.value)
    ensures m.owner[i] != o ==>
      M.Assign(m, i, o) == if o.None? then M.Detach(m, i) else M.Attach(M.Detach(m, i), i, o.value)
  {
    M.DetachKeepsCoupling(m, i);
    UnownedIsUnlisted(M.Detach(m, i), i);
    if o.Some? {
      assert !M.OwnerOk(SetOwner(M.Detach(m, i), i, o), i);
    }
  }

  lemma DetachSteps(m: M.Model, i: nat)
    requires M.Coupled(m) && i in m.owner && m.owner[i].Some?
    ensures m.owner[i].value in m.live && i in m.live[m.owner[i].value]
    ensures var c := m.owner[i].value;
            SetOwner(SetLive(m, c, M.Drop(m.live[c], i)), i, None) == M.Detach(m, i)
    ensures forall c :: c in m.live ==> i !in M.Detach(m, i).live[c]
  {
    assert M.OwnerOk(m, i);
    var c := m.owner[i].value;
    assert M.ListOk(m, c);
    M.DropMembers(m.live[c], i);
    forall x | x in m.live ensures i !in M.Detach(m, i).live[x] {
      assert M.ListOk(m, x);
    }
  }

  lemma UnownedIsUnlisted(m: M.Model, i: nat)
    requires M.Coupled(m) && i in m.owner && m.owner[i] == None
    ensures forall c :: c in m.live ==> i !in m.live[c]
  {
    forall c | c in m.live ensures i !in m.live[c] {
      assert M.ListOk(m, c);
    }
  }

  // What __erase_i leaves of the model before the iterator itself is forgotten.
  lemma EraseSteps(m: M.Model, i: nat) returns (d: M.Model)
    requires M.Coupled(m) && i in m.owner
    ensures m.owner[i].Some? ==>
      var c := m.owner[i].value; c in m.live && i in m.live[c] && d == SetLive(m, c, M.Drop(m.live[c], i))
    ensures m.owner[i].None? ==> d == m
    ensures forall c :: c in d.live ==> i !in d.live[c]
    ensures d.(owner := d.owner - {i}) == M.EraseI(m, i)
  {
    d := m;
    if m.owner[i].Some? {
      DetachSteps(m, i);
      d := SetLive(m, m.owner[i].value, M.Drop(m.live[m.owner[i].value], i));
      assert d.owner - {i} == M.Detach(m, i).owner - {i};
    } else {
      UnownedIsUnlisted(m, i);
    }
  }

  lemma ClearSteps(m: M.Model, c: nat)
    requires M.Coupled(m) && c in m.live
    ensures M.Model(Redirect(m.owner, m.live[c], None), m.live[c := []]) == M.InvalidateAll(m, c)
    ensures forall i :: i in m.owner ==> M.InvalidateAll(m, c).owner[i] != Some(c)
  {
    assert M.ListOk(m, c);
    assert forall i :: i in m.owner ==> M.OwnerOk(m, i);
    assert Redirect(m.owner, m.live[c], None) == M.InvalidateAll(m, c).owner;
  }

  lemma SwapSteps(m: M.Model, c1: nat, c2: nat)
    requires M.Coupled(m) && c1 in m.live && c2 in m.live
    ensures var live := m.live[c1 := m.live[c2]][c2 := m.live[c1]];
            var owner := Redirect(Redirect(m.owner, live[c1], Some(c1)), live[c2], Some(c2));
            M.Model(owner, live) == M.Swap(m, c1, c2)
  {
    var live := m.live[c1 := m.live[c2]][c2 := m.live[c1]];
    var owner := Redirect(Redirect(m.owner, live[c1], Some(c1)), live[c2], Some(c2));
    assert M.ListOk(m, c1) && M.ListOk(m, c2);
    forall i | i in m.owner ensures owner[i] == M.Swap(m, c1, c2).owner[i] {
      assert M.OwnerOk(m, i);
    }
    assert owner == M.Swap(m, c1, c2).owner;
  }

  /** The model that a call leaves behind, by its outcome. */
  ghost predicate After(m: M.Model, call: M.Call, memory: Memory, outcome: Outcome, m': M.Model)
    requires M.Legal(m, call)
  {
    match outcome
    case Done => m' == M.Apply(m, call)
    case NoTable => m' == m
    case NoNode => m' == m && !memory.node
    case NoArray =>
      && !memory.back
      && match call
         case CallInsertIC(i, c) => m' == M.InsertI(m, i)
         case CallIteratorCopy(i, i0) =>
           i0 in m.owner && Uncoupled(if i in m.owner then m else M.InsertI(m, i), i, m.owner[i0], m')
         case _ => false
  }

  // ----- The database

  class DebugDb {
    const ctab: Table<Back>
    const itab: Table<CNodeRef>
    var locked: bool  // the mutex, which only __find_c_and_lock leaves locked

    // The two tables share nothing, and bucket arrays are no back-pointer arrays.
    ghost predicate Apart()
      reads ctab, itab, ctab.nodes`val
    {
      && ctab as object != itab && ctab.buckets as object != itab.buckets
      && ctab.buckets !in Begs(ctab.nodes) && itab.buckets !in Begs(ctab.nodes)
      && forall c, i :: c in ctab.nodes && i in itab.nodes ==> c as object != i
    }

    /** The tables and their cross pointers represent the model m. */
    ghost predicate Represents(m: M.Model)
      reads ctab, itab, ctab.buckets, itab.buckets, ctab.nodes, itab.nodes, Begs(ctab.nodes)
    {
      Apart() && ctab.Valid() && itab.Valid() && Linkage(m, ctab.nodes, itab.nodes)
    }

    /** All objects of the database. */
    ghost function Repr(): set<object>
      reads ctab, itab, ctab.nodes`val
    {
      {ctab as object, itab, ctab.buckets, itab.buckets}
      + (set c | c in ctab.nodes :: c as object) + (set i | i in itab.nodes :: i as object) + Begs(ctab.nodes)
    }

    /** The back-pointer array of a container has no free place. */
    ghost predicate IsFull(c: nat)
      reads ctab, ctab.nodes`val
    {
      exists p :: p in ctab.nodes && p.key == c && p.val.end == p.val.beg.Length
    }

    constructor (hash: nat -> nat)
      ensures Represents(M.Model(map[], map[])) && fresh(Repr())
      ensures ctab.hash == hash && itab.hash == hash && !locked
      ensures ctab.nodes == {} && ctab.buckets.Length == 0
    {
      hide Represents, Repr, Table.Valid;
      ctab := new Table<Back>(hash);
      itab := new Table<CNodeRef>(hash);
      locked := false;
      new;
      Empty();
    }

    lemma Empty()
      requires ctab.Valid() && itab.Valid() && ctab.nodes == {} && itab.nodes == {}
      requires ctab as object != itab && ctab.buckets as object != itab.buckets
      ensures Represents(M.Model(map[], map[])) && Repr() == {ctab, itab, ctab.buckets, itab.buckets}
    {
      hide Table.Valid;
    }

    lemma RoomInTables(m: M.Model, memory: Memory)
      requires Represents(m) && |m.live.Keys| <= 1 && |m.owner.Keys| <= 1 && memory.table
      ensures ctab.HasRoom(memory) && itab.HasRoom(memory)
    {
      hide Table.Valid, Table.HasRoom;
      AtMostOne(m.live.Keys, ctab.nodes);
      AtMostOne(m.owner.Keys, itab.nodes);
      ctab.RoomForTwo(memory);
      itab.RoomForTwo(memory);
    }

    lemma TwoContainerBuckets(m: M.Model, length: nat)
      requires Represents(m) && ctab.nodes == {} && ctab.buckets.Length == 0 && ctab.LengthForOneMore(length)
      ensures length == 2
    {
      hide Table.LengthForOneMore;
      ctab.TwoAtFirst(length);
    }

    lemma OneContainer(m: M.Model)
      requires Represents(m) && |m.live.Keys| <= 1
      ensures ctab.size <= 1
    {
      AtMostOne(m.live.Keys, ctab.nodes);
    }

    lemma KnownKeys(m: M.Model, x: nat)
      requires Represents(m)
      ensures x in m.live <==> ctab.HasKey(x)
      ensures x in m.owner <==> itab.HasKey(x)
    {
      hide Table.Valid;
    }

    // A new container node in its table; the model does not list it yet.
    method NewContainer(ghost m: M.Model, c: nat, memory: Memory) returns (outcome: Outcome, r: CNodeRef)
      requires Represents(m) && !ctab.HasKey(c)
      modifies ctab, ctab.buckets, ctab.nodes`next, ctab.nodes`rank
      ensures !outcome.NoTable? ==> var length := ctab.buckets.Length; old(ctab.LengthForOneMore(length))
      ensures outcome == if !old(ctab.HasRoom(memory)) then NoTable else if !memory.node then NoNode else Done
      ensures Apart() && itab.Valid() && Linkage(m, old(ctab.nodes), itab.nodes)
      ensures ctab.Valid() <==> !(outcome.NoNode? && old(ctab.Collides(c)))
      ensures outcome.NoNode? ==> old(ctab.Collides(c)) == ctab.SharesBucket(c, ctab.buckets.Length)
      ensures r != null <==> outcome.Done?
      ensures r == null ==> ctab.nodes == old(ctab.nodes) && Begs(ctab.nodes) == old(Begs(ctab.nodes))
      ensures r != null ==> r.key == c && r.val.end == 0 && r.val.beg !in old(Begs(ctab.nodes))
      ensures r != null ==> r.val.beg.Length == 0
      ensures r != null ==> fresh(r) && fresh(r.val.beg) && ctab.nodes == old(ctab.nodes) + {r}
      ensures r != null ==> Begs(ctab.nodes) == old(Begs(ctab.nodes)) + {r.val.beg}
      ensures r != null ==> Begs(old(ctab.nodes)) == old(Begs(ctab.nodes))
      ensures ctab.buckets == old(ctab.buckets) || fresh(ctab.buckets)
    {
      hide Table.Valid, Linkage, Table.HasRoom, Table.Collides;
      var beg := new INodeRef[0];
      ghost var containers, begs := ctab.nodes, Begs(ctab.nodes);
      outcome, r := ctab.Insert(c, Back(beg, 0), memory);
      assert Begs(containers) == begs && beg !in begs;
      if r != null {
        BegsPlus(containers, r);
      }
    }

    /** __insert_c: registers a container. Without room in the table nothing changes; without
        memory for the node the table is broken exactly if another container is in the bucket. */
    method InsertC(ghost m: M.Model, c: nat, memory: Memory) returns (outcome: Outcome, ghost m': M.Model)
      requires Represents(m) && M.Coupled(m) && c !in m.live
      modifies ctab, ctab.buckets, ctab.nodes`next, ctab.nodes`rank
      ensures !outcome.NoTable? ==> var length := ctab.buckets.Length; old(ctab.LengthForOneMore(length))
      ensures outcome == if !old(ctab.HasRoom(memory)) then NoTable else if !memory.node then NoNode else Done
      ensures m' == (if outcome.Done? then M.InsertC(m, c) else m) && M.Coupled(m')
      ensures Represents(m') <==> !(outcome.NoNode? && old(ctab.Collides(c)))
      ensures outcome.Done? ==> IsFull(c)
      ensures outcome.NoNode? ==> old(ctab.Collides(c)) == ctab.SharesBucket(c, ctab.buckets.Length)
      ensures fresh(Repr() - old(Repr()))
    {
      hide Represents, Linkage, Table.Valid, M.Coupled, Apart, Begs, Table.HasRoom, Table.Collides;
      KnownKeys(m, c);
      M.InsertCKeepsCoupling(m, c);
      var r;
      outcome, r := NewContainer(m, c, memory);
      assert fresh(Repr() - old(Repr()));
      hide Repr;
      ListContainer(m, old(ctab.nodes), r);
      m' := if r != null then M.InsertC(m, c) else m;
    }

    // The model that lists a new container node, if there is one.
    lemma ListContainer(m: M.Model, containers: set<CNode>, r: CNodeRef)
      requires Apart() && itab.Valid() && Linkage(m, containers, itab.nodes)
      requires ctab.nodes == if r == null then containers else containers + {r}
      requires r != null ==> r.key !in m.live && r.val.end == 0 && r.val.beg !in Begs(containers)
      ensures Represents(if r != null then M.InsertC(m, r.key) else m) <==> ctab.Valid()
    {
      if r != null {
        LinkContainer(m, containers, itab.nodes, r);
      }
    }

    // ----- The pointer steps, within the database

    method PointAt(ghost m: M.Model, i: INode, c: CNodeRef)
      requires Represents(m) && i in itab.nodes && (c != null ==> c in ctab.nodes)
      modifies i`val
      ensures Represents(SetOwner(m, i.key, if c == null then None else Some(c.key)))
      ensures i.val == c && Begs(ctab.nodes) == old(Begs(ctab.nodes))
    {
      hide Linkage, Table.Valid;
      Point(m, ctab.nodes, itab.nodes, i, c);
    }

    method AddTo(ghost m: M.Model, c: CNode, i: INode, available: bool) returns (ok: bool)
      requires Represents(m) && c in ctab.nodes && c.key in m.live && i in itab.nodes
      modifies c`val, c.val.beg
      ensures ok <==> old(c.val.end != c.val.beg.Length) || available
      ensures Represents(if ok then SetLive(m, c.key, m.live[c.key] + [i.key]) else m)
      ensures ok && !old(c.val.end != c.val.beg.Length) ==>
        c.val.beg.Length == old(if c.val.beg.Length == 0 then 1 else 2 * c.val.beg.Length)
      ensures fresh(Begs(ctab.nodes) - old(Begs(ctab.nodes)))
    {
      hide Linkage, Table.Valid;
      ghost var begs := Begs(ctab.nodes);
      ok := Add(m, ctab.nodes, itab.nodes, c, i, available);
      assert Begs(ctab.nodes) <= begs + {c.val.beg};
    }

    method RemoveFrom(ghost m: M.Model, c: CNode, i: INode)
      requires Represents(m) && c in ctab.nodes && i in itab.nodes
      requires c.key in m.live && i.key in m.live[c.key]
      modifies c`val, c.val.beg
      ensures Represents(SetLive(m, c.key, M.Drop(m.live[c.key], i.key)))
      ensures c.val.beg == old(c.val.beg) && Begs(ctab.nodes) <= old(Begs(ctab.nodes))
    {
      hide Linkage, Table.Valid;
      ghost var begs := Begs(ctab.nodes);
      Remove(m, ctab.nodes, itab.nodes, c, i);
      assert Begs(ctab.nodes) <= begs;
    }

    method ClearAll(ghost m: M.Model, c: CNode)
      requires Represents(m) && c in ctab.nodes && c.key in m.live
      modifies c`val, itab.nodes`val
      ensures Represents(M.Model(Redirect(m.owner, m.live[c.key], None), m.live[c.key := []]))
      ensures c.val.beg == old(c.val.beg) && Begs(ctab.nodes) <= old(Begs(ctab.nodes))
    {
      hide Linkage, Table.Valid;
      ghost var begs := Begs(ctab.nodes);
      Clear(m, ctab.nodes, itab.nodes, c);
      assert Begs(ctab.nodes) <= begs;
    }

    method SwapBacks(ghost m: M.Model, p1: CNode, p2: CNode)
      requires Represents(m) && p1 in ctab.nodes && p2 in ctab.nodes && p1.key in m.live && p2.key in m.live
      modifies p1`val, p2`val
      ensures Represents(m.(live := m.live[p1.key := m.live[p2.key]][p2.key := m.live[p1.key]]))
      ensures Begs(ctab.nodes) <= old(Begs(ctab.nodes))
    {
      hide Linkage, Table.Valid;
      ghost var begs := Begs(ctab.nodes);
      SwapRanges(m, ctab.nodes, itab.nodes, p1, p2);
      assert Begs(ctab.nodes) <= begs;
    }

    method ClaimAll(ghost m: M.Model, c: CNode)
      requires Represents(m) && c in ctab.nodes && c.key in m.live
      modifies itab.nodes`val
      ensures Represents(m.(owner := Redirect(m.owner, m.live[c.key], Some(c.key))))
      ensures Begs(ctab.nodes) == old(Begs(ctab.nodes))
    {
      hide Linkage, Table.Valid;
      Claim(m, ctab.nodes, itab.nodes, c);
    }

    // ----- The finders

    /** The chain walk to a container's node: null for an unknown container; the back-pointers
        of a registered one spell its live iterators in order. */
    method FindC(ghost m: M.Model, c: nat) returns (p: CNodeRef)
      requires Represents(m)
      ensures p == null <==> c !in m.live
      ensures p != null ==> p in ctab.nodes && p.key == c && RangeRep(m, itab.nodes, p)
      ensures Represents(m) && Repr() == old(Repr())
    {
      KnownKeys(m, c);
      hide Table.Valid;
      p := ctab.Find(c);
    }

    /** __find_c_and_lock: the mutex stays locked exactly if the container is registered. */
    method FindCAndLock(ghost m: M.Model, c: nat) returns (p: CNodeRef)
      requires Represents(m) && !locked
      modifies this`locked
      ensures Represents(m) && locked == (c in m.live)
      ensures p == null <==> c !in m.live
      ensures p != null ==> p in ctab.nodes && p.key == c && RangeRep(m, itab.nodes, p)
    {
      hide Linkage, Table.Valid, Apart;
      assert this !in Begs(ctab.nodes);
      locked := true;
      p := FindC(m, c);
      if p == null {
        Unlock();
      }
    }

    method Unlock()
      requires locked
      modifies this`locked
      ensures !locked
    {
      locked := false;
    }

    // __find_iterator
    method FindIterator(ghost m: M.Model, i: nat) returns (p: INodeRef)
      requires Represents(m)
      ensures p == null <==> i !in m.owner
      ensures p != null ==> p in itab.nodes && p.key == i && OwnerRep(m, ctab.nodes, p)
      ensures Repr() == old(Repr())
    {
      KnownKeys(m, i);
      hide Table.Valid;
      p := itab.Find(i);
    }

    /** __find_c_from_i: the owner of a registered iterator. */
    method FindCFromI(ghost m: M.Model, i: nat) returns (owner: Option<nat>)
      requires Represents(m) && i in m.owner
      ensures owner == m.owner[i]
    {
      hide Represents;
      var p := FindIterator(m, i);
      owner := if p.val != null then Some(p.val.key) else None;
    }

    /** __less_than_comparable: both iterators are registered and have the same owner. */
    method LessThanComparable(ghost m: M.Model, i: nat, j: nat) returns (r: bool)
      requires Represents(m)
      ensures r <==> i in m.owner && j in m.owner && m.owner[i].Some? && m.owner[i] == m.owner[j]
    {
      var p := FindIterator(m, i);
      var q := FindIterator(m, j);
      var ci := if p != null then p.val else null;
      var cj := if q != null then q.val else null;
      r := ci != null && ci == cj;
      if ci != null && cj != null && ci.key == cj.key {
        assert ci == cj;
      }
    }

    // ----- The iterator operations

    // A new iterator node in its table; the model does not know it yet.
    method NewIterator(ghost m: M.Model, i: nat, memory: Memory) returns (outcome: Outcome, r: INodeRef)
      requires Represents(m) && !itab.HasKey(i)
      modifies itab, itab.buckets, itab.nodes`next, itab.nodes`rank
      ensures outcome == if !old(itab.HasRoom(memory)) then NoTable else if !memory.node then NoNode else Done
      ensures Apart() && ctab.Valid() && Linkage(m, ctab.nodes, old(itab.nodes))
      ensures itab.Valid() <==> !(outcome.NoNode? && old(itab.Collides(i)))
      ensures outcome.NoNode? ==> old(itab.Collides(i)) == itab.SharesBucket(i, itab.buckets.Length)
      ensures r != null <==> outcome.Done?
      ensures r == null ==> itab.nodes == old(itab.nodes)
      ensures r != null ==> fresh(r) && r.key == i && r.val == null && itab.nodes == old(itab.nodes) + {r}
      ensures itab.buckets == old(itab.buckets) || fresh(itab.buckets)
      ensures ctab.nodes == old(ctab.nodes) && Begs(ctab.nodes) == old(Begs(ctab.nodes))
    {
      hide Table.Valid, Linkage, Table.HasRoom, Table.Collides;
      outcome, r := itab.Insert(i, null, memory);
    }

    /** __insert_iterator, __insert_i: registers an iterator without owner. It fails as the
        registration of a container does. */
    method InsertI(ghost m: M.Model, i: nat, memory: Memory) returns (outcome: Outcome, r: INodeRef, ghost m': M.Model)
      requires Represents(m) && M.Coupled(m) && i !in m.owner
      modifies itab, itab.buckets, itab.nodes`next, itab.nodes`rank
      ensures outcome == if !old(itab.HasRoom(memory)) then NoTable else if !memory.node then NoNode else Done
      ensures m' == (if outcome.Done? then M.InsertI(m, i) else m) && M.Coupled(m')
      ensures Represents(m') <==> !(outcome.NoNode? && old(itab.Collides(i)))
      ensures outcome.NoNode? ==> old(itab.Collides(i)) == itab.SharesBucket(i, itab.buckets.Length)
      ensures r != null <==> outcome.Done?
      ensures r == null ==> itab.nodes == old(itab.nodes)
      ensures r != null ==> fresh(r) && r.key == i && r.val == null && itab.nodes == old(itab.nodes) + {r}
      ensures itab.buckets == old(itab.buckets) || fresh(itab.buckets)
      ensures ctab.nodes == old(ctab.nodes) && Begs(ctab.nodes) == old(Begs(ctab.nodes))
      ensures fresh(Repr() - old(Repr()))
    {
      hide Represents, Table.Valid, Linkage, M.Coupled, Apart, Table.HasRoom, Table.Collides;
      KnownKeys(m, i);
      M.InsertIKeepsCoupling(m, i);
      outcome, r := NewIterator(m, i, memory);
      assert fresh(Repr() - old(Repr()));
      hide Repr;
      ListIterator(m, old(itab.nodes), r);
      m' := if r != null then M.InsertI(m, i) else m;
    }

    // The model that knows a new iterator node, if there is one.
    lemma ListIterator(m: M.Model, nodes: set<INode>, r: INodeRef)
      requires Apart() && ctab.Valid() && Linkage(m, ctab.nodes, nodes)
      requires itab.nodes == if r == null then nodes else nodes + {r}
      requires r != null ==> r.key !in m.owner && r.val == null
      ensures Represents(if r != null then M.InsertI(m, r.key) else m) <==> itab.Valid()
    {
      if r != null {
        LinkIterator(m, ctab.nodes, nodes, r);
      }
    }

    /** __insert_ic: registers an iterator with its owner, or nothing when the owner is unknown.
        When only the owner's array cannot grow, the iterator is left without owner. */
    method InsertIC(ghost m: M.Model, i: nat, c: nat, memory: Memory) returns (outcome: Outcome, ghost m': M.Model)
      requires Represents(m) && M.Coupled(m) && i !in m.owner
      modifies itab, itab.buckets, itab.nodes, ctab.nodes`val, Begs(ctab.nodes)
      ensures outcome ==
        if c !in m.live then Done
        else if !old(itab.HasRoom(memory)) then NoTable
        else if !memory.node then NoNode
        else if old(IsFull(c)) && !memory.back then NoArray
        else Done
      ensures m' == match outcome
        case Done => M.InsertIC(m, i, c) case NoArray => M.InsertI(m, i) case _ => m
      ensures M.Coupled(m')
      ensures Represents(m') <==> !(outcome.NoNode? && old(itab.Collides(i)))
      ensures outcome.NoNode? ==> old(itab.Collides(i)) == itab.SharesBucket(i, itab.buckets.Length)
      ensures outcome.NoNode? ==> itab.nodes == old(itab.nodes)
      ensures fresh(Repr() - old(Repr()))
    {
      hide Represents, Repr, M.Coupled, Table.HasRoom, Table.Collides, IsFull;
      var p := FindC(m, c);
      if p == null {
        return Done, m;
      }
      FullArrayOf(m, p);
      M.InsertICKeepsCoupling(m, i, c);
      var node;
      label Found:
      outcome, node, m' := InsertI(m, i, memory);
      ghost var repr := Repr();
      assert forall o :: o in repr && o !in old(Repr()) ==> fresh@Found(o);
      if node == null {
        return;
      }
      ghost var begs := Begs(ctab.nodes);
      assert p.val.beg in begs;
      label Registered:
      var ok := AddThenPoint(m', p, node, memory.back);
      assert forall o :: o in Repr() && o !in repr ==> fresh@Registered(o);
      if ok {
        m' := M.InsertIC(m, i, c);
      } else {
        outcome := NoArray;
      }
    }

    lemma FullArrayOf(m: M.Model, p: CNode)
      requires Represents(m) && p in ctab.nodes
      ensures IsFull(p.key) <==> p.val.end == p.val.beg.Length
      ensures p.key in m.live && p.val.end == |m.live[p.key]|
    {
      assert RangeRep(m, itab.nodes, p);
    }

    // c->__add(i); i->__c_ = c;
    method AddThenPoint(ghost m: M.Model, c: CNode, i: INode, available: bool) returns (ok: bool)
      requires Represents(m) && c in ctab.nodes && c.key in m.live && i in itab.nodes
      modifies c`val, c.val.beg, i`val
      ensures ok <==> old(c.val.end != c.val.beg.Length) || available
      ensures Represents(if ok then M.Attach(m, i.key, c.key) else m)
      ensures ok && !old(c.val.end != c.val.beg.Length) ==>
        c.val.beg.Length == old(if c.val.beg.Length == 0 then 1 else 2 * c.val.beg.Length)
      ensures fresh(Repr() - old(Repr()))
    {
      hide Represents;
      ok := AddTo(m, c, i, available);
      if ok {
        PointAt(SetLive(m, c.key, m.live[c.key] + [i.key]), i, c);
      }
    }

    /** __erase_i: an unregistered iterator is ignored. */
    method EraseI(ghost m: M.Model, i: nat) returns (ghost m': M.Model)
      requires Represents(m) && M.Coupled(m)
      modifies itab, itab.buckets, itab.nodes, ctab.nodes`val, Begs(ctab.nodes)
      ensures Represents(m') && M.Coupled(m')
      ensures m' == M.EraseI(m, i)
      ensures Repr() <= old(Repr())
    {
      hide Table.Valid, Linkage, M.Coupled, Apart, M.Detach;
      KnownKeys(m, i);
      M.EraseIKeepsCoupling(m, i);
      m' := M.EraseI(m, i);
      var p := UnlinkI(m, i);
      if p != null {
        ghost var d := EraseSteps(m, i);
        var c := p.val;
        if c != null {
          RemoveUnlinked(m, old(itab.nodes), c, p);
        }
        UnlinkIterator(d, ctab.nodes, old(itab.nodes), p);
      }
    }

    method UnlinkI(ghost m: M.Model, i: nat) returns (p: INodeRef)
      requires Represents(m)
      modifies itab, itab.buckets, itab.nodes`next
      ensures Apart() && ctab.Valid() && itab.Valid() && Linkage(m, ctab.nodes, old(itab.nodes))
      ensures p == null <==> old(!itab.HasKey(i))
      ensures p == null ==> itab.nodes == old(itab.nodes)
      ensures p != null ==> p in old(itab.nodes) && p.key == i && itab.nodes == old(itab.nodes) - {p}
      ensures p != null ==> OwnerRep(m, ctab.nodes, p)
      ensures itab.buckets == old(itab.buckets) && Begs(ctab.nodes) == old(Begs(ctab.nodes))
    {
      hide Table.Valid;
      p := itab.Unlink(i);
    }

    // c->__remove(p) for a node that has left its table
    method RemoveUnlinked(ghost m: M.Model, ghost nodes: set<INode>, c: CNode, p: INode)
      requires Apart() && ctab.Valid() && itab.Valid() && Linkage(m, ctab.nodes, nodes) && p in nodes
      requires c in ctab.nodes && c.key in m.live && p.key in m.live[c.key]
      modifies c`val, c.val.beg
      ensures Apart() && ctab.Valid() && itab.Valid()
      ensures Linkage(SetLive(m, c.key, M.Drop(m.live[c.key], p.key)), ctab.nodes, nodes)
      ensures Begs(ctab.nodes) <= old(Begs(ctab.nodes))
    {
      hide Linkage, Table.Valid;
      ghost var begs := Begs(ctab.nodes);
      Remove(m, ctab.nodes, nodes, c, p);
      assert Begs(ctab.nodes) <= begs;
    }

    /** The owner that __iterator_copy gives to i: it must be entered in that owner's array. */
    ghost predicate MustEnter(m: M.Model, i: nat, i0: nat) {
      i0 in m.owner && m.owner[i0].Some? && (i in m.owner ==> m.owner[i] != m.owner[i0])
    }

    /** __iterator_copy: i becomes what i0 is. When i has to be registered that fails as any
        registration does. When the array of the new owner cannot grow, i already points at its
        owner, which does not list it: exactly then the coupling is lost. */
    method IteratorCopy(ghost m: M.Model, i: nat, i0: nat, memory: Memory) returns (outcome: Outcome, ghost m': M.Model)
      requires Represents(m) && M.Coupled(m)
      modifies itab, itab.buckets, itab.nodes, ctab.nodes`val, Begs(ctab.nodes)
      ensures outcome ==
        if i !in m.owner && i0 in m.owner && !old(itab.HasRoom(memory)) then NoTable
        else if i !in m.owner && i0 in m.owner && !memory.node then NoNode
        else if MustEnter(m, i, i0) && old(IsFull(m.owner[i0].value)) && !memory.back then NoArray
        else Done
      ensures outcome.Done? ==> m' == M.IteratorCopy(m, i, i0)
      ensures outcome.NoTable? || outcome.NoNode? ==> m' == m
      ensures outcome.NoArray? ==> Uncoupled(if i in m.owner then m else M.InsertI(m, i), i, m.owner[i0], m')
      ensures M.Coupled(m') <==> !outcome.NoArray?
      ensures Represents(m') <==> !(outcome.NoNode? && old(itab.Collides(i)))
      ensures outcome.NoNode? ==> old(itab.Collides(i)) == itab.SharesBucket(i, itab.buckets.Length)
      ensures outcome.NoNode? ==> itab.nodes == old(itab.nodes)
      ensures fresh(Repr() - old(Repr()))
    {
      hide Represents, Repr, M.Coupled, M.IteratorCopy, M.Assign, M.Detach, IsFull, Table.HasRoom, Table.Collides;
      M.IteratorCopyKeepsCoupling(m, i, i0);
      CopyCases(m, i, i0);
      var p := FindIterator(m, i);
      var p0 := FindIterator(m, i0);
      var c0 := if p0 != null then p0.val else null;
      if c0 != null {
        FullArrayOf(m, c0);
      }
      if p0 == null && p == null {
        return Done, m;
      }
      label Found:
      if p == null {
        outcome, m' := CopyToNew(m, i, c0, memory);
      } else {
        outcome, m' := MoveOwner(m, p, c0, memory.back);
      }
      assert forall o :: o in Repr() && o !in old(Repr()) ==> fresh@Found(o);
    }

    // __iterator_copy to an iterator that has to be registered first
    method CopyToNew(ghost m: M.Model, i: nat, c0: CNodeRef, memory: Memory)
      returns (outcome: Outcome, ghost m': M.Model)
      requires Represents(m) && M.Coupled(m) && i !in m.owner && (c0 != null ==> c0 in ctab.nodes)
      modifies itab, itab.buckets, itab.nodes`next, itab.nodes`rank, ctab.nodes`val, Begs(ctab.nodes)
      ensures outcome ==
        if !old(itab.HasRoom(memory)) then NoTable
        else if !memory.node then NoNode
        else if c0 != null && old(c0.val.end == c0.val.beg.Length) && !memory.back then NoArray
        else Done
      ensures i in M.InsertI(m, i).owner
      ensures var o := if c0 == null then None else Some(c0.key);
        match outcome
        case Done => m' == M.Assign(M.InsertI(m, i), i, o)
        case NoArray => Uncoupled(M.InsertI(m, i), i, o, m')
        case _ => m' == m
      ensures Represents(m') <==> !(outcome.NoNode? && old(itab.Collides(i)))
      ensures outcome.NoNode? ==> old(itab.Collides(i)) == itab.SharesBucket(i, itab.buckets.Length)
      ensures outcome.NoNode? ==> itab.nodes == old(itab.nodes)
      ensures fresh(Repr() - old(Repr()))
    {
      hide Represents, Repr, M.Coupled, Uncoupled, M.Assign, Table.HasRoom, Table.Collides;
      var p;
      outcome, p, m' := InsertI(m, i, memory);
      ghost var repr := Repr();
      assert forall o :: o in repr && o !in old(Repr()) ==> fresh(o);
      if p != null {
        label Registered:
        outcome, m' := MoveOwner(m', p, c0, memory.back);
        assert forall o :: o in Repr() && o !in repr ==> fresh@Registered(o);
      }
    }

    // i->__c_ moves from its present value to c0, if that is different.
    method MoveOwner(ghost m: M.Model, p: INode, c0: CNodeRef, available: bool)
      returns (outcome: Outcome, ghost m': M.Model)
      requires Represents(m) && M.Coupled(m) && p in itab.nodes && (c0 != null ==> c0 in ctab.nodes)
      modifies p`val, ctab.nodes`val, Begs(ctab.nodes)
      ensures Represents(m') && p.key in m.owner
      ensures outcome == if c0 != null && m.owner[p.key] != Some(c0.key) &&
                            old(c0.val.end == c0.val.beg.Length) && !available then NoArray else Done
      ensures var o := if c0 == null then None else Some(c0.key);
              if outcome.Done? then m' == M.Assign(m, p.key, o) else Uncoupled(m, p.key, o, m')
      ensures fresh(Repr() - old(Repr()))
    {
      hide Represents, Uncoupled, M.Coupled;
      ghost var o := if c0 == null then None else Some(c0.key);
      var c := p.val;
      OwnersDiffer(m, p, c0);
      if c == c0 {
        return Done, m;
      }
      assert c != null ==> c.val.beg in Begs(ctab.nodes);
      assert c0 != null ==> c0.val.beg in Begs(ctab.nodes);
      outcome, m' := Reassign(m, p, c, c0, available);
    }

    method Reassign(ghost m: M.Model, p: INode, c: CNodeRef, c0: CNodeRef, available: bool)
      returns (outcome: Outcome, ghost m': M.Model)
      requires Represents(m) && M.Coupled(m) && p in itab.nodes && c == p.val && p.key in m.owner
      requires m.owner[p.key] == (if c == null then None else Some(c.key))
      requires (c != null ==> c in ctab.nodes) && (c0 != null ==> c0 in ctab.nodes && c0.key in m.live)
      requires c != c0 && (c != null && c0 != null ==> c.key != c0.key && c.val.beg != c0.val.beg)
      modifies p`val, (if c == null then {} else {c})`val, if c == null then {} else {c.val.beg}
      modifies (if c0 == null then {} else {c0})`val, if c0 == null then {} else {c0.val.beg}
      ensures Represents(m')
      ensures outcome == if c0 != null && old(c0.val.end == c0.val.beg.Length) && !available then NoArray else Done
      ensures var o := if c0 == null then None else Some(c0.key);
              if outcome.Done? then m' == M.Assign(m, p.key, o) else Uncoupled(m, p.key, o, m')
      ensures fresh(Begs(ctab.nodes) - old(Begs(ctab.nodes)))
    {
      hide Represents, M.Coupled;
      LeaveSteps(m, p.key, if c0 == null then None else Some(c0.key));
      hide M.Detach, M.Attach, M.Assign, Uncoupled;
      Leave(m, p, c);
      outcome, m' := Enter(M.Detach(m, p.key), p, c0, available);
    }

    method Enter(ghost d: M.Model, p: INode, c0: CNodeRef, available: bool)
      returns (outcome: Outcome, ghost m': M.Model)
      requires Represents(d) && p in itab.nodes
      requires c0 != null ==> c0 in ctab.nodes && c0.key in d.live
      modifies p`val, (if c0 == null then {} else {c0})`val, if c0 == null then {} else {c0.val.beg}
      ensures Represents(m')
      ensures outcome == if c0 != null && old(c0.val.end == c0.val.beg.Length) && !available then NoArray else Done
      ensures c0 == null ==> m' == d
      ensures c0 != null && outcome.Done? ==>
        m' == SetLive(SetOwner(d, p.key, Some(c0.key)), c0.key, d.live[c0.key] + [p.key])
      ensures c0 != null && outcome.NoArray? ==> m' == SetOwner(d, p.key, Some(c0.key))
      ensures fresh(Begs(ctab.nodes) - old(Begs(ctab.nodes)))
    {
      hide Represents;
      if c0 == null {
        return Done, d;
      }
      var ok := PointThenAdd(d, c0, p, available);
      ghost var u := SetOwner(d, p.key, Some(c0.key));
      if ok {
        return Done, SetLive(u, c0.key, d.live[c0.key] + [p.key]);
      } else {
        return NoArray, u;
      }
    }

    // i->__c_ = c0; i->__c_->__add(i);
    method PointThenAdd(ghost m: M.Model, c: CNode, i: INode, available: bool) returns (ok: bool)
      requires Represents(m) && c in ctab.nodes && c.key in m.live && i in itab.nodes
      modifies c`val, c.val.beg, i`val
      ensures ok <==> old(c.val.end != c.val.beg.Length) || available
      ensures var u := SetOwner(m, i.key, Some(c.key));
              Represents(if ok then SetLive(u, c.key, m.live[c.key] + [i.key]) else u)
      ensures fresh(Begs(ctab.nodes) - old(Begs(ctab.nodes)))
    {
      hide Represents;
      ApartNodes(m, c, i);
      PointAt(m, i, c);
      ok := AddTo(SetOwner(m, i.key, Some(c.key)), c, i, available);
    }

    lemma ApartNodes(m: M.Model, c: CNode, i: INode)
      requires Represents(m) && c in ctab.nodes && i in itab.nodes
      ensures c as object != i
    {
    }

    // The present owner of an iterator and another container: different nodes have different
    // keys and different arrays.
    lemma OwnersDiffer(m: M.Model, p: INode, c0: CNodeRef)
      requires Represents(m) && p in itab.nodes && (c0 != null ==> c0 in ctab.nodes)
      ensures p.key in m.owner && m.owner[p.key] == if p.val == null then None else Some(p.val.key)
      ensures p.val != null ==> p.val in ctab.nodes
      ensures c0 != null ==> c0.key in m.live
      ensures p.val != c0 && p.val != null && c0 != null ==> p.val.key != c0.key && p.val.val.beg != c0.val.beg
    {
      hide Apart, Table.Valid;
      assert OwnerRep(m, ctab.nodes, p);
      assert c0 != null ==> OwnArray(ctab.nodes, c0);
    }

    // if (c != nullptr) c->__remove(i); i->__c_ = nullptr;
    method Leave(ghost m: M.Model, p: INode, c: CNodeRef)
      requires Represents(m) && M.Coupled(m) && p in itab.nodes && c == p.val
      requires p.key in m.owner && m.owner[p.key] == (if c == null then None else Some(c.key))
      requires c != null ==> c in ctab.nodes
      modifies p`val, (if c == null then {} else {c})`val, if c == null then {} else {c.val.beg}
      ensures Represents(M.Detach(m, p.key))
      ensures Begs(ctab.nodes) <= old(Begs(ctab.nodes))
    {
      hide Represents, M.Coupled;
      ghost var m1 := m;
      if c != null {
        DetachSteps(m, p.key);
        RemoveFrom(m, c, p);
        m1 := SetLive(m, c.key, M.Drop(m.live[c.key], p.key));
      } else {
        assert SetOwner(m, p.key, None).owner == m.owner;
      }
      PointAt(m1, p, null);
    }

    /** __invalidate_all: an unregistered container is ignored. */
    method InvalidateAll(ghost m: M.Model, c: nat) returns (ghost m': M.Model)
      requires Represents(m) && M.Coupled(m)
      modifies ctab.nodes`val, itab.nodes`val
      ensures Represents(m') && M.Coupled(m')
      ensures m' == M.InvalidateAll(m, c)
      ensures Repr() <= old(Repr())
    {
      M.InvalidateAllKeepsCoupling(m, c);
      m' := M.InvalidateAll(m, c);
      var p := FindC(m, c);
      if p != null {
        ClearSteps(m, c);
        hide Represents, M.Coupled;
        ClearAll(m, p);
      }
    }

    /** __erase_c: an unregistered container is ignored. */
    method EraseC(ghost m: M.Model, c: nat) returns (ghost m': M.Model)
      requires Represents(m) && M.Coupled(m)
      modifies ctab, ctab.buckets, ctab.nodes, itab.nodes`val
      ensures Represents(m') && M.Coupled(m')
      ensures m' == M.EraseC(m, c)
      ensures Repr() <= old(Repr())
    {
      hide Table.Valid, Linkage, M.Coupled, Apart, Begs, Redirect;
      KnownKeys(m, c);
      M.EraseCKeepsCoupling(m, c);
      m' := M.EraseC(m, c);
      var p := UnlinkC(m, c);
      if p != null {
        ClearSteps(m, c);
        ClearUnlinked(m, old(ctab.nodes), p);
        UnlinkContainer(M.InvalidateAll(m, c), old(ctab.nodes), itab.nodes, p);
      }
    }

    method UnlinkC(ghost m: M.Model, c: nat) returns (p: CNodeRef)
      requires Represents(m)
      modifies ctab, ctab.buckets, ctab.nodes`next
      ensures Apart() && ctab.Valid() && itab.Valid() && Linkage(m, old(ctab.nodes), itab.nodes)
      ensures p == null <==> old(!ctab.HasKey(c))
      ensures p == null ==> ctab.nodes == old(ctab.nodes)
      ensures p != null ==> p in old(ctab.nodes) && p.key == c && ctab.nodes == old(ctab.nodes) - {p}
      ensures ctab.buckets == old(ctab.buckets)
      ensures Begs(old(ctab.nodes)) == old(Begs(ctab.nodes)) && Begs(ctab.nodes) <= old(Begs(ctab.nodes))
    {
      hide Table.Valid, Linkage;
      ghost var begs := Begs(ctab.nodes);
      p := ctab.Unlink(c);
      assert Begs(old(ctab.nodes)) == begs && Begs(ctab.nodes) <= begs;
    }

    // The clearing loop for a container node that has left its table
    method ClearUnlinked(ghost m: M.Model, ghost containers: set<CNode>, p: CNode)
      requires Apart() && ctab.Valid() && itab.Valid() && Linkage(m, containers, itab.nodes)
      requires p in containers && p.key in m.live && ctab.nodes == containers - {p}
      modifies p`val, itab.nodes`val
      ensures Apart() && ctab.Valid() && itab.Valid()
      ensures Linkage(M.Model(Redirect(m.owner, m.live[p.key], None), m.live[p.key := []]), containers, itab.nodes)
      ensures Begs(ctab.nodes) <= old(Begs(ctab.nodes))
    {
      hide Linkage, Table.Valid;
      ghost var begs := Begs(ctab.nodes);
      Clear(m, containers, itab.nodes, p);
      assert Begs(ctab.nodes) <= begs;
    }

    /** swap: two registered containers exchange their live iterators. */
    method Swap(ghost m: M.Model, c1: nat, c2: nat) returns (ghost m': M.Model)
      requires Represents(m) && M.Coupled(m) && c1 in m.live && c2 in m.live
      modifies ctab.nodes`val, itab.nodes`val
      ensures Represents(m') && M.Coupled(m')
      ensures m' == M.Swap(m, c1, c2)
      ensures Repr() <= old(Repr())
    {
      hide Represents, M.Coupled, M.Swap, Redirect;
      M.SwapKeepsCoupling(m, c1, c2);
      SwapSteps(m, c1, c2);
      m' := M.Swap(m, c1, c2);
      var p1 := FindC(m, c1);
      var p2 := FindC(m, c2);
      SwapBacks(m, p1, p2);
      ghost var m1 := m.(live := m.live[c1 := m.live[c2]][c2 := m.live[c1]]);
      ClaimAll(m1, p1);
      ClaimAll(m1.(owner := Redirect(m1.owner, m1.live[c1], Some(c1))), p2);
    }

    // ----- Runs of calls

    // The calls that register a node find another one in its bucket.
    ghost predicate Crowded(call: M.Call)
      reads ctab, itab
    {
      match call
      case CallInsertC(c) => ctab.SharesBucket(c, ctab.buckets.Length)
      case CallInsertI(i) => itab.SharesBucket(i, itab.buckets.Length)
      case CallInsertIC(i, _) => itab.SharesBucket(i, itab.buckets.Length)
      case CallIteratorCopy(i, _) => itab.SharesBucket(i, itab.buckets.Length)
      case _ => false
    }

    lemma ReprParts()
      ensures ctab in Repr() && itab in Repr() && ctab.buckets in Repr() && itab.buckets in Repr()
      ensures (forall c :: c in ctab.nodes ==> c in Repr()) && (forall i :: i in itab.nodes ==> i in Repr())
      ensures Begs(ctab.nodes) <= Repr()
    {
    }

    /** Executes one call. A bad_alloc is due to the allocation that the outcome names; what is
        left then is still coupled unless the call was a copy into an array that cannot grow,
        and still represented unless a node is missing from a crowded bucket. */
    method Execute(ghost m: M.Model, call: M.Call, memory: Memory) returns (outcome: Outcome, ghost m': M.Model)
      requires Represents(m) && M.Coupled(m) && M.Legal(m, call)
      modifies Repr()
      ensures After(m, call, memory, outcome, m')
      ensures M.Coupled(m') <==> !(outcome.NoArray? && call.CallIteratorCopy?)
      ensures Represents(m') <==> !(outcome.NoNode? && Crowded(call))
      ensures fresh(Repr() - old(Repr()))
    {
      hide Represents, Repr, M.Coupled, Table.HasRoom, Table.Collides, Table.SharesBucket, IsFull;
      ReprParts();
      outcome := Done;
      match call
      case CallInsertC(c) => outcome, m' := InsertC(m, c, memory);
      case CallInsertI(i) => var r; outcome, r, m' := InsertI(m, i, memory);
      case CallInsertIC(i, c) => outcome, m' := InsertIC(m, i, c, memory);
      case CallEraseI(i) => m' := EraseI(m, i);
      case CallEraseC(c) => m' := EraseC(m, c);
      case CallInvalidateAll(c) => m' := InvalidateAll(m, c);
      case CallIteratorCopy(i, i0) => outcome, m' := IteratorCopy(m, i, i0, memory);
      case CallSwap(c1, c2) => m' := Swap(m, c1, c2);
    }

    /** Executes calls until one fails. When all succeed, the two tables represent the model of the
        whole run; when the next one fails, the calls before it have been executed, and what is
        left is what Execute says of a failing call. */
    method ExecuteAll(ghost m: M.Model, calls: seq<M.Call>, memories: seq<Memory>)
      returns (done: nat, outcome: Outcome, ghost m': M.Model)
      requires Represents(m) && M.Coupled(m) && M.LegalRun(m, calls) && |memories| == |calls|
      modifies Repr()
      ensures done <= |calls| && (done == |calls| <==> outcome.Done?)
      ensures M.LegalRun(m, calls[..done]) && M.Coupled(M.Run(m, calls[..done]))
      ensures outcome.Done? ==> m' == M.Run(m, calls) && M.Coupled(m') && Represents(m')
      ensures !outcome.Done? ==>
        && M.Legal(M.Run(m, calls[..done]), calls[done])
        && After(M.Run(m, calls[..done]), calls[done], memories[done], outcome, m')
        && (M.Coupled(m') <==> !(outcome.NoArray? && calls[done].CallIteratorCopy?))
        && (Represents(m') <==> !(outcome.NoNode? && Crowded(calls[done])))
      ensures fresh(Repr() - old(Repr()))
    {
      hide Represents, Repr, M.Coupled, After, Crowded, M.Run, M.LegalRun, M.Legal, M.Apply;
      done, outcome, m' := 0, Done, m;
      RunOfNone(m, calls);
      while done < |calls|
        invariant done <= |calls| && outcome == Done
        invariant M.LegalRun(m, calls[..done]) && m' == M.Run(m, calls[..done])
        invariant Represents(m') && M.Coupled(m')
        invariant fresh(Repr() - old(Repr()))
      {
        M.RunStep(m, calls, done);
        ghost var repr := Repr();
        label Before:
        outcome, m' := Execute(m', calls[done], memories[done]);
        assert forall o :: o in Repr() && o !in repr ==> fresh@Before(o);
        if !outcome.Done? {
          return;
        }
        AfterDone(M.Run(m, calls[..done]), calls[done], memories[done], m');
        done := done + 1;
      }
      assert calls[..done] == calls;
    }
  }

  lemma RunOfNone(m: M.Model, calls: seq<M.Call>)
    ensures M.LegalRun(m, calls[..0]) && M.Run(m, calls[..0]) == m
  {
  }

  lemma AfterDone(m: M.Model, call: M.Call, memory: Memory, m': M.Model)
    requires M.Legal(m, call) && After(m, call, memory, Done, m')
    ensures m' == M.Apply(m, call)
  {
  }
  // ----- From the empty database

  /** A legal run from the empty database that no allocation fails ends in two tables that
      represent its model. */
  method ExecuteFromEmpty(hash: nat -> nat, calls: seq<M.Call>, memories: seq<Memory>)
    returns (db: DebugDb, done: nat, outcome: Outcome)
    requires M.LegalRun(M.Model(map[], map[]), calls) && |memories| == |calls|
    ensures fresh(db) && fresh(db.Repr())
    ensures done <= |calls| && (done == |calls| <==> outcome.Done?)
    ensures outcome.Done? ==> db.Represents(M.Run(M.Model(map[], map[]), calls))
  {
    hide DebugDb.Represents, DebugDb.Repr, M.Coupled, M.Run, M.LegalRun, M.Legal, After, DebugDb.Crowded;
    M.EmptyIsCoupled();
    db := new DebugDb(hash);
    ghost var repr := db.Repr();
    ghost var m';
    label Created:
    done, outcome, m' := db.ExecuteAll(M.Model(map[], map[]), calls, memories);
    assert forall o :: o in db.Repr() && o !in repr ==> fresh@Created(o);
  }

  lemma AtMostOne<V>(keys: set<nat>, nodes: set<Node<V>>)
    requires KeysAre(keys, nodes) && |keys| <= 1
    ensures |nodes| <= 1
  {
    if nodes != {} {
      var n :| n in nodes;
      assert |keys - {n.key}| == 0;
      forall k | k in nodes
        ensures k == n
      {
        assert k.key !in keys - {n.key};
      }
      assert nodes == {n};
    }
  }

  // A database with one container.
  method FirstContainer(hash: nat -> nat, c: nat) returns (db: DebugDb, ghost m: M.Model)
    ensures m == M.Model(map[], map[c := []]) && M.Coupled(m)
    ensures db.Represents(m) && db.IsFull(c) && db.ctab.hash == hash && db.ctab.buckets.Length == 2
    ensures fresh(db) && fresh(db.Repr())
  {
    hide DebugDb.Represents, DebugDb.Repr, DebugDb.IsFull, M.Coupled, Table.HasRoom, Table.Collides,
      Table.LengthForOneMore, Table.Valid;
    ghost var empty := M.Model(map[], map[]);
    M.EmptyIsCoupled();
    db := new DebugDb(hash);
    db.RoomInTables(empty, Memory(true, true, true));
    ghost var repr := db.Repr();
    db.ReprParts();
    forall length: nat | db.ctab.LengthForOneMore(length)
      ensures length == 2
    {
      db.TwoContainerBuckets(empty, length);
    }
    var outcome;
    label Created:
    outcome, m := db.InsertC(empty, c, Memory(true, true, true));
    ghost var length := db.ctab.buckets.Length;
    assert old@Created(db.ctab.LengthForOneMore(length));
    assert forall o :: o in db.Repr() && o !in repr ==> fresh@Created(o);
  }

  /** A failing malloc destroys a chain: when the second container falls into the bucket of the
      first one, the tables no longer represent the container that is registered. */
  method LoseChain(hash: nat -> nat, c1: nat, c2: nat) returns (db: DebugDb, outcome: Outcome, ghost m: M.Model)
    requires c1 != c2 && hash(c1) % 2 == hash(c2) % 2
    ensures m == M.Model(map[], map[c1 := []]) && M.Coupled(m)
    ensures outcome.NoNode? && !db.Represents(m)
  {
    hide DebugDb.Represents, DebugDb.Repr, DebugDb.IsFull, M.Coupled, Table.HasRoom, Table.Collides;
    var memory := Memory(true, false, true);
    db, m := FirstContainer(hash, c1);
    db.RoomInTables(m, memory);
    var p := db.FindC(m, c1);
    db.ReprParts();
    db.OneContainer(m);
    db.ctab.SameBucketCollides(p, c2);
    outcome, m := db.InsertC(m, c2, memory);
  }

  // One container, which owns the only iterator.
  function OneOwned(c: nat, i0: nat): M.Model {
    M.InsertIC(M.Model(map[], map[c := []]), i0, c)
  }

  lemma BothOwned(c: nat, i: nat, i0: nat, m: M.Model)
    requires i != i0 && Uncoupled(M.InsertI(OneOwned(c, i0), i), i, Some(c), m)
    ensures m == M.Model(map[i := Some(c), i0 := Some(c)], map[c := [i0]])
  {
    var one := M.InsertI(OneOwned(c, i0), i);
    assert [] + [i0] == [i0];
    assert one.live == map[c := [i0]] && M.Detach(one, i) == one;
    assert m.owner == map[i := Some(c), i0 := Some(c)];
  }

  // The new iterator gets the first place in an array that had none.
  method TakePlace(db: DebugDb, ghost m: M.Model, p: CNode, node: INode)
    requires db.Represents(m) && p in db.ctab.nodes && p.key in m.live && node in db.itab.nodes
    requires p.val.end == p.val.beg.Length == 0
    modifies p`val, p.val.beg, node`val
    ensures db.Represents(M.Attach(m, node.key, p.key)) && db.IsFull(p.key)
    ensures fresh(db.Repr() - old(db.Repr()))
  {
    hide DebugDb.Represents, DebugDb.Repr, DebugDb.IsFull;
    db.FullArrayOf(m, p);
    var ok := db.AddThenPoint(m, p, node, true);
    db.FullArrayOf(M.Attach(m, node.key, p.key), p);
  }

  // The only place in the container's array is taken.
  method TakeLastPlace(hash: nat -> nat, c: nat, i0: nat) returns (db: DebugDb)
    ensures db.Represents(OneOwned(c, i0)) && M.Coupled(OneOwned(c, i0)) && db.IsFull(c)
    ensures fresh(db.Repr())
  {
    hide DebugDb.Represents, DebugDb.Repr, DebugDb.IsFull, M.Coupled, Table.HasRoom, Table.Collides;
    ghost var m;
    db, m := FirstContainer(hash, c);
    M.InsertICKeepsCoupling(m, i0, c);
    var p := db.FindC(m, c);
    db.FullArrayOf(m, p);
    db.RoomInTables(m, Memory(true, true, true));
    db.ReprParts();
    ghost var repr0 := db.Repr();
    label Found:
    var outcome, node, m' := db.InsertI(m, i0, Memory(true, true, true));
    ghost var repr1 := db.Repr();
    assert forall o :: o in repr1 && o !in repr0 ==> fresh@Found(o);
    db.ReprParts();
    label Inserted:
    TakePlace(db, m', p, node);
    assert forall o :: o in db.Repr() && o !in repr1 ==> fresh@Inserted(o);
  }

  /** A failing malloc decouples: i has been given to the container of i0, whose array has no
      place left for it. */
  method LoseCoupling(hash: nat -> nat, c: nat, i: nat, i0: nat)
    returns (db: DebugDb, outcome: Outcome, ghost m: M.Model)
    requires i != i0
    ensures db.Represents(m) && m == M.Model(map[i := Some(c), i0 := Some(c)], map[c := [i0]])
    ensures outcome.NoArray? && !M.Coupled(m)
  {
    hide DebugDb.Represents, DebugDb.Repr, DebugDb.IsFull, M.Coupled, Table.HasRoom, Table.Collides, Uncoupled;
    db := TakeLastPlace(hash, c, i0);
    db.ReprParts();
    db.RoomInTables(OneOwned(c, i0), Memory(true, true, false));
    outcome, m := db.IteratorCopy(OneOwned(c, i0), i, i0, Memory(true, true, false));
    BothOwned(c, i, i0, m);
  }
}
