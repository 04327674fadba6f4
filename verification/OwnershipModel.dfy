/** What the debug database of libcxx/src/debug.cpp stands for: which container owns each
    registered iterator, and, per registered container, its live iterators in order. */
module OwnershipModel {

  import opened Wrappers

  // Containers and iterators are named by their addresses.
  datatype Model = Model(owner: map<nat, Option<nat>>, live: map<nat, seq<nat>>)

  ghost predicate Distinct(s: seq<nat>) {
    forall j, k :: 0 <= j < k < |s| ==> s[j] != s[k]
  }

  ghost predicate ListOk(m: Model, c: nat)
    requires c in m.live
  {
    && Distinct(m.live[c])
    && forall i :: i in m.live[c] ==> i in m.owner && m.owner[i] == Some(c)
  }

  ghost predicate OwnerOk(m: Model, i: nat)
    requires i in m.owner
  {
    m.owner[i].Some? ==> m.owner[i].value in m.live && i in m.live[m.owner[i].value]
  }

  /** An iterator is owned by c exactly when it is listed, once, as live in c. */
  ghost predicate Coupled(m: Model) {
    && (forall c {:trigger ListOk(m, c)} :: c in m.live ==> ListOk(m, c))
    && (forall i {:trigger OwnerOk(m, i)} :: i in m.owner ==> OwnerOk(m, i))
  }

  // ----- The operations

  function InsertC(m: Model, c: nat): Model {
    m.(live := m.live[c := []])
  }

  function InsertI(m: Model, i: nat): Model {
    m.(owner := m.owner[i := None])
  }

  function Attach(m: Model, i: nat, c: nat): Model
    requires c in m.live
  {
    Model(m.owner[i := Some(c)], m.live[c := m.live[c] + [i]])
  }

  function Drop(s: seq<nat>, i: nat): seq<nat> {
    if s == [] then []
    else if s[0] == i then s[1..]
    else [s[0]] + Drop(s[1..], i)
  }

  function Detach(m: Model, i: nat): Model {
    if i in m.owner && m.owner[i].Some? && m.owner[i].value in m.live then
      var c := m.owner[i].value;
      Model(m.owner[i := None], m.live[c := Drop(m.live[c], i)])
    else m
  }

  /** A registration with an unknown container registers nothing. */
  function InsertIC(m: Model, i: nat, c: nat): Model {
    if c in m.live then Attach(InsertI(m, i), i, c) else m
  }

  function EraseI(m: Model, i: nat): Model {
    if i in m.owner then var d := Detach(m, i); d.(owner := d.owner - {i}) else m
  }

  function InvalidateAll(m: Model, c: nat): Model {
    if c in m.live then
      Model(map i | i in m.owner :: if m.owner[i] == Some(c) then None else m.owner[i],
            m.live[c := []])
    else m
  }

  function EraseC(m: Model, c: nat): Model {
    if c in m.live then var v := InvalidateAll(m, c); v.(live := v.live - {c}) else m
  }

  // A registered iterator moves to another owner, or to none.
  function Assign(m: Model, i: nat, o: Option<nat>): Model
    requires i in m.owner
  {
    if m.owner[i] == o then m
    else
      var d := Detach(m, i);
      if o.Some? && o.value in d.live then Attach(d, i, o.value) else d
  }

  /** i becomes what i0 is; an unknown i0 leaves i without owner, and an unknown i is only
      registered when i0 is known. */
  function IteratorCopy(m: Model, i: nat, i0: nat): Model {
    if i0 in m.owner then Assign(if i in m.owner then m else InsertI(m, i), i, m.owner[i0])
    else Detach(m, i)
  }

  function Swapped(o: Option<nat>, c1: nat, c2: nat): Option<nat> {
    if o == Some(c1) then Some(c2) else if o == Some(c2) then Some(c1) else o
  }

  function Swap(m: Model, c1: nat, c2: nat): Model
    requires c1 in m.live && c2 in m.live
  {
    Model(map i | i in m.owner :: Swapped(m.owner[i], c1, c2),
          m.live[c1 := m.live[c2]][c2 := m.live[c1]])
  }

  // ----- Every operation keeps the coupling

  lemma InsertCKeepsCoupling(m: Model, c: nat)
    requires Coupled(m) && c !in m.live
    ensures Coupled(InsertC(m, c))
  {
    var r := InsertC(m, c);
    forall x | x in r.live ensures ListOk(r, x) {
      assert x != c ==> ListOk(m, x);
    }
    forall i | i in r.owner ensures OwnerOk(r, i) {
      assert OwnerOk(m, i);
    }
  }

  lemma InsertIKeepsCoupling(m: Model, i: nat)
    requires Coupled(m) && i !in m.owner
    ensures Coupled(InsertI(m, i))
  {
    var r := InsertI(m, i);
    forall x | x in r.live ensures ListOk(r, x) {
      assert ListOk(m, x);
    }
    forall j | j in r.owner ensures OwnerOk(r, j) {
      assert j != i ==> OwnerOk(m, j);
    }
  }

  lemma AttachKeepsCoupling(m: Model, i: nat, c: nat)
    requires Coupled(m) && i in m.owner && m.owner[i] == None && c in m.live
    ensures Coupled(Attach(m, i, c))
  {
    var r := Attach(m, i, c);
    forall x | x in r.live ensures ListOk(r, x) {
      assert ListOk(m, x);
    }
    forall j | j in r.owner ensures OwnerOk(r, j) {
      assert OwnerOk(m, j);
      if j == i { assert r.live[c][|m.live[c]|] == i; }
    }
  }

  lemma {:induction false} DropMembers(s: seq<nat>, i: nat)
    requires Distinct(s)
    ensures Distinct(Drop(s, i))
    ensures forall x :: x in Drop(s, i) <==> x in s && x != i
  {
    if s != [] {
      DropMembers(s[1..], i);
      assert s == [s[0]] + s[1..];
      var r := Drop(s, i);
      if s[0] != i {
        forall j, k | 0 <= j < k < |r|
          ensures r[j] != r[k]
        {
          assert r[k] == Drop(s[1..], i)[k - 1] && r[k] in Drop(s[1..], i);
          if j > 0 { assert r[j] == Drop(s[1..], i)[j - 1]; }
          else {
            var x :| 0 <= x < |s[1..]| && s[1..][x] == r[k];
            assert s[x + 1] == r[k];
          }
        }
      }
    }
  }

  lemma DetachKeepsCoupling(m: Model, i: nat)
    requires Coupled(m)
    ensures Coupled(Detach(m, i))
    ensures Detach(m, i).owner.Keys == m.owner.Keys && Detach(m, i).live.Keys == m.live.Keys
    ensures i in m.owner ==> Detach(m, i).owner[i] == None
  {
    var r := Detach(m, i);
    if i in m.owner {
      assert OwnerOk(m, i);
      if m.owner[i].Some? {
        var c := m.owner[i].value;
        assert ListOk(m, c);
        DropMembers(m.live[c], i);
        forall x | x in r.live ensures ListOk(r, x) {
          assert ListOk(m, x);
        }
        forall j | j in r.owner ensures OwnerOk(r, j) {
          assert OwnerOk(m, j);
        }
      }
    }
  }

  lemma InsertICKeepsCoupling(m: Model, i: nat, c: nat)
    requires Coupled(m) && i !in m.owner
    ensures Coupled(InsertIC(m, i, c))
  {
    InsertIKeepsCoupling(m, i);
    if c in m.live { AttachKeepsCoupling(InsertI(m, i), i, c); }
  }

  lemma EraseIKeepsCoupling(m: Model, i: nat)
    requires Coupled(m)
    ensures Coupled(EraseI(m, i))
  {
    if i in m.owner {
      DetachKeepsCoupling(m, i);
      var d, r := Detach(m, i), EraseI(m, i);
      forall x | x in r.live ensures ListOk(r, x) {
        assert ListOk(d, x);
      }
      forall j | j in r.owner ensures OwnerOk(r, j) {
        assert OwnerOk(d, j);
      }
    }
  }

  lemma InvalidateAllKeepsCoupling(m: Model, c: nat)
    requires Coupled(m)
    ensures Coupled(InvalidateAll(m, c))
  {
    if c in m.live {
      var r := InvalidateAll(m, c);
      forall x | x in r.live ensures ListOk(r, x) {
        assert ListOk(m, x);
      }
      forall j | j in r.owner ensures OwnerOk(r, j) {
        assert OwnerOk(m, j);
      }
    }
  }

  lemma EraseCKeepsCoupling(m: Model, c: nat)
    requires Coupled(m)
    ensures Coupled(EraseC(m, c))
  {
    if c in m.live {
      InvalidateAllKeepsCoupling(m, c);
      var v, r := InvalidateAll(m, c), EraseC(m, c);
      forall x | x in r.live ensures ListOk(r, x) {
        assert ListOk(v, x);
      }
      forall j | j in r.owner ensures OwnerOk(r, j) {
        assert OwnerOk(v, j);
        assert ListOk(v, c);
      }
    }
  }

  lemma IteratorCopyKeepsCoupling(m: Model, i: nat, i0: nat)
    requires Coupled(m)
    ensures Coupled(IteratorCopy(m, i, i0))
  {
    if i0 in m.owner {
      var r := if i in m.owner then m else InsertI(m, i);
      if i !in m.owner { InsertIKeepsCoupling(m, i); }
      DetachKeepsCoupling(r, i);
      var d := Detach(r, i);
      assert OwnerOk(m, i0);
      if r.owner[i] != m.owner[i0] && m.owner[i0].Some? {
        AttachKeepsCoupling(d, i, m.owner[i0].value);
      }
    } else {
      DetachKeepsCoupling(m, i);
    }
  }

  lemma SwapKeepsCoupling(m: Model, c1: nat, c2: nat)
    requires Coupled(m) && c1 in m.live && c2 in m.live
    ensures Coupled(Swap(m, c1, c2))
  {
    var r := Swap(m, c1, c2);
    assert ListOk(m, c1) && ListOk(m, c2);
    forall x | x in r.live ensures ListOk(r, x) {
      assert ListOk(m, x);
    }
    forall j | j in r.owner ensures OwnerOk(r, j) {
      assert OwnerOk(m, j);
    }
  }

  // ----- Runs

  datatype Call =
    | CallInsertC(c: nat) | CallInsertI(i: nat) | CallInsertIC(i: nat, c: nat)
    | CallEraseI(i: nat) | CallEraseC(c: nat) | CallInvalidateAll(c: nat)
    | CallIteratorCopy(i: nat, i0: nat) | CallSwap(c1: nat, c2: nat)

  // What the callers in the containers and iterators see to: constructors register fresh
  // addresses, and swap is called on registered containers.
  predicate Legal(m: Model, call: Call) {
    match call
    case CallInsertC(c) => c !in m.live
    case CallInsertI(i) => i !in m.owner
    case CallInsertIC(i, _) => i !in m.owner
    case CallSwap(c1, c2) => c1 in m.live && c2 in m.live
    case _ => true
  }

  function Apply(m: Model, call: Call): Model
    requires Legal(m, call)
  {
    match call
    case CallInsertC(c) => InsertC(m, c)
    case CallInsertI(i) => InsertI(m, i)
    case CallInsertIC(i, c) => InsertIC(m, i, c)
    case CallEraseI(i) => EraseI(m, i)
    case CallEraseC(c) => EraseC(m, c)
    case CallInvalidateAll(c) => InvalidateAll(m, c)
    case CallIteratorCopy(i, i0) => IteratorCopy(m, i, i0)
    case CallSwap(c1, c2) => Swap(m, c1, c2)
  }

  predicate LegalRun(m: Model, calls: seq<Call>)
    decreases |calls|
  {
    calls == [] || (Legal(m, calls[0]) && LegalRun(Apply(m, calls[0]), calls[1..]))
  }

  function Run(m: Model, calls: seq<Call>): Model
    requires LegalRun(m, calls)
    decreases |calls|
  {
    if calls == [] then m else Run(Apply(m, calls[0]), calls[1..])
  }

  lemma ApplyKeepsCoupling(m: Model, call: Call)
    requires Coupled(m) && Legal(m, call)
    ensures Coupled(Apply(m, call))
  {
    match call {
      case CallInsertC(c) => InsertCKeepsCoupling(m, c);
      case CallInsertI(i) => InsertIKeepsCoupling(m, i);
      case CallInsertIC(i, c) => InsertICKeepsCoupling(m, i, c);
      case CallEraseI(i) => EraseIKeepsCoupling(m, i);
      case CallEraseC(c) => EraseCKeepsCoupling(m, c);
      case CallInvalidateAll(c) => InvalidateAllKeepsCoupling(m, c);
      case CallIteratorCopy(i, i0) => IteratorCopyKeepsCoupling(m, i, i0);
      case CallSwap(c1, c2) => SwapKeepsCoupling(m, c1, c2);
    }
  }

  /** From a coupled database every legal run stays coupled. */
  lemma {:induction false} RunKeepsCoupling(m: Model, calls: seq<Call>)
    requires Coupled(m) && LegalRun(m, calls)
    ensures Coupled(Run(m, calls))
    decreases |calls|
  {
    if calls != [] {
      ApplyKeepsCoupling(m, calls[0]);
      RunKeepsCoupling(Apply(m, calls[0]), calls[1..]);
    }
  }

  /** So does every legal run from the empty database. */
  lemma EmptyRunIsCoupled(calls: seq<Call>)
    requires LegalRun(Model(map[], map[]), calls)
    ensures Coupled(Run(Model(map[], map[]), calls))
  {
    EmptyIsCoupled();
    RunKeepsCoupling(Model(map[], map[]), calls);
  }

  lemma EmptyIsCoupled()
    ensures Coupled(Model(map[], map[]))
  {
  }

  /** A legal run can be cut anywhere: its k-th call is applied to what the calls before it give. */
  lemma {:induction false} RunStep(m: Model, calls: seq<Call>, k: nat)
    requires LegalRun(m, calls) && k < |calls|
    ensures LegalRun(m, calls[..k]) && LegalRun(m, calls[..k + 1])
    ensures Legal(Run(m, calls[..k]), calls[k])
    ensures Run(m, calls[..k + 1]) == Apply(Run(m, calls[..k]), calls[k])
    decreases k
  {
    assert calls[..k + 1][1..] == calls[1..][..k];
    if k > 0 {
      assert calls[..k][1..] == calls[1..][..k - 1];
      RunStep(Apply(m, calls[0]), calls[1..], k - 1);
    }
  }

  // ----- What the operations mean for a single iterator

  /** After a copy the two iterators have the same owner, no other owner has changed, and the
      copy is known exactly when one of the two was. */
  lemma IteratorCopyMeaning(m: Model, i: nat, i0: nat)
    requires Coupled(m)
    ensures var r := IteratorCopy(m, i, i0);
            && r.live.Keys == m.live.Keys
            && r.owner.Keys == (if i0 in m.owner then m.owner.Keys + {i} else m.owner.Keys)
            && (forall j :: j in m.owner && j != i ==> r.owner[j] == m.owner[j])
            && (i in r.owner ==> r.owner[i] == if i0 in m.owner then m.owner[i0] else None)
  {
    if i0 in m.owner { assert OwnerOk(m, i0); }
    if i in m.owner { assert OwnerOk(m, i); }
  }

  /** Erasing or invalidating a container leaves exactly its own iterators without owner. */
  lemma InvalidationMeaning(m: Model, c: nat, i: nat)
    requires Coupled(m) && i in m.owner
    ensures i in EraseC(m, c).owner && i in InvalidateAll(m, c).owner
    ensures EraseC(m, c).owner[i] == InvalidateAll(m, c).owner[i]
            == if m.owner[i] == Some(c) then None else m.owner[i]
    ensures c !in EraseC(m, c).live
  {
    assert OwnerOk(m, i);
  }

  /** Swapping twice restores everything. */
  lemma SwapTwice(m: Model, c1: nat, c2: nat)
    requires Coupled(m) && c1 in m.live && c2 in m.live
    ensures Swap(Swap(m, c1, c2), c1, c2) == m
  {
    var r := Swap(Swap(m, c1, c2), c1, c2);
    assert r.live == m.live && r.owner == m.owner;
  }

  /** A fresh registration followed by its erasure is invisible. */
  lemma InsertThenErase(m: Model, i: nat, c: nat)
    requires Coupled(m) && i !in m.owner
    ensures EraseI(InsertIC(m, i, c), i) == m
  {
    if c in m.live {
      assert ListOk(m, c);
      DropLast(m.live[c], i);
      var r := EraseI(InsertIC(m, i, c), i);
      assert r.owner == m.owner && r.live == m.live;
    }
  }

  lemma {:induction false} DropLast(s: seq<nat>, i: nat)
    requires i !in s
    ensures Drop(s + [i], i) == s
  {
    if s != [] {
      DropLast(s[1..], i);
      assert (s + [i])[1..] == s[1..] + [i];
    }
  }

  // ----- What every call means, in terms of the owners and the live ranges before it

  lemma InsertCMeaning(m: Model, c: nat)
    requires Legal(m, CallInsertC(c))
    ensures Apply(m, CallInsertC(c)) == Model(m.owner, m.live[c := []])
  {
  }

  lemma InsertIMeaning(m: Model, i: nat)
    requires Legal(m, CallInsertI(i))
    ensures Apply(m, CallInsertI(i)) == Model(m.owner[i := None], m.live)
  {
  }

  /** With a known container the iterator is owned by it and listed last. */
  lemma InsertICMeaning(m: Model, i: nat, c: nat)
    requires Legal(m, CallInsertIC(i, c))
    ensures Apply(m, CallInsertIC(i, c)) ==
      if c in m.live then Model(m.owner[i := Some(c)], m.live[c := m.live[c] + [i]]) else m
  {
    assert m.owner[i := None][i := Some(c)] == m.owner[i := Some(c)];
  }

  /** The iterator is taken out of a list, and the others keep their order. */
  ghost predicate TakenOut(before: seq<nat>, i: nat, after: seq<nat>) {
    exists k :: 0 <= k < |before| && before[k] == i && after == before[..k] + before[k + 1..]
  }

  lemma {:induction false} DropAt(s: seq<nat>, x: nat, r: nat)
    requires r < |s| && s[r] == x && x !in s[..r]
    ensures Drop(s, x) == s[..r] + s[r + 1..]
  {
    if r > 0 {
      assert s[0] == s[..r][0];
      assert s[1..][..r - 1] == s[..r][1..];
      DropAt(s[1..], x, r - 1);
    }
  }

  lemma DropTakesOut(s: seq<nat>, i: nat)
    requires i in s
    ensures TakenOut(s, i, Drop(s, i))
  {
    hide Drop;
    var k := FirstPlace(s, i);
    DropAt(s, i, k);
  }

  lemma {:induction false} FirstPlace(s: seq<nat>, x: nat) returns (k: nat)
    requires x in s
    ensures k < |s| && s[k] == x && x !in s[..k]
  {
    if s[0] == x {
      k := 0;
    } else {
      k := FirstPlace(s[1..], x);
      assert s[..k + 1] == [s[0]] + s[1..][..k];
      k := k + 1;
    }
  }

  /** The iterator is forgotten, and leaves the list of its owner only. */
  lemma EraseIMeaning(m: Model, i: nat)
    requires Coupled(m)
    ensures var r := Apply(m, CallEraseI(i));
      && r.owner == m.owner - {i} && r.live.Keys == m.live.Keys
      && forall c :: c in m.live ==>
           if i in m.owner && m.owner[i] == Some(c) then TakenOut(m.live[c], i, r.live[c]) else r.live[c] == m.live[c]
  {
    if i in m.owner && m.owner[i].Some? {
      assert OwnerOk(m, i);
      DropTakesOut(m.live[m.owner[i].value], i);
      assert m.owner[i := None] - {i} == m.owner - {i};
    } else {
      assert i !in m.owner ==> m.owner - {i} == m.owner;
    }
  }

  /** Exactly the iterators of the container lose their owner, and its list is empty. */
  lemma InvalidateAllMeaning(m: Model, c: nat)
    requires Coupled(m)
    ensures var r := Apply(m, CallInvalidateAll(c));
      && r.owner.Keys == m.owner.Keys
      && (forall i :: i in m.owner ==> r.owner[i] == if m.owner[i] == Some(c) then None else m.owner[i])
      && r.live == if c in m.live then m.live[c := []] else m.live
  {
    assert forall i :: i in m.owner ==> OwnerOk(m, i);
  }

  /** The same, and the container is forgotten. */
  lemma EraseCMeaning(m: Model, c: nat)
    requires Coupled(m)
    ensures var r := Apply(m, CallEraseC(c));
      && r.owner.Keys == m.owner.Keys
      && (forall i :: i in m.owner ==> r.owner[i] == if m.owner[i] == Some(c) then None else m.owner[i])
      && r.live == m.live - {c}
  {
    assert forall i :: i in m.owner ==> OwnerOk(m, i);
    if c in m.live {
      assert m.live[c := []] - {c} == m.live - {c};
    } else {
      assert m.live - {c} == m.live;
    }
  }

  /** The copy gets the owner of its source, or none; it leaves its list, and is listed last in the new one. */
  lemma CopyMeaning(m: Model, i: nat, i0: nat)
    requires Coupled(m)
    ensures var r, o := Apply(m, CallIteratorCopy(i, i0)), if i0 in m.owner then m.owner[i0] else None;
      && r.owner == (if i in m.owner || i0 in m.owner then m.owner[i := o] else m.owner)
      && r.live.Keys == m.live.Keys
      && forall c :: c in m.live ==>
           var was := i in m.owner && m.owner[i] == Some(c);
           if was && o != Some(c) then TakenOut(m.live[c], i, r.live[c])
           else if !was && o == Some(c) then r.live[c] == m.live[c] + [i]
           else r.live[c] == m.live[c]
  {
    var r := Apply(m, CallIteratorCopy(i, i0));
    if i0 in m.owner { assert OwnerOk(m, i0); }
    if i in m.owner && m.owner[i].Some? {
      assert OwnerOk(m, i);
      DropTakesOut(m.live[m.owner[i].value], i);
    }
    var o := if i0 in m.owner then m.owner[i0] else None;
    assert r.owner == if i in m.owner || i0 in m.owner then m.owner[i := o] else m.owner;
  }

  /** The two containers exchange their iterators. */
  lemma SwapMeaning(m: Model, c1: nat, c2: nat)
    requires Legal(m, CallSwap(c1, c2))
    ensures var r := Apply(m, CallSwap(c1, c2));
      && r.owner.Keys == m.owner.Keys
      && (forall i :: i in m.owner ==>
           r.owner[i] ==
             if m.owner[i] == Some(c1) then Some(c2) else if m.owner[i] == Some(c2) then Some(c1) else m.owner[i])
      && r.live == m.live[c1 := m.live[c2]][c2 := m.live[c1]]
  {
  }
}
