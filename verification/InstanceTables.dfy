/**
  What has been seen at each place: the different values of a macro expansion or of a condition.

  A place is a key of a name, a file, a line and a column.  A table keeps for each key the values seen
  there, each with the inclusion path of the first time it was seen.
  */
module InstanceTables {

  import opened StringOrder

  datatype PPItemKey = PPItemKey(name: string, file: int, line: int, column: int)
  {
    /** `operator<`. */
    predicate Less(other: PPItemKey) {
      if StringLess(name, other.name) then true
      else if StringLess(other.name, name) then false
      else if file < other.file then true
      else if file > other.file then false
      else if line < other.line then true
      else if line > other.line then false
      else column < other.column
    }
  }

  /** The order is total, and two keys that are not ordered are equal, as a map needs it. */
  lemma KeysAreOrdered(a: PPItemKey, b: PPItemKey)
    ensures !(a.Less(b) && b.Less(a)) && !a.Less(a)
    ensures !a.Less(b) && !b.Less(a) <==> a == b
  {
    StringLessIsTotal(a.name, b.name);
    StringLessIsTotal(a.name, a.name);
  }

  lemma KeyOrderIsTransitive(a: PPItemKey, b: PPItemKey, c: PPItemKey)
    requires a.Less(b) && b.Less(c)
    ensures a.Less(c)
  {
    StringLessIsTotal(a.name, b.name);
    StringLessIsTotal(b.name, c.name);
    StringLessIsTotal(a.name, c.name);
    if StringLess(a.name, b.name) && StringLess(b.name, c.name) {
      StringLessIsTransitive(a.name, b.name, c.name);
    }
  }

  /** A value seen at a place, and the inclusion path it was seen on. */
  datatype Event<V> = Event(key: PPItemKey, value: V, path: int)

  datatype Instance<V> = Instance(value: V, inclusionPathHandles: seq<int>)

  type Table<V> = map<PPItemKey, seq<Instance<V>>>

  predicate Has<V(==)>(instances: seq<Instance<V>>, value: V) {
    exists n :: 0 <= n < |instances| && instances[n].value == value
  }

  /** The different values of a key in the order in which they were first seen. */
  function Instances<V(==)>(events: seq<Event<V>>, key: PPItemKey): seq<Instance<V>> {
    if events == [] then
      []
    else
      var before, e := Instances(events[..|events| - 1], key), events[|events| - 1];
      if e.key == key && !Has(before, e.value) then before + [Instance(e.value, [e.path])] else before
  }

  ghost predicate Summary<V>(table: Table<V>, events: seq<Event<V>>) {
    && (forall key: PPItemKey :: key in table <==> Instances(events, key) != [])
    && (forall key <- table :: table[key] == Instances(events, key))
  }

  /** Whether the handle is listed; the error value that stands for its absence counts as true. */
  method HaveInclusionPathHandle(handles: seq<int>, h: int) returns (have: bool)
    ensures have
  {
    for n := 0 to |handles| {
      if handles[n] == h {
        return true;
      }
    }
    var invalid := -1;
    return invalid != 0;
  }

  method AddInclusionPathHandle<V>(instance: Instance<V>, h: int) returns (r: Instance<V>)
    ensures r == instance
  {
    var have := HaveInclusionPathHandle(instance.inclusionPathHandles, h);
    r := instance;
    if !have {
      r := instance.(inclusionPathHandles := instance.inclusionPathHandles + [h]);
    }
  }

  method FindInstance<V(==)>(instances: seq<Instance<V>>, value: V) returns (n: int)
    ensures -1 <= n < |instances|
    ensures n >= 0 ==> instances[n].value == value
    ensures n == -1 ==> !Has(instances, value)
  {
    for m := 0 to |instances|
      invariant forall k :: 0 <= k < m ==> instances[k].value != value
    {
      if instances[m].value == value {
        return m;
      }
    }
    return -1;
  }

  /** Enters a value: a new key, a new value of a known key, or one more path of a known value. */
  method AddInstance<V(==)>(table: Table<V>, ghost events: seq<Event<V>>, key: PPItemKey, value: V, path: int)
    returns (r: Table<V>)
    requires Summary(table, events)
    ensures Summary(r, events + [Event(key, value, path)])
  {
    InstancesOneMore(events, Event(key, value, path));
    if key !in table {
      r := table[key := [Instance(value, [path])]];
    } else {
      var instances := table[key];
      var n := FindInstance(instances, value);
      if n >= 0 {
        var instance := AddInclusionPathHandle(instances[n], path);
        r := table[key := instances[n := instance]];
      } else {
        r := table[key := instances + [Instance(value, [path])]];
      }
    }
  }

  lemma InstancesOneMore<V>(events: seq<Event<V>>, e: Event<V>)
    ensures forall key: PPItemKey ::
      Instances(events + [e], key) ==
        (if e.key == key && !Has(Instances(events, key), e.value)
         then Instances(events, key) + [Instance(e.value, [e.path])]
         else Instances(events, key))
  {
    assert (events + [e])[..|events|] == events;
  }

  // ------------------------------------------------------------------ what a table says about its history

  /** Two events at one place saw different values. */
  ghost predicate Mismatch<V>(events: seq<Event<V>>, key: PPItemKey) {
    exists n, m :: 0 <= n < |events| && 0 <= m < |events| &&
      events[n].key == key && events[m].key == key && events[n].value != events[m].value
  }

  ghost predicate Seen<V>(events: seq<Event<V>>, key: PPItemKey, v: V) {
    exists n :: 0 <= n < |events| && events[n].key == key && events[n].value == v
  }

  lemma SeenOneMore<V>(events: seq<Event<V>>, e: Event<V>, key: PPItemKey, v: V)
    ensures Seen(events + [e], key, v) <==> Seen(events, key, v) || (e.key == key && e.value == v)
  {
    var more := events + [e];
    assert more[|events|] == e && forall n :: 0 <= n < |events| ==> more[n] == events[n];
  }

  lemma HasOneMore<V>(instances: seq<Instance<V>>, instance: Instance<V>, v: V)
    ensures Has(instances + [instance], v) <==> Has(instances, v) || instance.value == v
  {
    var more := instances + [instance];
    assert more[|instances|] == instance && forall n :: 0 <= n < |instances| ==> more[n] == instances[n];
  }

  /** The instances of a key are exactly the values seen there. */
  lemma {:induction false} InstancesAreValues<V>(events: seq<Event<V>>, key: PPItemKey, v: V)
    ensures Has(Instances(events, key), v) <==> Seen(events, key, v)
  {
    if events != [] {
      var before, e := events[..|events| - 1], events[|events| - 1];
      InstancesAreValues(before, key, v);
      SeenOneMore(before, e, key, v);
      assert events == before + [e];
      HasOneMore(Instances(before, key), Instance(e.value, [e.path]), v);
    }
  }

  /** No value is listed twice, and each keeps one inclusion path only. */
  ghost predicate Distinct<V>(instances: seq<Instance<V>>) {
    && (forall n, m :: 0 <= n < m < |instances| ==> instances[n].value != instances[m].value)
    && (forall n :: 0 <= n < |instances| ==> |instances[n].inclusionPathHandles| == 1)
  }

  lemma DistinctOneMore<V>(instances: seq<Instance<V>>, v: V, path: int)
    requires Distinct(instances) && !Has(instances, v)
    ensures Distinct(instances + [Instance(v, [path])])
  {
    var more := instances + [Instance(v, [path])];
    forall n, m | 0 <= n < m < |more|
      ensures more[n].value != more[m].value
    {
      assert more[n] == instances[n];
    }
    forall n | 0 <= n < |more|
      ensures |more[n].inclusionPathHandles| == 1
    {
      assert n < |instances| ==> more[n] == instances[n];
    }
  }

  lemma {:induction false} InstancesAreDistinct<V>(events: seq<Event<V>>, key: PPItemKey)
    ensures Distinct(Instances(events, key))
  {
    if events != [] {
      var before, e := Instances(events[..|events| - 1], key), events[|events| - 1];
      InstancesAreDistinct(events[..|events| - 1], key);
      if e.key == key && !Has(before, e.value) {
        DistinctOneMore(before, e.value, e.path);
      }
    }
  }

  /** A key has more than one instance exactly if two of its events saw different values. */
  lemma ManyInstancesMeanMismatch<V>(events: seq<Event<V>>, key: PPItemKey)
    ensures |Instances(events, key)| > 1 <==> Mismatch(events, key)
  {
    InstancesAreDistinct(events, key);
    var instances := Instances(events, key);
    if |instances| > 1 {
      var v, w := instances[0].value, instances[1].value;
      InstancesAreValues(events, key, v);
      InstancesAreValues(events, key, w);
      assert Has(instances, v) && Has(instances, w);
    }
    if Mismatch(events, key) {
      var n, m :| 0 <= n < |events| && 0 <= m < |events| &&
        events[n].key == key && events[m].key == key && events[n].value != events[m].value;
      InstancesAreValues(events, key, events[n].value);
      InstancesAreValues(events, key, events[m].value);
      assert Seen(events, key, events[n].value) && Seen(events, key, events[m].value);
    }
  }

  // ------------------------------------------------------------------ the paths that are kept

  /** An event of that key and value on that path. */
  ghost predicate SeenOn<V>(events: seq<Event<V>>, key: PPItemKey, v: V, path: int) {
    exists n :: 0 <= n < |events| && events[n] == Event(key, v, path)
  }

  /** The first event of a key with a value. */
  ghost predicate FirstSeen<V>(events: seq<Event<V>>, key: PPItemKey, v: V, k: nat) {
    k < |events| && events[k].key == key && events[k].value == v && !Seen(events[..k], key, v)
  }

  lemma FirstSeenOneMore<V>(events: seq<Event<V>>, e: Event<V>, key: PPItemKey, v: V, k: nat)
    ensures FirstSeen(events, key, v, k) ==> FirstSeen(events + [e], key, v, k)
    ensures e.key == key && e.value == v && !Seen(events, key, v) ==> FirstSeen(events + [e], key, v, |events|)
  {
    var more := events + [e];
    assert more[..|events|] == events && (k < |events| ==> more[..k] == events[..k]);
  }

  /** An instance keeps one path: that of the first event with its value. */
  lemma {:induction false} FirstPathIsKept<V>(events: seq<Event<V>>, key: PPItemKey, n: nat)
    requires n < |Instances(events, key)|
    ensures |Instances(events, key)[n].inclusionPathHandles| == 1
    ensures var i := Instances(events, key)[n];
      exists k: nat :: FirstSeen(events, key, i.value, k) && i.inclusionPathHandles == [events[k].path]
  {
    var before, e := events[..|events| - 1], events[|events| - 1];
    var i := Instances(events, key)[n];
    assert events == before + [e];
    InstancesAreValues(before, key, e.value);
    if n < |Instances(before, key)| {
      FirstPathIsKept(before, key, n);
      var k: nat :| FirstSeen(before, key, i.value, k) && i.inclusionPathHandles == [before[k].path];
      FirstSeenOneMore(before, e, key, i.value, k);
    } else {
      FirstSeenOneMore(before, e, key, i.value, 0);
    }
  }

  /** An instance keeps all paths on which its value was seen if and only if there is only one. */
  lemma PathsAreComplete<V>(events: seq<Event<V>>, key: PPItemKey, n: nat)
    requires n < |Instances(events, key)|
    ensures var i := Instances(events, key)[n];
      (forall path: int :: SeenOn(events, key, i.value, path) ==> path in i.inclusionPathHandles) <==>
      (forall p: int, q: int ::
        SeenOn(events, key, i.value, p) && SeenOn(events, key, i.value, q) ==> p == q)
  {
    FirstPathIsKept(events, key, n);
    var i := Instances(events, key)[n];
    var kept := i.inclusionPathHandles[0];
    assert SeenOn(events, key, i.value, kept) && kept in i.inclusionPathHandles;
  }

  /** A value seen on two paths: the second is not kept. */
  lemma SecondPathIsLost<V>(key: PPItemKey, v: V)
    ensures Instances([Event(key, v, 0), Event(key, v, 1)], key) == [Instance(v, [0])]
  {
    var first: seq<Event<V>> := [Event(key, v, 0)];
    var both := [Event(key, v, 0), Event(key, v, 1)];
    assert first[..0] == [] && both[..1] == first;
    assert Instances(first, key) == Instances(first[..0], key) + [Instance(v, [0])];
    assert Instances(first, key)[0].value == v;
  }

  // ------------------------------------------------------------------ the report

  /** The report walks over all keys and finds those with more than one instance. */
  method HasMismatches<V(==)>(table: Table<V>, ghost events: seq<Event<V>>) returns (found: bool)
    requires Summary(table, events)
    ensures found <==> exists key: PPItemKey :: Mismatch(events, key)
  {
    found := false;
    var todo := table.Keys;
    while todo != {}
      invariant todo <= table.Keys
      invariant found <==> exists key: PPItemKey :: key in table && key !in todo && Mismatch(events, key)
    {
      var key :| key in todo;
      ManyInstancesMeanMismatch(events, key);
      if |table[key]| > 1 {
        found := true;
      }
      todo := todo - {key};
    }
    forall key: PPItemKey | Mismatch(events, key)
      ensures key in table
    {
      ManyInstancesMeanMismatch(events, key);
    }
  }
}
