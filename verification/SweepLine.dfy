/**
  A sweep over the begin and end points of intervals, which marks the owner of each interval that
  overlaps another one, unless it contains the other.
  */
module SweepLine {

  import opened Ordering

  /** What replacement number `place` of error `id` covers; `size` is that of the error's whole fix. */
  datatype Interval = Interval(begin: nat, end: nat, id: nat, size: nat, place: nat)

  datatype Event = Event(opening: bool, interval: Interval)

  type Priority = (int, int, int, int, int)

  const WIDTH := 0x1_0000_0000
  const HALF := 0x8000_0000

  /** An `unsigned` negated and stored in an `int`. */
  function Negated(x: int): int {
    var y := -x % WIDTH;
    if y < HALF then y else y - WIDTH
  }

  function PriorityOf(e: Event): Priority {
    var i := e.interval;
    if e.opening
    then (i.begin, 1, Negated(i.end), Negated(i.size), i.id)
    else (i.end, -1, Negated(i.begin), i.size, i.id)
  }

  /** The lexicographic order of `std::tuple`. */
  predicate Lower(a: Priority, b: Priority) {
    if a.0 != b.0 then a.0 < b.0
    else if a.1 != b.1 then a.1 < b.1
    else if a.2 != b.2 then a.2 < b.2
    else if a.3 != b.3 then a.3 < b.3
    else a.4 < b.4
  }

  predicate Before(a: Event, b: Event) {
    Lower(PriorityOf(a), PriorityOf(b))
  }

  /** Positions are `unsigned` and sizes are `int`; intervals are not empty. */
  predicate Wide(i: Interval) {
    i.begin < i.end < WIDTH && i.size < HALF
  }

  function Begin(i: Interval): Event {
    Event(true, i)
  }

  function End(i: Interval): Event {
    Event(false, i)
  }

  // ------------------------------------------------------------------ the order of events

  lemma NegatedInjective(x: nat, y: nat)
    requires x < WIDTH && y < WIDTH && Negated(x) == Negated(y)
    ensures x == y
  {
  }

  /** Two events have equal priorities only if they come from equal intervals of one error. */
  lemma TiedEvents(a: Event, b: Event)
    requires Wide(a.interval) && Wide(b.interval) && !Before(a, b) && !Before(b, a)
    ensures a.opening == b.opening && a.interval == b.interval.(place := a.interval.place)
  {
    hide Negated;
    if a.interval.end < WIDTH && b.interval.end < WIDTH && Negated(a.interval.end) == Negated(b.interval.end) {
      NegatedInjective(a.interval.end, b.interval.end);
    }
    if Negated(a.interval.begin) == Negated(b.interval.begin) {
      NegatedInjective(a.interval.begin, b.interval.begin);
    }
    if Negated(a.interval.size) == Negated(b.interval.size) {
      NegatedInjective(a.interval.size, b.interval.size);
    }
  }

  predicate Sorted(events: seq<Event>) {
    forall p, q :: 0 <= p < q < |events| ==> !Before(events[q], events[p])
  }

  lemma BeforeIsAnOrder(a: Event, b: Event, c: Event)
    ensures !Before(a, a)
    ensures Before(a, b) ==> !Before(b, a)
    ensures !Before(b, a) && !Before(c, b) ==> !Before(c, a)
  {
  }

  lemma NoneBelow(events: seq<Event>, n: nat, e: Event)
    requires Sorted(events) && n < |events| && Before(e, events[n])
    ensures forall p :: n <= p < |events| ==> !Before(events[p], e)
  {
    hide Before;
    forall p | n <= p < |events|
      ensures !Before(events[p], e)
    {
      BeforeIsAnOrder(e, events[n], events[n]);
      BeforeIsAnOrder(e, events[n], events[p]);
    }
  }

  lemma Inserted(events: seq<Event>, n: nat, e: Event)
    requires Sorted(events) && n <= |events|
    requires forall p :: 0 <= p < n ==> !Before(e, events[p])
    requires forall p :: n <= p < |events| ==> !Before(events[p], e)
    ensures Sorted(events[..n] + [e] + events[n..])
    ensures multiset(events[..n] + [e] + events[n..]) == multiset(events) + multiset{e}
  {
    hide Before;
    assert events == events[..n] + events[n..];
  }

  method Sort(events: seq<Event>) returns (r: seq<Event>)
    ensures Sorted(r)
    ensures multiset(r) == multiset(events)
  {
    hide Before, PlaceFor;
    r := [];
    for n := 0 to |events|
      invariant Sorted(r)
      invariant multiset(r) == multiset(events[..n])
    {
      var place := PlaceFor(events[n], r, Before);
      if place < |r| {
        NoneBelow(r, place, events[n]);
      }
      Inserted(r, place, events[n]);
      assert events[..n + 1] == events[..n] + [events[n]];
      r := r[..place] + [events[n]] + r[place..];
    }
    assert events[..|events|] == events;
  }

  // ------------------------------------------------------------------ what the sweep decides

  predicate Disjoint(i: Interval, j: Interval) {
    i.end <= j.begin || j.end <= i.begin
  }

  /** Interval `i` opens before `j` and closes after it. */
  predicate Inside(j: Interval, i: Interval) {
    Before(Begin(i), Begin(j)) && Before(End(j), End(i))
  }

  predicate Compatible(i: Interval, j: Interval) {
    Disjoint(i, j) || Inside(j, i)
  }

  /** Each interval gives one begin and one end event. */
  ghost predicate Paired(events: seq<Event>) {
    && (forall p, q :: 0 <= p < q < |events| ==> events[p] != events[q])
    && (forall i: Interval :: Begin(i) in events <==> End(i) in events)
    && (forall i: Interval :: Begin(i) in events ==> Wide(i))
  }

  /** Every other interval is disjoint from each interval of error `k`, or inside it. */
  ghost predicate Clear(events: seq<Event>, k: nat) {
    forall i: Interval, j: Interval ::
      Begin(i) in events && Begin(j) in events && i.id == k && i != j ==> Compatible(i, j)
  }

  /** Another interval is open when event `q` is reached. */
  ghost predicate Marked(events: seq<Event>, q: nat)
    requires q < |events|
  {
    exists j: Interval :: j != events[q].interval && Open(events, j, q)
  }

  /** Some event of error `k` before `p` is marked. */
  ghost predicate MarkedBefore(events: seq<Event>, k: nat, p: nat)
    requires p <= |events|
  {
    exists q: nat :: q < p && events[q].interval.id == k && Marked(events, q)
  }

  predicate Open(events: seq<Event>, j: Interval, q: nat)
    requires q <= |events|
  {
    Begin(j) in events[..q] && End(j) !in events[..q]
  }

  lemma Located(events: seq<Event>, e: Event) returns (p: nat)
    requires (forall p, q :: 0 <= p < q < |events| ==> events[p] != events[q]) && e in events
    ensures p < |events| && events[p] == e
    ensures forall q :: 0 <= q <= |events| ==> (e in events[..q] <==> p < q)
  {
    p :| p < |events| && events[p] == e;
    forall q | 0 <= q <= |events|
      ensures e in events[..q] <==> p < q
    {
      if p < q {
        assert events[..q][p] == e;
      }
    }
  }

  /** The sorted order follows the priorities. */
  lemma InOrder(events: seq<Event>, a: Event, b: Event, p: nat, q: nat)
    requires Sorted(events) && p < |events| && q < |events| && events[p] == a && events[q] == b
    requires Before(a, b)
    ensures p < q
  {
    BeforeIsAnOrder(a, b, b);
  }

  /** An event of `i` or `j` finds the other interval open exactly if `i` conflicts with `j`. */
  lemma PairDecides(events: seq<Event>, i: Interval, j: Interval, bi: nat, ei: nat, bj: nat, ej: nat)
    requires Sorted(events) && i != j && Wide(i) && Wide(j)
    requires bi < |events| && ei < |events| && bj < |events| && ej < |events|
    requires events[bi] == Begin(i) && events[ei] == End(i) && events[bj] == Begin(j) && events[ej] == End(j)
    ensures Compatible(i, j) ==> !(bj < bi < ej) && !(bj < ei < ej)
    ensures !Compatible(i, j) ==> bj < bi < ej || bj < ei < ej || (i.id == j.id && (bi < bj < ei || bi < ej < ei))
  {
    InOrder(events, Begin(i), End(i), bi, ei);
    InOrder(events, Begin(j), End(j), bj, ej);
    if i.end <= j.begin {
      InOrder(events, End(i), Begin(j), ei, bj);
    } else if j.end <= i.begin {
      InOrder(events, End(j), Begin(i), ej, bi);
    } else {
      InOrder(events, Begin(i), End(j), bi, ej);
      InOrder(events, Begin(j), End(i), bj, ei);
      if Inside(j, i) {
        InOrder(events, Begin(i), Begin(j), bi, bj);
        InOrder(events, End(j), End(i), ej, ei);
      } else if bi < bj && ej < ei {
        assert !Before(Begin(j), Begin(i)) && !Before(End(i), End(j));
        if Before(Begin(i), Begin(j)) {
          TiedEvents(End(j), End(i));
        } else {
          TiedEvents(Begin(i), Begin(j));
        }
      }
    }
  }

  /** The events of error `k` that find another interval open decide whether it is clear. */
  lemma MarksDecide(events: seq<Event>, k: nat)
    requires Sorted(events) && Paired(events)
    ensures Clear(events, k) <==> !MarkedBefore(events, k, |events|)
  {
    if Clear(events, k) {
      forall q: nat | q < |events| && events[q].interval.id == k
        ensures !Marked(events, q)
      {
        var i := events[q].interval;
        forall j: Interval | j != i && Begin(j) in events
          ensures !Open(events, j, q)
        {
          assert Compatible(i, j);
          PairMarks(events, i, j, q);
        }
      }
    } else {
      var i: Interval, j: Interval :|
        Begin(i) in events && Begin(j) in events && i.id == k && i != j && !Compatible(i, j);
      var bi := Located(events, Begin(i));
      var ei := Located(events, End(i));
      var bj := Located(events, Begin(j));
      var ej := Located(events, End(j));
      PairDecides(events, i, j, bi, ei, bj, ej);
      if bj < bi < ej {
        assert Open(events, j, bi);
      } else if bj < ei < ej {
        assert Open(events, j, ei);
      } else if bi < bj < ei {
        assert Open(events, i, bj);
      } else {
        assert Open(events, i, ej);
      }
    }
  }

  lemma PairMarks(events: seq<Event>, i: Interval, j: Interval, q: nat)
    requires Sorted(events) && Paired(events) && q < |events| && events[q].interval == i
    requires i != j && Begin(j) in events && Compatible(i, j)
    ensures !Open(events, j, q)
  {
    assert events[q] in events;
    assert events[q] == if events[q].opening then Begin(i) else End(i);
    var bi := Located(events, Begin(i));
    var ei := Located(events, End(i));
    var bj := Located(events, Begin(j));
    var ej := Located(events, End(j));
    PairDecides(events, i, j, bi, ei, bj, ej);
  }

  // ------------------------------------------------------------------ the sweep

  lemma {:induction false} DistinctCounts(events: seq<Event>, e: Event)
    requires forall p, q :: 0 <= p < q < |events| ==> events[p] != events[q]
    ensures multiset(events)[e] <= 1
  {
    if events != [] {
      var n := |events| - 1;
      assert events == events[..n] + [events[n]];
      DistinctCounts(events[..n], e);
      assert events[n] !in events[..n];
      assert events[n] !in multiset(events[..n]);
    }
  }

  lemma AppearsTwice(events: seq<Event>, p: nat, q: nat)
    requires p < q < |events| && events[p] == events[q]
    ensures multiset(events)[events[q]] >= 2
  {
    var e := events[q];
    assert events == events[..q] + [e] + events[q + 1..];
    assert events[..q][p] == e;
    assert e in multiset(events[..q]);
  }

  lemma SortKeepsPairs(events: seq<Event>, sorted: seq<Event>)
    requires Paired(events) && multiset(sorted) == multiset(events)
    ensures Paired(sorted) && (forall e: Event :: e in sorted <==> e in events)
    ensures forall k: nat :: Clear(sorted, k) <==> Clear(events, k)
  {
    assert forall e: Event :: e in sorted <==> e in multiset(sorted);
    assert forall e: Event :: e in events <==> e in multiset(events);
    forall p, q | 0 <= p < q < |sorted|
      ensures sorted[p] != sorted[q]
    {
      var e := sorted[q];
      DistinctCounts(events, e);
      if sorted[p] == e {
        AppearsTwice(sorted, p, q);
      }
    }
  }

  /** Passing one event opens or closes its interval. */
  lemma OpenStep(events: seq<Event>, p: nat)
    requires Sorted(events) && Paired(events) && p < |events|
    ensures var i := events[p].interval;
      && (Open(events, i, p) <==> !events[p].opening)
      && (forall j: Interval :: Open(events, j, p + 1) <==> if j == i then events[p].opening else Open(events, j, p))
  {
  }

  ghost function OpenSet(events: seq<Event>, p: nat): (r: set<Interval>)
    requires p <= |events|
    ensures forall i: Interval :: i in r <==> Open(events, i, p)
  {
    set e <- events[..p] | e.opening && End(e.interval) !in events[..p] :: e.interval
  }

  lemma MarkedWhenOthersOpen(events: seq<Event>, p: nat)
    requires p < |events|
    ensures |OpenSet(events, p) - {events[p].interval}| != 0 <==> Marked(events, p)
  {
    var others := OpenSet(events, p) - {events[p].interval};
    if others != {} {
      var j :| j in others;
      assert Open(events, j, p);
    }
  }

  lemma MarkedBeforeStep(events: seq<Event>, k: nat, p: nat)
    requires p < |events|
    ensures MarkedBefore(events, k, p + 1) <==>
      MarkedBefore(events, k, p) || (k == events[p].interval.id && Marked(events, p))
  {
    if k == events[p].interval.id && Marked(events, p) {
      assert p < p + 1;
    } else if MarkedBefore(events, k, p + 1) {
      var q: nat :| q < p + 1 && events[q].interval.id == k && Marked(events, q);
      assert q < p;
    }
  }

  /** Passing an event adds its interval to the open ones, or removes it. */
  lemma OpenSetStep(events: seq<Event>, p: nat)
    requires Sorted(events) && Paired(events) && p < |events|
    ensures var i := events[p].interval;
      if events[p].opening
      then i !in OpenSet(events, p) && OpenSet(events, p + 1) == OpenSet(events, p) + {i}
      else i in OpenSet(events, p) && OpenSet(events, p + 1) == OpenSet(events, p) - {i}
  {
    OpenStep(events, p);
    hide Open;
  }

  /** The count of open intervals decides whether an event is marked, and follows the events. */
  lemma CountStep(events: seq<Event>, p: nat)
    requires Sorted(events) && Paired(events) && p < |events|
    ensures var n := |OpenSet(events, p)|;
      if events[p].opening
      then (n != 0 <==> Marked(events, p)) && |OpenSet(events, p + 1)| == n + 1
      else (n - 1 != 0 <==> Marked(events, p)) && |OpenSet(events, p + 1)| == n - 1
  {
    hide Before, Wide, Open, Marked, OpenSet;
    OpenSetStep(events, p);
    MarkedWhenOthersOpen(events, p);
    if events[p].opening {
      assert OpenSet(events, p) - {events[p].interval} == OpenSet(events, p);
    }
  }

  lemma AllPassed(events: seq<Event>)
    requires Paired(events) && Sorted(events)
    ensures OpenSet(events, |events|) == {}
    ensures forall k: nat :: Clear(events, k) <==> !MarkedBefore(events, k, |events|)
  {
    assert events[..|events|] == events;
    forall k: nat
      ensures Clear(events, k) <==> !MarkedBefore(events, k, |events|)
    {
      MarksDecide(events, k);
    }
  }

  /** Clears `apply` for the errors that conflict in one file; the number of open intervals ends at 0. */
  method Sweep(events: seq<Event>, apply: array<bool>) returns (open: int)
    requires Sorted(events) && Paired(events)
    requires forall p :: 0 <= p < |events| ==> events[p].interval.id < apply.Length
    modifies apply
    ensures open == 0
    ensures forall k :: 0 <= k < apply.Length ==> apply[k] == (old(apply[k]) && Clear(events, k))
  {
    hide Before, Wide, Marked, Open, Clear;
    open := 0;
    assert OpenSet(events, 0) == {};
    assert forall k: nat :: !MarkedBefore(events, k, 0);
    hide MarkedBefore, OpenSet;
    for p := 0 to |events|
      invariant open == |OpenSet(events, p)|
      invariant forall k: nat :: k < apply.Length ==> apply[k] == (old(apply[k]) && !MarkedBefore(events, k, p))
    {
      var e := events[p];
      CountStep(events, p);
      if !e.opening {
        open := open - 1;
      }
      if open != 0 {
        apply[e.interval.id] := false;
      }
      forall k: nat
        ensures MarkedBefore(events, k, p + 1) <==> MarkedBefore(events, k, p) || (k == e.interval.id && open != 0)
      {
        MarkedBeforeStep(events, k, p);
      }
      if e.opening {
        open := open + 1;
      }
    }
    AllPassed(events);
  }
}
