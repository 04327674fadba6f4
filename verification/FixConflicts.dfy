/**
  Which fixes can be applied together.

  Every error carries a fix, a list of replacements in files.  The fixes that the sweep keeps are
  characterised here by a statement about pairs of replacements.
  */
module FixConflicts {

  import opened SweepLine

  /** Replaces `length` characters of a file from `offset` on. */
  datatype Replacement = Replacement(path: string, offset: nat, length: nat)

  datatype Message = Message(path: string, offset: int, text: string)

  /** A note of the compiler or a check, or the one that says why a fix is not applied. */
  datatype Note = Attached(message: Message) | OverlapsAnotherFix

  /** A check of the program, a warning option of the compiler, or a compiler diagnostic without one. */
  datatype CheckName = Check(name: string) | WarningOption(option: string) | CompilerError | CompilerWarning | Unknown

  /** A stored diagnostic. */
  datatype Error = Error(
    checkName: CheckName,
    isError: bool,
    isWarningAsError: bool,
    message: Message,
    notes: seq<Note>,
    fix: seq<Replacement>)

  /** The diagnostic without its fix, and with a note that says so. */
  function WithoutFix(error: Error): Error {
    error.(fix := [], notes := error.notes + [OverlapsAnotherFix])
  }

  function SizeOf(fix: seq<Replacement>): nat {
    if fix == [] then 0 else SizeOf(fix[..|fix| - 1]) + fix[|fix| - 1].length
  }

  /** Ends fit an `unsigned`, and the size of a fix an `int`. */
  predicate Representable(errors: seq<Error>) {
    forall error <- errors ::
      SizeOf(error.fix) < HALF && forall r <- error.fix :: r.offset + r.length < WIDTH
  }

  function IntervalOf(errors: seq<Error>, k: nat, n: nat): Interval
    requires k < |errors| && n < |errors[k].fix|
  {
    var r := errors[k].fix[n];
    Interval(r.offset, r.offset + r.length, k, SizeOf(errors[k].fix), n)
  }

  /** The interval is that of a replacement in the file; insertions have none. */
  predicate Replaces(errors: seq<Error>, path: string, i: Interval) {
    && i.id < |errors|
    && i.place < |errors[i.id].fix|
    && errors[i.id].fix[i.place].path == path
    && i == IntervalOf(errors, i.id, i.place)
    && i.begin < i.end
  }

  /** Every other interval in a file that the fix touches is disjoint from the fix's intervals or inside. */
  ghost predicate Applicable(errors: seq<Error>, k: nat) {
    forall path: string :: ApplicableIn(errors, path, k)
  }

  ghost predicate ApplicableIn(errors: seq<Error>, path: string, k: nat) {
    forall i: Interval, j: Interval ::
      Replaces(errors, path, i) && Replaces(errors, path, j) && i.id == k && i != j ==> Compatible(i, j)
  }

  function EventsAt(errors: seq<Error>, path: string, k: nat, n: nat): seq<Event>
    requires k < |errors| && n < |errors[k].fix|
  {
    var i := IntervalOf(errors, k, n);
    if i.begin < i.end && errors[k].fix[n].path == path then [Begin(i), End(i)] else []
  }

  /** The events in one file of all replacements before number `n` of error `k`. */
  function EventsUpTo(errors: seq<Error>, path: string, k: nat, n: nat): seq<Event>
    requires k < |errors| && n <= |errors[k].fix|
    decreases k, n, 1
  {
    if n > 0
    then EventsUpTo(errors, path, k, n - 1) + EventsAt(errors, path, k, n - 1)
    else EventsBefore(errors, path, k)
  }

  /** The events in one file of the first `k` errors. */
  function EventsBefore(errors: seq<Error>, path: string, k: nat): seq<Event>
    requires k <= |errors|
    decreases k, 0, 0
  {
    if k == 0 then [] else EventsUpTo(errors, path, k - 1, |errors[k - 1].fix|)
  }

  predicate Earlier(i: Interval, k: nat, n: nat) {
    i.id < k || (i.id == k && i.place < n)
  }

  ghost predicate Lists(errors: seq<Error>, path: string, k: nat, n: nat, events: seq<Event>) {
    && (forall e: Event :: e in events <==> Replaces(errors, path, e.interval) && Earlier(e.interval, k, n))
    && (forall p, q :: 0 <= p < q < |events| ==> events[p] != events[q])
  }

  lemma ListsOneMore(errors: seq<Error>, path: string, k: nat, n: nat, events: seq<Event>)
    requires k < |errors| && n < |errors[k].fix| && Lists(errors, path, k, n, events)
    ensures Lists(errors, path, k, n + 1, events + EventsAt(errors, path, k, n))
  {
    var more := EventsAt(errors, path, k, n);
    forall e: Event
      ensures e in events + more <==> Replaces(errors, path, e.interval) && Earlier(e.interval, k, n + 1)
    {
      assert e in more <==> Replaces(errors, path, e.interval) && e.interval.id == k && e.interval.place == n;
    }
  }

  lemma {:induction false} EventsAreThoseOfReplacements(errors: seq<Error>, path: string, k: nat, n: nat)
    requires k < |errors| && n <= |errors[k].fix|
    ensures Lists(errors, path, k, n, EventsUpTo(errors, path, k, n))
    decreases k, n
  {
    if n > 0 {
      EventsAreThoseOfReplacements(errors, path, k, n - 1);
      ListsOneMore(errors, path, k, n - 1, EventsUpTo(errors, path, k, n - 1));
    } else if k > 0 {
      EventsAreThoseOfReplacements(errors, path, k - 1, |errors[k - 1].fix|);
    }
  }

  lemma EventsDecide(errors: seq<Error>, path: string)
    requires Representable(errors)
    ensures var events := EventsBefore(errors, path, |errors|);
      && Paired(events)
      && (forall e <- events :: e.interval.id < |errors|)
      && (forall k: nat :: Clear(events, k) <==> ApplicableIn(errors, path, k))
  {
    if errors != [] {
      EventsAreThoseOfReplacements(errors, path, |errors| - 1, |errors[|errors| - 1].fix|);
    }
  }

  function Lookup(files: map<string, seq<Event>>, path: string): seq<Event> {
    if path in files then files[path] else []
  }

  method ComputeSizes(errors: seq<Error>) returns (sizes: seq<nat>)
    ensures |sizes| == |errors| && forall k :: 0 <= k < |errors| ==> sizes[k] == SizeOf(errors[k].fix)
  {
    sizes := [];
    for k := 0 to |errors|
      invariant |sizes| == k && forall j :: 0 <= j < k ==> sizes[j] == SizeOf(errors[j].fix)
    {
      var size := 0;
      for n := 0 to |errors[k].fix|
        invariant size == SizeOf(errors[k].fix[..n])
      {
        size := size + errors[k].fix[n].length;
        assert errors[k].fix[..n + 1][..n] == errors[k].fix[..n];
      }
      assert errors[k].fix[..|errors[k].fix|] == errors[k].fix;
      sizes := sizes + [size];
    }
  }

  method BuildEvents(errors: seq<Error>) returns (files: map<string, seq<Event>>)
    ensures forall path: string :: Lookup(files, path) == EventsBefore(errors, path, |errors|)
  {
    var sizes := ComputeSizes(errors);
    files := map[];
    for k := 0 to |errors|
      invariant forall path: string :: Lookup(files, path) == EventsBefore(errors, path, k)
    {
      for n := 0 to |errors[k].fix|
        invariant forall path: string :: Lookup(files, path) == EventsUpTo(errors, path, k, n)
      {
        var r := errors[k].fix[n];
        var begin, end := r.offset, r.offset + r.length;
        if begin != end {
          var i := Interval(begin, end, k, sizes[k], n);
          var events := if r.path in files then files[r.path] else [];
          files := files[r.path := events + [Begin(i), End(i)]];
        }
      }
    }
  }

  // ------------------------------------------------------------------ the whole pass

  method SweepFiles(errors: seq<Error>, files: map<string, seq<Event>>, apply: array<bool>)
    requires Representable(errors) && apply.Length == |errors|
    requires forall path: string :: Lookup(files, path) == EventsBefore(errors, path, |errors|)
    requires forall k :: 0 <= k < apply.Length ==> apply[k]
    modifies apply
    ensures forall k :: 0 <= k < apply.Length ==> (apply[k] <==> Applicable(errors, k))
  {
    var todo := files.Keys;
    while todo != {}
      invariant todo <= files.Keys
      invariant forall k: nat :: k < apply.Length ==>
        (apply[k] <==> forall path: string :: path !in todo && path in files ==> ApplicableIn(errors, path, k))
    {
      var path :| path in todo;
      EventsDecide(errors, path);
      assert files[path] == Lookup(files, path);
      var sorted := Sort(files[path]);
      SortKeepsPairs(files[path], sorted);
      forall p | 0 <= p < |sorted|
        ensures sorted[p].interval.id < apply.Length
      {
        assert sorted[p] in sorted;
      }
      var open := Sweep(sorted, apply);
      assert open == 0;
      todo := todo - {path};
    }
    forall k: nat, path: string | k < apply.Length && path !in files
      ensures ApplicableIn(errors, path, k)
    {
      EventsDecide(errors, path);
      assert Lookup(files, path) == [];
    }
  }

  /** Two replacements of one file that share a character. */
  predicate Clash(p: Replacement, q: Replacement) {
    p.path == q.path && p.offset < q.offset + q.length && q.offset < p.offset + p.length
  }

  /** Drops the fix of every error that is not applicable, with a note, and changes nothing else. */
  method RemoveIncompatibleErrors(errors: seq<Error>) returns (r: seq<Error>)
    requires Representable(errors)
    ensures |r| == |errors|
    ensures forall k :: 0 <= k < |errors| ==>
      && r[k].fix == (if Applicable(errors, k) then errors[k].fix else [])
      && r[k].notes == errors[k].notes + (if Applicable(errors, k) then [] else [OverlapsAnotherFix])
      && r[k].message == errors[k].message
      && r[k].checkName == errors[k].checkName
      && r[k].isError == errors[k].isError
      && r[k].isWarningAsError == errors[k].isWarningAsError
  {
    var files := BuildEvents(errors);
    var apply := new bool[|errors|](_ => true);
    SweepFiles(errors, files, apply);
    r := errors;
    for k := 0 to |errors|
      invariant |r| == |errors|
      invariant forall j :: k <= j < |errors| ==> r[j] == errors[j]
      invariant forall j :: 0 <= j < k ==>
        r[j] == if Applicable(errors, j) then errors[j] else WithoutFix(errors[j])
    {
      if !apply[k] {
        r := r[k := WithoutFix(r[k])];
      }
    }
    assert forall k :: 0 <= k < |errors| ==> errors[k].notes + [] == errors[k].notes;
  }

  // ------------------------------------------------------------------ what the result means

  /** The two intervals share a character. */
  predicate Overlap(i: Interval, j: Interval) {
    i.begin < j.end && j.begin < i.end
  }

  /** The intended order: `i` properly contains `j`, or they are equal and `i` has the bigger fix. */
  predicate Contains(i: Interval, j: Interval) {
    i.begin <= j.begin && j.end <= i.end &&
    (i.begin < j.begin || j.end < i.end || i.size > j.size)
  }

  lemma NegatedOrder(x: nat, y: nat)
    requires x < WIDTH && y < WIDTH
    ensures Negated(x) < Negated(y) <==> if (x <= HALF) == (y <= HALF) then y < x else x <= HALF
    ensures Negated(x) == Negated(y) <==> x == y
  {
    NegatedValue(x);
    NegatedValue(y);
    hide Negated;
  }

  lemma NegatedValue(x: int)
    requires 0 <= x < WIDTH
    ensures Negated(x) == if x <= HALF then 0 - x else WIDTH - x
  {
    assert x > 0 ==> (0 - x) % WIDTH == WIDTH - x;
  }

  /**
    The priorities express that order, but for two intervals that share one end while their other
    ends lie on different sides of 2^31, where the negated `unsigned` changes its sign as an `int`.
    */
  lemma InsideMeansContained(i: Interval, j: Interval)
    requires Wide(i) && Wide(j) && Overlap(i, j)
    ensures (Inside(j, i) <==> Contains(i, j)) <==>
      !(i.begin == j.begin && j.end <= HALF < i.end) && !(i.end == j.end && i.begin <= HALF < j.begin)
  {
    NegatedOrder(i.end, j.end);
    NegatedOrder(j.begin, i.begin);
    NegatedOrder(i.size, j.size);
    hide Negated;
  }

  /** In files of at most 2^31 characters the priorities express the intended order. */
  lemma InsideInSmallFiles(i: Interval, j: Interval)
    requires Wide(i) && Wide(j) && Overlap(i, j) && i.end <= HALF && j.end <= HALF
    ensures Inside(j, i) <==> Contains(i, j)
  {
    InsideMeansContained(i, j);
  }

  /** The fixes that are left touch pairwise disjoint parts of every file. */
  lemma KeptFixesAreDisjoint(errors: seq<Error>, path: string, i: Interval, j: Interval)
    requires Applicable(errors, i.id) && Applicable(errors, j.id)
    requires Replaces(errors, path, i) && Replaces(errors, path, j) && i != j
    ensures !Overlap(i, j)
  {
    assert ApplicableIn(errors, path, i.id) && ApplicableIn(errors, path, j.id);
    BeforeIsAnOrder(Begin(i), Begin(j), Begin(i));
  }

  /** No two replacements that are left touch the same characters, be they of one fix or of two. */
  lemma NothingClashes(errors: seq<Error>, r: seq<Error>, k: nat, n: nat, l: nat, m: nat)
    requires |r| == |errors| && k < |r| && l < |r| && n < |r[k].fix| && m < |r[l].fix| && (k, n) != (l, m)
    requires forall j :: 0 <= j < |r| ==> r[j].fix == if Applicable(errors, j) then errors[j].fix else []
    requires r[k].fix[n].length > 0 && r[l].fix[m].length > 0
    ensures var p, q := r[k].fix[n], r[l].fix[m];
      p.path == q.path ==> p.offset + p.length <= q.offset || q.offset + q.length <= p.offset
  {
    var i, j := IntervalOf(errors, k, n), IntervalOf(errors, l, m);
    if r[k].fix[n].path == r[l].fix[m].path {
      KeptFixesAreDisjoint(errors, r[k].fix[n].path, i, j);
    }
  }

  /** Of two intervals that cross, neither fix is kept; nor of two equal ones of the same size. */
  lemma CrossingFixesAreBothDropped(errors: seq<Error>, path: string, i: Interval, j: Interval)
    requires Replaces(errors, path, i) && Replaces(errors, path, j) && i != j && Overlap(i, j)
    requires Wide(i) && Wide(j) && !Contains(i, j) && !Contains(j, i)
    ensures !Applicable(errors, i.id) && !Applicable(errors, j.id)
  {
    InsideMeansContained(i, j);
    InsideMeansContained(j, i);
    assert Applicable(errors, i.id) ==> ApplicableIn(errors, path, i.id);
    assert Applicable(errors, j.id) ==> ApplicableIn(errors, path, j.id);
    assert !Compatible(i, j) && !Compatible(j, i);
  }

  lemma SmallReplacements(errors: seq<Error>, path: string, i: Interval)
    requires Representable(errors) && Replaces(errors, path, i)
    requires forall error <- errors, r <- error.fix :: r.offset + r.length <= HALF
    ensures Wide(i) && i.end <= HALF
  {
    assert errors[i.id] in errors && errors[i.id].fix[i.place] in errors[i.id].fix;
  }

  ghost predicate ContainsOverlapsIn(errors: seq<Error>, path: string, k: nat) {
    forall i: Interval, j: Interval ::
      Replaces(errors, path, i) && Replaces(errors, path, j) && i.id == k && i != j && Overlap(i, j) ==>
      Contains(i, j)
  }

  lemma CompatibleInSmallFiles(errors: seq<Error>, path: string, i: Interval, j: Interval)
    requires Representable(errors)
    requires forall error <- errors, r <- error.fix :: r.offset + r.length <= HALF
    requires Replaces(errors, path, i) && Replaces(errors, path, j)
    ensures Compatible(i, j) <==> (Overlap(i, j) ==> Contains(i, j))
  {
    SmallReplacements(errors, path, i);
    SmallReplacements(errors, path, j);
    if Overlap(i, j) {
      InsideInSmallFiles(i, j);
    }
  }

  /** In files of at most 2^31 characters, a fix is kept exactly if it contains whatever it overlaps. */
  lemma KeptFixesContainTheirOverlaps(errors: seq<Error>, k: nat)
    requires Representable(errors)
    requires forall error <- errors, r <- error.fix :: r.offset + r.length <= HALF
    ensures Applicable(errors, k) <==> forall path: string :: ContainsOverlapsIn(errors, path, k)
  {
    hide Compatible, Overlap, Contains;
    forall path: string
      ensures ApplicableIn(errors, path, k) <==> ContainsOverlapsIn(errors, path, k)
    {
      forall i: Interval, j: Interval | Replaces(errors, path, i) && Replaces(errors, path, j)
        ensures Compatible(i, j) <==> (Overlap(i, j) ==> Contains(i, j))
      {
        CompatibleInSmallFiles(errors, path, i, j);
      }
    }
  }
  // ------------------------------------------------------------------ what can be received

  /**
    Every replacement of a fix comes from a position of one source manager, whose files share a space of
    2^31 locations, and the replacements of one fix do not overlap.
    */
  ghost predicate FromSources(errors: seq<Error>) {
    exists base: string -> nat :: AllLaidOut(errors, base)
  }

  predicate AllLaidOut(errors: seq<Error>, base: string -> nat) {
    forall error <- errors :: LaidOut(error.fix, base)
  }

  predicate LaidOut(fix: seq<Replacement>, base: string -> nat) {
    && (forall r <- fix :: base(r.path) + r.offset + r.length < HALF)
    && (forall n, m :: 0 <= n < m < |fix| ==> Apart(fix[n], fix[m], base))
  }

  predicate Apart(r: Replacement, s: Replacement, base: string -> nat) {
    || base(r.path) + r.offset + r.length <= base(s.path) + s.offset
    || base(s.path) + s.offset + s.length <= base(r.path) + r.offset
  }

  /** The locations from one on. */
  function Span(from: nat, length: nat): (r: set<nat>)
    ensures |r| == length && forall x :: x in r <==> from <= x < from + length
  {
    if length == 0 then {} else Span(from, length - 1) + {from + length - 1}
  }

  function Covered(fix: seq<Replacement>, base: string -> nat): set<nat> {
    if fix == [] then {}
    else
      var last := fix[|fix| - 1];
      Covered(fix[..|fix| - 1], base) + Span(base(last.path) + last.offset, last.length)
  }

  lemma {:induction false} CoveredIsSize(fix: seq<Replacement>, base: string -> nat)
    requires LaidOut(fix, base)
    ensures |Covered(fix, base)| == SizeOf(fix)
    ensures forall x <- Covered(fix, base) :: exists r <- fix ::
      base(r.path) + r.offset <= x < base(r.path) + r.offset + r.length
  {
    if fix != [] {
      var before, last := fix[..|fix| - 1], fix[|fix| - 1];
      CoveredIsSize(before, base);
      var covered, span := Covered(before, base), Span(base(last.path) + last.offset, last.length);
      forall x | x in covered
        ensures x !in span
      {
        var r :| r in before && base(r.path) + r.offset <= x < base(r.path) + r.offset + r.length;
        var n :| 0 <= n < |before| && before[n] == r;
        assert Apart(fix[n], fix[|fix| - 1], base);
      }
      assert covered !! span;
    }
  }

  lemma SubsetIsSmaller(a: set<nat>, b: set<nat>)
    requires a <= b
    ensures |a| <= |b|
  {
    assert b == a + (b - a);
  }

  /** So nothing that is received wraps or overflows. */
  lemma SourcesAreRepresentable(errors: seq<Error>)
    requires FromSources(errors)
    ensures Representable(errors)
    ensures forall error <- errors, r <- error.fix :: r.offset + r.length < HALF
  {
    var base: string -> nat :| AllLaidOut(errors, base);
    forall error | error in errors
      ensures SizeOf(error.fix) < HALF
      ensures forall r <- error.fix :: r.offset + r.length < HALF
    {
      assert LaidOut(error.fix, base);
      CoveredIsSize(error.fix, base);
      SubsetIsSmaller(Covered(error.fix, base), Span(0, HALF - 1));
    }
  }

  /** Of the fixes of a unit exactly those are kept that contain whatever they overlap. */
  lemma UnitsKeepContainingFixes(errors: seq<Error>, k: nat)
    requires FromSources(errors)
    ensures Applicable(errors, k) <==> forall path: string :: ContainsOverlapsIn(errors, path, k)
  {
    SourcesAreRepresentable(errors);
    KeptFixesContainTheirOverlaps(errors, k);
  }

  /** One replacement covers the other one, and more; or just the same, in a fix that is bigger as a whole. */
  predicate Covers(p: Replacement, fix: seq<Replacement>, q: Replacement, other: seq<Replacement>) {
    p.offset <= q.offset && q.offset + q.length <= p.offset + p.length &&
    (p.length > q.length || SizeOf(fix) > SizeOf(other))
  }

  /** Replacement `n` of error `k` covers number `m` of error `l`, unless they do not clash or are insertions. */
  predicate Yields(errors: seq<Error>, k: nat, n: nat, l: nat, m: nat)
    requires k < |errors| && l < |errors| && n < |errors[k].fix| && m < |errors[l].fix|
  {
    var p, q := errors[k].fix[n], errors[l].fix[m];
    (k, n) == (l, m) || !Clash(p, q) || p.length == 0 || q.length == 0 ||
    Covers(p, errors[k].fix, q, errors[l].fix)
  }

  lemma YieldsExactly(errors: seq<Error>, k: nat, n: nat, l: nat, m: nat)
    requires k < |errors| && l < |errors| && n < |errors[k].fix| && m < |errors[l].fix|
    requires errors[k].fix[n].path == errors[l].fix[m].path
    requires errors[k].fix[n].length > 0 && errors[l].fix[m].length > 0
    ensures var i, j := IntervalOf(errors, k, n), IntervalOf(errors, l, m);
      Yields(errors, k, n, l, m) <==> (i != j && Overlap(i, j) ==> Contains(i, j))
  {
    hide SizeOf;
  }

  /**
    In a unit a fix is applicable exactly if each of its replacements covers whatever other replacement
    it clashes with.
    */
  lemma ApplicableExactly(errors: seq<Error>, k: nat)
    requires FromSources(errors) && k < |errors|
    ensures Applicable(errors, k) <==>
      forall n, l, m :: 0 <= n < |errors[k].fix| && 0 <= l < |errors| && 0 <= m < |errors[l].fix| ==>
        Yields(errors, k, n, l, m)
  {
    UnitsKeepContainingFixes(errors, k);
    hide Applicable, FromSources, Contains, Overlap, SizeOf, Covers;
    if Applicable(errors, k) {
      forall n, l, m | 0 <= n < |errors[k].fix| && 0 <= l < |errors| && 0 <= m < |errors[l].fix|
        ensures Yields(errors, k, n, l, m)
      {
        var p, q := errors[k].fix[n], errors[l].fix[m];
        if p.path == q.path && p.length > 0 && q.length > 0 {
          assert ContainsOverlapsIn(errors, p.path, k);
          YieldsExactly(errors, k, n, l, m);
        }
      }
    } else {
      var path: string :| !ContainsOverlapsIn(errors, path, k);
      var i: Interval, j: Interval :| Replaces(errors, path, i) && Replaces(errors, path, j) && i.id == k && i != j &&
        Overlap(i, j) && !Contains(i, j);
      YieldsExactly(errors, k, i.place, j.id, j.place);
    }
  }
}
