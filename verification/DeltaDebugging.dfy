/** The delta debugging reducer of clang/utils/token-delta.py. */
module DeltaDebugging {

  import opened Wrappers

  // A change is a token to keep: the index of its file and its index in that file.
  type Change = (nat, nat)
  type Changes = seq<Change>

  function ToSet(s: Changes): set<Change> {
    set x | x in s
  }

  ghost predicate Distinct(s: Changes) {
    forall i, j :: 0 <= i < j < |s| ==> s[i] != s[j]
  }

  // The elements of u that belong to keep, in the order of u.
  ghost function Restrict(u: Changes, keep: set<Change>): Changes {
    if u == [] then []
    else if u[0] in keep then [u[0]] + Restrict(u[1..], keep)
    else Restrict(u[1..], keep)
  }

  /** c is an in-order subsequence of u. */
  ghost predicate InOrder(c: Changes, u: Changes) {
    c == Restrict(u, ToSet(c))
  }

  ghost function Without(s: Changes, i: nat): Changes
    requires i < |s|
  {
    s[..i] + s[i + 1..]
  }

  // Dropping any single element makes the test fail.
  ghost predicate OneMinimal(test: Changes -> bool, c: Changes) {
    forall i :: 0 <= i < |c| ==> !test(Without(c, i))
  }

  // ----- Lists of pieces

  function Flatten(sets: seq<Changes>): Changes {
    if sets == [] then [] else sets[0] + Flatten(sets[1..])
  }

  ghost predicate NonEmpty(sets: seq<Changes>) {
    forall i :: 0 <= i < |sets| ==> |sets[i]| >= 1
  }

  /** Partitions a list into one or two pieces. */
  function Split(s: Changes): (pieces: seq<Changes>)
    ensures Flatten(pieces) == s
    ensures |pieces| == if |s| <= 1 then 1 else 2
    ensures |pieces| == 2 ==> |pieces[0]| <= |pieces[1]| <= |pieces[0]| + 1
    ensures s != [] ==> NonEmpty(pieces)
  {
    var mid := |s| / 2;
    if mid == 0 then
      [s]
    else
      var pieces := [s[..mid], s[mid..]];
      assert pieces[1..] == [s[mid..]] && Flatten([s[mid..]]) == s[mid..];
      pieces
  }

  // Splits every piece once more.
  function Refine(sets: seq<Changes>): (refined: seq<Changes>)
    ensures Flatten(refined) == Flatten(sets)
    ensures |refined| >= |sets|
    ensures |refined| == |sets| ==> forall i :: 0 <= i < |sets| ==> |sets[i]| <= 1
    ensures NonEmpty(sets) ==> NonEmpty(refined)
  {
    if sets == [] then []
    else
      var head, tail := Split(sets[0]), Refine(sets[1..]);
      FlattenAppend(head, tail);
      assert NonEmpty(sets) ==> NonEmpty(sets[1..]) && sets[0] != [];
      assert forall i :: 1 <= i < |sets| ==> sets[i] == sets[1..][i - 1];
      head + tail
  }

  ghost predicate AtMost(sets: seq<Changes>, size: nat) {
    forall i :: 0 <= i < |sets| ==> |sets[i]| <= size
  }

  /** Every piece is cut in half: none stays more than half as long as the longest was. */
  lemma {:induction false} RefineHalves(sets: seq<Changes>, size: nat)
    requires size >= 1 && AtMost(sets, 2 * size)
    ensures AtMost(Refine(sets), size)
  {
    if sets != [] {
      assert AtMost(sets[1..], 2 * size);
      RefineHalves(sets[1..], size);
      assert AtMost(Split(sets[0]), size);
    }
  }

  lemma {:induction false} FlattenAppend(a: seq<Changes>, b: seq<Changes>)
    ensures Flatten(a + b) == Flatten(a) + Flatten(b)
  {
    if a == [] {
      assert a + b == b;
    } else {
      FlattenAppend(a[1..], b);
      assert (a + b)[0] == a[0] && (a + b)[1..] == a[1..] + b;
      Associates(a[0], Flatten(a[1..]), Flatten(b));
    }
  }

  // Everything but piece i.
  function Others(sets: seq<Changes>, i: nat): seq<Changes>
    requires i < |sets|
  {
    sets[..i] + sets[i + 1..]
  }

  lemma Associates(a: Changes, b: Changes, c: Changes)
    ensures a + (b + c) == a + b + c
  {
  }

  lemma SplitAt(sets: seq<Changes>, i: nat)
    requires i < |sets|
    ensures sets == sets[..i] + ([sets[i]] + sets[i + 1..])
  {
  }

  lemma FlattenFirst(piece: Changes, rest: seq<Changes>)
    ensures Flatten([piece] + rest) == piece + Flatten(rest)
  {
    assert ([piece] + rest)[1..] == rest;
  }

  lemma FlattenAround(sets: seq<Changes>, i: nat)
    requires i < |sets|
    ensures Flatten(sets) == Flatten(sets[..i]) + sets[i] + Flatten(sets[i + 1..])
    ensures Flatten(Others(sets, i)) == Flatten(sets[..i]) + Flatten(sets[i + 1..])
  {
    hide Flatten;
    var before, piece, after := sets[..i], sets[i], sets[i + 1..];
    assert Flatten(sets) == Flatten(before) + piece + Flatten(after) by {
      SplitAt(sets, i);
      FlattenAppend(before, [piece] + after);
      FlattenFirst(piece, after);
      Associates(Flatten(before), piece, Flatten(after));
    }
    assert Flatten(Others(sets, i)) == Flatten(before) + Flatten(after) by {
      FlattenAppend(before, after);
    }
  }

  lemma FlattenOne(piece: Changes)
    ensures Flatten([piece]) == piece
  {
    assert [piece][1..] == [];
  }

  lemma {:induction false} FlattenLength(sets: seq<Changes>)
    requires NonEmpty(sets)
    ensures |sets| <= |Flatten(sets)|
  {
    if sets != [] {
      assert NonEmpty(sets[1..]);
      FlattenLength(sets[1..]);
    }
  }

  // Pieces of one element each list the elements themselves.
  lemma {:induction false} FlattenSingletons(sets: seq<Changes>)
    requires forall i :: 0 <= i < |sets| ==> |sets[i]| == 1
    ensures |Flatten(sets)| == |sets|
    ensures forall i :: 0 <= i < |sets| ==> sets[i] == [Flatten(sets)[i]]
  {
    if sets != [] {
      FlattenSingletons(sets[1..]);
      forall i | 0 <= i < |sets|
        ensures sets[i] == [Flatten(sets)[i]]
      {
        if i > 0 { assert sets[i] == sets[1..][i - 1]; }
      }
    }
  }

  // ----- In-order subsequences

  lemma {:induction false} RestrictMembers(u: Changes, s: set<Change>)
    ensures forall x :: x in Restrict(u, s) <==> x in u && x in s
  {
    if u != [] {
      RestrictMembers(u[1..], s);
      assert u == [u[0]] + u[1..];
    }
  }

  lemma {:induction false} RestrictRestrict(u: Changes, s: set<Change>, t: set<Change>)
    ensures Restrict(Restrict(u, s), t) == Restrict(u, s * t)
  {
    if u != [] {
      RestrictRestrict(u[1..], s, t);
      if u[0] in s {
        assert Restrict(u, s)[1..] == Restrict(u[1..], s);
      }
    }
  }

  lemma {:induction false} RestrictAppend(a: Changes, b: Changes, s: set<Change>)
    ensures Restrict(a + b, s) == Restrict(a, s) + Restrict(b, s)
  {
    if a == [] {
      assert a + b == b;
    } else {
      assert (a + b)[0] == a[0] && (a + b)[1..] == a[1..] + b;
      RestrictAppend(a[1..], b, s);
    }
  }

  lemma {:induction false} RestrictAll(a: Changes, s: set<Change>)
    requires forall x :: x in a ==> x in s
    ensures Restrict(a, s) == a
  {
    if a != [] {
      RestrictAll(a[1..], s);
    }
  }

  lemma {:induction false} RestrictNone(a: Changes, s: set<Change>)
    requires forall x :: x in a ==> x !in s
    ensures Restrict(a, s) == []
  {
    if a != [] {
      RestrictNone(a[1..], s);
    }
  }

  lemma {:induction false} RestrictDistinct(u: Changes, s: set<Change>)
    requires Distinct(u)
    ensures Distinct(Restrict(u, s))
  {
    if u != [] {
      RestrictDistinct(u[1..], s);
      RestrictMembers(u[1..], s);
      assert u[0] !in u[1..];
    }
  }

  lemma DistinctParts(x: Changes, y: Changes, z: Changes)
    requires Distinct(x + y + z)
    ensures forall e :: e in y ==> e !in x && e !in z
  {
    var c := x + y + z;
    forall k, i | 0 <= k < |y| && 0 <= i < |x|
      ensures y[k] != x[i]
    {
      assert c[|x| + k] == y[k] && c[i] == x[i];
    }
    forall k, i | 0 <= k < |y| && 0 <= i < |z|
      ensures y[k] != z[i]
    {
      assert c[|x| + k] == y[k] && c[|x| + |y| + i] == z[i];
    }
  }

  lemma RestrictThree(x: Changes, y: Changes, z: Changes, s: set<Change>)
    ensures Restrict(x + y + z, s) == Restrict(x, s) + Restrict(y, s) + Restrict(z, s)
  {
    RestrictAppend(x + y, z, s);
    RestrictAppend(x, y, s);
  }

  lemma WithNothing(x: Changes, y: Changes)
    ensures [] + y + [] == y && x + [] + y == x + y
  {
  }

  lemma PickMiddle(x: Changes, y: Changes, z: Changes)
    requires forall e :: e in y ==> e !in x && e !in z
    ensures Restrict(x + y + z, ToSet(y)) == y
  {
    hide Restrict;
    var s := ToSet(y);
    RestrictThree(x, y, z, s);
    RestrictNone(x, s);
    RestrictAll(y, s);
    RestrictNone(z, s);
    WithNothing(x, y);
  }

  lemma PickParts(x: Changes, y: Changes, z: Changes)
    requires forall e :: e in y ==> e !in x && e !in z
    ensures Restrict(x + y + z, ToSet(y)) == y
    ensures Restrict(x + y + z, ToSet(x + z)) == x + z
  {
    hide Restrict;
    PickMiddle(x, y, z);
    var t := ToSet(x + z);
    RestrictThree(x, y, z, t);
    RestrictAll(x, t);
    RestrictNone(y, t);
    RestrictAll(z, t);
    WithNothing(x, z);
  }

  /** Keeping only a middle piece of an in-order subsequence, and cutting it out, stay in order. */
  lemma CutInOrder(u: Changes, x: Changes, y: Changes, z: Changes)
    requires Distinct(u) && InOrder(x + y + z, u)
    ensures InOrder(y, u) && InOrder(x + z, u)
  {
    var c := x + y + z;
    RestrictDistinct(u, ToSet(c));
    DistinctParts(x, y, z);
    PickParts(x, y, z);
    RestrictRestrict(u, ToSet(c), ToSet(y));
    assert ToSet(c) * ToSet(y) == ToSet(y);
    RestrictRestrict(u, ToSet(c), ToSet(x + z));
    assert ToSet(c) * ToSet(x + z) == ToSet(x + z);
  }

  lemma PieceInOrder(u: Changes, sets: seq<Changes>, i: nat)
    requires Distinct(u) && InOrder(Flatten(sets), u) && i < |sets|
    ensures InOrder(sets[i], u) && InOrder(Flatten(Others(sets, i)), u)
  {
    FlattenAround(sets, i);
    CutInOrder(u, Flatten(sets[..i]), sets[i], Flatten(sets[i + 1..]));
  }

  lemma EmptyInOrder(u: Changes)
    ensures InOrder([], u)
  {
    RestrictNone(u, {});
    assert ToSet([]) == {};
  }

  // ----- Verdicts

  // What delta and search are called with.
  ghost predicate Partition(c: Changes, sets: seq<Changes>) {
    && sets != [] && Flatten(sets) == c
    && (|sets| == 1 <==> |c| <= 1)
    && (c != [] ==> NonEmpty(sets))
  }

  // Neither piece i nor what is left without it passes.
  ghost predicate Blocked(test: Changes -> bool, sets: seq<Changes>, i: nat)
    requires i < |sets|
  {
    !test(sets[i]) && (|sets| > 2 ==> !test(Flatten(Others(sets, i))))
  }

  lemma SinglePieceIsMinimal(test: Changes -> bool, c: Changes)
    requires !test([]) && |c| <= 1
    ensures OneMinimal(test, c)
  {
    forall i | 0 <= i < |c| ensures !test(Without(c, i)) {
      assert Without(c, i) == [];
    }
  }

  lemma BlockedIsMinimal(test: Changes -> bool, sets: seq<Changes>)
    requires |sets| >= 2 && forall i :: 0 <= i < |sets| ==> |sets[i]| == 1 && Blocked(test, sets, i)
    ensures OneMinimal(test, Flatten(sets))
  {
    var c := Flatten(sets);
    FlattenSingletons(sets);
    hide Flatten;
    forall i | 0 <= i < |c|
      ensures !test(Without(c, i))
    {
      assert Blocked(test, sets, i);
      WithoutIsOthers(sets, i);
      if |sets| == 2 {
        assert Blocked(test, sets, 1 - i);
        assert Others(sets, i) == [sets[1 - i]];
        FlattenOne(sets[1 - i]);
      }
    }
  }

  lemma WithoutIsOthers(sets: seq<Changes>, i: nat)
    requires i < |sets| && forall j :: 0 <= j < |sets| ==> |sets[j]| == 1
    ensures i < |Flatten(sets)| && Without(Flatten(sets), i) == Flatten(Others(sets, i))
  {
    hide Flatten;
    FlattenAround(sets, i);
    FlattenSingletons(sets[..i]);
    FlattenSingletons(sets);
    var before, after := Flatten(sets[..i]), Flatten(sets[i + 1..]);
    assert Flatten(sets)[..i] == before;
    assert Flatten(sets)[i + 1..] == after;
  }

  // ----- Cost

  /** The measure that every reduction step lowers. */
  function Measure(c: Changes, sets: seq<Changes>): int {
    2 * |c| - |sets|
  }

  ghost function TestBudget(c: Changes, sets: seq<Changes>): int {
    2 * |c| * Measure(c, sets)
  }

  lemma BudgetArithmetic(n: nat, n': nat, m: nat, m': nat, k: nat)
    requires n' <= n && m' < m && k <= n
    ensures 2 * k + 2 * n' * m' <= 2 * n * m
  {
    assert 2 * n' * m' <= 2 * n * m';
    assert 2 * n * m' <= 2 * n * (m - 1);
    assert 2 * n * m == 2 * n + 2 * n * (m - 1);
  }

  lemma RefineStep(c: Changes, sets: seq<Changes>)
    requires Partition(c, sets) && |sets| >= 2 && |Refine(sets)| != |sets|
    ensures |sets| <= |c| && Partition(c, Refine(sets))
    ensures 0 <= Measure(c, Refine(sets)) < Measure(c, sets)
    ensures 2 * |sets| + TestBudget(c, Refine(sets)) <= TestBudget(c, sets)
  {
    FlattenLength(sets);
    FlattenLength(Refine(sets));
    BudgetArithmetic(|c|, |c|, Measure(c, sets), Measure(c, Refine(sets)), |sets|);
  }

  lemma PieceStep(c: Changes, sets: seq<Changes>, i: nat)
    requires Partition(c, sets) && |sets| >= 2 && i < |sets|
    ensures |sets| <= |c| && sets[i] != [] && |sets[i]| < |c|
    ensures Partition(sets[i], Split(sets[i]))
    ensures 0 <= Measure(sets[i], Split(sets[i])) < Measure(c, sets)
    ensures 2 * |sets| + TestBudget(sets[i], Split(sets[i])) <= TestBudget(c, sets)
  {
    OthersLength(c, sets, i);
    FlattenLength(Split(sets[i]));
    BudgetArithmetic(|c|, |sets[i]|, Measure(c, sets), Measure(sets[i], Split(sets[i])), |sets|);
  }

  lemma OthersLength(c: Changes, sets: seq<Changes>, i: nat)
    requires Partition(c, sets) && |sets| >= 2 && i < |sets|
    ensures |sets[i]| >= 1 && NonEmpty(Others(sets, i))
    ensures |Flatten(Others(sets, i))| == |c| - |sets[i]| >= |sets| - 1
  {
    FlattenAround(sets, i);
    FlattenLength(Others(sets, i));
  }

  lemma ComplementStep(c: Changes, sets: seq<Changes>, i: nat)
    requires Partition(c, sets) && |sets| > 2 && i < |sets|
    ensures |sets| <= |c| && var rest := Others(sets, i);
            && Partition(Flatten(rest), rest) && |Flatten(rest)| < |c|
            && 0 <= Measure(Flatten(rest), rest) < Measure(c, sets)
            && 2 * |sets| + TestBudget(Flatten(rest), rest) <= TestBudget(c, sets)
  {
    var rest := Others(sets, i);
    OthersLength(c, sets, i);
    BudgetArithmetic(|c|, |Flatten(rest)|, Measure(c, sets), Measure(Flatten(rest), rest), |sets|);
  }

  // ----- The outcome

  /** Whether the search goes on from piece i, alone or left out. */
  ghost predicate Hit(test: Changes -> bool, sets: seq<Changes>, i: nat) {
    i < |sets| && !Blocked(test, sets, i)
  }

  ghost predicate FirstHit(test: Changes -> bool, sets: seq<Changes>, i: nat) {
    Hit(test, sets, i) && forall k: nat :: k < i ==> !Hit(test, sets, k)
  }

  /**
    What the reduction finds, without a memory: it goes on with the first piece that passes, or that
    can be left out, and preferably with the piece; otherwise it cuts all pieces in half.
    */
  ghost function Outcome(test: Changes -> bool, c: Changes, sets: seq<Changes>): Changes
    requires Partition(c, sets)
    decreases Measure(c, sets)
  {
    if |sets| <= 1 then
      c
    else if i: nat :| FirstHit(test, sets, i) then
      PieceStep(c, sets, i);
      if test(sets[i]) then
        Outcome(test, sets[i], Split(sets[i]))
      else
        ComplementStep(c, sets, i);
        Outcome(test, Flatten(Others(sets, i)), Others(sets, i))
    else if |Refine(sets)| == |sets| then
      c
    else
      RefineStep(c, sets);
      Outcome(test, c, Refine(sets))
  }

  /** The search goes on with the piece if that passes, and otherwise with what is left without it. */
  lemma OutcomeOfHit(test: Changes -> bool, c: Changes, sets: seq<Changes>, i: nat)
    requires Partition(c, sets) && |sets| >= 2 && FirstHit(test, sets, i)
    ensures test(sets[i]) ==>
      Partition(sets[i], Split(sets[i])) && Outcome(test, c, sets) == Outcome(test, sets[i], Split(sets[i]))
    ensures !test(sets[i]) ==> |sets| > 2 && var rest := Others(sets, i);
      Partition(Flatten(rest), rest) && Outcome(test, c, sets) == Outcome(test, Flatten(rest), rest)
  {
    hide Hit, Split, Others, Flatten, Partition, Measure, TestBudget;
    HitMeans(test, sets, i);
    PieceStep(c, sets, i);
    if !test(sets[i]) {
      ComplementStep(c, sets, i);
    }
    assert forall k: nat :: FirstHit(test, sets, k) ==> k == i;
  }

  lemma HitMeans(test: Changes -> bool, sets: seq<Changes>, i: nat)
    ensures Hit(test, sets, i) <==> i < |sets| && (test(sets[i]) || (|sets| > 2 && test(Flatten(Others(sets, i)))))
  {
  }

  lemma FirstBehindBlocked(test: Changes -> bool, sets: seq<Changes>, i: nat)
    requires i < |sets| && (forall k :: 0 <= k < i ==> Blocked(test, sets, k)) && !Blocked(test, sets, i)
    ensures FirstHit(test, sets, i)
  {
  }

  // ----- The algorithm

  datatype Result<T> = Success(value: T) | InitialTestFails

  class DeltaAlgorithm {
    const test: Changes -> bool
    var cache: set<set<Change>>
    var numTests: nat
    ghost var deltaCalls: nat

    constructor (test: Changes -> bool)
      ensures this.test == test && cache == {} && numTests == 0 && deltaCalls == 0
    {
      this.test := test;
      cache, numTests, deltaCalls := {}, 0, 0;
    }

    /** Every cached set failed, as a subsequence of u in the order of u. */
    ghost predicate CacheSound(u: Changes)
      reads this
    {
      forall s :: s in cache ==> !test(Restrict(u, s))
    }

    /** The verdict of the test, although failures are looked up by their unordered set. */
    method GetTestResult(changes: Changes, ghost u: Changes) returns (passes: bool)
      requires InOrder(changes, u) && CacheSound(u)
      modifies this
      ensures passes == test(changes)
      ensures CacheSound(u) && deltaCalls == old(deltaCalls)
      ensures cache == if passes then old(cache) else old(cache) + {ToSet(changes)}
      ensures numTests == if ToSet(changes) in old(cache) then old(numTests) else old(numTests) + 1
    {
      var changeset := ToSet(changes);
      if changeset in cache {
        return false;
      }
      numTests := numTests + 1;
      passes := test(changes);
      if !passes {
        cache := cache + {changeset};
      }
    }

    /** Reduces the given changes, failing when they do not pass themselves. */
    method Run(changes: Changes, force: bool := false) returns (r: Result<Changes>)
      requires Distinct(changes) && CacheSound(changes)
      modifies this
      ensures CacheSound(changes)
      ensures r.InitialTestFails? <==> !force && !test(changes)
      ensures r.Success? ==> InOrder(r.value, changes) && OneMinimal(test, r.value)
      ensures r.Success? ==> test(r.value) || (!test(changes) && r.value == changes)
      ensures r.Success? ==> r.value == if test([]) then [] else Outcome(test, changes, Split(changes))
      ensures numTests <= old(numTests) + MostTests(|changes|)
      ensures deltaCalls <= old(deltaCalls) + if changes == [] then 1 else 2 * |changes| - 1
    {
      hide TestBudget, MostTests;
      RestrictAll(changes, ToSet(changes));
      EmptyInOrder(changes);
      RunBudget(changes);
      if !force {
        var initial := GetTestResult(changes, changes);
        if !initial {
          return InitialTestFails;
        }
      }
      var empty := GetTestResult([], changes);
      if empty {
        return Success([]);
      }
      var reduced := Delta(changes, Split(changes), changes);
      return Success(reduced);
    }

    method Delta(c: Changes, sets: seq<Changes>, ghost u: Changes) returns (r: Changes)
      requires Distinct(u) && InOrder(c, u) && Partition(c, sets)
      requires !test([]) && CacheSound(u)
      modifies this
      ensures CacheSound(u)
      ensures r == Outcome(test, c, sets)
      ensures InOrder(r, u) && OneMinimal(test, r) && (r == c || test(r))
      ensures numTests <= old(numTests) + TestBudget(c, sets)
      ensures deltaCalls <= old(deltaCalls) + if c == [] then 1 else Measure(c, sets)
      decreases Measure(c, sets), 1
    {
      deltaCalls := deltaCalls + 1;
      if |sets| <= 1 {
        SinglePieceIsMinimal(test, c);
        SmallBudget(c, sets);
        return c;
      }
      var res := Search(c, sets, u);
      if res.Some? {
        return res.value;
      }
      var refined := Refine(sets);
      if |refined| == |sets| {
        BlockedIsMinimal(test, sets);
        FlattenLength(sets);
        StuckBudget(c, sets);
        return c;
      }
      RefineStep(c, sets);
      r := Delta(c, refined, u);
    }

    method Search(c: Changes, sets: seq<Changes>, ghost u: Changes) returns (r: Option<Changes>)
      requires Distinct(u) && InOrder(c, u) && Partition(c, sets) && |sets| >= 2
      requires !test([]) && CacheSound(u)
      modifies this
      ensures CacheSound(u)
      ensures r.Some? ==> InOrder(r.value, u) && OneMinimal(test, r.value) && test(r.value)
      ensures r.Some? ==> r.value == Outcome(test, c, sets)
      ensures r.None? ==> forall i :: 0 <= i < |sets| ==> Blocked(test, sets, i)
      ensures r.None? ==> numTests <= old(numTests) + 2 * |sets| && deltaCalls == old(deltaCalls)
      ensures r.Some? ==> numTests <= old(numTests) + TestBudget(c, sets)
      ensures r.Some? ==> deltaCalls < old(deltaCalls) + Measure(c, sets)
      decreases Measure(c, sets), 0
    {
      hide Outcome, FirstHit, Hit, TestBudget, Measure, Split, Flatten, Others, InOrder, Distinct;
      for i := 0 to |sets|
        invariant CacheSound(u)
        invariant forall k :: 0 <= k < i ==> Blocked(test, sets, k)
        invariant numTests <= old(numTests) + 2 * i && deltaCalls == old(deltaCalls)
      {
        PieceInOrder(u, sets, i);
        var alone := GetTestResult(sets[i], u);
        if alone {
          PieceStep(c, sets, i);
          FirstBehindBlocked(test, sets, i);
          OutcomeOfHit(test, c, sets, i);
          var reduced := Delta(sets[i], Split(sets[i]), u);
          return Some(reduced);
        }
        if |sets| > 2 {
          var rest := Others(sets, i);
          var passes := GetTestResult(Flatten(rest), u);
          if passes {
            ComplementStep(c, sets, i);
            FirstBehindBlocked(test, sets, i);
            OutcomeOfHit(test, c, sets, i);
            var reduced := Delta(Flatten(rest), rest, u);
            return Some(reduced);
          }
        }
      }
      return None;
    }
  }

  // The initial test, the empty test, and what delta may spend.
  ghost function MostTests(n: nat): int {
    2 * n * (2 * n - 1) + 2
  }

  lemma SmallBudget(c: Changes, sets: seq<Changes>)
    requires |sets| == 1 && Partition(c, sets)
    ensures TestBudget(c, sets) >= 0 && Measure(c, sets) >= -1
  {
    if c == [] { assert TestBudget(c, sets) == 0; }
  }

  lemma StuckBudget(c: Changes, sets: seq<Changes>)
    requires 2 <= |sets| <= |c|
    ensures 2 * |sets| <= TestBudget(c, sets)
  {
    BudgetArithmetic(|c|, 0, Measure(c, sets), 0, |sets|);
  }

  lemma RunBudget(c: Changes)
    ensures 2 <= TestBudget(c, Split(c)) + 2 <= MostTests(|c|)
  {
    var n, m := |c|, Measure(c, Split(c));
    assert 2 * n * m <= 2 * n * (2 * n - 1);
    if n > 0 { assert 2 * n * m >= 0; } else { assert 2 * n * m == 0; }
  }
}
