/**
  Which headers are open, and what their macros and conditions meant there.

  The tracker follows the preprocessor through several compilations.  It keeps a stack of header
  handles, numbers every stack it has seen, and records macro expansions and conditions unless the
  header was entered before in the same compilation.
  */
module PreprocessorTracker {

  import opened InstanceTables

  const INVALID := -1

  datatype ConditionValue = NotEvaluated | False | True

  /** What the tracker keeps of an expansion: the text, and the line and column of the definition. */
  datatype Expansion = Expansion(expanded: string, definition: PPItemKey)

  /** What a macro became, and where it was defined. */
  datatype Place = Place(file: string, line: int, column: int)
  datatype Meaning = Meaning(expanded: string, definition: Place)

  function Canonical(path: string): string {
    seq(|path|, n requires 0 <= n < |path| => if path[n] == '\\' then '/' else path[n])
  }

  /** Paths keep their length, and every backslash becomes a slash, so none is left. */
  lemma CanonicalExactly(path: string)
    ensures |Canonical(path)| == |path|
    ensures forall n :: 0 <= n < |path| && path[n] != '\\' ==> Canonical(path)[n] == path[n]
    ensures forall n :: 0 <= n < |path| && path[n] == '\\' ==> Canonical(path)[n] == '/'
    ensures Canonical(Canonical(path)) == Canonical(path)
  {
  }

  /** Built-in and command-line sources are not headers. */
  predicate Ignored(path: string) {
    path != "" && path[0] == '<'
  }

  predicate NoDuplicates<T(==)>(s: seq<T>) {
    forall n, m :: 0 <= n < m < |s| ==> s[n] != s[m]
  }

  /** The first place of a value, or -1. */
  method Find<T(==)>(s: seq<T>, value: T) returns (n: int)
    ensures -1 <= n < |s|
    ensures n >= 0 ==> s[n] == value
    ensures n == -1 ==> value !in s
  {
    n := 0;
    while n < |s|
      invariant 0 <= n <= |s| && value !in s[..n]
    {
      if s[n] == value {
        return;
      }
      n := n + 1;
    }
    assert s[..n] == s;
    return -1;
  }

  /** The stack below the last occurrence of a header. */
  function CutAt(stack: seq<int>, h: int): seq<int> {
    if stack == [] then []
    else if stack[|stack| - 1] == h then stack[..|stack| - 1]
    else CutAt(stack[..|stack| - 1], h)
  }

  lemma {:induction false} CutIsLongestPrefix(stack: seq<int>, h: int)
    requires h in stack
    ensures CutAt(stack, h) < stack && stack[|CutAt(stack, h)|] == h
    ensures h !in stack[|CutAt(stack, h)| + 1..]
  {
    var k := |stack| - 1;
    if stack[k] != h {
      assert stack == stack[..k] + [stack[k]];
      CutIsLongestPrefix(stack[..k], h);
      var cut := |CutAt(stack, h)|;
      assert stack[cut + 1..] == stack[..k][cut + 1..] + [stack[k]];
    }
  }

  // ---------------------------------------------------------------- definitions

  /** The key of the definition names the file of the expansion, not its own. */
  function Recorded(e: Event<Meaning>): Event<Expansion> {
    var at := e.value.definition;
    Event(e.key, Expansion(e.value.expanded, PPItemKey(e.key.name, e.key.file, at.line, at.column)), e.path)
  }

  function AllRecorded(events: seq<Event<Meaning>>): (r: seq<Event<Expansion>>)
    ensures |r| == |events| && forall n :: 0 <= n < |r| ==> r[n] == Recorded(events[n])
  {
    seq(|events|, n requires 0 <= n < |events| => Recorded(events[n]))
  }

  lemma RecordedOneMore(events: seq<Event<Meaning>>, e: Event<Meaning>)
    ensures AllRecorded(events + [e]) == AllRecorded(events) + [Recorded(e)]
  {
  }

  /** The same text, line and column in two files. */
  predicate OnlyFilesDiffer(a: Meaning, b: Meaning) {
    a.expanded == b.expanded && a.definition != b.definition &&
    a.definition.line == b.definition.line && a.definition.column == b.definition.column
  }

  /** Two expansions at one place differ in the file of the definition only. */
  ghost predicate Confused(events: seq<Event<Meaning>>, key: PPItemKey) {
    exists n, m :: 0 <= n < |events| && 0 <= m < |events| &&
      events[n].key == key && events[m].key == key && OnlyFilesDiffer(events[n].value, events[m].value)
  }

  /** What is reported at a place is a difference; it is all if something is, or nothing is confused there. */
  lemma MismatchIsSeen(events: seq<Event<Meaning>>, key: PPItemKey)
    ensures Mismatch(AllRecorded(events), key) ==> Mismatch(events, key)
    ensures (Mismatch(AllRecorded(events), key) <==> Mismatch(events, key)) <==>
      Mismatch(AllRecorded(events), key) || !Confused(events, key)
  {
    var recorded := AllRecorded(events);
    if Mismatch(recorded, key) {
      var n, m :| 0 <= n < |recorded| && 0 <= m < |recorded| &&
        recorded[n].key == key && recorded[m].key == key && recorded[n].value != recorded[m].value;
      assert events[n].key == events[m].key == key && events[n].value != events[m].value;
    } else if Mismatch(events, key) {
      var n, m :| 0 <= n < |events| && 0 <= m < |events| &&
        events[n].key == key && events[m].key == key && events[n].value != events[m].value;
      assert recorded[n].value == recorded[m].value;
      assert OnlyFilesDiffer(events[n].value, events[m].value);
    }
  }

  /** The report finds a difference exactly if there is one, unless all there are are confused. */
  lemma ReportIsRight(events: seq<Event<Meaning>>)
    ensures ((exists key: PPItemKey :: Mismatch(AllRecorded(events), key)) <==>
             (exists key: PPItemKey :: Mismatch(events, key))) <==>
      ((exists key: PPItemKey :: Mismatch(AllRecorded(events), key)) ||
       forall key: PPItemKey :: !Confused(events, key))
  {
    hide Mismatch, Confused, AllRecorded;
    forall key: PPItemKey
      ensures Mismatch(AllRecorded(events), key) ==> Mismatch(events, key)
      ensures (Mismatch(AllRecorded(events), key) <==> Mismatch(events, key)) <==>
        Mismatch(AllRecorded(events), key) || !Confused(events, key)
    {
      MismatchIsSeen(events, key);
    }
    if key: PPItemKey :| Confused(events, key) && !Mismatch(AllRecorded(events), key) {
      assert Mismatch(events, key);
    }
  }

  lemma ConfusedOneMore(events: seq<Event<Meaning>>, e: Event<Meaning>, key: PPItemKey)
    ensures Confused(events + [e], key) <==>
      || Confused(events, key)
      || (e.key == key &&
          exists n :: 0 <= n < |events| && events[n].key == key && OnlyFilesDiffer(events[n].value, e.value))
  {
    var more := events + [e];
    assert more[|events|] == e && forall n :: 0 <= n < |events| ==> more[n] == events[n];
    if Confused(more, key) && !Confused(events, key) {
      var n, m :| 0 <= n < |more| && 0 <= m < |more| &&
        more[n].key == key && more[m].key == key && OnlyFilesDiffer(more[n].value, more[m].value);
      var other := if n == |events| then m else n;
      assert other < |events| && OnlyFilesDiffer(events[other].value, e.value);
    }
    if n :| e.key == key && 0 <= n < |events| && events[n].key == key && OnlyFilesDiffer(events[n].value, e.value) {
      assert OnlyFilesDiffer(more[n].value, more[|events|].value);
    }
  }

  /** Every meaning that a macro had at a place is listed by itself if and only if none is confused. */
  lemma {:induction false} MeaningsAreListed(events: seq<Event<Meaning>>, key: PPItemKey)
    ensures |Instances(AllRecorded(events), key)| <= |Instances(events, key)|
    ensures |Instances(AllRecorded(events), key)| == |Instances(events, key)| <==> !Confused(events, key)
  {
    if events != [] {
      var before, e := events[..|events| - 1], events[|events| - 1];
      assert events == before + [e];
      var recorded, r := AllRecorded(before), Recorded(e);
      MeaningsAreListed(before, key);
      RecordedOneMore(before, e);
      ConfusedOneMore(before, e, key);
      InstancesOneMore(before, e);
      InstancesOneMore(recorded, r);
      InstancesAreValues(before, key, e.value);
      InstancesAreValues(recorded, key, r.value);
      if e.key == key {
        ConfusedBySame(before, e, key);
      }
    }
  }

  /** A new meaning is confused with one before, or was seen itself, exactly if its record was seen. */
  lemma ConfusedBySame(events: seq<Event<Meaning>>, e: Event<Meaning>, key: PPItemKey)
    requires e.key == key
    ensures Seen(AllRecorded(events), key, Recorded(e).value) <==>
      Seen(events, key, e.value) ||
      exists n :: 0 <= n < |events| && events[n].key == key && OnlyFilesDiffer(events[n].value, e.value)
    ensures Seen(events, key, e.value) ==>
      (Confused(events, key) <==> Confused(events + [e], key))
  {
    var recorded := AllRecorded(events);
    forall n | 0 <= n < |events| && events[n].key == key
      ensures recorded[n].key == key && (recorded[n].value == Recorded(e).value <==>
        events[n].value == e.value || OnlyFilesDiffer(events[n].value, e.value))
    {
    }
    if Seen(events, key, e.value) {
      ConfusedOneMore(events, e, key);
      var k :| 0 <= k < |events| && events[k].key == key && events[k].value == e.value;
      if n :| 0 <= n < |events| && events[n].key == key && OnlyFilesDiffer(events[n].value, e.value) {
        assert OnlyFilesDiffer(events[n].value, events[k].value);
      }
    }
  }

  /** Definitions of one text on the same line and column of two files: the difference is not reported. */
  lemma FileIsLost(key: PPItemKey, text: string)
    ensures var events := [
        Event(key, Meaning(text, Place("a.h", 1, 9)), 0), Event(key, Meaning(text, Place("b.h", 1, 9)), 1)];
      && Mismatch(events, key) && Confused(events, key)
      && forall other: PPItemKey :: !Mismatch(AllRecorded(events), other)
  {
    var events := [
      Event(key, Meaning(text, Place("a.h", 1, 9)), 0), Event(key, Meaning(text, Place("b.h", 1, 9)), 1)];
    assert events[0].value.definition.file[0] == 'a' && events[1].value.definition.file[0] == 'b';
    assert OnlyFilesDiffer(events[0].value, events[1].value);
    assert events[0].key == events[1].key == key && events[0].value != events[1].value;
  }

  // ---------------------------------------------------------------- nesting

  /** An open header: whether it had been entered before in this compilation, and whether the set of
      headers had it by then. */
  datatype Opened = Opened(header: int, again: bool, listed: bool)

  /**
    The flag and the set of headers of the tracker, and beside them what there is to know: the headers
    entered in this compilation, those that are open, how many of these were open after the last exit,
    and whether the flag is still that of the compilation before.
    */
  datatype Nesting = Nesting(
    flag: bool, headers: set<int>, entered: set<int>, open: seq<Opened>, before: nat, carried: bool)
  {
    /** Some open header was entered before in this compilation. */
    predicate InEnteredBefore() {
      exists n :: 0 <= n < |open| && open[n].again
    }

    /** Some header that was entered since the last exit was in the set by then. */
    predicate ListedSinceExit() {
      exists n :: before <= n < |open| && open[n].listed
    }

    predicate Valid() {
      && (flag <==> carried || ListedSinceExit())
      && before <= |open| && headers <= entered
      && forall n :: 0 <= n < |open| && open[n].listed ==> open[n].again
    }
  }

  function Begin(s: Nesting): Nesting {
    Nesting(s.flag, {}, {}, [], 0, s.flag)
  }

  function Enter(s: Nesting, h: int): Nesting {
    Nesting(
      s.flag || h in s.headers,
      if s.flag then s.headers else s.headers + {h},
      s.entered + {h},
      s.open + [Opened(h, h in s.entered, h in s.headers)],
      s.before,
      s.carried)
  }

  /** The headers that are still open when the last one of that name is left. */
  function Below(open: seq<Opened>, h: int): seq<Opened> {
    if open == [] then []
    else if open[|open| - 1].header == h then open[..|open| - 1]
    else Below(open[..|open| - 1], h)
  }

  function Leave(s: Nesting, h: int): Nesting {
    var open := if exists n :: 0 <= n < |s.open| && s.open[n].header == h then Below(s.open, h) else s.open;
    Nesting(false, s.headers, s.entered, open, |open|, false)
  }

  datatype Move = Starts | Enters(h: int) | Leaves(h: int)

  function Moved(s: Nesting, move: Move): Nesting {
    match move
    case Starts => Begin(s)
    case Enters(h) => Enter(s, h)
    case Leaves(h) => Leave(s, h)
  }

  function AllMoved(s: Nesting, moves: seq<Move>): Nesting
    decreases |moves|
  {
    if moves == [] then s else AllMoved(Moved(s, moves[0]), moves[1..])
  }

  const START := Nesting(false, {}, {}, [], 0, false)

  lemma {:induction false} BelowExactly(open: seq<Opened>, h: int)
    ensures Below(open, h) <= open
    ensures forall n :: |Below(open, h)| < n < |open| ==> open[n].header != h
    ensures (exists n :: 0 <= n < |open| && open[n].header == h) ==>
      |Below(open, h)| < |open| && open[|Below(open, h)|].header == h
  {
    if open != [] && open[|open| - 1].header != h {
      BelowExactly(open[..|open| - 1], h);
    }
  }

  lemma MoveKeepsNesting(s: Nesting, move: Move)
    requires s.Valid()
    ensures Moved(s, move).Valid()
  {
    match move {
      case Starts =>
      case Enters(h) =>
        var r := Enter(s, h);
        assert r.open[|s.open|] == Opened(h, h in s.entered, h in s.headers);
        assert forall n :: 0 <= n < |s.open| ==> r.open[n] == s.open[n];
        if s.ListedSinceExit() {
          var n :| s.before <= n < |s.open| && s.open[n].listed;
          assert r.open[n].listed;
        }
      case Leaves(h) =>
        BelowExactly(s.open, h);
    }
  }

  lemma {:induction false} MovesKeepNesting(s: Nesting, moves: seq<Move>)
    requires s.Valid()
    ensures AllMoved(s, moves).Valid()
    decreases |moves|
  {
    if moves != [] {
      MoveKeepsNesting(s, moves[0]);
      MovesKeepNesting(Moved(s, moves[0]), moves[1..]);
    }
  }

  /**
    The flag says exactly that some open header was entered before in this compilation, if and only
    if it was not taken over from the compilation before and no open header was entered before, or one
    that was is still open since the last exit and was in the set when it was entered.
    */
  lemma FlagMeansNested(s: Nesting)
    requires s.Valid()
    ensures (s.flag <==> s.InEnteredBefore()) <==>
      (if s.InEnteredBefore() then s.carried || s.ListedSinceExit() else !s.carried)
  {
    if s.ListedSinceExit() {
      var n :| s.before <= n < |s.open| && s.open[n].listed;
      assert s.open[n].again;
    }
  }

  /** That holds in every run; and unless the flag is taken over, it is never up wrongly. */
  lemma FlagInRuns(moves: seq<Move>)
    ensures var s := AllMoved(START, moves);
      && s.Valid()
      && ((s.flag <==> s.InEnteredBefore()) <==>
          (if s.InEnteredBefore() then s.carried || s.ListedSinceExit() else !s.carried))
      && (!s.carried && s.flag ==> s.InEnteredBefore())
  {
    MovesKeepNesting(START, moves);
    FlagMeansNested(AllMoved(START, moves));
  }

  /** No compilation starts behind that move. */
  predicate SameCompilation(moves: seq<Move>, n: nat) {
    forall k :: n < k < |moves| ==> !moves[k].Starts?
  }

  /** The header is entered by that move, in the compilation under way. */
  predicate EntersAt(moves: seq<Move>, h: int, n: nat) {
    n < |moves| && moves[n] == Enters(h) && SameCompilation(moves, n)
  }

  /** A header is entered by that move that is in the set by then, and none is left since. */
  predicate RaisesAt(moves: seq<Move>, n: nat) {
    && n < |moves| && moves[n].Enters?
    && moves[n].h in AllMoved(START, moves[..n]).headers
    && forall k :: n < k < |moves| ==> !moves[k].Leaves?
  }

  lemma {:induction false} OneMoreMove(s: Nesting, moves: seq<Move>, move: Move)
    ensures AllMoved(s, moves + [move]) == Moved(AllMoved(s, moves), move)
    decreases |moves|
  {
    if moves == [] {
      assert [move][1..] == [] && moves + [move] == [move];
    } else {
      assert (moves + [move])[1..] == moves[1..] + [move];
      OneMoreMove(Moved(s, moves[0]), moves[1..], move);
    }
  }

  lemma MoveBehind(before: seq<Move>, move: Move, h: int, n: nat)
    ensures EntersAt(before + [move], h, n) <==>
      (EntersAt(before, h, n) && !move.Starts?) || (n == |before| && move == Enters(h))
    ensures RaisesAt(before + [move], n) <==>
      (RaisesAt(before, n) && !move.Leaves?) ||
      (n == |before| && move.Enters? && move.h in AllMoved(START, before).headers)
  {
    var moves := before + [move];
    hide AllMoved;
    assert moves[|before|] == move && moves[..|before|] == before;
    assert forall k :: 0 <= k < |before| ==> moves[k] == before[k];
    if n < |before| {
      assert moves[..n] == before[..n];
    }
  }

  /**
    What the run has recorded, read off its moves: the headers entered in this compilation, those of
    them entered while the flag was down, and the flag, which an entry raises if its header is in the
    set and which every exit lowers.
    */
  lemma {:induction false} RunsExactly(moves: seq<Move>, h: int)
    ensures var s := AllMoved(START, moves);
      && (h in s.entered <==> exists n: nat :: EntersAt(moves, h, n))
      && (h in s.headers <==> exists n: nat :: EntersAt(moves, h, n) && !AllMoved(START, moves[..n]).flag)
      && (s.flag <==> exists n: nat :: RaisesAt(moves, n))
  {
    if moves != [] {
      var size := |moves| - 1;
      var before, move := moves[..size], moves[size];
      assert moves == before + [move];
      RunsExactly(before, h);
      OneMoreMove(START, before, move);
      forall n: nat
        ensures EntersAt(moves, h, n) <==>
          (EntersAt(before, h, n) && !move.Starts?) || (n == size && move == Enters(h))
        ensures RaisesAt(moves, n) <==>
          (RaisesAt(before, n) && !move.Leaves?) ||
          (n == size && move.Enters? && move.h in AllMoved(START, before).headers)
        ensures n <= size ==> moves[..n] == before[..n]
      {
        MoveBehind(before, move, h, n);
      }
    }
  }

  /** What is open: an entry adds its header, an exit cuts in front of the last one of that name. */
  lemma OpenExactly(moves: seq<Move>, move: Move)
    ensures var before, after := AllMoved(START, moves).open, AllMoved(START, moves + [move]).open;
      match move
      case Starts => after == []
      case Enters(h) =>
        && |after| == |before| + 1 && after[..|before|] == before && after[|before|].header == h
        && (after[|before|].again <==> exists n: nat :: EntersAt(moves, h, n))
        && (after[|before|].listed <==> h in AllMoved(START, moves).headers)
      case Leaves(h) =>
        && after <= before
        && (forall n :: |after| < n < |before| ==> before[n].header != h)
        && (if |after| < |before| then before[|after|].header == h
            else forall n :: 0 <= n < |before| ==> before[n].header != h)
  {
    OneMoreMove(START, moves, move);
    match move {
      case Starts =>
      case Enters(h) => RunsExactly(moves, h);
      case Leaves(h) => BelowExactly(AllMoved(START, moves).open, h);
    }
  }

  /** An outer header is entered again, and an inner one left: the flag is down in the outer one. */
  lemma NestingIsLost(root: int, outer: int, inner: int)
    requires root != outer && outer != inner && inner != root
    ensures var s := AllMoved(START,
        [Starts, Enters(root), Enters(outer), Leaves(outer), Enters(outer), Enters(inner), Leaves(inner)]);
      && s.open == [Opened(root, false, false), Opened(outer, true, true)]
      && s.InEnteredBefore() && !s.flag
  {
    var moves := [Starts, Enters(root), Enters(outer), Leaves(outer), Enters(outer), Enters(inner), Leaves(inner)];
    var s1 := Enter(Begin(START), root);
    var s2 := Leave(Enter(s1, outer), outer);
    var s3 := Enter(s2, outer);
    var s4 := Enter(s3, inner);
    assert Enter(s1, outer).open[1].header == outer && Enter(s1, outer).open[..1] == s1.open;
    assert s2.open == [Opened(root, false, false)];
    assert s3.open == s2.open + [Opened(outer, true, true)];
    assert s4.open[2].header == inner && s4.open[..2] == s3.open;
    MovesOf(START, moves, [START, Begin(START), s1, Enter(s1, outer), s2, s3, s4, Leave(s4, inner)]);
    assert Leave(s4, inner).open[1].again;
  }

  /** A header that is entered for the first time while the flag is up is not remembered. */
  lemma NestedIsNotRemembered(root: int, outer: int, inner: int)
    requires root != outer && outer != inner && inner != root
    ensures var s := AllMoved(START, [
        Starts, Enters(root), Enters(outer), Leaves(outer), Enters(outer), Enters(inner), Leaves(inner),
        Leaves(outer), Enters(inner)]);
      && s.open == [Opened(root, false, false), Opened(inner, true, false)]
      && s.InEnteredBefore() && !s.flag
  {
    var moves := [
      Starts, Enters(root), Enters(outer), Leaves(outer), Enters(outer), Enters(inner), Leaves(inner), Leaves(outer),
      Enters(inner)];
    var s1 := Enter(Begin(START), root);
    var s2 := Leave(Enter(s1, outer), outer);
    var s3 := Enter(s2, outer);
    var s4 := Enter(s3, inner);
    var s5 := Leave(s4, inner);
    var s6 := Leave(s5, outer);
    assert Enter(s1, outer).open[1].header == outer && Enter(s1, outer).open[..1] == s1.open;
    assert s2.open == [Opened(root, false, false)];
    assert s3.open == s2.open + [Opened(outer, true, true)] && s3.open[..1] == s2.open;
    assert s4.open == s3.open + [Opened(inner, false, false)] && s4.open[..2] == s3.open && s4.open[2].header == inner;
    assert s5.open == s3.open && s5.open[1].header == outer;
    assert s6.open == s2.open;
    MovesOf(START, moves, [START, Begin(START), s1, Enter(s1, outer), s2, s3, s4, s5, s6, Enter(s6, inner)]);
    assert Enter(s6, inner).open[1].again;
  }

  lemma {:induction false} MovesOf(s: Nesting, moves: seq<Move>, states: seq<Nesting>)
    requires |states| == |moves| + 1 && states[0] == s
    requires forall n :: 0 <= n < |moves| ==> states[n + 1] == Moved(states[n], moves[n])
    ensures AllMoved(s, moves) == states[|moves|]
    decreases |moves|
  {
    if moves != [] {
      MovesOf(states[1], moves[1..], states[1..]);
    }
  }

  class Tracker {
    var headerPaths: seq<string>
    var headerStack: seq<int>
    var inclusionPaths: seq<seq<int>>
    var currentInclusionPathHandle: int
    var headersInThisCompile: set<int>
    var macroExpansions: Table<Expansion>
    var conditionalExpansions: Table<ConditionValue>
    var inNestedHeader: bool

    /** Whether a compilation is under way, and all that was recorded in all of them. */
    ghost var active: bool
    ghost var nesting: Nesting
    ghost var macros: seq<Event<Meaning>>
    ghost var conditions: seq<Event<ConditionValue>>

    constructor ()
      ensures Valid() && !active && macros == [] && conditions == [] && headerStack == []
      ensures headerPaths == [] && nesting == START
    {
      headerPaths, headerStack, inclusionPaths := [], [], [];
      currentInclusionPathHandle := INVALID;
      headersInThisCompile := {};
      macroExpansions, conditionalExpansions := map[], map[];
      inNestedHeader, active := false, false;
      macros, conditions, nesting := [], [], START;
    }

    /** Header and path tables hold every entry once. */
    ghost predicate TablesValid()
      reads this
    {
      && NoDuplicates(headerPaths)
      && (forall path <- headerPaths :: Canonical(path) == path)
      && NoDuplicates(inclusionPaths)
      && (forall n :: 0 <= n < |headerStack| ==> 0 <= headerStack[n] < |headerPaths|)
    }

    /** During a compilation the current handle denotes exactly the header stack. */
    ghost predicate PathValid()
      reads this
    {
      active ==>
        0 <= currentInclusionPathHandle < |inclusionPaths| &&
        inclusionPaths[currentInclusionPathHandle] == headerStack
    }

    /** The flag and the set are those of the moves so far. */
    ghost predicate NestingValid()
      reads this
    {
      nesting.Valid() && inNestedHeader == nesting.flag && headersInThisCompile == nesting.headers
    }

    /** The tables summarise all that was recorded. */
    ghost predicate SummaryValid()
      reads this
    {
      Summary(macroExpansions, AllRecorded(macros)) && Summary(conditionalExpansions, conditions)
    }

    ghost predicate Valid()
      reads this
    {
      TablesValid() && PathValid() && NestingValid() && SummaryValid()
    }

    // ---------------------------------------------------------------- headers

    method FindHeaderHandle(path: string) returns (h: int)
      ensures -1 <= h < |headerPaths|
      ensures h >= 0 ==> headerPaths[h] == Canonical(path)
      ensures h == INVALID ==> Canonical(path) !in headerPaths
    {
      h := Find(headerPaths, Canonical(path));
    }

    /** Handles stay what they are; a new header gets the next one. */
    method AddHeader(path: string) returns (h: int)
      requires Valid()
      modifies this`headerPaths
      ensures Valid()
      ensures 0 <= h < |headerPaths| && headerPaths[h] == Canonical(path)
      ensures headerPaths == old(headerPaths) + (if Canonical(path) in old(headerPaths) then [] else [Canonical(path)])
    {
      h := FindHeaderHandle(path);
      if h == INVALID {
        h := |headerPaths|;
        headerPaths := headerPaths + [Canonical(path)];
      }
    }

    method GetCurrentHeaderHandle() returns (h: int)
      ensures h == if headerStack == [] then INVALID else headerStack[|headerStack| - 1]
    {
      h := if headerStack == [] then INVALID else headerStack[|headerStack| - 1];
    }

    /** Numbers a path, and makes its number the current one. */
    method AddInclusionPathHandle(path: seq<int>) returns (h: int)
      requires NoDuplicates(inclusionPaths)
      modifies this`inclusionPaths
      ensures NoDuplicates(inclusionPaths)
      ensures 0 <= h < |inclusionPaths| && inclusionPaths[h] == path
      ensures inclusionPaths == old(inclusionPaths) + (if path in old(inclusionPaths) then [] else [path])
    {
      h := Find(inclusionPaths, path);
      if h == INVALID {
        h := |inclusionPaths|;
        inclusionPaths := inclusionPaths + [path];
      }
    }

    method PushHeaderHandle(h: int)
      requires TablesValid() && 0 <= h < |headerPaths|
      requires NestingValid() && SummaryValid()
      modifies this`headerStack, this`inclusionPaths, this`currentInclusionPathHandle
      ensures Valid()
      ensures headerStack == old(headerStack) + [h] && old(inclusionPaths) <= inclusionPaths
      ensures 0 <= currentInclusionPathHandle < |inclusionPaths|
      ensures inclusionPaths[currentInclusionPathHandle] == headerStack
    {
      headerStack := headerStack + [h];
      currentInclusionPathHandle := AddInclusionPathHandle(headerStack);
    }

    method PopHeaderHandle()
      requires Valid()
      modifies this`headerStack, this`inclusionPaths, this`currentInclusionPathHandle
      ensures Valid()
      ensures headerStack == if old(headerStack) == [] then [] else old(headerStack)[..|old(headerStack)| - 1]
      ensures old(inclusionPaths) <= inclusionPaths
    {
      if headerStack != [] {
        headerStack := headerStack[..|headerStack| - 1];
        currentInclusionPathHandle := AddInclusionPathHandle(headerStack);
      }
    }

    // ---------------------------------------------------------------- compilations

    method HandlePreprocessorEntry(rootHeaderFile: string)
      requires Valid() && headerStack == []
      modifies this
      ensures Valid() && active && macros == old(macros) && conditions == old(conditions)
      ensures old(headerPaths) <= headerPaths && old(inclusionPaths) <= inclusionPaths
      ensures headerStack == [CurrentHeader()] && 0 <= CurrentHeader() < |headerPaths|
      ensures headerPaths[CurrentHeader()] == Canonical(rootHeaderFile)
      ensures headersInThisCompile == {} && inNestedHeader == old(inNestedHeader)
      ensures nesting == Begin(old(nesting))
    {
      hide Summary, AllRecorded, NoDuplicates, Canonical;
      headersInThisCompile := {};
      nesting := Begin(nesting);
      var h := AddHeader(rootHeaderFile);
      PushHeaderHandle(h);
      active := true;
    }

    /** The current handle is left as it was; it means nothing until the next compilation. */
    method HandlePreprocessorExit()
      requires Valid()
      modifies this`headerStack, this`active
      ensures Valid() && !active && headerStack == []
    {
      headerStack := [];
      active := false;
    }

    /** The second half of the entry. */
    method CheckForNesting(h: int)
      requires NestingValid()
      modifies this`inNestedHeader, this`headersInThisCompile, this`nesting
      ensures NestingValid() && nesting == Enter(old(nesting), h)
      ensures inNestedHeader == (old(inNestedHeader) || h in old(headersInThisCompile))
      ensures headersInThisCompile ==
        if old(inNestedHeader) then old(headersInThisCompile) else old(headersInThisCompile) + {h}
    {
      MoveKeepsNesting(nesting, Enters(h));
      if !inNestedHeader {
        inNestedHeader := h in headersInThisCompile;
        headersInThisCompile := headersInThisCompile + {h};
      }
      nesting := Enter(nesting, h);
    }

    /** Entering a header that is already on top does not push it again. */
    method HandleHeaderEntry(path: string)
      requires Valid()
      modifies this
      ensures Valid() && active == old(active) && macros == old(macros) && conditions == old(conditions)
      ensures old(headerPaths) <= headerPaths && old(inclusionPaths) <= inclusionPaths
      ensures "<" <= path ==> headerStack == old(headerStack) && inNestedHeader == old(inNestedHeader)
      ensures !("<" <= path) ==>
        && 0 <= CurrentHeader() < |headerPaths| && headerPaths[CurrentHeader()] == Canonical(path)
        && headerStack ==
             (if old(CurrentHeader()) == CurrentHeader() then old(headerStack)
              else old(headerStack) + [CurrentHeader()])
        && inNestedHeader == (old(inNestedHeader) || CurrentHeader() in old(headersInThisCompile))
        && headersInThisCompile ==
             (if old(inNestedHeader) then old(headersInThisCompile)
              else old(headersInThisCompile) + {CurrentHeader()})
      ensures nesting == if "<" <= path then old(nesting) else Enter(old(nesting), CurrentHeader())
    {
      hide Summary, AllRecorded, Nesting.Valid, NoDuplicates, CutAt, Canonical, Enter;
      if Ignored(path) {
        return;
      }
      var h := AddHeader(path);
      var current := GetCurrentHeaderHandle();
      if h != current {
        PushHeaderHandle(h);
      }
      CheckForNesting(h);
    }

    /** Cuts the stack just below the last occurrence of the header. */
    method HandleHeaderExit(path: string)
      requires Valid()
      modifies this`headerStack, this`inclusionPaths, this`currentInclusionPathHandle, this`inNestedHeader, this`nesting
      ensures Valid() && old(inclusionPaths) <= inclusionPaths
      ensures "<" <= path ==> headerStack == old(headerStack) && inNestedHeader == old(inNestedHeader)
      ensures !("<" <= path) ==> !inNestedHeader
      ensures !("<" <= path) ==>
        if exists h <- old(headerStack) :: headerPaths[h] == Canonical(path)
        then exists h <- old(headerStack) ::
          headerPaths[h] == Canonical(path) && headerStack == CutAt(old(headerStack), h)
        else headerStack == old(headerStack)
      ensures if "<" <= path then nesting == old(nesting) else
        exists h: int ::
          && nesting == Leave(old(nesting), h)
          && (if Canonical(path) in headerPaths then 0 <= h < |headerPaths| && headerPaths[h] == Canonical(path)
              else h == INVALID)
    {
      hide Summary, AllRecorded, Nesting.Valid, Canonical, Leave;
      if Ignored(path) {
        return;
      }
      var h := FindHeaderHandle(path);
      PopBelow(h);
      EndNesting(h);
      assert h in old(headerStack) ==> headerPaths[h] == Canonical(path);
    }

    /** The loop of the exit, if the header is on the stack. */
    method PopBelow(h: int)
      requires Valid()
      modifies this`headerStack, this`inclusionPaths, this`currentInclusionPathHandle
      ensures Valid() && old(inclusionPaths) <= inclusionPaths
      ensures headerStack == if h in old(headerStack) then CutAt(old(headerStack), h) else old(headerStack)
    {
      hide Summary, AllRecorded, Nesting.Valid, NoDuplicates;
      var place := Find(headerStack, h);
      if place != -1 {
        ghost var before := headerStack;
        var th := headerStack[|headerStack| - 1];
        PopHeaderHandle();
        while th != h && headerStack != []
          invariant Valid() && old(inclusionPaths) <= inclusionPaths
          invariant headerStack <= before && |headerStack| < |before| && th == before[|headerStack|]
          invariant CutAt(before, h) == if th == h then headerStack else CutAt(headerStack, h)
          decreases |headerStack|
        {
          th := headerStack[|headerStack| - 1];
          PopHeaderHandle();
        }
        assert before[..|before|] == before;
      }
    }

    method EndNesting(h: int)
      requires NestingValid()
      modifies this`inNestedHeader, this`nesting
      ensures NestingValid() && nesting == Leave(old(nesting), h) && !inNestedHeader
    {
      MoveKeepsNesting(nesting, Leaves(h));
      inNestedHeader := false;
      nesting := Leave(nesting, h);
    }

    // ---------------------------------------------------------------- macros and conditions

    /** The header that a key names is the innermost one. */
    function CurrentHeader(): int
      reads this
    {
      if headerStack == [] then INVALID else headerStack[|headerStack| - 1]
    }

    /** So the exact condition holds of the tracker's own flag. */
    lemma FlagIsThatOfNesting()
      requires Valid()
      ensures (inNestedHeader <==> nesting.InEnteredBefore()) <==>
        (if nesting.InEnteredBefore() then nesting.carried || nesting.ListedSinceExit() else !nesting.carried)
    {
      FlagMeansNested(nesting);
    }

    /** Recorded outside of what counts as nested; the file of the definition is no part of the table. */
    method AddMacroExpansionInstance(name: string, line: int, column: int, definition: Place, expanded: string)
      requires Valid()
      modifies this`macroExpansions, this`macros
      ensures Valid()
      ensures macros == if nesting.flag then old(macros) else old(macros) + [Event(
        PPItemKey(name, CurrentHeader(), line, column), Meaning(expanded, definition), currentInclusionPathHandle)]
    {
      hide Summary;
      if inNestedHeader {
        return;
      }
      var h := GetCurrentHeaderHandle();
      var key := PPItemKey(name, h, line, column);
      var value := Expansion(expanded, PPItemKey(name, h, definition.line, definition.column));
      ghost var e := Event(key, Meaning(expanded, definition), currentInclusionPathHandle);
      RecordedOneMore(macros, e);
      macroExpansions := AddInstance(macroExpansions, AllRecorded(macros), key, value, currentInclusionPathHandle);
      macros := macros + [e];
    }

    method AddConditionalExpansionInstance(text: string, line: int, column: int, value: ConditionValue)
      requires Valid()
      modifies this`conditionalExpansions, this`conditions
      ensures Valid()
      ensures conditions == if nesting.flag then old(conditions) else
        old(conditions) + [Event(PPItemKey(text, CurrentHeader(), line, column), value, currentInclusionPathHandle)]
    {
      if inNestedHeader {
        return;
      }
      var h := GetCurrentHeaderHandle();
      var key := PPItemKey(text, h, line, column);
      conditionalExpansions := AddInstance(conditionalExpansions, conditions, key, value, currentInclusionPathHandle);
      conditions := conditions + [Event(key, value, currentInclusionPathHandle)];
    }

    /**
      True exactly if two recorded expansions at one place differ in their text or in the line or column
      of the definition: that is if any two differ, unless all that do are in the file only.
      */
    method ReportInconsistentMacros() returns (found: bool)
      requires Valid()
      ensures found <==> exists key: PPItemKey :: Mismatch(AllRecorded(macros), key)
      ensures (found <==> exists key: PPItemKey :: Mismatch(macros, key)) <==>
        found || forall key: PPItemKey :: !Confused(macros, key)
    {
      found := HasMismatches(macroExpansions, AllRecorded(macros));
      hide AllRecorded, Mismatch, Confused;
      ReportIsRight(macros);
    }

    /** True exactly if two recorded conditions at one place had different values. */
    method ReportInconsistentConditionals() returns (found: bool)
      requires Valid()
      ensures found <==> exists key: PPItemKey :: Mismatch(conditions, key)
    {
      found := HasMismatches(conditionalExpansions, conditions);
    }
  }
}
