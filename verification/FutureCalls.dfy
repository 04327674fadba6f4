/** What each call of the protocol does when the steps of its thread are not disturbed. */
module FutureCalls {

  import opened Wrappers
  import opened FutureProtocol

  // ------------------------------------------------------------------ calls that are not disturbed

  function Copies(a: Action, n: nat): (run: seq<Action>)
    ensures |run| == n
  {
    if n == 0 then [] else [a] + Copies(a, n - 1)
  }

  /** Where `n` steps of one thread lead. */
  function Solo(m: Memory, pc: Pc, a: Action, n: nat): Step
    decreases n
  {
    if n == 0 then Step(m, pc, false)
    else
      var step := Take(m, pc, a);
      var rest := Solo(step.m, step.pc, a, n - 1);
      Step(rest.m, rest.pc, step.notify || rest.notify)
  }

  /** The thread can take them: it has work, and finds the mutex free. */
  predicate CanGo(m: Memory, pc: Pc, a: Action, n: nat)
    decreases n
  {
    n > 0 ==>
      && a.Advance? && Ready(m, pc, a) && !pc.ExitScan?
      && var step := Take(m, pc, a); CanGo(step.m, step.pc, a, n - 1)
  }

  lemma GoesOn(s: State, a: Action)
    requires a.Advance? && Ready(s.m, s.At(a.t), a) && !s.At(a.t).ExitScan?
    ensures Allowed(s, a)
  {
  }

  lemma Lands(s: State, a: Action)
    ensures var r, step := Apply(s, a), Take(s.m, s.At(a.t), a);
      && r.m == step.m && r.At(a.t) == step.pc
      && forall u: Thread :: u != a.t ==> r.At(u) == if step.notify then Awake(s.At(u)) else s.At(u)
  {
  }

  lemma {:induction false} SoloRuns(s: State, a: Action, n: nat)
    requires a.Advance? && CanGo(s.m, s.At(a.t), a, n)
    ensures Legal(s, Copies(a, n))
    ensures var r, step := Run(s, Copies(a, n)), Solo(s.m, s.At(a.t), a, n);
      && r.m == step.m && r.At(a.t) == step.pc
      && forall u: Thread :: u != a.t ==> r.At(u) == if step.notify then Awake(s.At(u)) else s.At(u)
    decreases n
  {
    hide Take, Apply, Allowed, Ready;
    if n > 0 {
      GoesOn(s, a);
      Lands(s, a);
      SoloRuns(Apply(s, a), a, n - 1);
      assert Copies(a, n)[1..] == Copies(a, n - 1);
    }
  }

  /** A call, and the steps of its thread until it returns. */
  function Call(first: Action, a: Action, n: nat): seq<Action> {
    [first] + Copies(a, n)
  }

  lemma CallRuns(s: State, first: Action, a: Action, n: nat)
    requires Allowed(s, first) && a.Advance? && first.t == a.t
    requires var step := Take(s.m, s.At(a.t), first); !step.notify && CanGo(step.m, step.pc, a, n)
    ensures Legal(s, Call(first, a, n))
    ensures var begun := Take(s.m, s.At(a.t), first);
      var r, step := Run(s, Call(first, a, n)), Solo(begun.m, begun.pc, a, n);
      && r.m == step.m && r.At(a.t) == step.pc
      && forall u: Thread :: u != a.t ==> r.At(u) == if step.notify then Awake(s.At(u)) else s.At(u)
  {
    hide Take, Apply, Allowed, Ready;
    Lands(s, first);
    SoloRuns(Apply(s, first), a, n);
    assert Call(first, a, n)[1..] == Copies(a, n);
  }

  lemma SoloStep(m: Memory, pc: Pc, a: Action, n: nat, m': Memory, pc': Pc, notify: bool)
    requires a.Advance? && Ready(m, pc, a) && !pc.ExitScan? && Take(m, pc, a) == Step(m', pc', notify)
    requires CanGo(m', pc', a, n)
    ensures CanGo(m, pc, a, n + 1)
    ensures var rest := Solo(m', pc', a, n); Solo(m, pc, a, n + 1) == Step(rest.m, rest.pc, notify || rest.notify)
  {
  }

  lemma SoloEnds(m: Memory, pc: Pc, a: Action)
    ensures CanGo(m, pc, a, 0) && Solo(m, pc, a, 0) == Step(m, pc, false)
  {
  }

  /** From `pc`, `n` steps lead to the given memory and position. */
  predicate Leads(m: Memory, pc: Pc, a: Action, n: nat, m': Memory, pc': Pc, notify: bool) {
    CanGo(m, pc, a, n) && Solo(m, pc, a, n) == Step(m', pc', notify)
  }

  lemma Then(m: Memory, pc: Pc, a: Action, n: nat, m1: Memory, pc1: Pc, notify: bool, m2: Memory, pc2: Pc, later: bool)
    requires a.Advance? && Ready(m, pc, a) && !pc.ExitScan? && Take(m, pc, a) == Step(m1, pc1, notify)
    requires Leads(m1, pc1, a, n, m2, pc2, later)
    ensures Leads(m, pc, a, n + 1, m2, pc2, notify || later)
  {
    SoloStep(m, pc, a, n, m1, pc1, notify);
  }

  /** The step that a thread takes when it needs to be told nothing. */
  function Next(t: Thread): Action {
    Advance(t, Value, false, 0, false)
  }

  // ------------------------------------------------------------------ get_future

  lemma TakesAttach(m: Memory, t: Thread, pc: Pc)
    requires Attaching(pc) && (pc.AttachLock? ==> m.lock == None)
    ensures Ready(m, pc, Next(t)) && Take(m, pc, Next(t)) == StepAttach(m, t, pc)
  {
  }

  lemma AttachSolo(m: Memory, t: Thread, f: Name)
    requires m.lock == None && !m.attached
    ensures Leads(m, AttachCheck(f), Next(t), 4,
      m.(owners := m.owners + 1, holders := m.holders + {Handle(f)}, retrieved := m.retrieved + 1, attached := true),
      Idle, false)
  {
    hide CanGo, Solo, Take, Ready;
    var a := Next(t);
    var m1 := m.(owners := m.owners + 1, holders := m.holders + {Handle(f)}, retrieved := m.retrieved + 1);
    var m2, m3 := m1.(lock := Some(t)), m1.(attached := true);
    SoloEnds(m3, Idle, a);
    TakesAttach(m2, t, AttachMark(f));
    Then(m2, AttachMark(f), a, 0, m3, Idle, false, m3, Idle, false);
    TakesAttach(m1, t, AttachLock(f));
    Then(m1, AttachLock(f), a, 1, m2, AttachMark(f), false, m3, Idle, false);
    TakesAttach(m, t, AttachAdd(f));
    Then(m, AttachAdd(f), a, 2, m1, AttachLock(f), false, m3, Idle, false);
    TakesAttach(m, t, AttachCheck(f));
    Then(m, AttachCheck(f), a, 3, m, AttachAdd(f), false, m3, Idle, false);
  }

  lemma AttachRefused(m: Memory, t: Thread, f: Name)
    requires m.attached
    ensures Leads(m, AttachCheck(f), Next(t), 1, m, Idle, false)
  {
    hide CanGo, Solo, Take, Ready;
    SoloEnds(m, Idle, Next(t));
    TakesAttach(m, t, AttachCheck(f));
    Then(m, AttachCheck(f), Next(t), 0, m, Idle, false, m, Idle, false);
  }

  // ------------------------------------------------------------------ setters

  lemma TakesSet(m: Memory, a: Action, pc: Pc)
    requires a.Advance? && Setting(pc) && (pc.SetLock? ==> m.lock == None)
    ensures Ready(m, pc, a) && Take(m, pc, a) == StepSet(m, a.t, pc, a.throws)
  {
  }

  /** What a setter leaves when it is accepted. */
  function Outcomes(m: Memory, t: Thread, o: Outcome, atExit: bool, throws: bool): Memory {
    var stored := m.(
      stored := m.stored + [o],
      constructed := m.constructed || o.Value?,
      exception := if o.Value? then m.exception else o.exception);
    if !atExit then stored.(ready := true, lost := false)
    else if throws then stored.(lost := true)
    else stored.(lost := false, owners := m.owners + 1, holders := m.holders + {ExitEntry(t, m.entries)},
      entries := m.entries + 1)
  }

  /** The last steps of a setter, from the store on. */
  lemma StoreSolo(m: Memory, a: Action, o: Outcome, atExit: bool, origin: Origin)
    requires a.Advance? && m.lock == Some(a.t)
    ensures Leads(m, SetStore(o, atExit, origin), a, 3,
      Outcomes(m, a.t, o, atExit, a.throws).(lock := None), Continue(origin), !atExit)
  {
    hide CanGo, Solo, Take, Ready;
    var m1 := m.Store(o, !atExit);
    var m2 := Outcomes(m, a.t, o, atExit, a.throws);
    var m3 := m2.(lock := None);
    SoloEnds(m3, Continue(origin), a);
    TakesSet(m2, a, SetUnlock(origin));
    Then(m2, SetUnlock(origin), a, 0, m3, Continue(origin), false, m3, Continue(origin), false);
    TakesSet(m1, a, SetSignal(atExit, origin));
    assert StepSet(m1, a.t, SetSignal(atExit, origin), a.throws).m == m2;
    Then(m1, SetSignal(atExit, origin), a, 1, m2, SetUnlock(origin), !atExit, m3, Continue(origin), false);
    TakesSet(m, a, SetStore(o, atExit, origin));
    Then(m, SetStore(o, atExit, origin), a, 2, m1, SetSignal(atExit, origin), false, m3, Continue(origin), !atExit);
  }

  lemma OutcomesUnlocked(m: Memory, t: Thread, o: Outcome, atExit: bool, throws: bool)
    requires m.lock == None
    ensures Outcomes(m.(lock := Some(t)), t, o, atExit, throws).(lock := None) == Outcomes(m, t, o, atExit, throws)
  {
  }

  lemma SetSolo(m: Memory, a: Action, o: Outcome, atExit: bool, origin: Origin)
    requires a.Advance? && m.lock == None && !m.HasValue()
    ensures Leads(m, SetLock(o, atExit, origin), a, 5,
      Outcomes(m, a.t, o, atExit, a.throws), Continue(origin), !atExit)
  {
    hide CanGo, Solo, Take, Ready, Outcomes, Continue;
    var m1 := m.(lock := Some(a.t));
    var m2 := Outcomes(m, a.t, o, atExit, a.throws);
    StoreSolo(m1, a, o, atExit, origin);
    OutcomesUnlocked(m, a.t, o, atExit, a.throws);
    TakesSet(m1, a, SetCheck(o, atExit, origin));
    Then(m1, SetCheck(o, atExit, origin), a, 3, m1, SetStore(o, atExit, origin), false, m2, Continue(origin), !atExit);
    TakesSet(m, a, SetLock(o, atExit, origin));
    Then(m, SetLock(o, atExit, origin), a, 4, m1, SetCheck(o, atExit, origin), false, m2, Continue(origin), !atExit);
  }

  lemma SetRefused(m: Memory, a: Action, o: Outcome, atExit: bool)
    requires a.Advance? && m.lock == None && m.HasValue()
    ensures Leads(m, SetLock(o, atExit, Caller), a, 2, m, Idle, false)
  {
    hide CanGo, Solo, Take, Ready;
    var m1 := m.(lock := Some(a.t));
    SoloEnds(m, Idle, a);
    TakesSet(m1, a, SetCheck(o, atExit, Caller));
    assert m1.(lock := None) == m;
    Then(m1, SetCheck(o, atExit, Caller), a, 0, m, Idle, false, m, Idle, false);
    TakesSet(m, a, SetLock(o, atExit, Caller));
    Then(m, SetLock(o, atExit, Caller), a, 1, m1, SetCheck(o, atExit, Caller), false, m, Idle, false);
  }

  // ------------------------------------------------------------------ waiting

  lemma TakesWait(m: Memory, a: Action, pc: Pc)
    requires a.Advance? && Waiting(pc) && !pc.Sleeping? && (WantsLock(pc) ==> m.lock == None)
    requires pc.Execute? ==> a.outcome != NULL
    ensures Ready(m, pc, a) && Take(m, pc, a) == StepWait(m, a.t, pc, a.outcome, a.expired)
  {
  }

  /** What a waiter leaves when it has returned. */
  function Returned(m: Memory, f: Name, k: Kind): Memory {
    if k == Consuming
    then m.(owners := m.owners - 1, holders := m.holders - {Handle(f)}, deleted := m.deleted || m.owners == 0)
    else m
  }

  /** The last steps of a waiter that holds the mutex. */
  lemma LeaveSolo(m: Memory, a: Action, f: Name, k: Kind)
    requires a.Advance? && m.lock == None
    ensures Leads(m.(lock := Some(a.t)), WaitUnlock(f, k), a, 2, Returned(m, f, k), Idle, false)
  {
    hide CanGo, Solo, Take, Ready;
    var m1, m2 := m.(lock := Some(a.t)), Returned(m, f, k);
    assert m1.(lock := None) == m;
    SoloEnds(m2, Idle, a);
    TakesWait(m, a, WaitFinish(f, k));
    Then(m, WaitFinish(f, k), a, 0, m2, Idle, false, m2, Idle, false);
    TakesWait(m1, a, WaitUnlock(f, k));
    Then(m1, WaitUnlock(f, k), a, 1, m, WaitFinish(f, k), false, m2, Idle, false);
  }

  /** A waiter without deadline returns from a ready state at once. */
  lemma WaitSolo(m: Memory, a: Action, f: Name, k: Kind)
    requires a.Advance? && m.lock == None && m.ready && k != Timed
    ensures Leads(m, WaitLock(f, k), a, 4, Returned(m, f, k), Idle, false)
  {
    hide CanGo, Solo, Take, Ready, Returned;
    var m1, m2 := m.(lock := Some(a.t)), Returned(m, f, k);
    LeaveSolo(m, a, f, k);
    TakesWait(m1, a, WaitTest(f, k));
    Then(m1, WaitTest(f, k), a, 2, m1, WaitUnlock(f, k), false, m2, Idle, false);
    TakesWait(m, a, WaitLock(f, k));
    Then(m, WaitLock(f, k), a, 3, m1, WaitTest(f, k), false, m2, Idle, false);
  }

  /** A waiter that was woken returns when the state is ready. */
  lemma WakeSolo(m: Memory, a: Action, f: Name, k: Kind)
    requires a.Advance? && m.lock == None && m.ready
    ensures Leads(m, Reacquire(f, k), a, 4, Returned(m, f, k), Idle, false)
  {
    hide CanGo, Solo, Take, Ready, Returned;
    var m1, m2 := m.(lock := Some(a.t)), Returned(m, f, k);
    LeaveSolo(m, a, f, k);
    TakesWait(m1, a, WaitLoop(f, k));
    Then(m1, WaitLoop(f, k), a, 2, m1, WaitUnlock(f, k), false, m2, Idle, false);
    TakesWait(m, a, Reacquire(f, k));
    Then(m, Reacquire(f, k), a, 3, m1, WaitLoop(f, k), false, m2, Idle, false);
  }

  /** Nothing stored and nothing deferred: it falls asleep and lets the mutex go. */
  lemma SleepSolo(m: Memory, a: Action, f: Name, k: Kind)
    requires a.Advance? && m.lock == None && !m.ready && !m.deferred && !(k == Timed && a.expired)
    ensures Leads(m, WaitLock(f, k), a, 3, m, Sleeping(f, k), false)
  {
    hide CanGo, Solo, Take, Ready;
    var m1, asleep := m.(lock := Some(a.t)), Sleeping(f, k);
    assert m1.(lock := None) == m;
    SoloEnds(m, asleep, a);
    TakesWait(m1, a, WaitLoop(f, k));
    Then(m1, WaitLoop(f, k), a, 0, m, asleep, false, m, asleep, false);
    TakesWait(m1, a, WaitTest(f, k));
    Then(m1, WaitTest(f, k), a, 1, m1, WaitLoop(f, k), false, m, asleep, false);
    TakesWait(m, a, WaitLock(f, k));
    Then(m, WaitLock(f, k), a, 2, m1, WaitTest(f, k), false, m, asleep, false);
  }

  /** With a deadline it returns from a ready state, from a deferred call, or when the deadline has passed. */
  lemma TimedSolo(m: Memory, a: Action, f: Name)
    requires a.Advance? && m.lock == None && (m.deferred || m.ready || a.expired)
    ensures Leads(m, WaitLock(f, Timed), a, if m.deferred then 4 else 5, m, Idle, false)
  {
    hide CanGo, Solo, Take, Ready;
    var m1 := m.(lock := Some(a.t));
    LeaveSolo(m, a, f, Timed);
    if m.deferred {
      TakesWait(m1, a, WaitTest(f, Timed));
      Then(m1, WaitTest(f, Timed), a, 2, m1, WaitUnlock(f, Timed), false, m, Idle, false);
      TakesWait(m, a, WaitLock(f, Timed));
      Then(m, WaitLock(f, Timed), a, 3, m1, WaitTest(f, Timed), false, m, Idle, false);
    } else {
      TakesWait(m1, a, WaitLoop(f, Timed));
      Then(m1, WaitLoop(f, Timed), a, 2, m1, WaitUnlock(f, Timed), false, m, Idle, false);
      TakesWait(m1, a, WaitTest(f, Timed));
      Then(m1, WaitTest(f, Timed), a, 3, m1, WaitLoop(f, Timed), false, m, Idle, false);
      TakesWait(m, a, WaitLock(f, Timed));
      Then(m, WaitLock(f, Timed), a, 4, m1, WaitTest(f, Timed), false, m, Idle, false);
    }
  }

  lemma Onward(m: Memory, pc: Pc, a: Action, n: nat, m1: Memory, pc1: Pc, p: bool, l: nat, m2: Memory, pc2: Pc, q: bool)
    requires Leads(m, pc, a, n, m1, pc1, p) && Leads(m1, pc1, a, l, m2, pc2, q)
    ensures Leads(m, pc, a, n + l, m2, pc2, p || q)
    decreases n
  {
    hide Take, Ready;
    if n > 0 {
      var step := Take(m, pc, a);
      var rest := Solo(step.m, step.pc, a, n - 1);
      Onward(step.m, step.pc, a, n - 1, m1, pc1, rest.notify, l, m2, pc2, q);
    }
  }

  /** The first waiter on a deferred function runs it, stores its outcome and returns. */
  lemma DeferredSolo(m: Memory, a: Action, f: Name, k: Kind)
    requires a.Advance? && m.lock == None && !m.ready && m.deferred && !m.HasValue() && k != Timed && a.outcome != NULL
    ensures var run := m.(deferred := false, executions := m.executions + 1);
      Leads(m, WaitLock(f, k), a, 9, Returned(Outcomes(run, a.t, a.outcome, false, false), f, k), Idle, true)
  {
    hide CanGo, Solo, Take, Ready, Returned, Outcomes;
    var m1 := m.(lock := Some(a.t));
    var m2 := m.(deferred := false, executions := m.executions + 1);
    var m3 := Outcomes(m2, a.t, a.outcome, false, false);
    var m4 := Returned(m3, f, k);
    var setter := SetLock(a.outcome, false, Executor(f, k));
    SoloEnds(m4, Idle, a);
    TakesWait(m3, a, WaitFinish(f, k));
    FinishTakes(m3, a, f, k);
    Then(m3, WaitFinish(f, k), a, 0, m4, Idle, false, m4, Idle, false);
    SetWithoutExit(m2, a, a.outcome, Executor(f, k));
    Onward(m2, setter, a, 5, m3, WaitFinish(f, k), true, 1, m4, Idle, false);
    TakesWait(m2, a, Execute(f, k));
    Then(m2, Execute(f, k), a, 6, m2, setter, false, m4, Idle, true);
    TakesWait(m1, a, WaitTest(f, k));
    Then(m1, WaitTest(f, k), a, 7, m2, Execute(f, k), false, m4, Idle, true);
    TakesWait(m, a, WaitLock(f, k));
    Then(m, WaitLock(f, k), a, 8, m1, WaitTest(f, k), false, m4, Idle, true);
  }

  lemma FinishTakes(m: Memory, a: Action, f: Name, k: Kind)
    requires a.Advance?
    ensures StepWait(m, a.t, WaitFinish(f, k), Value, false).m == Returned(m, f, k)
    ensures StepWait(m, a.t, WaitFinish(f, k), Value, false) ==
      StepWait(m, a.t, WaitFinish(f, k), a.outcome, a.expired)
  {
  }

  lemma SetWithoutExit(m: Memory, a: Action, o: Outcome, origin: Origin)
    requires a.Advance? && m.lock == None && !m.HasValue()
    ensures Leads(m, SetLock(o, false, origin), a, 5, Outcomes(m, a.t, o, false, false), Continue(origin), true)
  {
    SetSolo(m, a, o, false, origin);
  }

  // ------------------------------------------------------------------ the destructor of the promise

  lemma TakesDrop(m: Memory, t: Thread, pc: Pc)
    requires Dropping(pc) && !Setting(pc)
    ensures Ready(m, pc, Next(t)) && Take(m, pc, Next(t)) == StepDrop(m, t, pc)
  {
  }

  /** The memory when the promise is gone. */
  function Gone_(m: Memory): Memory {
    m.(promise := Gone, owners := m.owners - 1, holders := m.holders - {Promise}, deleted := m.deleted || m.owners == 0)
  }

  lemma ReleaseSolo(m: Memory, t: Thread)
    ensures Leads(m, DropRelease, Next(t), 1, Gone_(m), Idle, false)
  {
    hide CanGo, Solo, Take, Ready;
    SoloEnds(Gone_(m), Idle, Next(t));
    TakesDrop(m, t, DropRelease);
    Then(m, DropRelease, Next(t), 0, Gone_(m), Idle, false, Gone_(m), Idle, false);
  }

  /** With an outcome, or nobody else to see one, the promise just goes. */
  lemma QuietDropSolo(m: Memory, t: Thread)
    requires m.HasValue() || m.owners <= 0
    ensures Leads(m, DropRead, Next(t), if m.HasValue() then 2 else 3, Gone_(m), Idle, false)
  {
    hide CanGo, Solo, Take, Ready, Gone_;
    ReleaseSolo(m, t);
    TakesDrop(m, t, DropRead);
    if m.HasValue() {
      Then(m, DropRead, Next(t), 1, m, DropRelease, false, Gone_(m), Idle, false);
    } else {
      TakesDrop(m, t, DropCount);
      Then(m, DropCount, Next(t), 1, m, DropRelease, false, Gone_(m), Idle, false);
      Then(m, DropRead, Next(t), 2, m, DropCount, false, Gone_(m), Idle, false);
    }
  }

  /** Without an outcome that others wait for, the broken promise is stored. */
  lemma BreakSolo(m: Memory, t: Thread)
    requires m.lock == None && !m.HasValue() && m.owners > 0
    ensures Leads(m, DropRead, Next(t), 8, Gone_(Outcomes(m, t, BROKEN_PROMISE, false, false)), Idle, true)
  {
    hide CanGo, Solo, Take, Ready, Gone_, Outcomes;
    var a, m1 := Next(t), Outcomes(m, t, BROKEN_PROMISE, false, false);
    var m2, setter := Gone_(m1), SetLock(BROKEN_PROMISE, false, Destructor);
    ReleaseSolo(m1, t);
    SetWithoutExit(m, a, BROKEN_PROMISE, Destructor);
    Onward(m, setter, a, 5, m1, DropRelease, true, 1, m2, Idle, false);
    TakesDrop(m, t, DropCount);
    Then(m, DropCount, a, 6, m, setter, false, m2, Idle, true);
    TakesDrop(m, t, DropRead);
    Then(m, DropRead, a, 7, m, DropCount, false, m2, Idle, true);
  }

  // ------------------------------------------------------------------ the exit of a thread

  lemma TakesExit(m: Memory, t: Thread, pc: Pc)
    requires Exiting(pc) && (pc.ExitLock? ==> m.lock == None)
    ensures Ready(m, pc, Next(t)) && Take(m, pc, Next(t)) == StepExit(m, t, pc, 0)
  {
  }

  /** One entry of the exit list: the state becomes ready, everybody is told, and the reference goes. */
  lemma ExitSolo(m: Memory, t: Thread, i: nat)
    requires m.lock == None
    ensures Leads(m, ExitLock(i), Next(t), 5,
      m.(ready := true, owners := m.owners - 1, holders := m.holders - {ExitEntry(t, i)},
         deleted := m.deleted || m.owners == 0),
      ExitScan, true)
  {
    hide CanGo, Solo, Take, Ready;
    var a, m1 := Next(t), m.(lock := Some(t));
    var m2, m3 := m1.(ready := true), m.(ready := true);
    var m4 := m3.(owners := m.owners - 1, holders := m.holders - {ExitEntry(t, i)},
      deleted := m.deleted || m.owners == 0);
    assert m2.(lock := None) == m3;
    SoloEnds(m4, ExitScan, a);
    TakesExit(m3, t, ExitRelease(i));
    Then(m3, ExitRelease(i), a, 0, m4, ExitScan, false, m4, ExitScan, false);
    TakesExit(m2, t, ExitUnlock(i));
    Then(m2, ExitUnlock(i), a, 1, m3, ExitRelease(i), false, m4, ExitScan, false);
    TakesExit(m2, t, ExitNotify(i));
    Then(m2, ExitNotify(i), a, 2, m2, ExitUnlock(i), true, m4, ExitScan, false);
    TakesExit(m1, t, ExitMark(i));
    Then(m1, ExitMark(i), a, 3, m2, ExitNotify(i), false, m4, ExitScan, true);
    TakesExit(m, t, ExitLock(i));
    Then(m, ExitLock(i), a, 4, m1, ExitMark(i), false, m4, ExitScan, true);
  }

  // ------------------------------------------------------------------ whole calls

  lemma LeadsThere(s: State, first: Action, a: Action, n: nat, m: Memory, pc: Pc, m': Memory, pc': Pc, notify: bool)
    requires Allowed(s, first) && !first.Advance? && a.Advance? && first.t == a.t
    requires Take(s.m, s.At(a.t), first) == Step(m, pc, false) && Leads(m, pc, a, n, m', pc', notify)
    ensures Legal(s, Call(first, a, n))
    ensures var r := Run(s, Call(first, a, n));
      && r.m == m' && r.At(a.t) == pc'
      && forall u: Thread :: u != a.t ==> r.At(u) == if notify then Awake(s.At(u)) else s.At(u)
  {
    hide Take, Allowed;
    CallRuns(s, first, a, n);
  }

  /**
    A call of `get_future` that finds the mutex free hands out a future exactly if none was handed out
    before: it adds a reference for it and marks the state.  Otherwise it changes nothing.
    */
  lemma GetFutureAlone(s: State, t: Thread, f: Name)
    requires Reachable(s) && Allowed(s, GetFuture(t, f)) && s.m.lock == None
    ensures var run := Call(GetFuture(t, f), Next(t), if s.m.retrieved == 0 then 4 else 1);
      Legal(s, run) && var r := Run(s, run);
        && r.At(t).Idle?
        && (Handle(f) in r.m.holders <==> s.m.retrieved == 0)
        && r.m.attached && r.m.retrieved == 1
        && r.m == (if s.m.retrieved > 0 then s.m else s.m.(
             attached := true, retrieved := 1, owners := s.m.owners + 1, holders := s.m.holders + {Handle(f)}))
  {
    ReachableStatesAreSound(s);
    NobodyAttaches(s, t, f);
    hide Invariant, Leads, Legal, Run;
    if s.m.attached {
      AttachRefused(s.m, t, f);
      LeadsThere(s, GetFuture(t, f), Next(t), 1, s.m, AttachCheck(f), s.m, Idle, false);
    } else {
      AttachSolo(s.m, t, f);
      LeadsThere(s, GetFuture(t, f), Next(t), 4, s.m, AttachCheck(f),
        s.m.(owners := s.m.owners + 1, holders := s.m.holders + {Handle(f)}, retrieved := s.m.retrieved + 1,
             attached := true),
        Idle, false);
    }
  }

  lemma NobodyAttaches(s: State, t: Thread, f: Name)
    requires Invariant(s) && Allowed(s, GetFuture(t, f))
    ensures s.m.retrieved == if s.m.attached then 1 else 0
    ensures Handle(f) !in s.m.holders
  {
    assert forall u: Thread :: Permits(s.At(u), GetFuture(t, f));
    assert s.m.retrieved <= 1;
  }

  /** A setter is refused if the state has a value; otherwise it stores its outcome, and tells everybody. */
  lemma SetAlone(s: State, t: Thread, o: Outcome)
    requires Allowed(s, Set(t, o, false)) && s.m.lock == None
    ensures var run := Call(Set(t, o, false), Next(t), if s.m.HasValue() then 2 else 5);
      Legal(s, run) && var r := Run(s, run);
        && r.At(t).Idle?
        && r.m == (if s.m.HasValue() then s.m else s.m.(
             stored := s.m.stored + [o], ready := true, lost := false, constructed := o.Value?,
             exception := if o.Value? then None else o.exception))
        && forall u: Thread :: u != t ==> r.At(u) == if s.m.HasValue() then s.At(u) else Awake(s.At(u))
  {
    hide Leads, Legal, Run;
    if s.m.HasValue() {
      SetRefused(s.m, Next(t), o, false);
      LeadsThere(s, Set(t, o, false), Next(t), 2, s.m, SetLock(o, false, Caller), s.m, Idle, false);
    } else {
      SetSolo(s.m, Next(t), o, false, Caller);
      LeadsThere(s, Set(t, o, false), Next(t), 5, s.m, SetLock(o, false, Caller),
        Outcomes(s.m, t, o, false, false), Idle, true);
    }
  }

  /** At thread exit the outcome is stored, and the state registered, if there is memory for that. */
  lemma SetAtExitAlone(s: State, t: Thread, o: Outcome, throws: bool)
    requires Allowed(s, Set(t, o, true)) && s.m.lock == None
    ensures var a := Advance(t, Value, false, 0, throws);
      var run := Call(Set(t, o, true), a, if s.m.HasValue() then 2 else 5);
      Legal(s, run) && var r := Run(s, run);
        && r.At(t).Idle?
        && r.m.ready == s.m.ready
        && (s.m.HasValue() ==> r.m == s.m)
        && (!s.m.HasValue() ==> r.m.stored == s.m.stored + [o] && r.m.lost == throws)
        && (!s.m.HasValue() ==> r.m.constructed == o.Value?)
        && (!s.m.HasValue() ==> r.m.exception == if o.Value? then None else o.exception)
        && r.m.holders ==
             (if s.m.HasValue() || throws then s.m.holders else s.m.holders + {ExitEntry(t, s.m.entries)})
        && r.m.owners == (if s.m.HasValue() || throws then s.m.owners else s.m.owners + 1)
        && forall u: Thread :: u != t ==> r.At(u) == s.At(u)
  {
    hide Leads, Legal, Run;
    var a := Advance(t, Value, false, 0, throws);
    if s.m.HasValue() {
      SetRefused(s.m, a, o, true);
      LeadsThere(s, Set(t, o, true), a, 2, s.m, SetLock(o, true, Caller), s.m, Idle, false);
    } else {
      SetSolo(s.m, a, o, true, Caller);
      LeadsThere(s, Set(t, o, true), a, 5, s.m, SetLock(o, true, Caller),
        Outcomes(s.m, t, o, true, throws), Idle, false);
    }
  }

  /** A waiter without deadline returns from a ready state; `future::get` gives its reference away. */
  lemma WaitAlone(s: State, t: Thread, f: Name, k: Kind)
    requires Allowed(s, Wait(t, f, k)) && s.m.lock == None && s.m.ready && k != Timed
    ensures var run := Call(Wait(t, f, k), Next(t), 4);
      Legal(s, run) && var r := Run(s, run);
        && r.At(t).Idle?
        && r.m == (if k != Consuming then s.m else s.m.(
             owners := s.m.owners - 1, holders := s.m.holders - {Handle(f)},
             deleted := s.m.deleted || s.m.owners == 0))
  {
    hide Leads, Legal, Run;
    WaitSolo(s.m, Next(t), f, k);
    LeadsThere(s, Wait(t, f, k), Next(t), 4, s.m, WaitLock(f, k), Returned(s.m, f, k), Idle, false);
  }

  /** With nothing stored or deferred it falls asleep, and lets the mutex go. */
  lemma SleepAlone(s: State, t: Thread, f: Name, k: Kind)
    requires Allowed(s, Wait(t, f, k)) && s.m.lock == None && !s.m.ready && !s.m.deferred
    ensures var run := Call(Wait(t, f, k), Next(t), 3);
      Legal(s, run) && var r := Run(s, run);
        r.At(t) == Sleeping(f, k) && r.m == s.m && forall u: Thread :: u != t ==> r.At(u) == s.At(u)
  {
    hide Leads, Legal, Run;
    SleepSolo(s.m, Next(t), f, k);
    LeadsThere(s, Wait(t, f, k), Next(t), 3, s.m, WaitLock(f, k), s.m, Sleeping(f, k), false);
  }

  /** A waiter with a deadline returns from a ready or deferred state, or when the deadline has passed. */
  lemma TimedAlone(s: State, t: Thread, f: Name, expired: bool)
    requires Allowed(s, Wait(t, f, Timed)) && s.m.lock == None && (s.m.deferred || s.m.ready || expired)
    ensures var run := Call(Wait(t, f, Timed), Advance(t, Value, expired, 0, false), if s.m.deferred then 4 else 5);
      Legal(s, run) && var r := Run(s, run); r.At(t).Idle? && r.m == s.m
  {
    hide Leads, Legal, Run;
    var a := Advance(t, Value, expired, 0, false);
    TimedSolo(s.m, a, f);
    LeadsThere(s, Wait(t, f, Timed), a, if s.m.deferred then 4 else 5, s.m, WaitLock(f, Timed), s.m, Idle, false);
  }

  /** A sleeper that was told returns when the state is ready. */
  lemma WakeAlone(s: State, t: Thread, f: Name, k: Kind)
    requires s.At(t) == Reacquire(f, k) && s.m.lock == None && s.m.ready
    ensures Legal(s, Copies(Next(t), 4))
    ensures var r := Run(s, Copies(Next(t), 4));
      && r.At(t).Idle?
      && r.m == (if k != Consuming then s.m else s.m.(
           owners := s.m.owners - 1, holders := s.m.holders - {Handle(f)},
           deleted := s.m.deleted || s.m.owners == 0))
  {
    WakeSolo(s.m, Next(t), f, k);
    SoloRuns(s, Next(t), 4);
  }

  /** The first waiter on a deferred function runs it, stores what it gives, and returns. */
  lemma DeferredAlone(s: State, t: Thread, f: Name, k: Kind, o: Outcome)
    requires Reachable(s) && Allowed(s, Wait(t, f, k)) && s.m.lock == None && s.m.deferred && k != Timed && o != NULL
    ensures var run := Call(Wait(t, f, k), Advance(t, o, false, 0, false), 9);
      Legal(s, run) && var r := Run(s, run);
        && r.At(t).Idle?
        && r.m.ready && r.m.stored == [o] && r.m.executions == 1 && !r.m.deferred
        && r.m.holders == (if k == Consuming then s.m.holders - {Handle(f)} else s.m.holders)
        && forall u: Thread :: u != t ==> r.At(u) == Awake(s.At(u))
  {
    ReachableStatesAreSound(s);
    NothingWhileDeferred(s);
    hide Leads, Legal, Run, Invariant;
    var a := Advance(t, o, false, 0, false);
    DeferredSolo(s.m, a, f, k);
    var called := s.m.(deferred := false, executions := s.m.executions + 1);
    LeadsThere(s, Wait(t, f, k), a, 9, s.m, WaitLock(f, k),
      Returned(Outcomes(called, t, o, false, false), f, k), Idle, true);
  }

  lemma NothingWhileDeferred(s: State)
    requires Invariant(s) && s.m.deferred
    ensures s.m.executions == 0 && s.m.stored == [] && !s.m.ready && !s.m.HasValue()
  {
  }

  /** The destructor of the promise stores `broken_promise` exactly if no value is there and another owner is. */
  lemma DropPromiseAlone(s: State, t: Thread)
    requires Allowed(s, DropPromise(t)) && s.m.lock == None && s.m.owners >= 0
    ensures var breaks := !s.m.HasValue() && s.m.owners > 0;
      var run := Call(DropPromise(t), Next(t), if breaks then 8 else if s.m.HasValue() then 2 else 3);
      Legal(s, run) && var r := Run(s, run);
        && r.At(t).Idle?
        && r.m.promise.Gone? && r.m.holders == s.m.holders - {Promise} && r.m.owners == s.m.owners - 1
        && r.m.stored == (if breaks then s.m.stored + [BROKEN_PROMISE] else s.m.stored)
        && r.m.ready == (s.m.ready || breaks)
        && r.m.exception == (if breaks then BROKEN_PROMISE.exception else s.m.exception)
        && (r.m.deleted <==> s.m.deleted || s.m.owners == 0)
        && forall u: Thread :: u != t ==> r.At(u) == if breaks then Awake(s.At(u)) else s.At(u)
  {
    hide Leads, Legal, Run;
    var m := s.m.(promise := Dying);
    if !s.m.HasValue() && s.m.owners > 0 {
      BreakSolo(m, t);
      LeadsThere(s, DropPromise(t), Next(t), 8, m, DropRead,
        Gone_(Outcomes(m, t, BROKEN_PROMISE, false, false)), Idle, true);
    } else {
      QuietDropSolo(m, t);
      LeadsThere(s, DropPromise(t), Next(t), if s.m.HasValue() then 2 else 3, m, DropRead, Gone_(m), Idle, false);
    }
  }

  /** The exit of a thread goes through its list, entry by entry, and makes the state ready. */
  lemma ExitAlone(s: State, t: Thread, i: nat)
    requires s.At(t) == ExitLock(i) && s.m.lock == None
    ensures Legal(s, Copies(Next(t), 5))
    ensures var r := Run(s, Copies(Next(t), 5));
      && r.At(t).ExitScan?
      && r.m == s.m.(ready := true, owners := s.m.owners - 1, holders := s.m.holders - {ExitEntry(t, i)},
                     deleted := s.m.deleted || s.m.owners == 0)
      && forall u: Thread :: u != t ==> r.At(u) == Awake(s.At(u))
  {
    ExitSolo(s.m, t, i);
    SoloRuns(s, Next(t), 5);
  }

  /** It begins with a scan, and ends when the list is empty. */
  lemma ScanExactly(s: State, t: Thread, i: nat)
    requires s.At(t).ExitScan? && Allowed(s, Advance(t, Value, false, i, false))
    ensures var r := Apply(s, Advance(t, Value, false, i, false));
      && r.m == s.m
      && r.At(t) == (if ExitEntry(t, i) in s.m.holders then ExitLock(i) else Exited)
      && (r.At(t).Exited? ==> forall j: nat :: ExitEntry(t, j) !in s.m.holders)
  {
  }

  // The calls that take one step.

  lemma ExitBegins(s: State, t: Thread)
    requires Allowed(s, Exit(t))
    ensures var r := Apply(s, Exit(t)); r.m == s.m && r.At(t).ExitScan?
  {
    hide Apply;
    Lands(s, Exit(t));
  }

  lemma WakeExactly(s: State, t: Thread)
    requires Allowed(s, Wake(t))
    ensures var r := Apply(s, Wake(t)); r.m == s.m && r.At(t) == Reacquire(s.At(t).handle, s.At(t).kind)
  {
    hide Apply;
    Lands(s, Wake(t));
  }

  lemma DropFutureExactly(s: State, t: Thread, f: Name)
    requires Allowed(s, DropFuture(t, f))
    ensures var r := Apply(s, DropFuture(t, f));
      && r.At(t).Idle?
      && r.m == s.m.(owners := s.m.owners - 1, holders := s.m.holders - {Handle(f)},
                     deleted := s.m.deleted || s.m.owners == 0)
  {
    hide Apply;
    Lands(s, DropFuture(t, f));
  }

  lemma CopyFutureExactly(s: State, t: Thread, f: Name, g: Name)
    requires Allowed(s, CopyFuture(t, f, g))
    ensures var r := Apply(s, CopyFuture(t, f, g));
      r.At(t).Idle? && r.m == s.m.(owners := s.m.owners + 1, holders := s.m.holders + {Handle(g)})
  {
    hide Apply;
    Lands(s, CopyFuture(t, f, g));
  }

  lemma MoveFutureExactly(s: State, t: Thread, f: Name, g: Name)
    requires Allowed(s, MoveFuture(t, f, g))
    ensures var r := Apply(s, MoveFuture(t, f, g));
      r.At(t).Idle? && r.m == s.m.(holders := s.m.holders - {Handle(f)} + {Handle(g)})
  {
    hide Apply;
    Lands(s, MoveFuture(t, f, g));
  }

  // ------------------------------------------------------------------ runs of several calls

  lemma {:induction false} RunsJoin(s: State, p: seq<Action>, q: seq<Action>)
    requires Legal(s, p) && Legal(Run(s, p), q)
    ensures Legal(s, p + q) && Run(s, p + q) == Run(Run(s, p), q)
    decreases |p|
  {
    hide Apply, Allowed;
    if p == [] {
      assert p + q == q;
    } else {
      assert (p + q)[1..] == p[1..] + q;
      RunsJoin(Apply(s, p[0]), p[1..], q);
    }
  }

  /**
    When no thread is inside a call, a thread that has not exited can set an outcome, take a future or
    destroy the promise as long as the promise lives; it can use every future that there is, and put
    one where there is none; and it can exit.
    */
  lemma AllowedAtRest(s: State, a: Action)
    requires forall u: Thread :: s.At(u).Idle? || s.At(u).Exited?
    ensures Allowed(s, a) ==> s.At(a.t).Idle?
    ensures s.At(a.t).Idle? ==> (Allowed(s, a) <==>
      || (s.m.promise.Alive? && (a.Set? || a.DropPromise? || (a.GetFuture? && Handle(a.f) !in s.m.holders)))
      || ((a.Wait? || a.DropFuture?) && Handle(a.f) in s.m.holders)
      || ((a.CopyFuture? || a.MoveFuture?) && Handle(a.f) in s.m.holders && Handle(a.g) !in s.m.holders)
      || (a.Assign? && Handle(a.g) in s.m.holders)
      || a.Exit?)
  {
  }

  lemma FreeToCall(s: State, a: Action)
    requires (forall u: Thread :: s.At(u).Idle? || (s.At(u).Sleeping? && s.At(u).kind != Consuming && u != a.t))
    requires a.Wait? || a.GetFuture? || a.Set?
    requires a.Wait? ==> Handle(a.f) in s.m.holders && a.kind != Consuming
    requires a.GetFuture? ==> s.m.promise.Alive? && Handle(a.f) !in s.m.holders && forall u: Thread :: s.At(u).Idle?
    requires a.Set? ==> s.m.promise.Alive?
    ensures Allowed(s, a)
  {
  }

  /** Thread 0 takes a future from its promise. */
  function TakeFuture(): seq<Action> {
    Call(GetFuture(0, 0), Next(0), 4)
  }

  /** Thread 1 waits on it before there is a value. */
  function WaitFirst(): seq<Action> {
    Call(Wait(1, 0, Plain), Next(1), 3)
  }

  /** Thread 0 sets the value, and thread 1 goes on. */
  function SetThenReturn(): seq<Action> {
    Call(Set(0, Value, false), Next(0), 5) + Copies(Next(1), 4)
  }

  lemma FutureIsTaken()
    ensures Legal(FROM_PROMISE, TakeFuture())
    ensures var s := Run(FROM_PROMISE, TakeFuture());
      && s.m == FROM_PROMISE.m.(attached := true, retrieved := 1, owners := 1, holders := {Promise, Handle(0)})
      && forall u: Thread :: s.At(u).Idle?
  {
    assert Legal(FROM_PROMISE, []) && FROM_PROMISE == Run(FROM_PROMISE, []);
    FreeToCall(FROM_PROMISE, GetFuture(0, 0));
    AttachSolo(FROM_PROMISE.m, 0, 0);
    hide Legal, Run, Leads, Allowed;
    LeadsThere(FROM_PROMISE, GetFuture(0, 0), Next(0), 4, FROM_PROMISE.m, AttachCheck(0),
      FROM_PROMISE.m.(owners := 1, holders := {Promise} + {Handle(0)}, retrieved := 1, attached := true), Idle, false);
  }

  lemma WaiterSleeps()
    ensures Legal(FROM_PROMISE, TakeFuture() + WaitFirst())
    ensures var s := Run(FROM_PROMISE, TakeFuture() + WaitFirst());
      && s.m == FROM_PROMISE.m.(attached := true, retrieved := 1, owners := 1, holders := {Promise, Handle(0)})
      && s.At(1) == Sleeping(0, Plain) && forall u: Thread :: u != 1 ==> s.At(u).Idle?
  {
    hide Legal, Run, Allowed;
    FutureIsTaken();
    var s := Run(FROM_PROMISE, TakeFuture());
    FreeToCall(s, Wait(1, 0, Plain));
    SleepAlone(s, 1, 0, Plain);
    RunsJoin(FROM_PROMISE, TakeFuture(), WaitFirst());
  }

  /** The sleeper is woken by the setter, returns, and finds the value. */
  lemma WaiterSeesValue()
    ensures var run := TakeFuture() + WaitFirst() + SetThenReturn();
      Legal(FROM_PROMISE, run) && var r := Run(FROM_PROMISE, run);
        && r.At(0).Idle? && r.At(1).Idle?
        && r.m.ready && r.m.constructed && r.m.stored == [Value] && r.m.holders == {Promise, Handle(0)}
  {
    hide Legal, Run, Allowed;
    WaiterSleeps();
    var before := TakeFuture() + WaitFirst();
    var s := Run(FROM_PROMISE, before);
    FreeToCall(s, Set(0, Value, false));
    SetAlone(s, 0, Value);
    var set_ := Call(Set(0, Value, false), Next(0), 5);
    var s1 := Run(s, set_);
    WakeAlone(s1, 1, 0, Plain);
    ReturnKeepsOthers(s1, 1);
    RunsJoin(s, set_, Copies(Next(1), 4));
    RunsJoin(FROM_PROMISE, before, SetThenReturn());
  }

  lemma ReturnKeepsOthers(s: State, t: Thread)
    requires s.At(t).Reacquire? && s.m.lock == None && s.m.ready
    ensures forall u: Thread :: u != t ==> Run(s, Copies(Next(t), 4)).At(u) == s.At(u)
  {
    WakeSolo(s.m, Next(t), s.At(t).handle, s.At(t).kind);
    SoloRuns(s, Next(t), 4);
  }

  /**
    A null exception counts as no value: it makes the state ready, a second setter then succeeds, and
    the outcome that waiters see changes from the null exception to the value.
    */
  lemma NullExceptionIsReplaced()
    ensures var first, second := Call(Set(0, NULL, false), Next(0), 5), Call(Set(0, Value, false), Next(0), 5);
      Legal(FROM_PROMISE, first) &&
      var s1 := Run(FROM_PROMISE, first);
      Legal(s1, second) &&
      var s2 := Run(s1, second);
      && s1.m.ready && !s1.m.HasValue()
      && s2.m.stored == [NULL, Value] && s2.m.constructed
  {
    hide Legal, Run, Allowed;
    FreeToCall(FROM_PROMISE, Set(0, NULL, false));
    SetAlone(FROM_PROMISE, 0, NULL);
    var s1 := Run(FROM_PROMISE, Call(Set(0, NULL, false), Next(0), 5));
    forall u: Thread
      ensures s1.At(u).Idle?
    {
      assert FROM_PROMISE.At(u).Idle?;
    }
    FreeToCall(s1, Set(0, Value, false));
    SetAlone(s1, 0, Value);
  }

  /** A setter at the exit of a thread that cannot register: its outcome is stored, and never seen. */
  lemma RegistrationIsLost()
    ensures var run := Call(Set(0, Value, true), Advance(0, Value, false, 0, true), 5);
      Legal(FROM_PROMISE, run) &&
      var m := Run(FROM_PROMISE, run).m;
      m.stored == [Value] && m.lost && !m.ready && m.holders == {Promise}
  {
    hide Legal, Run, Allowed;
    FreeToCall(FROM_PROMISE, Set(0, Value, true));
    SetAtExitAlone(FROM_PROMISE, 0, Value, true);
  }
}
