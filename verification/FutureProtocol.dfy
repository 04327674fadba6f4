/**
  The shared state behind a promise and its futures, as threads use it.

  Every step below is one that a thread takes on its own: acquire the mutex, test the flags,
  store an outcome, notify, release, drop a reference.  Any thread may take the next step, so a
  run is an arbitrary interleaving.  A waiter may also wake up without being notified.
  */
module FutureProtocol {

  import opened Wrappers

  type Thread = nat

  type Name = nat

  /** What a setter stores.  A null `exception_ptr` is `Error(None)`. */
  datatype Outcome = Value | Error(exception: Option<nat>)

  const NULL := Error(None)
  const BROKEN_PROMISE := Error(Some(0))
  const ALREADY_SATISFIED := Error(Some(1))

  /** The four ways of waiting: `wait`, `shared_future::get`, `future::get`, `wait_until`. */
  datatype Kind = Plain | Shared | Consuming | Timed

  /** Who runs a setter: a caller of the promise, its destructor, or a deferred function's waiter. */
  datatype Origin = Caller | Destructor | Executor(handle: Name, kind: Kind)

  /** A pointer that owns one reference to the shared state. */
  datatype Holder =
    | Promise
    | Handle(name: Name)
    | ExitEntry(thread: Thread, index: nat)
    | Transit(thread: Thread)

  datatype Life = Absent | Alive | Dying | Gone

  /** Where a thread stands.  The states named after a lock still have to acquire it. */
  datatype Pc =
    | Idle
      // set_value, set_exception and their at_thread_exit forms
    | SetLock(outcome: Outcome, atExit: bool, origin: Origin)
    | SetCheck(outcome: Outcome, atExit: bool, origin: Origin)
    | SetStore(outcome: Outcome, atExit: bool, origin: Origin)
    | SetSignal(atExit: bool, origin: Origin)
    | SetUnlock(origin: Origin)
      // promise::get_future
    | AttachCheck(handle: Name)
    | AttachAdd(handle: Name)
    | AttachLock(handle: Name)
    | AttachMark(handle: Name)
      // promise::~promise
    | DropRead
    | DropCount
    | DropRelease
      // wait, get, wait_until
    | WaitLock(handle: Name, kind: Kind)
    | WaitTest(handle: Name, kind: Kind)
    | WaitLoop(handle: Name, kind: Kind)
    | Sleeping(handle: Name, kind: Kind)
    | Reacquire(handle: Name, kind: Kind)
    | WaitUnlock(handle: Name, kind: Kind)
    | Execute(handle: Name, kind: Kind)
    | WaitFinish(handle: Name, kind: Kind)
      // shared_future::operator=, after the source's reference was added
    | AssignRelease(target: Name, source: Name)
      // the destructor of the thread's exit list
    | ExitScan
    | ExitLock(index: nat)
    | ExitMark(index: nat)
    | ExitNotify(index: nat)
    | ExitUnlock(index: nat)
    | ExitRelease(index: nat)
    | Exited
      // an exception left a destructor, or left a deferred call
    | Terminated

  /** The shared state and the pointers that own it. */
  datatype Memory = Memory(
    constructed: bool,
    attached: bool,
    ready: bool,
    deferred: bool,
    exception: Option<nat>,
    owners: int,
    deleted: bool,
    lock: Option<Thread>,
    promise: Life,
    holders: set<Holder>,
    entries: nat,
    // History: the outcomes stored so far, how often the deferred function was entered, how often a
    // future was handed out, and whether the last outcome could not be registered for the exit.
    stored: seq<Outcome>,
    executions: nat,
    retrieved: nat,
    lost: bool)
  {
    function HasValue(): bool {
      constructed || exception != None
    }

    function Lock(t: Thread): Memory {
      this.(lock := Some(t))
    }

    function Unlock(): Memory {
      this.(lock := None)
    }

    function Add(h: Holder): Memory {
      this.(owners := owners + 1, holders := holders + {h})
    }

    /** `__release_shared`: the state is deleted when the count falls to -1. */
    function Release(h: Holder): Memory {
      this.(owners := owners - 1, holders := holders - {h}, deleted := deleted || owners - 1 == -1)
    }

    /** The reference passes from one pointer to another. */
    function Hand(g: Holder, h: Holder): Memory {
      this.(holders := holders - {g} + {h})
    }

    function Store(o: Outcome, makeReady: bool): Memory {
      this.(
        stored := stored + [o],
        lost := false,
        ready := ready || makeReady,
        constructed := constructed || o.Value?,
        exception := if o.Value? then exception else o.exception)
    }
  }

  /** The memory and the position of each thread; a thread not listed is idle. */
  datatype State = State(m: Memory, pcs: map<Thread, Pc>) {
    function At(t: Thread): Pc {
      if t in pcs then pcs[t] else Idle
    }
  }

  function Awake(pc: Pc): Pc {
    if pc.Sleeping? then Reacquire(pc.handle, pc.kind) else pc
  }

  /** A fresh state owned by a promise. */
  const FROM_PROMISE := State(
    Memory(false, false, false, false, None, 0, false, None, Alive, {Promise}, 0, [], 0, 0, false), map[])

  /** A state made for a deferred function, owned by the future that was returned for it. */
  const FROM_DEFERRED := State(
    Memory(false, true, false, true, None, 0, false, None, Absent, {Handle(0)}, 0, [], 0, 1, false), map[])

  // ------------------------------------------------------------------ what a position means

  predicate HoldsLock(pc: Pc) {
    pc.SetCheck? || pc.SetStore? || pc.SetSignal? || pc.SetUnlock? || pc.AttachMark? ||
    pc.WaitTest? || pc.WaitLoop? || pc.WaitUnlock? || pc.ExitMark? || pc.ExitNotify? || pc.ExitUnlock?
  }

  predicate WantsLock(pc: Pc) {
    pc.SetLock? || pc.AttachLock? || pc.WaitLock? || pc.Reacquire? || pc.ExitLock?
  }

  /** The thread has nothing to do until something else happens. */
  predicate Resting(pc: Pc) {
    pc.Idle? || pc.Sleeping? || pc.Exited? || pc.Terminated?
  }

  predicate Setting(pc: Pc) {
    pc.SetLock? || pc.SetCheck? || pc.SetStore? || pc.SetSignal? || pc.SetUnlock?
  }

  predicate Attaching(pc: Pc) {
    pc.AttachCheck? || pc.AttachAdd? || pc.AttachLock? || pc.AttachMark?
  }

  predicate Waiting(pc: Pc) {
    pc.WaitLock? || pc.WaitTest? || pc.WaitLoop? || pc.Sleeping? || pc.Reacquire? || pc.WaitUnlock? ||
    pc.Execute? || pc.WaitFinish?
  }

  /** The thread is inside the promise's destructor. */
  predicate Dropping(pc: Pc) {
    pc.DropRead? || pc.DropCount? || pc.DropRelease? || (Setting(pc) && pc.origin == Destructor)
  }

  /** The thread is inside another member function of the promise. */
  predicate Calling(pc: Pc) {
    Attaching(pc) || (Setting(pc) && pc.origin == Caller)
  }

  /** The thread is inside the deferred call and has not stored its outcome. */
  predicate Executing(pc: Pc) {
    pc.Execute? || ((pc.SetLock? || pc.SetCheck? || pc.SetStore?) && pc.origin.Executor?)
  }

  /** The thread is in a setter that has not stored its outcome `o`. */
  predicate Stores(pc: Pc, o: Outcome) {
    (pc.SetLock? || pc.SetCheck? || pc.SetStore?) && pc.outcome == o
  }

  predicate Exiting(pc: Pc) {
    pc.ExitLock? || pc.ExitMark? || pc.ExitNotify? || pc.ExitUnlock? || pc.ExitRelease?
  }

  /** The future the thread works on. */
  predicate Uses(pc: Pc, f: Name) {
    ((Attaching(pc) || Waiting(pc)) && pc.handle == f) ||
    (Setting(pc) && pc.origin.Executor? && pc.origin.handle == f) ||
    (pc.AssignRelease? && (pc.target == f || pc.source == f))
  }

  /** The thread changes the future, so that no other thread may use it meanwhile. */
  predicate Owns(pc: Pc, f: Name) {
    (Attaching(pc) && pc.handle == f) ||
    (Waiting(pc) && pc.handle == f && pc.kind == Consuming) ||
    (Setting(pc) && pc.origin.Executor? && pc.origin.handle == f && pc.origin.kind == Consuming) ||
    (pc.AssignRelease? && pc.target == f)
  }

  // ------------------------------------------------------------------ steps

  datatype Action =
    | Set(t: Thread, outcome: Outcome, atExit: bool)
    | GetFuture(t: Thread, f: Name)
    | DropPromise(t: Thread)
    | Wait(t: Thread, f: Name, kind: Kind)
    | DropFuture(t: Thread, f: Name)
    | CopyFuture(t: Thread, f: Name, g: Name)
    | MoveFuture(t: Thread, f: Name, g: Name)
    | Assign(t: Thread, f: Name, g: Name)
    | Exit(t: Thread)
    | Wake(t: Thread)
    | Advance(t: Thread, outcome: Outcome, expired: bool, index: nat, throws: bool)

  predicate Throws(a: Action) {
    a.Advance? && a.throws
  }

  /** What the thread itself must bring to a step. */
  predicate Ready(m: Memory, pc: Pc, a: Action) {
    match a
    case Set(_, _, _) => pc.Idle? && m.promise.Alive?
    case GetFuture(_, f) => pc.Idle? && m.promise.Alive? && Handle(f) !in m.holders
    case DropPromise(_) => pc.Idle? && m.promise.Alive?
    case Wait(_, f, _) => pc.Idle? && Handle(f) in m.holders
    case DropFuture(_, f) => pc.Idle? && Handle(f) in m.holders
    case CopyFuture(_, f, g) => pc.Idle? && Handle(f) in m.holders && Handle(g) !in m.holders
    case MoveFuture(_, f, g) => pc.Idle? && Handle(f) in m.holders && Handle(g) !in m.holders
    case Assign(_, _, g) => pc.Idle? && Handle(g) in m.holders
    case Exit(_) => pc.Idle?
    case Wake(_) => pc.Sleeping?
    case Advance(_, o, _, _, _) =>
      !Resting(pc) && (WantsLock(pc) ==> m.lock == None) && (pc.Execute? ==> o != NULL)
  }

  /** The action changes the future. */
  predicate Seizes(a: Action, f: Name) {
    match a
    case GetFuture(_, g) => f == g
    case Wait(_, g, k) => f == g && k == Consuming
    case DropFuture(_, g) => f == g
    case CopyFuture(_, _, h) => f == h
    case MoveFuture(_, g, h) => f == g || f == h
    case Assign(_, g, _) => f == g
    case _ => false
  }

  /** The action reads or changes the future. */
  predicate Touches(a: Action, f: Name) {
    Seizes(a, f) || (a.Wait? && a.f == f) || (a.CopyFuture? && a.f == f) || (a.Assign? && a.g == f)
  }

  /**
    What callers must respect while another thread is at `q`: no other call on the promise is under
    way when it is destroyed; `get_future` calls do not overlap; a future that a thread consumes,
    moves, assigns or destroys is not used by another thread at the same time.
    */
  ghost predicate Permits(q: Pc, a: Action) {
    && (a.GetFuture? ==> !Attaching(q))
    && (a.DropPromise? ==> !Calling(q))
    && (forall f: Name :: (Seizes(a, f) ==> !Uses(q, f)) && (Touches(a, f) ==> !Owns(q, f)))
  }

  ghost predicate Allowed(s: State, a: Action) {
    && Ready(s.m, s.At(a.t), a)
    && (forall u: Thread :: Permits(s.At(u), a))
      // A thread that scans its exit list stops only when the list is empty.
    && (a.Advance? && s.At(a.t).ExitScan? && ExitEntry(a.t, a.index) !in s.m.holders ==>
          forall i: nat :: ExitEntry(a.t, i) !in s.m.holders)
  }

  /** What a step does to the memory and to its own thread, and whether it notifies the sleepers. */
  datatype Step = Step(m: Memory, pc: Pc, notify: bool)

  function Apply(s: State, a: Action): State {
    var step := Take(s.m, s.At(a.t), a);
    State(step.m, (if step.notify then map t | t in s.pcs :: Awake(s.pcs[t]) else s.pcs)[a.t := step.pc])
  }

  function Take(m: Memory, pc: Pc, a: Action): Step {
    match a
    case Set(_, o, atExit) => Step(m, SetLock(o, atExit, Caller), false)
    case GetFuture(_, f) => Step(m, AttachCheck(f), false)
    case DropPromise(_) => Step(m.(promise := Dying), DropRead, false)
    case Wait(_, f, k) => Step(m, WaitLock(f, k), false)
    case DropFuture(_, f) => Step(m.Release(Handle(f)), pc, false)
    case CopyFuture(_, _, g) => Step(m.Add(Handle(g)), pc, false)
    case MoveFuture(_, f, g) => Step(m.Hand(Handle(f), Handle(g)), pc, false)
    case Assign(t, f, g) => Step(m.Add(Transit(t)), AssignRelease(f, g), false)
    case Exit(_) => Step(m, ExitScan, false)
    case Wake(_) => Step(m, Awake(pc), false)
    case Advance(t, o, expired, k, throws) =>
      if Setting(pc) then StepSet(m, t, pc, throws)
      else if Waiting(pc) then StepWait(m, t, pc, o, expired)
      else if Exiting(pc) || pc.ExitScan? then StepExit(m, t, pc, k)
      else if Dropping(pc) then StepDrop(m, t, pc)
      else if Attaching(pc) then StepAttach(m, t, pc)
      else if pc.AssignRelease? then StepAssign(m, t, pc.target)
      else Step(m, pc, false)
  }

  /** Without memory for the thread's exit list, an exception is thrown behind the store. */
  function StepSet(m: Memory, t: Thread, pc: Pc, throws: bool): Step
    requires Setting(pc)
  {
    match pc
    case SetLock(o, atExit, origin) => Step(m.Lock(t), SetCheck(o, atExit, origin), false)
    case SetCheck(o, atExit, origin) =>
      if m.HasValue()
      then Step(m.Unlock(), Rejected(o, atExit, origin), false)
      else Step(m, SetStore(o, atExit, origin), false)
    case SetStore(o, atExit, origin) => Step(m.Store(o, !atExit), SetSignal(atExit, origin), false)
    case SetSignal(atExit, origin) =>
      if atExit && throws
      then Step(m.(lost := true), SetUnlock(origin), false)
      else if atExit
      then Step(m.Add(ExitEntry(t, m.entries)).(entries := m.entries + 1), SetUnlock(origin), false)
      else Step(m, SetUnlock(origin), true)
    case SetUnlock(origin) => Step(m.Unlock(), Continue(origin), false)
  }

  /** `promise_already_satisfied` is thrown: to the caller, out of the destructor, or into `__execute`. */
  function Rejected(o: Outcome, atExit: bool, origin: Origin): Pc {
    match origin
    case Caller => Idle
    case Destructor => Terminated
    case Executor(_, _) => if o.Value? then SetLock(ALREADY_SATISFIED, atExit, origin) else Terminated
  }

  function Continue(origin: Origin): Pc {
    match origin
    case Caller => Idle
    case Destructor => DropRelease
    case Executor(f, k) => WaitFinish(f, k)
  }

  function StepWait(m: Memory, t: Thread, pc: Pc, o: Outcome, expired: bool): Step
    requires Waiting(pc)
  {
    match pc
    case WaitLock(f, k) => Step(m.Lock(t), WaitTest(f, k), false)
    case WaitTest(f, k) =>
      if k == Timed then
        Step(m, if m.deferred then WaitUnlock(f, k) else WaitLoop(f, k), false)
      else if m.ready then
        Step(m, WaitUnlock(f, k), false)
      else if m.deferred then
        Step(m.(deferred := false, executions := m.executions + 1).Unlock(), Execute(f, k), false)
      else
        Step(m, WaitLoop(f, k), false)
    case WaitLoop(f, k) =>
      if m.ready || (k == Timed && expired)
      then Step(m, WaitUnlock(f, k), false)
      else Step(m.Unlock(), Sleeping(f, k), false)
    case Sleeping(f, k) => Step(m, pc, false)
    case Reacquire(f, k) => Step(m.Lock(t), WaitLoop(f, k), false)
    case WaitUnlock(f, k) => Step(m.Unlock(), WaitFinish(f, k), false)
    case Execute(f, k) => Step(m, SetLock(o, false, Executor(f, k)), false)
    case WaitFinish(f, k) => Step(if k == Consuming then m.Release(Handle(f)) else m, Idle, false)
  }

  function StepExit(m: Memory, t: Thread, pc: Pc, k: nat): Step
    requires Exiting(pc) || pc.ExitScan?
  {
    match pc
    case ExitScan => Step(m, if ExitEntry(t, k) in m.holders then ExitLock(k) else Exited, false)
    case ExitLock(i) => Step(m.Lock(t), ExitMark(i), false)
    case ExitMark(i) => Step(m.(ready := true), ExitNotify(i), false)
    case ExitNotify(i) => Step(m, ExitUnlock(i), true)
    case ExitUnlock(i) => Step(m.Unlock(), ExitRelease(i), false)
    case ExitRelease(i) => Step(m.Release(ExitEntry(t, i)), ExitScan, false)
  }

  /** The steps of the destructor of the promise, but for its `set_exception`. */
  function StepDrop(m: Memory, t: Thread, pc: Pc): Step
    requires Dropping(pc) && !Setting(pc)
  {
    match pc
    case DropRead => Step(m, if m.HasValue() then DropRelease else DropCount, false)
    case DropCount =>
      Step(m, if m.owners + 1 > 1 then SetLock(BROKEN_PROMISE, false, Destructor) else DropRelease, false)
    case DropRelease => Step(m.(promise := Gone).Release(Promise), Idle, false)
  }

  function StepAttach(m: Memory, t: Thread, pc: Pc): Step
    requires Attaching(pc)
  {
    match pc
    case AttachCheck(f) => Step(m, if m.attached then Idle else AttachAdd(f), false)
    case AttachAdd(f) => Step(m.Add(Handle(f)).(retrieved := m.retrieved + 1), AttachLock(f), false)
    case AttachLock(f) => Step(m.Lock(t), AttachMark(f), false)
    case AttachMark(f) => Step(m.(attached := true).Unlock(), Idle, false)
  }

  /** The assigned future drops its own reference, if it had one, and takes over the one just added. */
  function StepAssign(m: Memory, t: Thread, f: Name): Step {
    Step(if Handle(f) in m.holders then m.Release(Transit(t)) else m.Hand(Transit(t), Handle(f)), Idle, false)
  }

  ghost predicate Legal(s: State, run: seq<Action>)
    decreases |run|
  {
    run == [] || (Allowed(s, run[0]) && Legal(Apply(s, run[0]), run[1..]))
  }

  function Run(s: State, run: seq<Action>): State
    decreases |run|
  {
    if run == [] then s else Run(Apply(s, run[0]), run[1..])
  }

  // ------------------------------------------------------------------ invariants

  predicate HasEntry(m: Memory) {
    exists h <- m.holders :: h.ExitEntry?
  }

  predicate HasHandle(m: Memory) {
    exists h <- m.holders :: h.Handle?
  }

  function Last(stored: seq<Outcome>): Outcome
    requires stored != []
  {
    stored[|stored| - 1]
  }

  /** Another outcome would be accepted. */
  predicate Open(stored: seq<Outcome>) {
    stored == [] || Last(stored) == NULL
  }

  /** The reference count is one less than the number of owning pointers. */
  predicate Counted(m: Memory) {
    && m.owners + 1 == |m.holders|
    && (m.deleted <==> m.holders == {})
    && (Promise in m.holders <==> m.promise.Alive? || m.promise.Dying?)
    && (forall h <- m.holders :: h.ExitEntry? ==> h.index < m.entries)
  }

  /** The flags and the exception say what the last store was; only null exceptions are replaced. */
  predicate Recorded(m: Memory) {
    && (forall i :: 0 <= i < |m.stored| - 1 ==> m.stored[i] == NULL)
    && (m.constructed <==> m.stored != [] && Last(m.stored).Value?)
    && m.exception == (if m.stored != [] && Last(m.stored).Error? then Last(m.stored).exception else None)
    && (m.ready || HasEntry(m) ==> m.stored != [])
  }

  /** The deferred flag, and the one call it allows; the promise that went leaves an outcome. */
  predicate Guarded(m: Memory) {
    && (!m.promise.Absent? ==> !m.deferred && m.executions == 0)
    && (m.promise.Absent? ==> !HasEntry(m) && (!m.deferred ==> m.executions == 1))
    && (m.deferred ==> m.executions == 0 && m.stored == [])
    && (m.promise.Gone? ==> m.stored != [] || !HasHandle(m))
    && (m.attached ==> m.retrieved == 1)
    && m.retrieved <= 1
  }

  predicate Sound(m: Memory) {
    Counted(m) && Recorded(m) && Guarded(m)
  }

  /** The reference that keeps the state alive while thread `t` is at `pc`. */
  predicate Protected(holders: set<Holder>, t: Thread, pc: Pc) {
    && (Calling(pc) || Dropping(pc) ==> Promise in holders)
    && (Waiting(pc) ==> Handle(pc.handle) in holders)
    && (Setting(pc) && pc.origin.Executor? ==> Handle(pc.origin.handle) in holders)
    && (pc.AttachLock? || pc.AttachMark? ==> Handle(pc.handle) in holders)
    && (pc.AttachCheck? || pc.AttachAdd? ==> Handle(pc.handle) !in holders)
    && (pc.AssignRelease? ==> Handle(pc.source) in holders)
    && (pc.AssignRelease? <==> Transit(t) in holders)
    && (Exiting(pc) ==> ExitEntry(t, pc.index) in holders)
  }

  /** What each position says about the outcome. */
  predicate Consistent(m: Memory, pc: Pc) {
    && (pc.SetStore? ==> Open(m.stored))
    && (pc.SetSignal? || pc.SetUnlock? ==> m.stored != [])
    && (pc.SetSignal? && !pc.atExit ==> m.ready)
    && ((pc.SetLock? || pc.SetCheck? || pc.SetStore? || pc.SetSignal?) && pc.atExit ==> pc.origin.Caller?)
    && (pc.SetUnlock? && !pc.origin.Caller? ==> m.ready)
    && (pc.ExitNotify? || pc.ExitUnlock? || pc.ExitRelease? ==> m.ready)
    && (pc.WaitUnlock? || pc.WaitFinish? ==> pc.kind == Timed || m.ready)
  }

  /** What the destructor of the promise and the deferred call rely on. */
  predicate Exclusive(m: Memory, pc: Pc) {
    && (Calling(pc) ==> m.promise.Alive?)
    && (Dropping(pc) ==> m.promise.Dying?)
    && (pc.DropCount? ==> Open(m.stored))
    && ((pc.SetLock? || pc.SetCheck? || pc.SetStore?) && pc.origin.Destructor? ==> Open(m.stored))
    && (pc.DropRelease? ==> m.stored != [] || !HasHandle(m))
    && (pc.Execute? || (Setting(pc) && pc.origin.Executor?) ==> m.promise.Absent?)
    && (Executing(pc) ==> !m.deferred && m.stored == [])
    && (pc.WaitLoop? || pc.Sleeping? || pc.Reacquire? ==> !m.deferred)
    && (pc.AttachAdd? ==> m.retrieved == 0)
    && (pc.AttachLock? || pc.AttachMark? ==> !m.attached && m.retrieved == 1)
    && !pc.Terminated?
  }

  predicate Shielded(m: Memory, t: Thread, pc: Pc) {
    (HoldsLock(pc) <==> m.lock == Some(t)) && Protected(m.holders, t, pc)
  }

  predicate Own(m: Memory, t: Thread, pc: Pc) {
    && Shielded(m, t, pc)
    && Consistent(m, pc)
    && Exclusive(m, pc)
  }

  /** What two different threads cannot do at the same time. */
  ghost predicate Apart(p: Pc, q: Pc) {
    && !(Dropping(p) && Dropping(q))
    && !(Attaching(p) && Attaching(q))
    && !(Executing(p) && Executing(q))
    && (forall f: Name :: Owns(p, f) ==> !Uses(q, f))
  }

  /** The thread at `pc` is about to wake the sleepers. */
  predicate Notifies(pc: Pc) {
    pc.ExitNotify? || (pc.SetSignal? && !pc.atExit)
  }

  /** The thread at `pc` is about to register the state for its exit. */
  predicate Registers(pc: Pc) {
    pc.SetSignal? && pc.atExit
  }

  /** Nobody sleeps on a ready state, but for the moment before the notification. */
  ghost predicate Announced(s: State) {
    forall u: Thread ::
      s.At(u).Sleeping? && s.m.ready ==> s.m.lock.Some? && Notifies(s.At(s.m.lock.value))
  }

  /** A stored outcome is ready, or some thread's exit will make it so, or it could not be registered. */
  ghost predicate Scheduled(s: State) {
    s.m.stored != [] ==>
      s.m.ready || HasEntry(s.m) || s.m.lost || (s.m.lock.Some? && Registers(s.At(s.m.lock.value)))
  }

  /** Once the deferred flag is gone, the deferred call is under way or has an outcome. */
  ghost predicate Carried(s: State) {
    s.m.promise.Absent? && !s.m.deferred && s.m.stored == [] ==> exists t: Thread :: Executing(s.At(t))
  }

  ghost predicate Retrieving(s: State) {
    s.m.retrieved == 1 && !s.m.attached ==> exists t: Thread :: s.At(t).AttachLock? || s.At(t).AttachMark?
  }

  /** Somebody is in the destructor of a dying promise. */
  ghost predicate Leaving(s: State) {
    s.m.promise.Dying? ==> exists t: Thread :: Dropping(s.At(t))
  }

  /** An exit list is never extended after it was emptied. */
  ghost predicate Emptied(s: State) {
    forall t: Thread, i: nat :: s.At(t).Exited? ==> ExitEntry(t, i) !in s.m.holders
  }

  ghost predicate Threads(s: State) {
    && (forall t: Thread :: Own(s.m, t, s.At(t)))
    && (forall t: Thread, u: Thread :: t != u ==> Apart(s.At(t), s.At(u)))
  }

  ghost predicate Invariant(s: State) {
    && Sound(s.m)
    && Threads(s)
    && Announced(s)
    && Scheduled(s)
    && Carried(s)
    && Retrieving(s)
    && Leaving(s)
    && Emptied(s)
  }

  // ------------------------------------------------------------------ every step keeps them

  predicate Free(m: Memory, pc: Pc, a: Action) {
    !Resting(pc) && (WantsLock(pc) ==> m.lock == None) && (pc.Execute? ==> a.Advance? && a.outcome != NULL)
  }

  predicate Fresh(m: Memory, pc: Pc) {
    pc.AttachCheck? && !m.attached ==> m.retrieved == 0
  }

  /** What a step of another thread can change. */
  predicate Frame(m: Memory, m': Memory, pc: Pc, a: Action) {
    && (m'.lock == m.lock || (m.lock == None && m'.lock == Some(a.t)) || (m.lock == Some(a.t) && m'.lock == None))
    && (m.ready ==> m'.ready)
    && (if pc.SetStore?
        then m'.stored == m.stored + [pc.outcome]
        else m'.stored == m.stored && m'.constructed == m.constructed && m'.exception == m.exception)
    && (m'.promise == m.promise || Dropping(pc) || (a.DropPromise? && m.promise.Alive?))
    && ((m'.attached == m.attached && m'.retrieved == m.retrieved) || Attaching(pc))
    && (m'.deferred ==> m.deferred)
    && (HasHandle(m') ==> HasHandle(m) || Calling(pc))
  }

  /** A step changes no reference that another thread at `q` relies on. */
  ghost predicate HoldersFrame(m: Memory, m': Memory, t: Thread, pc: Pc, q: Pc) {
    forall h: Holder :: (h in m'.holders) != (h in m.holders) ==>
      match h
      case Promise => Dropping(pc)
      case Handle(f) => !Uses(q, f)
      case ExitEntry(u, _) => u == t
      case Transit(u) => u == t
  }

  /** What a step makes its own thread do. */
  ghost predicate Class(m: Memory, pc: Pc, pc': Pc, a: Action) {
    && (Dropping(pc') ==> Dropping(pc) || a.DropPromise?)
    && (Attaching(pc') ==> Attaching(pc) || a.GetFuture?)
    && (Executing(pc') ==> Executing(pc) || m.deferred)
    && (Stores(pc', NULL) ==> Stores(pc, NULL) || (a.Set? && a.outcome == NULL))
    && (forall f: Name ::
          (Uses(pc', f) ==> Uses(pc, f) || Touches(a, f)) && (Owns(pc', f) ==> Owns(pc, f) || Seizes(a, f)))
  }

  /** What a step means for sleepers and for stored outcomes. */
  predicate Signals(m: Memory, pc: Pc, a: Action, step: Step) {
    && (step.m.ready && !m.ready ==> step.m.lock == Some(a.t) && Notifies(step.pc) && !step.notify)
    && (Notifies(pc) ==> step.notify)
    && (step.pc.Sleeping? ==> !step.m.ready)
    && (step.m.stored != m.stored ==>
          step.m.ready || (step.m.lock == Some(a.t) && Registers(step.pc)))
    && (m.lost && !step.m.lost ==> step.m.stored != m.stored)
    && (Registers(pc) ==> HasEntry(step.m) || step.m.lost)
    && (HasEntry(m) && !HasEntry(step.m) ==> m.ready)
    && (Executing(pc) ==> Executing(step.pc) || step.m.stored != [])
    && (m.deferred && !step.m.deferred ==> Executing(step.pc))
    && (step.m.retrieved == 1 && !step.m.attached ==>
          (if pc.AttachLock? || pc.AttachMark? || m.retrieved != 1
           then step.pc.AttachLock? || step.pc.AttachMark? else !m.attached))
    && (step.m.promise.Dying? && (Dropping(pc) || !m.promise.Dying?) ==> Dropping(step.pc))
    && (step.pc.Exited? ==> pc.ExitScan?)
  }

  lemma OnlyThePromise(m: Memory)
    requires |m.holders| <= 1 && Promise in m.holders
    ensures !HasHandle(m)
  {
    assert {Promise} <= m.holders && |m.holders - {Promise}| == |m.holders| - 1;
    assert m.holders - {Promise} == {};
    assert m.holders == {Promise};
  }

  lemma HandlesSet(m: Memory, t: Thread, pc: Pc, throws: bool)
    requires Setting(pc)
    ensures HasHandle(StepSet(m, t, pc, throws).m) ==> HasHandle(m)
  {
  }

  predicate KeepsOwnership(m: Memory, m': Memory) {
    m'.promise == m.promise && m'.attached == m.attached && m'.retrieved == m.retrieved && m'.deferred == m.deferred
  }

  lemma SetChanges(m: Memory, t: Thread, pc: Pc, throws: bool)
    requires Setting(pc)
    ensures var m' := StepSet(m, t, pc, throws).m;
      && KeepsOwnership(m, m') && (m.ready ==> m'.ready)
      && (if pc.SetStore?
          then m'.stored == m.stored + [pc.outcome]
          else m'.stored == m.stored && m'.constructed == m.constructed && m'.exception == m.exception)
      && (pc.SetLock? ==> m'.lock == Some(t))
      && (!pc.SetLock? ==> m'.lock == m.lock || m'.lock == None)
  {
    match pc {
      case SetLock(_, _, _) =>
      case SetCheck(_, _, _) =>
      case SetStore(_, _, _) =>
      case SetSignal(_, _) =>
      case SetUnlock(_) =>
    }
  }

  lemma FrameSet(m: Memory, pc: Pc, a: Action)
    requires Setting(pc)
    requires Own(m, a.t, pc) && Free(m, pc, a)
    ensures Frame(m, StepSet(m, a.t, pc, Throws(a)).m, pc, a)
  {
    hide StepSet, Protected, Consistent, Exclusive, HasHandle;
    HandlesSet(m, a.t, pc, Throws(a));
    SetChanges(m, a.t, pc, Throws(a));
  }

  lemma SignalsSet(m: Memory, pc: Pc, a: Action)
    requires Setting(pc)
    requires Sound(m) && Own(m, a.t, pc) && Free(m, pc, a)
    ensures Signals(m, pc, a, StepSet(m, a.t, pc, Throws(a)))
  {
    hide Protected;
  }

  lemma HoldersSet(m: Memory, pc: Pc, a: Action, q: Pc)
    requires Setting(pc)
    requires Own(m, a.t, pc) && Free(m, pc, a) && Apart(pc, q) && Permits(q, a)
    ensures HoldersFrame(m, StepSet(m, a.t, pc, Throws(a)).m, a.t, pc, q)
  {
  }

  lemma SoundSet(m: Memory, pc: Pc, a: Action)
    requires Setting(pc)
    requires Sound(m) && Own(m, a.t, pc) && Free(m, pc, a) && Fresh(m, pc)
    ensures var step := StepSet(m, a.t, pc, Throws(a)); Sound(step.m)
  {
  }

  lemma EntryProtects(holders: set<Holder>, t: Thread, index: nat, pc: Pc)
    requires Protected(holders, t, pc)
    ensures Protected(holders + {ExitEntry(t, index)}, t, pc)
  {
  }

  lemma ProtectedSet(m: Memory, pc: Pc, a: Action)
    requires Setting(pc) && Protected(m.holders, a.t, pc)
    ensures Protected(m.holders, a.t, StepSet(m, a.t, pc, Throws(a)).pc)
  {
  }

  lemma HoldersOfSet(m: Memory, t: Thread, pc: Pc, throws: bool)
    requires Setting(pc)
    ensures var m' := StepSet(m, t, pc, throws).m;
      m'.holders == m.holders || m'.holders == m.holders + {ExitEntry(t, m.entries)}
  {
    match pc {
      case SetLock(_, _, _) =>
      case SetCheck(_, _, _) =>
      case SetStore(_, _, _) =>
      case SetSignal(_, _) =>
      case SetUnlock(_) =>
    }
  }

  lemma LockSet(m: Memory, t: Thread, pc: Pc, throws: bool)
    requires Setting(pc) && (HoldsLock(pc) <==> m.lock == Some(t)) && (WantsLock(pc) ==> m.lock == None)
    ensures var step := StepSet(m, t, pc, throws); HoldsLock(step.pc) <==> step.m.lock == Some(t)
  {
    match pc {
      case SetLock(_, _, _) =>
      case SetCheck(_, _, _) =>
      case SetStore(_, _, _) =>
      case SetSignal(_, _) =>
      case SetUnlock(_) =>
    }
  }

  lemma ShieldedSet(m: Memory, pc: Pc, a: Action)
    requires Setting(pc)
    requires Shielded(m, a.t, pc) && Free(m, pc, a)
    ensures var step := StepSet(m, a.t, pc, Throws(a)); Shielded(step.m, a.t, step.pc)
  {
    hide Protected, StepSet;
    ProtectedSet(m, pc, a);
    HoldersOfSet(m, a.t, pc, Throws(a));
    LockSet(m, a.t, pc, Throws(a));
    EntryProtects(m.holders, a.t, m.entries, StepSet(m, a.t, pc, Throws(a)).pc);
  }

  lemma MeaningSet(m: Memory, pc: Pc, a: Action)
    requires Setting(pc)
    requires Sound(m) && Own(m, a.t, pc) && Free(m, pc, a) && Fresh(m, pc)
    ensures var step := StepSet(m, a.t, pc, Throws(a)); Consistent(step.m, step.pc) && Exclusive(step.m, step.pc)
  {
  }

  lemma ClassSet(m: Memory, pc: Pc, a: Action)
    requires Setting(pc)
    requires Free(m, pc, a)
    ensures Class(m, pc, StepSet(m, a.t, pc, Throws(a)).pc, a)
  {
    var pc' := StepSet(m, a.t, pc, Throws(a)).pc;
    forall f: Name
      ensures (Uses(pc', f) ==> Uses(pc, f)) && (Owns(pc', f) ==> Owns(pc, f))
    {
    }
  }

  lemma FrameWait(m: Memory, pc: Pc, a: Action)
    requires a.Advance? && Waiting(pc)
    requires Own(m, a.t, pc) && Free(m, pc, a)
    ensures Frame(m, StepWait(m, a.t, pc, a.outcome, a.expired).m, pc, a)
  {
  }

  lemma SignalsWait(m: Memory, pc: Pc, a: Action)
    requires a.Advance? && Waiting(pc)
    requires Own(m, a.t, pc) && Free(m, pc, a)
    ensures Signals(m, pc, a, StepWait(m, a.t, pc, a.outcome, a.expired))
  {
  }

  lemma HoldersWait(m: Memory, pc: Pc, a: Action, q: Pc)
    requires a.Advance? && Waiting(pc)
    requires Own(m, a.t, pc) && Free(m, pc, a) && Apart(pc, q) && Permits(q, a)
    ensures HoldersFrame(m, StepWait(m, a.t, pc, a.outcome, a.expired).m, a.t, pc, q)
  {
  }

  lemma SoundWait(m: Memory, pc: Pc, a: Action)
    requires a.Advance? && Waiting(pc)
    requires Sound(m) && Own(m, a.t, pc) && Free(m, pc, a) && Fresh(m, pc)
    ensures var step := StepWait(m, a.t, pc, a.outcome, a.expired);
      Sound(step.m)
  {
  }

  lemma ShieldedWait(m: Memory, pc: Pc, a: Action)
    requires a.Advance? && Waiting(pc)
    requires Shielded(m, a.t, pc) && Free(m, pc, a)
    ensures var step := StepWait(m, a.t, pc, a.outcome, a.expired);
      Shielded(step.m, a.t, step.pc)
  {
  }

  lemma MeaningWait(m: Memory, pc: Pc, a: Action)
    requires a.Advance? && Waiting(pc)
    requires Sound(m) && Own(m, a.t, pc) && Free(m, pc, a) && Fresh(m, pc)
    ensures var step := StepWait(m, a.t, pc, a.outcome, a.expired);
      Consistent(step.m, step.pc) && Exclusive(step.m, step.pc)
  {
  }

  lemma ClassWait(m: Memory, pc: Pc, a: Action)
    requires a.Advance? && Waiting(pc)
    requires Free(m, pc, a)
    ensures Class(m, pc, StepWait(m, a.t, pc, a.outcome, a.expired).pc, a)
  {
  }

  lemma FrameExit(m: Memory, pc: Pc, a: Action)
    requires a.Advance? && (Exiting(pc) || pc.ExitScan?)
    requires Own(m, a.t, pc) && Free(m, pc, a)
    ensures Frame(m, StepExit(m, a.t, pc, a.index).m, pc, a)
  {
  }

  lemma SignalsExit(m: Memory, pc: Pc, a: Action)
    requires a.Advance? && (Exiting(pc) || pc.ExitScan?)
    requires Own(m, a.t, pc) && Free(m, pc, a)
    ensures Signals(m, pc, a, StepExit(m, a.t, pc, a.index))
  {
  }

  lemma HoldersExit(m: Memory, pc: Pc, a: Action, q: Pc)
    requires a.Advance? && (Exiting(pc) || pc.ExitScan?)
    requires Own(m, a.t, pc) && Free(m, pc, a) && Apart(pc, q) && Permits(q, a)
    ensures HoldersFrame(m, StepExit(m, a.t, pc, a.index).m, a.t, pc, q)
  {
  }

  lemma SoundExit(m: Memory, pc: Pc, a: Action)
    requires a.Advance? && (Exiting(pc) || pc.ExitScan?)
    requires Sound(m) && Own(m, a.t, pc) && Free(m, pc, a) && Fresh(m, pc)
    ensures var step := StepExit(m, a.t, pc, a.index); Sound(step.m)
  {
  }

  lemma ShieldedExit(m: Memory, pc: Pc, a: Action)
    requires a.Advance? && (Exiting(pc) || pc.ExitScan?)
    requires Shielded(m, a.t, pc) && Free(m, pc, a)
    ensures var step := StepExit(m, a.t, pc, a.index); Shielded(step.m, a.t, step.pc)
  {
  }

  lemma MeaningExit(m: Memory, pc: Pc, a: Action)
    requires a.Advance? && (Exiting(pc) || pc.ExitScan?)
    requires Sound(m) && Own(m, a.t, pc) && Free(m, pc, a) && Fresh(m, pc)
    ensures var step := StepExit(m, a.t, pc, a.index); Consistent(step.m, step.pc) && Exclusive(step.m, step.pc)
  {
  }

  lemma ClassExit(m: Memory, pc: Pc, a: Action)
    requires a.Advance? && (Exiting(pc) || pc.ExitScan?)
    requires Free(m, pc, a)
    ensures Class(m, pc, StepExit(m, a.t, pc, a.index).pc, a)
  {
  }

  lemma FrameDrop(m: Memory, pc: Pc, a: Action)
    requires Dropping(pc) && !Setting(pc)
    requires Own(m, a.t, pc) && Free(m, pc, a)
    ensures Frame(m, StepDrop(m, a.t, pc).m, pc, a)
  {
  }

  lemma SignalsDrop(m: Memory, pc: Pc, a: Action)
    requires Dropping(pc) && !Setting(pc)
    requires Own(m, a.t, pc) && Free(m, pc, a)
    ensures Signals(m, pc, a, StepDrop(m, a.t, pc))
  {
  }

  lemma HoldersDrop(m: Memory, pc: Pc, a: Action, q: Pc)
    requires Dropping(pc) && !Setting(pc)
    requires Own(m, a.t, pc) && Free(m, pc, a) && Apart(pc, q) && Permits(q, a)
    ensures HoldersFrame(m, StepDrop(m, a.t, pc).m, a.t, pc, q)
  {
  }

  lemma SoundDrop(m: Memory, pc: Pc, a: Action)
    requires Dropping(pc) && !Setting(pc)
    requires Sound(m) && Own(m, a.t, pc) && Free(m, pc, a) && Fresh(m, pc)
    ensures var step := StepDrop(m, a.t, pc); Sound(step.m)
  {
  }

  lemma ShieldedDrop(m: Memory, pc: Pc, a: Action)
    requires Dropping(pc) && !Setting(pc)
    requires Shielded(m, a.t, pc) && Free(m, pc, a)
    ensures var step := StepDrop(m, a.t, pc); Shielded(step.m, a.t, step.pc)
  {
  }

  lemma MeaningDrop(m: Memory, pc: Pc, a: Action)
    requires Dropping(pc) && !Setting(pc)
    requires Sound(m) && Own(m, a.t, pc) && Free(m, pc, a) && Fresh(m, pc)
    ensures var step := StepDrop(m, a.t, pc); Consistent(step.m, step.pc) && Exclusive(step.m, step.pc)
  {
    if pc.DropCount? && m.owners <= 0 {
      OnlyThePromise(m);
    }
  }

  lemma ClassDrop(m: Memory, pc: Pc, a: Action)
    requires Dropping(pc) && !Setting(pc)
    requires Free(m, pc, a)
    ensures Class(m, pc, StepDrop(m, a.t, pc).pc, a)
  {
  }

  lemma AddKeeps(m: Memory, h: Holder)
    requires Counted(m) && h !in m.holders && m.holders != {} && (h.Handle? || h.Transit?)
    ensures Counted(m.Add(h))
  {
  }

  lemma ReleaseKeeps(m: Memory, h: Holder)
    requires Counted(m) && h in m.holders && !h.Promise?
    ensures Counted(m.Release(h))
  {
    assert |m.holders - {h}| == |m.holders| - 1;
  }

  lemma HandKeeps(m: Memory, x: Holder, y: Holder)
    requires Counted(m) && x in m.holders && y !in m.holders && !x.Promise? && !y.Promise? && !y.ExitEntry?
    ensures Counted(m.Hand(x, y))
  {
    assert |m.holders - {x}| == |m.holders| - 1;
    assert y in m.holders - {x} + {y};
  }

  lemma FrameAttach(m: Memory, pc: Pc, a: Action)
    requires Attaching(pc)
    requires Own(m, a.t, pc) && Free(m, pc, a)
    ensures Frame(m, StepAttach(m, a.t, pc).m, pc, a)
  {
  }

  lemma SignalsAttach(m: Memory, pc: Pc, a: Action)
    requires Attaching(pc)
    requires Own(m, a.t, pc) && Free(m, pc, a)
    ensures Signals(m, pc, a, StepAttach(m, a.t, pc))
  {
  }

  lemma HoldersAttach(m: Memory, pc: Pc, a: Action, q: Pc)
    requires Attaching(pc)
    requires Own(m, a.t, pc) && Free(m, pc, a) && Apart(pc, q) && Permits(q, a)
    ensures HoldersFrame(m, StepAttach(m, a.t, pc).m, a.t, pc, q)
  {
  }

  lemma SoundAttach(m: Memory, pc: Pc, a: Action)
    requires Attaching(pc)
    requires Sound(m) && Own(m, a.t, pc) && Free(m, pc, a) && Fresh(m, pc)
    ensures var step := StepAttach(m, a.t, pc); Sound(step.m)
  {
  }

  lemma ShieldedAttach(m: Memory, pc: Pc, a: Action)
    requires Attaching(pc)
    requires Shielded(m, a.t, pc) && Free(m, pc, a)
    ensures var step := StepAttach(m, a.t, pc); Shielded(step.m, a.t, step.pc)
  {
  }

  lemma MeaningAttach(m: Memory, pc: Pc, a: Action)
    requires Attaching(pc)
    requires Sound(m) && Own(m, a.t, pc) && Free(m, pc, a) && Fresh(m, pc)
    ensures var step := StepAttach(m, a.t, pc); Consistent(step.m, step.pc) && Exclusive(step.m, step.pc)
  {
  }

  lemma ClassAttach(m: Memory, pc: Pc, a: Action)
    requires Attaching(pc)
    requires Free(m, pc, a)
    ensures Class(m, pc, StepAttach(m, a.t, pc).pc, a)
  {
  }

  predicate SameFlags(m: Memory, m': Memory) {
    && m'.constructed == m.constructed && m'.attached == m.attached && m'.ready == m.ready
    && m'.deferred == m.deferred && m'.exception == m.exception && m'.lock == m.lock
    && m'.promise == m.promise && m'.stored == m.stored && m'.executions == m.executions
    && m'.retrieved == m.retrieved && m'.lost == m.lost
  }

  lemma AssignKeepsEntries(m: Memory, t: Thread, pc: Pc)
    requires pc.AssignRelease?
    ensures HasEntry(StepAssign(m, t, pc.target).m) <==> HasEntry(m)
  {
    var m' := StepAssign(m, t, pc.target).m;
    assert forall h: Holder :: h.ExitEntry? ==> (h in m'.holders <==> h in m.holders);
  }

  lemma AssignChanges(m: Memory, t: Thread, pc: Pc)
    requires pc.AssignRelease? && Handle(pc.source) in m.holders
    ensures var step := StepAssign(m, t, pc.target);
      step.pc.Idle? && !step.notify && SameFlags(m, step.m) && (HasEntry(step.m) <==> HasEntry(m)) && HasHandle(m)
  {
    hide HasEntry;
    AssignKeepsEntries(m, t, pc);
    assert Handle(pc.source).Handle?;
  }

  lemma FrameAssign(m: Memory, pc: Pc, a: Action)
    requires pc.AssignRelease?
    requires Own(m, a.t, pc) && Free(m, pc, a)
    ensures Frame(m, StepAssign(m, a.t, pc.target).m, pc, a)
  {
    AssignChanges(m, a.t, pc);
    hide StepAssign, Own, HasHandle;
  }

  lemma SignalsAssign(m: Memory, pc: Pc, a: Action)
    requires pc.AssignRelease?
    requires Own(m, a.t, pc) && Free(m, pc, a)
    ensures Signals(m, pc, a, StepAssign(m, a.t, pc.target))
  {
    AssignChanges(m, a.t, pc);
    hide StepAssign, Own, HasEntry, HasHandle;
  }

  lemma HoldersAssign(m: Memory, pc: Pc, a: Action, q: Pc)
    requires pc.AssignRelease?
    requires Own(m, a.t, pc) && Free(m, pc, a) && Apart(pc, q) && Permits(q, a)
    ensures HoldersFrame(m, StepAssign(m, a.t, pc.target).m, a.t, pc, q)
  {
  }

  lemma SoundAssign(m: Memory, pc: Pc, a: Action)
    requires pc.AssignRelease?
    requires Sound(m) && Own(m, a.t, pc) && Free(m, pc, a) && Fresh(m, pc)
    ensures var step := StepAssign(m, a.t, pc.target); Sound(step.m)
  {
    AssignCounts(m, a.t, pc);
    AssignChanges(m, a.t, pc);
    AssignHandles(m, a.t, pc);
    hide StepAssign, Own, HasHandle, HasEntry, Counted, Fresh;
  }

  lemma AssignCounts(m: Memory, t: Thread, pc: Pc)
    requires pc.AssignRelease? && Counted(m) && Protected(m.holders, t, pc)
    ensures Counted(StepAssign(m, t, pc.target).m)
  {
    var f, m' := pc.target, StepAssign(m, t, pc.target).m;
    if Handle(f) !in m.holders {
      HandKeeps(m, Transit(t), Handle(f));
    } else {
      assert Handle(pc.source) in m'.holders;
    }
  }

  lemma AssignHandles(m: Memory, t: Thread, pc: Pc)
    requires pc.AssignRelease? && Protected(m.holders, t, pc)
    ensures HasHandle(m) && HasHandle(StepAssign(m, t, pc.target).m)
  {
    assert Handle(pc.source).Handle?;
    assert Handle(pc.source) in StepAssign(m, t, pc.target).m.holders;
  }

  lemma ShieldedAssign(m: Memory, pc: Pc, a: Action)
    requires pc.AssignRelease?
    requires Shielded(m, a.t, pc) && Free(m, pc, a)
    ensures var step := StepAssign(m, a.t, pc.target); Shielded(step.m, a.t, step.pc)
  {
  }

  lemma MeaningAssign(m: Memory, pc: Pc, a: Action)
    requires pc.AssignRelease?
    requires Sound(m) && Own(m, a.t, pc) && Free(m, pc, a) && Fresh(m, pc)
    ensures var step := StepAssign(m, a.t, pc.target); Consistent(step.m, step.pc) && Exclusive(step.m, step.pc)
  {
  }

  lemma ClassAssign(m: Memory, pc: Pc, a: Action)
    requires pc.AssignRelease?
    requires Free(m, pc, a)
    ensures Class(m, pc, StepAssign(m, a.t, pc.target).pc, a)
  {
  }

  predicate ChangesHolders(a: Action) {
    a.DropFuture? || a.CopyFuture? || a.MoveFuture? || a.Assign?
  }

  lemma FrameStart(m: Memory, pc: Pc, a: Action)
    requires !a.Advance?
    requires Own(m, a.t, pc) && Ready(m, pc, a)
    ensures Frame(m, Take(m, pc, a).m, pc, a)
  {
  }

  lemma SignalsStart(m: Memory, pc: Pc, a: Action)
    requires !a.Advance?
    requires Own(m, a.t, pc) && Ready(m, pc, a)
    ensures Signals(m, pc, a, Take(m, pc, a))
  {
  }

  lemma HoldersStart(m: Memory, pc: Pc, a: Action, q: Pc)
    requires !a.Advance?
    requires Own(m, a.t, pc) && Ready(m, pc, a) && Apart(pc, q) && Permits(q, a)
    ensures HoldersFrame(m, Take(m, pc, a).m, a.t, pc, q)
  {
  }

  lemma CountedHandles(m: Memory, pc: Pc, a: Action)
    requires ChangesHolders(a) && Counted(m) && Protected(m.holders, a.t, pc) && Ready(m, pc, a)
    ensures Counted(Take(m, pc, a).m)
  {
    match a
    case DropFuture(_, f) => ReleaseKeeps(m, Handle(f));
    case CopyFuture(_, _, g) => AddKeeps(m, Handle(g));
    case Assign(t, _, _) => AddKeeps(m, Transit(t));
    case MoveFuture(_, f, g) => HandKeeps(m, Handle(f), Handle(g));
  }

  lemma SoundHandles(m: Memory, pc: Pc, a: Action)
    requires ChangesHolders(a)
    requires Sound(m) && Own(m, a.t, pc) && Ready(m, pc, a)
    ensures Sound(Take(m, pc, a).m)
  {
    CountedHandles(m, pc, a);
    hide Counted, Own;
    var m' := Take(m, pc, a).m;
    assert HasEntry(m') ==> HasEntry(m);
    assert HasHandle(m') ==> HasHandle(m);
    hide HasEntry, HasHandle;
  }

  lemma SoundStart(m: Memory, pc: Pc, a: Action)
    requires !a.Advance?
    requires Sound(m) && Own(m, a.t, pc) && Ready(m, pc, a) && Fresh(m, pc) && Permits(pc, a)
    ensures var step := Take(m, pc, a); Sound(step.m)
  {
    if ChangesHolders(a) {
      SoundHandles(m, pc, a);
    }
  }

  lemma ShieldedHandles(m: Memory, pc: Pc, a: Action)
    requires ChangesHolders(a)
    requires Counted(m) && Shielded(m, a.t, pc) && Ready(m, pc, a)
    ensures var step := Take(m, pc, a); Shielded(step.m, a.t, step.pc)
  {
  }

  lemma ShieldedStart(m: Memory, pc: Pc, a: Action)
    requires !a.Advance?
    requires Counted(m) && Shielded(m, a.t, pc) && Ready(m, pc, a)
    ensures var step := Take(m, pc, a); Shielded(step.m, a.t, step.pc)
  {
    if ChangesHolders(a) {
      ShieldedHandles(m, pc, a);
    }
  }

  lemma MeaningStart(m: Memory, pc: Pc, a: Action)
    requires !a.Advance?
    requires Sound(m) && Own(m, a.t, pc) && Ready(m, pc, a) && Fresh(m, pc) && Permits(pc, a)
    ensures var step := Take(m, pc, a); Consistent(step.m, step.pc) && Exclusive(step.m, step.pc)
  {
  }

  lemma ClassStart(m: Memory, pc: Pc, a: Action)
    requires !a.Advance?
    requires Ready(m, pc, a)
    ensures Class(m, pc, Take(m, pc, a).pc, a)
  {
  }

  lemma OtherStep(m: Memory, m': Memory, pc: Pc, a: Action, u: Thread, q: Pc)
    requires Sound(m) && Own(m, a.t, pc) && u != a.t && Own(m, u, q)
    requires Apart(pc, q) && Apart(q, pc) && Permits(q, a)
    requires Frame(m, m', pc, a) && HoldersFrame(m, m', a.t, pc, q)
    ensures Own(m', u, q)
  {
  }

  lemma ApartStep(m: Memory, pc: Pc, pc': Pc, a: Action, q: Pc)
    requires Apart(pc, q) && Apart(q, pc) && Permits(q, a) && Class(m, pc, pc', a)
    requires (Executing(q) ==> !m.deferred) && (Dropping(q) ==> !a.DropPromise?)
    ensures Apart(pc', q) && Apart(q, pc')
  {
  }

  lemma OwnStep(m: Memory, pc: Pc, a: Action)
    requires Sound(m) && Own(m, a.t, pc) && Ready(m, pc, a) && Fresh(m, pc) && Permits(pc, a)
    ensures var step := Take(m, pc, a); Sound(step.m) && Own(step.m, a.t, step.pc)
  {
    if !a.Advance? {
      SoundStart(m, pc, a);
    } else if Setting(pc) {
      SoundSet(m, pc, a);
    } else if Waiting(pc) {
      SoundWait(m, pc, a);
    } else if Exiting(pc) || pc.ExitScan? {
      SoundExit(m, pc, a);
    } else if Dropping(pc) {
      SoundDrop(m, pc, a);
    } else if Attaching(pc) {
      SoundAttach(m, pc, a);
    } else {
      SoundAssign(m, pc, a);
    }
    if !a.Advance? {
      ShieldedStart(m, pc, a);
    } else if Setting(pc) {
      ShieldedSet(m, pc, a);
    } else if Waiting(pc) {
      ShieldedWait(m, pc, a);
    } else if Exiting(pc) || pc.ExitScan? {
      ShieldedExit(m, pc, a);
    } else if Dropping(pc) {
      ShieldedDrop(m, pc, a);
    } else if Attaching(pc) {
      ShieldedAttach(m, pc, a);
    } else {
      ShieldedAssign(m, pc, a);
    }
    if !a.Advance? {
      MeaningStart(m, pc, a);
    } else if Setting(pc) {
      MeaningSet(m, pc, a);
    } else if Waiting(pc) {
      MeaningWait(m, pc, a);
    } else if Exiting(pc) || pc.ExitScan? {
      MeaningExit(m, pc, a);
    } else if Dropping(pc) {
      MeaningDrop(m, pc, a);
    } else if Attaching(pc) {
      MeaningAttach(m, pc, a);
    } else {
      MeaningAssign(m, pc, a);
    }
  }

  lemma FrameStep(m: Memory, pc: Pc, a: Action, q: Pc)
    requires Sound(m) && Own(m, a.t, pc) && Ready(m, pc, a) && Apart(pc, q) && Permits(q, a)
    ensures var step := Take(m, pc, a); Frame(m, step.m, pc, a) && HoldersFrame(m, step.m, a.t, pc, q)
  {
    if !a.Advance? {
      FrameStart(m, pc, a);
    } else if Setting(pc) {
      FrameSet(m, pc, a);
    } else if Waiting(pc) {
      FrameWait(m, pc, a);
    } else if Exiting(pc) || pc.ExitScan? {
      FrameExit(m, pc, a);
    } else if Dropping(pc) {
      FrameDrop(m, pc, a);
    } else if Attaching(pc) {
      FrameAttach(m, pc, a);
    } else {
      FrameAssign(m, pc, a);
    }
    if !a.Advance? {
      HoldersStart(m, pc, a, q);
    } else if Setting(pc) {
      HoldersSet(m, pc, a, q);
    } else if Waiting(pc) {
      HoldersWait(m, pc, a, q);
    } else if Exiting(pc) || pc.ExitScan? {
      HoldersExit(m, pc, a, q);
    } else if Dropping(pc) {
      HoldersDrop(m, pc, a, q);
    } else if Attaching(pc) {
      HoldersAttach(m, pc, a, q);
    } else {
      HoldersAssign(m, pc, a, q);
    }
  }

  lemma ClassStep(m: Memory, pc: Pc, a: Action)
    requires Sound(m) && Own(m, a.t, pc) && Ready(m, pc, a)
    ensures var step := Take(m, pc, a); Class(m, pc, step.pc, a) && Signals(m, pc, a, step)
  {
    if !a.Advance? {
      ClassStart(m, pc, a);
    } else if Setting(pc) {
      ClassSet(m, pc, a);
    } else if Waiting(pc) {
      ClassWait(m, pc, a);
    } else if Exiting(pc) || pc.ExitScan? {
      ClassExit(m, pc, a);
    } else if Dropping(pc) {
      ClassDrop(m, pc, a);
    } else if Attaching(pc) {
      ClassAttach(m, pc, a);
    } else {
      ClassAssign(m, pc, a);
    }
    if !a.Advance? {
      SignalsStart(m, pc, a);
    } else if Setting(pc) {
      SignalsSet(m, pc, a);
    } else if Waiting(pc) {
      SignalsWait(m, pc, a);
    } else if Exiting(pc) || pc.ExitScan? {
      SignalsExit(m, pc, a);
    } else if Dropping(pc) {
      SignalsDrop(m, pc, a);
    } else if Attaching(pc) {
      SignalsAttach(m, pc, a);
    } else {
      SignalsAssign(m, pc, a);
    }
  }

  /** A step moves its own thread; the others at most wake up. */
  lemma OthersStay(s: State, a: Action, u: Thread)
    requires u != a.t
    ensures Apply(s, a).At(u) == (if Take(s.m, s.At(a.t), a).notify then Awake(s.At(u)) else s.At(u))
  {
  }

  lemma AwakeKeeps(m: Memory, u: Thread, q: Pc, p: Pc)
    ensures Own(m, u, q) ==> Own(m, u, Awake(q))
    ensures Apart(p, q) ==> Apart(p, Awake(q))
    ensures Apart(q, p) ==> Apart(Awake(q), p)
  {
  }

  lemma IsFresh(s: State, t: Thread)
    requires Invariant(s)
    ensures Fresh(s.m, s.At(t))
  {
    if s.At(t).AttachCheck? {
      forall u: Thread
        ensures !(s.At(u).AttachLock? || s.At(u).AttachMark?)
      {
        if u != t {
          assert Apart(s.At(t), s.At(u));
        }
      }
    }
  }

  lemma ThreadsKept(s: State, a: Action)
    requires Invariant(s) && Allowed(s, a)
    ensures Sound(Apply(s, a).m) && Threads(Apply(s, a))
  {
    var s', m, pc := Apply(s, a), s.m, s.At(a.t);
    var step := Take(m, pc, a);
    IsFresh(s, a.t);
    OwnStep(m, pc, a);
    ClassStep(m, pc, a);
    forall u: Thread | u != a.t
      ensures Own(s'.m, u, s'.At(u)) && Apart(step.pc, s'.At(u)) && Apart(s'.At(u), step.pc)
    {
      var q := s.At(u);
      FrameStep(m, pc, a, q);
      OtherStep(m, step.m, pc, a, u, q);
      ApartStep(m, pc, step.pc, a, q);
      AwakeKeeps(step.m, u, q, step.pc);
      OthersStay(s, a, u);
    }
    forall u: Thread, v: Thread | u != v
      ensures Apart(s'.At(u), s'.At(v))
    {
      if u != a.t && v != a.t {
        OthersStay(s, a, u);
        OthersStay(s, a, v);
        AwakeKeeps(step.m, u, s.At(u), s.At(v));
        AwakeKeeps(step.m, v, s.At(v), s'.At(u));
      }
    }
  }

  lemma Preconditions(s: State, a: Action)
    requires Invariant(s) && Allowed(s, a)
    ensures Sound(s.m) && Own(s.m, a.t, s.At(a.t)) && Ready(s.m, s.At(a.t), a)
    ensures Apart(s.At(a.t), Idle) && Permits(Idle, a)
  {
  }

  lemma StepTaken(s: State, a: Action)
    requires Invariant(s) && Allowed(s, a)
    ensures var s', step := Apply(s, a), Take(s.m, s.At(a.t), a); s'.m == step.m && s'.At(a.t) == step.pc
  {
  }

  /** All that the remaining invariants need to know of a step. */
  lemma StepSummary(s: State, a: Action)
    requires Invariant(s) && Allowed(s, a)
    ensures var s', step := Apply(s, a), Take(s.m, s.At(a.t), a);
      && s'.m == step.m
      && s'.At(a.t) == step.pc
      && Signals(s.m, s.At(a.t), a, step)
      && Class(s.m, s.At(a.t), step.pc, a)
      && Frame(s.m, step.m, s.At(a.t), a)
      && HoldersFrame(s.m, step.m, a.t, s.At(a.t), Idle)
      && Own(s.m, a.t, s.At(a.t))
      && (forall u: Thread :: u != a.t ==> s'.At(u) == (if step.notify then Awake(s.At(u)) else s.At(u)))
  {
    hide Take, Invariant, Allowed, Sound, Own, Ready, Apart, Permits, Apply, Class, Frame, HoldersFrame, Signals;
    var m, pc := s.m, s.At(a.t);
    Preconditions(s, a);
    StepTaken(s, a);
    ClassStep(m, pc, a);
    FrameStep(m, pc, a, Idle);
    forall u: Thread | u != a.t
      ensures Apply(s, a).At(u) == (if Take(m, pc, a).notify then Awake(s.At(u)) else s.At(u))
    {
      OthersStay(s, a, u);
    }
  }

  lemma AnnouncedKept(s: State, a: Action)
    requires Invariant(s) && Allowed(s, a)
    ensures Announced(Apply(s, a))
  {
    hide Apply, Take, Sound, Class, HoldersFrame, HasEntry, Protected, Consistent, Exclusive, HasHandle;
    StepSummary(s, a);
    assert forall t: Thread :: Own(s.m, t, s.At(t));
    hide Own;
  }

  lemma ScheduledKept(s: State, a: Action)
    requires Invariant(s) && Allowed(s, a)
    ensures Scheduled(Apply(s, a))
  {
    StepSummary(s, a);
    hide Apply, Take, Own, Sound;
  }

  lemma CarriedKept(s: State, a: Action)
    requires Invariant(s) && Allowed(s, a)
    ensures Carried(Apply(s, a))
  {
    StepSummary(s, a);
    hide Apply, Take, Own, Sound;
  }

  lemma RetrievingKept(s: State, a: Action)
    requires Invariant(s) && Allowed(s, a)
    ensures Retrieving(Apply(s, a))
  {
    StepSummary(s, a);
    hide Apply, Take, Own, Sound;
  }

  lemma LeavingKept(s: State, a: Action)
    requires Invariant(s) && Allowed(s, a)
    ensures Leaving(Apply(s, a))
  {
    StepSummary(s, a);
    hide Apply, Take, Own, Sound;
  }

  lemma EmptiedKept(s: State, a: Action)
    requires Invariant(s) && Allowed(s, a)
    ensures Emptied(Apply(s, a))
  {
    StepSummary(s, a);
    hide Apply, Take, Own, Sound;
  }

  lemma StepKeepsInvariant(s: State, a: Action)
    requires Invariant(s) && Allowed(s, a)
    ensures Invariant(Apply(s, a))
  {
    ThreadsKept(s, a);
    AnnouncedKept(s, a);
    ScheduledKept(s, a);
    CarriedKept(s, a);
    RetrievingKept(s, a);
    LeavingKept(s, a);
    EmptiedKept(s, a);
  }

  lemma {:induction false} RunKeepsInvariant(s: State, run: seq<Action>)
    requires Invariant(s) && Legal(s, run)
    ensures Invariant(Run(s, run))
    decreases |run|
  {
    if run != [] {
      StepKeepsInvariant(s, run[0]);
      RunKeepsInvariant(Apply(s, run[0]), run[1..]);
    }
  }

  lemma Start(s: State)
    requires s == FROM_PROMISE || s == FROM_DEFERRED
    ensures Invariant(s)
  {
    assert forall t: Thread :: s.At(t) == Idle;
  }

  // ------------------------------------------------------------------ what holds of every interleaving

  ghost predicate Reachable(s: State) {
    exists run: seq<Action> ::
      (Legal(FROM_PROMISE, run) && s == Run(FROM_PROMISE, run)) ||
      (Legal(FROM_DEFERRED, run) && s == Run(FROM_DEFERRED, run))
  }

  lemma ReachableStatesAreSound(s: State)
    requires Reachable(s)
    ensures Invariant(s)
  {
    Start(FROM_PROMISE);
    Start(FROM_DEFERRED);
    var run: seq<Action> :|
      (Legal(FROM_PROMISE, run) && s == Run(FROM_PROMISE, run)) ||
      (Legal(FROM_DEFERRED, run) && s == Run(FROM_DEFERRED, run));
    if Legal(FROM_PROMISE, run) && s == Run(FROM_PROMISE, run) {
      RunKeepsInvariant(FROM_PROMISE, run);
    } else {
      RunKeepsInvariant(FROM_DEFERRED, run);
    }
  }

  lemma MutualExclusion(s: State, t: Thread, u: Thread)
    requires Reachable(s) && HoldsLock(s.At(t)) && HoldsLock(s.At(u))
    ensures t == u
  {
    ReachableStatesAreSound(s);
    assert Own(s.m, t, s.At(t)) && Own(s.m, u, s.At(u));
  }

  lemma StepKeepsOutcome(s: State, a: Action)
    requires Invariant(s) && Allowed(s, a)
    ensures var m := Apply(s, a).m;
      && (s.m.ready ==> m.ready)
      && (s.m.HasValue() ==> m.constructed == s.m.constructed && m.exception == s.m.exception)
      && s.m.stored <= m.stored
  {
    StepSummary(s, a);
    hide Apply, Take;
  }

  /** Ready never reverts, a non-null outcome never changes, and no store is ever undone. */
  lemma {:induction false} OutcomeIsFinal(s: State, run: seq<Action>)
    requires Invariant(s) && Legal(s, run)
    ensures var m := Run(s, run).m;
      && (s.m.ready ==> m.ready)
      && (s.m.HasValue() ==> m.constructed == s.m.constructed && m.exception == s.m.exception)
      && s.m.stored <= m.stored
    decreases |run|
  {
    if run != [] {
      StepKeepsOutcome(s, run[0]);
      StepKeepsInvariant(s, run[0]);
      OutcomeIsFinal(Apply(s, run[0]), run[1..]);
    }
  }

  /** A setter that tests the flags goes on exactly if nothing was stored, or a null exception last. */
  lemma SetterVerdict(s: State, a: Action)
    requires Reachable(s) && Allowed(s, a) && a.Advance? && s.At(a.t).SetCheck?
    ensures Apply(s, a).At(a.t).SetStore? <==> s.m.stored == [] || Last(s.m.stored) == NULL
  {
    ReachableStatesAreSound(s);
  }

  /** What a step means for outcomes that could not be registered. */
  predicate Losses(m: Memory, pc: Pc, step: Step) {
    && (step.m.lost && !m.lost ==> Registers(pc) && (HasEntry(step.m) ==> HasEntry(m)))
    && (step.m.ready && !m.ready ==> pc.SetStore? || pc.ExitMark?)
    && (HasEntry(step.m) && !HasEntry(m) ==> Registers(pc) && step.m.lost == m.lost)
    && (Registers(step.pc) ==> pc.SetStore? && step.m.ready == m.ready && (HasEntry(step.m) ==> HasEntry(m)))
    && (pc.SetStore? ==> !step.m.lost && (HasEntry(step.m) ==> HasEntry(m)))
  }

  lemma LossesSet(m: Memory, pc: Pc, a: Action)
    requires Setting(pc) && a.Advance?
    ensures Losses(m, pc, StepSet(m, a.t, pc, Throws(a)))
  {
  }

  lemma LossesWait(m: Memory, pc: Pc, a: Action)
    requires Waiting(pc) && a.Advance?
    ensures Losses(m, pc, StepWait(m, a.t, pc, a.outcome, a.expired))
  {
  }

  lemma LossesExit(m: Memory, pc: Pc, a: Action)
    requires (Exiting(pc) || pc.ExitScan?) && a.Advance?
    ensures Losses(m, pc, StepExit(m, a.t, pc, a.index))
  {
  }

  lemma LossesDrop(m: Memory, pc: Pc, a: Action)
    requires Dropping(pc) && !Setting(pc)
    ensures Losses(m, pc, StepDrop(m, a.t, pc))
  {
  }

  lemma LossesAttach(m: Memory, pc: Pc, a: Action)
    requires Attaching(pc)
    ensures Losses(m, pc, StepAttach(m, a.t, pc))
  {
  }

  lemma LossesAssign(m: Memory, pc: Pc, a: Action)
    requires pc.AssignRelease?
    ensures Losses(m, pc, StepAssign(m, a.t, pc.target))
  {
  }

  lemma LossesStart(m: Memory, pc: Pc, a: Action)
    requires Ready(m, pc, a) && !a.Advance?
    ensures Losses(m, pc, Take(m, pc, a))
  {
  }

  lemma LossesStep(m: Memory, pc: Pc, a: Action)
    requires Ready(m, pc, a)
    ensures Losses(m, pc, Take(m, pc, a))
  {
    hide StepSet, StepWait, StepExit, StepDrop, StepAttach, StepAssign, Losses;
    if !a.Advance? {
      LossesStart(m, pc, a);
    } else if Setting(pc) {
      LossesSet(m, pc, a);
    } else if Waiting(pc) {
      LossesWait(m, pc, a);
    } else if Exiting(pc) || pc.ExitScan? {
      LossesExit(m, pc, a);
    } else if Dropping(pc) {
      LossesDrop(m, pc, a);
    } else if Attaching(pc) {
      LossesAttach(m, pc, a);
    } else {
      LossesAssign(m, pc, a);
    }
  }

  /** Nobody has stored, or is going to store, a null exception; what could not be registered stays so. */
  ghost predicate NoNull(s: State) {
    && NULL !in s.m.stored
    && (forall t: Thread :: !Stores(s.At(t), NULL))
    && (s.m.lost ==> s.m.stored != [] && !s.m.ready && !HasEntry(s.m))
    && (forall t: Thread :: Registers(s.At(t)) ==> !s.m.ready && !HasEntry(s.m) && !s.m.lost)
  }

  lemma NullsKept(s: State, a: Action)
    requires Invariant(s) && NoNull(s) && Allowed(s, a) && (a.Set? ==> a.outcome != NULL)
    ensures NULL !in Apply(s, a).m.stored && forall t: Thread :: !Stores(Apply(s, a).At(t), NULL)
  {
    StepSummary(s, a);
    hide Apply, Take, Own, Sound, HasEntry;
  }

  lemma LossKept(s: State, a: Action)
    requires Invariant(s) && NoNull(s) && Allowed(s, a)
    ensures var m := Apply(s, a).m; m.lost ==> m.stored != [] && !m.ready && !HasEntry(m)
  {
    StepSummary(s, a);
    Preconditions(s, a);
    LossesStep(s.m, s.At(a.t), a);
    hide Apply, Take, HasEntry, Invariant, Allowed, Ready, Permits, Apart;
  }

  lemma RegisteringKept(s: State, a: Action, t: Thread)
    requires Invariant(s) && NoNull(s) && Allowed(s, a) && Registers(Apply(s, a).At(t))
    ensures var m := Apply(s, a).m; !m.ready && !HasEntry(m) && !m.lost
  {
    StepSummary(s, a);
    Preconditions(s, a);
    LossesStep(s.m, s.At(a.t), a);
    assert Own(s.m, t, s.At(t));
    hide Apply, Take, HasEntry, Invariant, Allowed, Ready, Permits, Apart;
  }

  lemma StepKeepsNoNull(s: State, a: Action)
    requires Invariant(s) && NoNull(s) && Allowed(s, a) && (a.Set? ==> a.outcome != NULL)
    ensures NoNull(Apply(s, a))
  {
    hide Apply, Invariant, Allowed, HasEntry;
    NullsKept(s, a);
    LossKept(s, a);
    forall t: Thread | Registers(Apply(s, a).At(t))
      ensures var m := Apply(s, a).m; !m.ready && !HasEntry(m) && !m.lost
    {
      RegisteringKept(s, a, t);
    }
  }

  lemma {:induction false} RunKeepsNoNull(s: State, run: seq<Action>)
    requires Invariant(s) && NoNull(s) && Legal(s, run)
    requires forall a <- run :: a.Set? ==> a.outcome != NULL
    ensures Invariant(Run(s, run)) && NoNull(Run(s, run))
    decreases |run|
  {
    if run != [] {
      assert run[0] in run;
      StepKeepsNoNull(s, run[0]);
      StepKeepsInvariant(s, run[0]);
      RunKeepsNoNull(Apply(s, run[0]), run[1..]);
    }
  }

  /** Given non-null exceptions, a state gets at most one outcome, and ready means it has one. */
  lemma AtMostOneOutcome(start: State, run: seq<Action>)
    requires (start == FROM_PROMISE || start == FROM_DEFERRED) && Legal(start, run)
    requires forall a <- run :: a.Set? ==> a.outcome != NULL
    ensures var m := Run(start, run).m;
      |m.stored| <= 1 && (m.ready ==> m.HasValue()) && (m.HasValue() <==> |m.stored| == 1)
  {
    Start(start);
    RunKeepsNoNull(start, run);
    var m := Run(start, run).m;
    if |m.stored| > 0 {
      assert m.stored[0] in m.stored && Last(m.stored) in m.stored;
    }
  }

  /** Somebody's exit is still to make the state ready. */
  ghost predicate Pending(s: State) {
    exists t: Thread, i: nat :: ExitEntry(t, i) in s.m.holders && !s.At(t).Exited?
  }

  lemma EntriesArePending(s: State)
    requires Invariant(s)
    ensures Pending(s) <==> HasEntry(s.m)
  {
    if h :| h in s.m.holders && h.ExitEntry? {
      assert ExitEntry(h.thread, h.index) in s.m.holders;
    }
  }

  /** When nobody is inside the critical section, a stored outcome is ready, pending or lost. */
  lemma NothingBetween(s: State)
    requires Invariant(s) && s.m.stored != [] && (s.m.lock.Some? ==> !Registers(s.At(s.m.lock.value)))
    ensures s.m.ready || Pending(s) || s.m.lost
  {
    EntriesArePending(s);
  }

  /**
    Once the promise is gone, every future that still refers to the state finds an outcome that is
    ready, or that the exit of a thread still running will make ready, or whose registration for an
    exit has failed.
    */
  lemma NoBrokenFuture(s: State, f: Name)
    requires Reachable(s) && s.m.promise.Gone? && Handle(f) in s.m.holders
    ensures s.m.stored != []
    ensures s.m.ready || Pending(s) || s.m.lost
  {
    ReachableStatesAreSound(s);
    if s.m.lock.Some? {
      assert Own(s.m, s.m.lock.value, s.At(s.m.lock.value));
    }
    NothingBetween(s);
  }

  /** Given non-null exceptions, its future is broken if and only if the registration failed. */
  lemma BrokenExactly(start: State, run: seq<Action>, f: Name)
    requires (start == FROM_PROMISE || start == FROM_DEFERRED) && Legal(start, run)
    requires forall a <- run :: a.Set? ==> a.outcome != NULL
    requires var s := Run(start, run); s.m.promise.Gone? && Handle(f) in s.m.holders
    ensures var s := Run(start, run); s.m.ready || Pending(s) <==> !s.m.lost
  {
    var s := Run(start, run);
    Start(start);
    RunKeepsNoNull(start, run);
    EntriesArePending(s);
    if s.m.lock.Some? {
      assert Own(s.m, s.m.lock.value, s.At(s.m.lock.value));
    }
    NothingBetween(s);
  }

  /** And then it stays so, whatever happens. */
  lemma {:induction false} LostForGood(s: State, run: seq<Action>)
    requires Invariant(s) && NoNull(s) && s.m.lost && Legal(s, run)
    requires forall a <- run :: a.Set? ==> a.outcome != NULL
    ensures var s' := Run(s, run); s'.m.lost && !s'.m.ready && !Pending(s')
    decreases |run|
  {
    if run == [] {
      EntriesArePending(s);
    } else {
      assert run[0] in run;
      StepKeepsLoss(s, run[0]);
      StepKeepsNoNull(s, run[0]);
      StepKeepsInvariant(s, run[0]);
      LostForGood(Apply(s, run[0]), run[1..]);
    }
  }

  lemma StepKeepsLoss(s: State, a: Action)
    requires Invariant(s) && NoNull(s) && s.m.lost && Allowed(s, a)
    ensures Apply(s, a).m.lost
  {
    StepSummary(s, a);
    assert Last(s.m.stored) in s.m.stored;
    hide Apply, Take, HasEntry, Allowed, Sound;
  }

  /** Nobody sleeps on a ready state, unless the thread inside the critical section is about to notify. */
  lemma NoLostWakeup(s: State, u: Thread)
    requires Reachable(s) && s.m.ready && s.At(u).Sleeping?
    ensures s.m.lock.Some? && Notifies(s.At(s.m.lock.value))
  {
    ReachableStatesAreSound(s);
  }

  /** The thread that holds the mutex can move; when it is free, every thread that has work can. */
  lemma NoDeadlock(s: State, t: Thread)
    requires Reachable(s) && !Resting(s.At(t)) && (s.m.lock.Some? ==> s.m.lock == Some(t))
    ensures exists a: Action :: a.Advance? && a.t == t && Allowed(s, a)
  {
    ReachableStatesAreSound(s);
    assert Own(s.m, t, s.At(t));
    var k: nat := if i: nat :| ExitEntry(t, i) in s.m.holders then i else 0;
    assert Allowed(s, Advance(t, Value, false, k, false));
  }

  /**
    When every thread rests and one still sleeps, the state is not ready, and it is the promise, or
    the exit of a thread that has not exited, that has yet to make it so, or a registration failed.
    */
  lemma NoStrandedWaiter(s: State, u: Thread)
    requires Reachable(s) && (forall t: Thread :: Resting(s.At(t))) && s.At(u).Sleeping?
    ensures !s.m.ready
    ensures s.m.promise.Alive? || Pending(s) || s.m.lost
  {
    ReachableStatesAreSound(s);
    RestingMeansFree(s);
    assert Own(s.m, u, s.At(u));
    if !s.m.promise.Alive? {
      assert s.m.stored != [];
      NothingBetween(s);
    }
  }

  lemma RestingMeansFree(s: State)
    requires Invariant(s) && forall t: Thread :: Resting(s.At(t))
    ensures s.m.lock == None
  {
    match s.m.lock {
      case None =>
      case Some(t) => HolderHolds(s, t);
    }
  }

  lemma HolderHolds(s: State, t: Thread)
    requires Invariant(s) && s.m.lock == Some(t)
    ensures HoldsLock(s.At(t))
  {
    assert Own(s.m, t, s.At(t));
  }

  /** Given non-null exceptions, it waits for good exactly if an outcome was stored and none is pending. */
  lemma StrandedExactly(start: State, run: seq<Action>, u: Thread)
    requires (start == FROM_PROMISE || start == FROM_DEFERRED) && Legal(start, run)
    requires forall a <- run :: a.Set? ==> a.outcome != NULL
    requires var s := Run(start, run); (forall t: Thread :: Resting(s.At(t))) && s.At(u).Sleeping?
    ensures var s := Run(start, run); s.m.lost <==> s.m.stored != [] && !Pending(s)
  {
    var s := Run(start, run);
    Start(start);
    RunKeepsNoNull(start, run);
    EntriesArePending(s);
    RestingMeansFree(s);
    assert Own(s.m, u, s.At(u)) && Announced(s);
    if s.m.stored != [] {
      NothingBetween(s);
    }
  }

  /** However many threads wait, the deferred function is entered at most once. */
  lemma DeferredAtMostOnce(s: State, t: Thread, u: Thread)
    requires Reachable(s)
    ensures s.m.executions <= 1
    ensures Executing(s.At(t)) && Executing(s.At(u)) ==> t == u
    ensures Executing(s.At(t)) ==> s.m.executions == 1 && !s.m.deferred && s.m.stored == []
  {
    ReachableStatesAreSound(s);
    assert Own(s.m, t, s.At(t));
    if t != u {
      assert Apart(s.At(t), s.At(u));
    }
  }

  /** Every waiter without a deadline returns from a ready state, after an outcome was stored. */
  lemma WaiterSeesReady(s: State, t: Thread)
    requires Reachable(s) && (s.At(t).WaitUnlock? || s.At(t).WaitFinish?) && s.At(t).kind != Timed
    ensures s.m.ready && s.m.stored != []
  {
    ReachableStatesAreSound(s);
    assert Own(s.m, t, s.At(t));
  }

  /** No exception leaves the destructor of the promise, nor the deferred call. */
  lemma NothingTerminates(s: State, t: Thread)
    requires Reachable(s)
    ensures !s.At(t).Terminated?
  {
    ReachableStatesAreSound(s);
    assert Own(s.m, t, s.At(t));
  }

  /** One future is handed out; when `get_future` has marked the state, a further call throws. */
  lemma FutureRetrievedOnce(s: State)
    requires Reachable(s)
    ensures s.m.retrieved <= 1
    ensures s.m.attached ==> s.m.retrieved == 1
  {
    ReachableStatesAreSound(s);
  }

  /** The count is that of the owning pointers, and the state is deleted exactly when none is left. */
  lemma CountIsExact(s: State)
    requires Reachable(s)
    ensures s.m.owners == |s.m.holders| - 1
    ensures s.m.deleted <==> s.m.holders == {}
    ensures s.m.deleted ==> s.m.lock == None
  {
    ReachableStatesAreSound(s);
    if s.m.lock.Some? {
      assert Own(s.m, s.m.lock.value, s.At(s.m.lock.value));
    }
  }

  /** A thread inside an operation keeps the state alive. */
  lemma NoUseAfterDelete(s: State, t: Thread)
    requires Reachable(s) && s.m.deleted
    ensures s.At(t).Idle? || s.At(t).ExitScan? || s.At(t).Exited?
  {
    ReachableStatesAreSound(s);
    assert Own(s.m, t, s.At(t));
  }

  /** Nothing happens to a deleted state any more; in particular it is not deleted twice. */
  lemma DeletedForGood(s: State, a: Action)
    requires Reachable(s) && s.m.deleted && Allowed(s, a)
    ensures Apply(s, a).m == s.m
  {
    NoUseAfterDelete(s, a.t);
    ReachableStatesAreSound(s);
  }

  lemma AssignmentSteps(s: State, t: Thread, f: Name, g: Name)
    requires Allowed(s, Assign(t, f, g))
    ensures var s' := Apply(s, Assign(t, f, g));
      && s'.m == s.m.Add(Transit(t))
      && Allowed(s', Advance(t, Value, false, 0, false))
      && Apply(s', Advance(t, Value, false, 0, false)).m == StepAssign(s'.m, t, f).m
  {
    var s' := Apply(s, Assign(t, f, g));
    assert s'.At(t) == AssignRelease(f, g);
  }

  /** Assigning a future of this state adds the target to the owners, if it was not one; also to itself. */
  lemma AssignmentCounts(s: State, t: Thread, f: Name, g: Name)
    requires Reachable(s) && Allowed(s, Assign(t, f, g))
    ensures var s' := Apply(s, Assign(t, f, g));
      && Allowed(s', Advance(t, Value, false, 0, false))
      && var m := Apply(s', Advance(t, Value, false, 0, false)).m;
         && m.holders == s.m.holders + {Handle(f)}
         && m.owners == s.m.owners + (if Handle(f) in s.m.holders then 0 else 1)
         && !s'.m.deleted
         && !m.deleted
         && (f == g ==> m == s.m)
  {
    ReachableStatesAreSound(s);
    AssignmentSteps(s, t, f, g);
    assert Own(s.m, t, s.At(t));
    assert Transit(t) !in s.m.holders && Handle(g) in s.m.holders;
    hide Allowed, Apply, Invariant, Sound, Own;
    assert s.m.holders + {Transit(t)} - {Transit(t)} == s.m.holders;
  }
}
