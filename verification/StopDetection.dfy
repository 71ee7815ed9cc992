/**
  When the tasks of a program have come to a stop.

  A task counts in the `live` counter of its owner's group from its spawn to its end, in
  `parking` from when it is on its way into a wait until that wait has ended, and stands in
  the registry of parked tasks while it waits. What can end a wait from outside counts in
  `external`. Whoever may have completed a stop runs `check`, which reads those counters one
  after the other and tells the program's own thread "deadlocked" or "settled".

  One step of the machine is one atomic operation, or one region under the registry's lock.
  The registry's lock is held by a check for the whole of its exact look: no step of another
  thread that parks or wakes is possible then, but every other step is.
 */
module StopDetection {
  import opened Basics
  import opened Counting

  /** The two groups a check counts: the owner's own, and the outer one that is there besides. */
  datatype Side = Own | Outer

  datatype Phase =
    | Running                   // in a slice, or on the run queue
    | Entering                  // counted in `parking`, not in the registry
    | Waiting(timed: bool)      // in the registry; `timed`: the wait ends by itself
    | Woken(goesOn: bool)       // off the registry, still counted in `parking`
    | Ending                    // its last operation has returned, still counted in `live`
    | Ended

  datatype Task = Task(side: Side, phase: Phase)

  type TaskId = nat

  /** The program's own thread, as the task that it is while its code runs. */
  const MAIN: TaskId := 0

  /** The counters are plain integers here: that none goes below zero is proved. */
  datatype Group = Group(live: int, external: int, parking: int)

  datatype MainWaits = Blocked(wait: nat) | Settling(wait: nat)

  /** Where the program's own thread is. */
  datatype Pc =
    | Code                      // in the program's code, or outside of it with nothing registered
    | Blocking(wait: nat)       // `main` is set, the wait not begun
    | InWait(wait: nat)         // from the wait's beginning until `main` is cleared
    | InSettle(wait: nat)       // `main` is set, for the end of the program

  /** What a check has read so far, in the order it reads. */
  datatype Check =
    | Begin(side: Side)
    | SawParking(side: Side, parking: int)
    | Parked(side: Side)
    | SawMain(side: Side, main: MainWaits)
    | Looking(main: MainWaits)
    | Inspect0(main: MainWaits, waiting: int, timed: bool, mine: bool)
    | Inspect1(main: MainWaits, waiting: int, timed: bool, mine: bool, live: int)
    | Inspect2(main: MainWaits, mine: bool)
    | Inspect3(main: MainWaits, mine: bool, external: int)
    | Telling(main: MainWaits)
    | Cancelling(wait: nat)

  datatype State = State(
    tasks: map<TaskId, Task>,
    own: Group,
    outer: Group,
    main: Option<MainWaits>,
    pc: Pc,
    nextWait: nat,
    settled: set<nat>,          // the waits for the program's end that were told
    deadlock: Option<nat>,      // the verdict between the check and the program's thread
    checks: map<nat, Check>,
    lock: Option<nat>)          // the check that holds the registry

  datatype Waker = ByTask(task: TaskId) | ByExternal(side: Side) | ByTimer

  /** Tasks and externals that come and go. */
  datatype LifeStep =
    | Spawn(parent: TaskId, task: TaskId, side: Side)
    | StartExternal(task: TaskId)
    | EndExternal(side: Side, check: nat)
    | HandOver(side: Side, task: TaskId)
    | Finish(task: TaskId)
    | End(task: TaskId, check: nat)

  /** A task goes into a wait and comes out of it. */
  datatype WaitStep =
    | ParkBegin(task: TaskId)
    | ParkOver(task: TaskId, goesOn: bool)
    | ParkCommit(task: TaskId, timed: bool, check: nat)
    | Wake(task: TaskId, waker: Waker, goesOn: bool)
    | Ready(task: TaskId)

  /** The program's own thread, beside what it does as a task. */
  datatype MainStep =
    | Enter
    | Register
    | Unregister
    | Settle(check: nat)
    | Unsettle

  datatype Action =
    | Life(life: LifeStep)
    | Wait(step: WaitStep)
    | Main(main: MainStep)
    | CheckAgain(side: Side, check: nat)
    | CheckStep(check: nat)

  // ---------------------------------------------------------------- the machine

  function GroupOf(s: State, side: Side): Group {
    if side.Own? then s.own else s.outer
  }

  function Other(side: Side): Side {
    if side.Own? then Outer else Own
  }

  function Adjust(s: State, side: Side, live: int, external: int, parking: int): State {
    var g := GroupOf(s, side);
    var g' := Group(g.live + live, g.external + external, g.parking + parking);
    if side.Own? then s.(own := g') else s.(outer := g')
  }

  function Become(s: State, t: TaskId, phase: Phase): State
    requires t in s.tasks
  {
    s.(tasks := s.tasks[t := s.tasks[t].(phase := phase)])
  }

  function Drop(s: State, c: nat): State {
    s.(checks := s.checks - {c})
  }

  function Put(s: State, c: nat, k: Check): State {
    s.(checks := s.checks[c := k])
  }

  /** Silt code of `t` can take a step of its own. */
  predicate Runs(s: State, t: TaskId) {
    t in s.tasks && s.tasks[t].phase.Running? && (t == MAIN ==> s.pc.Code?)
  }

  ghost predicate IsWaiting(s: State, t: TaskId) {
    t in s.tasks && s.tasks[t].phase.Waiting?
  }

  ghost function InRegistry(): Task -> bool {
    (task: Task) => task.phase.Waiting?
  }

  ghost function LiveIn(side: Side): Task -> bool {
    (task: Task) => task.side == side && !task.phase.Ended?
  }

  ghost function ParkingIn(side: Side): Task -> bool {
    (task: Task) => task.side == side && (task.phase.Entering? || task.phase.Waiting? || task.phase.Woken?)
  }

  ghost function WaitingIn(side: Side): Task -> bool {
    (task: Task) => task.side == side && task.phase.Waiting?
  }

  ghost predicate SomeTimed(s: State) {
    exists t :: t in s.tasks && s.tasks[t].phase == Waiting(true)
  }

  predicate WakerCan(s: State, t: TaskId, w: Waker)
    requires t in s.tasks
  {
    match w
    case ByTask(u) => Runs(s, u)
    case ByExternal(side) => GroupOf(s, side).external > 0
    case ByTimer => s.tasks[t].phase == Waiting(true)
  }

  predicate LifeEnabled(s: State, a: LifeStep) {
    match a
    // A task spawns tasks of its own owner; the program's thread those of both groups.
    case Spawn(u, t, side) => Runs(s, u) && t !in s.tasks && (u != MAIN ==> s.tasks[u].side == side)
    case StartExternal(t) => Runs(s, t)
    case EndExternal(side, c) => GroupOf(s, side).external > 0 && c !in s.checks
    // A thread that holds an `External` begins to count as a task (`Scheduler::enter`).
    case HandOver(side, t) => GroupOf(s, side).external > 0 && t !in s.tasks
    case Finish(t) => Runs(s, t)
    case End(t, c) => t in s.tasks && s.tasks[t].phase.Ending? && c !in s.checks
  }

  function ApplyLife(s: State, a: LifeStep): State
    requires LifeEnabled(s, a)
  {
    match a
    case Spawn(u, t, side) => Adjust(s, side, 1, 0, 0).(tasks := s.tasks[t := Task(side, Running)])
    case StartExternal(t) => Adjust(s, s.tasks[t].side, 0, 1, 0)
    case EndExternal(side, c) => Put(Adjust(s, side, 0, -1, 0), c, Begin(side))
    case HandOver(side, t) => Adjust(s, Own, 1, 0, 0).(tasks := s.tasks[t := Task(Own, Running)])
    case Finish(t) => Become(s, t, Ending)
    case End(t, c) => Put(Become(Adjust(s, s.tasks[t].side, -1, 0, 0), t, Ended), c, Begin(s.tasks[t].side))
  }

  predicate WaitEnabled(s: State, a: WaitStep) {
    a.task in s.tasks &&
    var phase := s.tasks[a.task].phase;
    match a
    case ParkBegin(t) => phase.Running? && (t == MAIN ==> s.pc.Blocking?)
    case ParkOver(t, goesOn) => phase.Entering? && (t == MAIN ==> goesOn)
    case ParkCommit(t, timed, c) => phase.Entering? && s.lock.None? && c !in s.checks
    case Wake(t, w, goesOn) => phase.Waiting? && s.lock.None? && WakerCan(s, t, w) && (t == MAIN ==> goesOn)
    case Ready(t) => phase.Woken?
  }

  function ApplyWait(s: State, a: WaitStep): State
    requires WaitEnabled(s, a)
  {
    var side := s.tasks[a.task].side;
    match a
    case ParkBegin(t) =>
      var s' := Become(Adjust(s, side, 0, 0, 1), t, Entering);
      if t == MAIN then s'.(pc := InWait(s.pc.wait)) else s'
    case ParkOver(t, goesOn) => Become(Adjust(s, side, 0, 0, -1), t, if goesOn then Running else Ending)
    case ParkCommit(t, timed, c) => Put(Become(s, t, Waiting(timed)), c, Begin(side))
    case Wake(t, w, goesOn) => Become(s, t, Woken(goesOn))
    case Ready(t) => Become(Adjust(s, side, 0, 0, -1), t, if s.tasks[t].phase.goesOn then Running else Ending)
  }

  predicate MainEnabled(s: State, a: MainStep) {
    MAIN in s.tasks &&
    var phase := s.tasks[MAIN].phase;
    match a
    case Enter => phase.Ended? && s.pc.Code?
    case Register => phase.Running? && s.pc.Code?
    case Unregister => phase.Running? && s.pc.InWait?
    case Settle(c) => phase.Ended? && s.pc.Code? && c !in s.checks
    case Unsettle => s.pc.InSettle? && s.pc.wait in s.settled
  }

  function ApplyMain(s: State, a: MainStep): State
    requires MainEnabled(s, a)
  {
    match a
    case Enter => Become(Adjust(s, Own, 1, 0, 0), MAIN, Running)
    case Register => s.(main := Some(Blocked(s.nextWait)), pc := Blocking(s.nextWait), nextWait := s.nextWait + 1)
    case Unregister => s.(main := None, pc := Code, deadlock := None)
    case Settle(c) =>
      Put(s.(main := Some(Settling(s.nextWait)), pc := InSettle(s.nextWait), nextWait := s.nextWait + 1), c, Begin(Own))
    case Unsettle => s.(main := None, pc := Code)
  }

  predicate CheckEnabled(s: State, c: nat) {
    c in s.checks && (s.checks[c].Looking? || s.checks[c].Cancelling? ==> s.lock.None?)
  }

  predicate Enabled(s: State, a: Action) {
    match a
    case Life(l) => LifeEnabled(s, l)
    case Wait(w) => WaitEnabled(s, w)
    case Main(m) => MainEnabled(s, m)
    case CheckAgain(_, c) => c !in s.checks
    case CheckStep(c) => CheckEnabled(s, c)
  }

  ghost function Apply(s: State, a: Action): State
    requires Enabled(s, a)
  {
    match a
    case Life(l) => ApplyLife(s, l)
    case Wait(w) => ApplyWait(s, w)
    case Main(m) => ApplyMain(s, m)
    case CheckAgain(side, c) => Put(s, c, Begin(side))
    case CheckStep(c) => StepCheck(s, c, s.checks[c])
  }

  /** One read, or one act, of `check`. */
  ghost function StepCheck(s: State, c: nat, k: Check): State {
    match k
    case Begin(side) => Put(s, c, SawParking(side, GroupOf(s, side).parking))
    case SawParking(side, parking) =>
      if parking < GroupOf(s, side).live then Drop(s, c) else Put(s, c, Parked(side))
    case Parked(side) =>
      if s.main.None? then Drop(s, c) else Put(s, c, SawMain(side, s.main.value))
    case SawMain(side, main) =>
      if GroupOf(s, side).external > 0 then Drop(s, c) else Put(s, c, Looking(main))
    case Looking(main) =>
      var mine := s.pc.InWait? && s.pc.wait == main.wait && IsWaiting(s, MAIN);
      Put(s, c, Inspect0(main, Count(s.tasks, InRegistry()), SomeTimed(s), mine)).(lock := Some(c))
    case Inspect0(main, waiting, timed, mine) =>
      Put(s, c, Inspect1(main, waiting, timed, mine, s.own.live))
    case Inspect1(main, waiting, timed, mine, live) =>
      if waiting != live + s.outer.live || timed then Drop(s, c).(lock := None)
      else Put(s, c, Inspect2(main, mine))
    case Inspect2(main, mine) => Put(s, c, Inspect3(main, mine, s.own.external))
    case Inspect3(main, mine, external) =>
      // `Blocked` and not `mine`: that wait is over, or has not begun.
      if external + s.outer.external != 0 || (main.Blocked? && !mine) then Drop(s, c).(lock := None)
      else Put(s, c, Telling(main)).(lock := None)
    case Telling(main) =>
      (match main
       case Settling(w) => Drop(s, c).(settled := s.settled + {w})
       case Blocked(w) => Put(s, c, Cancelling(w)).(deadlock := Some(w)))
    case Cancelling(w) =>
      // `cancel` finds the wait by its name, under the registry's lock.
      if Cancels(s, w) then Become(Drop(s, c), MAIN, Woken(true)) else Drop(s, c)
  }

  /** The wait named `w` of the program's thread is in the registry. */
  ghost predicate Cancels(s: State, w: nat) {
    s.pc == InWait(w) && IsWaiting(s, MAIN)
  }

  // ---------------------------------------------------------------- runs

  ghost predicate Init(s: State) {
    && s.tasks == map[MAIN := Task(Own, Running)]
    && s.own == Group(1, 0, 0)
    && s.outer == Group(0, 0, 0)
    && s.main.None? && s.pc.Code? && s.nextWait == 0 && s.settled == {} && s.deadlock.None?
    && s.checks == map[] && s.lock.None?
  }

  /**
    A thread exchanges an `External` for a count as a task only where no look at the registry has
    read a `live` counter without it and can still read every `external` one without it.
   */
  ghost predicate Quiet(s: State, a: Action) {
    a.Life? && a.life.HandOver? && s.lock.Some? && s.lock.value in s.checks ==> !OpenLook(s, s.checks[s.lock.value])
  }

  ghost predicate Run(states: seq<State>, actions: seq<Action>) {
    && |states| == |actions| + 1
    && Init(states[0])
    && forall i :: 0 <= i < |actions| ==>
         Enabled(states[i], actions[i]) && states[i + 1] == Apply(states[i], actions[i])
  }

  ghost predicate QuietRun(states: seq<State>, actions: seq<Action>) {
    Run(states, actions) && forall i :: 0 <= i < |actions| ==> Quiet(states[i], actions[i])
  }

  // ---------------------------------------------------------------- what is to be detected

  /** A task that is at rest: it has ended, or waits for what only another task can do. */
  predicate AtRest(task: Task) {
    task.phase.Ended? || task.phase == Waiting(false)
  }

  /** The tasks of both groups have come to a stop. */
  ghost predicate Stopped(s: State) {
    && (forall t :: t in s.tasks ==> AtRest(s.tasks[t]))
    && s.own.external == 0 && s.outer.external == 0
  }

  /** The program's own thread waits, and was not told. */
  ghost predicate MainWaiting(s: State) {
    match s.main
    case None => false
    case Some(Settling(w)) => w !in s.settled
    case Some(Blocked(w)) => IsWaiting(s, MAIN)
  }

  // ---------------------------------------------------------------- the invariant

  /** The counters count what they are meant to count. */
  ghost predicate Counts(s: State) {
    && (forall side :: GroupOf(s, side).live == Count(s.tasks, LiveIn(side)))
    && (forall side :: GroupOf(s, side).parking == Count(s.tasks, ParkingIn(side)))
    && s.own.external >= 0 && s.outer.external >= 0
  }

  ghost predicate MainAgrees(s: State) {
    && MAIN in s.tasks && s.tasks[MAIN].side.Own?
    && (forall w :: w in s.settled ==> w < s.nextWait)
    && var phase := s.tasks[MAIN].phase;
       match s.pc
       case Code => s.main.None? && (phase.Running? || phase.Ending? || phase.Ended?)
       case Blocking(w) => s.main == Some(Blocked(w)) && w < s.nextWait && phase.Running?
       case InWait(w) =>
         s.main == Some(Blocked(w)) && w < s.nextWait &&
         (phase.Entering? || phase.Waiting? || phase == Woken(true) || phase.Running?)
       case InSettle(w) => s.main == Some(Settling(w)) && w < s.nextWait && phase.Ended?
  }

  ghost predicate Inspects(k: Check) {
    k.Inspect0? || k.Inspect1? || k.Inspect2? || k.Inspect3?
  }

  ghost predicate LockAgrees(s: State) {
    && (s.lock.Some? ==> s.lock.value in s.checks && Inspects(s.checks[s.lock.value]))
    && (forall c :: c in s.checks && Inspects(s.checks[c]) ==> s.lock == Some(c))
  }

  /** The wait that a check was made for is still the program's thread's, and untold. */
  ghost predicate Current(s: State, main: MainWaits) {
    s.main == Some(main) && (main.Settling? ==> main.wait !in s.settled)
  }

  /** Every task of `side` is in the registry or has ended. */
  ghost predicate AllWait(s: State, side: Side) {
    forall t :: t in s.tasks && s.tasks[t].side == side ==> s.tasks[t].phase.Ended? || s.tasks[t].phase.Waiting?
  }

  /** A wait of the program's thread that a check was right about lasts as long as the stop does. */
  ghost predicate VerdictHolds(s: State, main: MainWaits) {
    s.main == Some(main) ==>
      && (MainWaiting(s) ==> Stopped(s))
      && (main.Blocked? ==> MAIN in s.tasks && s.pc.InWait? && !s.tasks[MAIN].phase.Entering?)
  }

  /** The look is about a wait that lasts, and one of the program's code has been found in the registry. */
  ghost predicate Sought(s: State, main: MainWaits, mine: bool) {
    Current(s, main) && (main.Blocked? ==> mine)
  }

  /** All that the look has read so far speaks for a stop, and `external` is not all read. */
  ghost predicate OpenLook(s: State, k: Check) {
    match k
    case Inspect1(main, _, timed, mine, live) =>
      Sought(s, main, mine) && !timed && live == Count(s.tasks, WaitingIn(Own))
    case Inspect2(main, mine) => Sought(s, main, mine)
    case Inspect3(main, mine, external) => Sought(s, main, mine) && external == 0
    case _ => false
  }

  /** What the reads of a check are worth, while the wait it was made for lasts. */
  ghost predicate ReadsHold(s: State, k: Check) {
    match k
    case Inspect0(main, waiting, timed, mine) =>
      && waiting == Count(s.tasks, InRegistry()) && timed == SomeTimed(s)
      && (mine && Current(s, main) ==> IsWaiting(s, MAIN))
    case Inspect1(main, waiting, timed, mine, live) =>
      && waiting == Count(s.tasks, InRegistry()) && timed == SomeTimed(s)
      && (mine && Current(s, main) ==> IsWaiting(s, MAIN))
      && live >= Count(s.tasks, WaitingIn(Own))
      && (OpenLook(s, k) ==> AllWait(s, Own))
    case Inspect2(main, mine) =>
      && !SomeTimed(s)
      && (mine && Current(s, main) ==> IsWaiting(s, MAIN))
      && (OpenLook(s, k) ==> AllWait(s, Own) && AllWait(s, Outer))
    case Inspect3(main, mine, external) =>
      && !SomeTimed(s)
      && external >= 0
      && (mine && Current(s, main) ==> IsWaiting(s, MAIN))
      && (OpenLook(s, k) ==> AllWait(s, Own) && AllWait(s, Outer) && s.own.external == 0)
    case Telling(main) => VerdictHolds(s, main)
    case Cancelling(w) => VerdictHolds(s, Blocked(w))
    case _ => true
  }

  predicate NamesMain(k: Check) {
    !k.Begin? && !k.SawParking? && !k.Parked?
  }

  function WaitOf(k: Check): nat
    requires NamesMain(k)
  {
    if k.Cancelling? then k.wait else k.main.wait
  }

  /** A check that will tell the program's thread of the stop, if it runs on. */
  ghost predicate Effective(s: State, k: Check) {
    match k
    case Begin(_) => true
    case SawParking(side, parking) => parking >= GroupOf(s, side).live
    case Parked(_) => true
    case SawMain(_, main) => s.main == Some(main)
    case Looking(main) => s.main == Some(main)
    case Inspect0(main, waiting, timed, mine) => s.main == Some(main) && !timed && (main.Blocked? ==> mine)
    case Inspect1(main, waiting, timed, mine, live) =>
      s.main == Some(main) && !timed && (main.Blocked? ==> mine) && live == s.own.live
    case Inspect2(main, mine) => s.main == Some(main) && (main.Blocked? ==> mine)
    case Inspect3(main, mine, external) => s.main == Some(main) && (main.Blocked? ==> mine) && external == 0
    case Telling(main) => s.main == Some(main)
    case Cancelling(w) => s.main == Some(Blocked(w))
  }

  ghost predicate NoneMissed(s: State) {
    Stopped(s) && MainWaiting(s) ==> exists c :: c in s.checks && Effective(s, s.checks[c])
  }

  /** The registry that a check has counted is the registry, as long as it holds it. */
  ghost predicate CountHolds(s: State, k: Check) {
    k.Inspect0? || k.Inspect1? ==> k.waiting == Count(s.tasks, InRegistry())
  }

  ghost predicate NamesKnown(s: State) {
    forall c :: c in s.checks && NamesMain(s.checks[c]) ==> WaitOf(s.checks[c]) < s.nextWait
  }

  /** What holds in every run, whoever hands over what and when. */
  ghost predicate Base(s: State) {
    && Counts(s) && MainAgrees(s) && LockAgrees(s) && NamesKnown(s) && NoneMissed(s)
    && forall c :: c in s.checks ==> CountHolds(s, s.checks[c])
  }

  /** What holds besides in a run in which nothing is handed over in the middle of a look. */
  ghost predicate Inv(s: State) {
    Base(s) && forall c :: c in s.checks ==> ReadsHold(s, s.checks[c])
  }

  // ---------------------------------------------------------------- preservation

  function Live(phase: Phase): int {
    if phase.Ended? then 0 else 1
  }

  function Parking(phase: Phase): int {
    if phase.Entering? || phase.Waiting? || phase.Woken? then 1 else 0
  }

  /** A step that changes one task's phase changes the counters of its group, and by its share. */
  lemma OneTaskMoves(s: State, s': State, t: TaskId, side: Side, from: Phase, to: Phase)
    requires Counts(s)
    requires (t in s.tasks && s.tasks[t] == Task(side, from)) || (t !in s.tasks && from.Ended?)
    requires s'.tasks == s.tasks[t := Task(side, to)]
    requires GroupOf(s', side).live == GroupOf(s, side).live - Live(from) + Live(to)
    requires GroupOf(s', side).parking == GroupOf(s, side).parking - Parking(from) + Parking(to)
    requires GroupOf(s', Other(side)) == GroupOf(s, Other(side))
    requires GroupOf(s', side).external >= 0
    ensures Counts(s')
  {
    forall g: Side
      ensures GroupOf(s', g).live == Count(s'.tasks, LiveIn(g))
      ensures GroupOf(s', g).parking == Count(s'.tasks, ParkingIn(g))
    {
      CountUpdate(s.tasks, t, Task(side, to), LiveIn(g));
      CountUpdate(s.tasks, t, Task(side, to), ParkingIn(g));
    }
  }

  lemma NoTaskMoves(s: State, s': State)
    requires Counts(s)
    requires s'.tasks == s.tasks
    requires forall side :: GroupOf(s', side).live == GroupOf(s, side).live
    requires forall side :: GroupOf(s', side).parking == GroupOf(s, side).parking
    requires s'.own.external >= 0 && s'.outer.external >= 0
    ensures Counts(s')
  {
  }

  lemma CountsKeptByWaits(s: State, a: WaitStep)
    requires Counts(s) && WaitEnabled(s, a)
    ensures Counts(ApplyWait(s, a))
  {
    var s' := ApplyWait(s, a);
    OneTaskMoves(s, s', a.task, s.tasks[a.task].side, s.tasks[a.task].phase, s'.tasks[a.task].phase);
  }

  lemma CountsKeptByLives(s: State, a: LifeStep)
    requires Counts(s) && LifeEnabled(s, a)
    ensures Counts(ApplyLife(s, a))
  {
    var s' := ApplyLife(s, a);
    match a
    case Spawn(_, t, side) => OneTaskMoves(s, s', t, side, Ended, Running);
    case HandOver(_, t) => OneTaskMoves(s, s', t, Own, Ended, Running);
    case Finish(t) => OneTaskMoves(s, s', t, s.tasks[t].side, Running, Ending);
    case End(t, _) => OneTaskMoves(s, s', t, s.tasks[t].side, Ending, Ended);
    case _ => NoTaskMoves(s, s');
  }

  lemma CountsKeptByMain(s: State, a: MainStep)
    requires Counts(s) && MainAgrees(s) && MainEnabled(s, a)
    ensures Counts(ApplyMain(s, a))
  {
    if a.Enter? {
      OneTaskMoves(s, ApplyMain(s, a), MAIN, Own, Ended, Running);
    } else {
      NoTaskMoves(s, ApplyMain(s, a));
    }
  }

  lemma CountsKeptByChecks(s: State, c: nat)
    requires Counts(s) && CheckEnabled(s, c)
    ensures Counts(StepCheck(s, c, s.checks[c]))
  {
    var s' := StepCheck(s, c, s.checks[c]);
    if s.checks[c].Cancelling? && Cancels(s, s.checks[c].wait) {
      OneTaskMoves(s, s', MAIN, s.tasks[MAIN].side, s.tasks[MAIN].phase, Woken(true));
    } else {
      NoTaskMoves(s, s');
    }
  }

  lemma MainKeptByLives(s: State, a: LifeStep)
    requires MainAgrees(s) && LifeEnabled(s, a)
    ensures MainAgrees(ApplyLife(s, a))
  {
  }

  lemma MainKeptByWaits(s: State, a: WaitStep)
    requires MainAgrees(s) && WaitEnabled(s, a)
    ensures MainAgrees(ApplyWait(s, a))
  {
  }

  lemma MainKeptByMain(s: State, a: MainStep)
    requires MainAgrees(s) && MainEnabled(s, a)
    ensures MainAgrees(ApplyMain(s, a))
  {
  }

  lemma MainKeptByChecks(s: State, c: nat)
    requires MainAgrees(s) && NamesKnown(s) && CheckEnabled(s, c)
    ensures MainAgrees(StepCheck(s, c, s.checks[c]))
  {
  }

  lemma LockKept(s: State, a: Action)
    requires LockAgrees(s) && Enabled(s, a) && !a.CheckStep?
    ensures LockAgrees(Apply(s, a))
  {
  }

  lemma LockKeptByChecks(s: State, c: nat)
    requires LockAgrees(s) && CheckEnabled(s, c)
    ensures LockAgrees(StepCheck(s, c, s.checks[c]))
  {
  }

  /** The registry is the same in both states. */
  ghost predicate SameRegistry(s: State, s': State) {
    forall t :: IsWaiting(s, t) || IsWaiting(s', t) ==> t in s.tasks && t in s'.tasks && s.tasks[t] == s'.tasks[t]
  }

  lemma RegistryCounts(s: State, s': State)
    requires SameRegistry(s, s')
    ensures Count(s.tasks, InRegistry()) == Count(s'.tasks, InRegistry())
    ensures Count(s.tasks, WaitingIn(Own)) == Count(s'.tasks, WaitingIn(Own))
    ensures SomeTimed(s) == SomeTimed(s')
  {
    assert forall t :: IsWaiting(s, t) <==> IsWaiting(s', t);
    CountSame(s.tasks, s'.tasks, InRegistry());
    CountSame(s.tasks, s'.tasks, WaitingIn(Own));
    if t :| t in s.tasks && s.tasks[t].phase == Waiting(true) {
      assert IsWaiting(s, t);
    }
    if t :| t in s'.tasks && s'.tasks[t].phase == Waiting(true) {
      assert IsWaiting(s', t);
    }
  }

  /** While the registry is held: a step that leaves it alone, and starts nothing in a group at rest. */
  lemma InspectFramed(s: State, s': State, k: Check)
    requires Inspects(k) && ReadsHold(s, k)
    requires SameRegistry(s, s')
    requires Current(s', k.main) ==> Current(s, k.main)
    requires OpenLook(s, k) && Current(s', k.main) && AllWait(s, Own) ==> AllWait(s', Own)
    requires (k.Inspect2? || k.Inspect3?) && OpenLook(s, k) && Current(s', k.main) && AllWait(s, Own) && AllWait(s, Outer) ==>
               AllWait(s', Outer) && (s.own.external == 0 ==> s'.own.external == 0)
    ensures ReadsHold(s', k)
  {
    RegistryCounts(s, s');
    assert IsWaiting(s, MAIN) ==> IsWaiting(s', MAIN);
  }

  lemma InspectFramedByLives(s: State, a: LifeStep, k: Check)
    requires MainAgrees(s) && LifeEnabled(s, a) && Inspects(k) && ReadsHold(s, k)
    requires a.HandOver? ==> !OpenLook(s, k)
    ensures ReadsHold(ApplyLife(s, a), k)
  {
    InspectFramed(s, ApplyLife(s, a), k);
  }

  lemma InspectFramedByWaits(s: State, a: WaitStep, k: Check)
    requires MainAgrees(s) && WaitEnabled(s, a) && s.lock.Some? && Inspects(k) && ReadsHold(s, k)
    ensures ReadsHold(ApplyWait(s, a), k)
  {
    InspectFramed(s, ApplyWait(s, a), k);
  }

  lemma InspectFramedByMain(s: State, a: MainStep, k: Check)
    requires MainAgrees(s) && MainEnabled(s, a) && Inspects(k) && ReadsHold(s, k) && k.main.wait < s.nextWait
    ensures ReadsHold(ApplyMain(s, a), k)
  {
    InspectFramed(s, ApplyMain(s, a), k);
  }

  lemma InspectFramedByChecks(s: State, c: nat, k: Check)
    requires MainAgrees(s) && LockAgrees(s) && CheckEnabled(s, c) && s.lock.Some? && s.lock != Some(c)
    requires Inspects(k) && ReadsHold(s, k)
    ensures ReadsHold(StepCheck(s, c, s.checks[c]), k)
  {
    InspectFramed(s, StepCheck(s, c, s.checks[c]), k);
  }

  /** The counts of a look: all waits of a side are waits of its live tasks. */
  lemma WaitersAreLive(s: State, side: Side)
    requires Counts(s)
    ensures Count(s.tasks, WaitingIn(side)) <= GroupOf(s, side).live
    ensures Count(s.tasks, WaitingIn(side)) == GroupOf(s, side).live <==> AllWait(s, side)
  {
    CountImplied(s.tasks, WaitingIn(side), LiveIn(side));
    CountTight(s.tasks, WaitingIn(side), LiveIn(side));
  }

  lemma RegistryIsBothSides(s: State)
    ensures Count(s.tasks, InRegistry()) == Count(s.tasks, WaitingIn(Own)) + Count(s.tasks, WaitingIn(Outer))
  {
    CountSplit(s.tasks, WaitingIn(Own), WaitingIn(Outer), InRegistry());
  }

  /** The first count of a look, of the own group, against the registry that is held. */
  lemma GainedFirstCount(s: State, c: nat)
    requires Counts(s) && MainAgrees(s) && c in s.checks && s.checks[c].Inspect0? && ReadsHold(s, s.checks[c])
    ensures var s' := StepCheck(s, c, s.checks[c]); ReadsHold(s', s'.checks[c])
  {
    WaitersAreLive(s, Own);
  }

  /** The second count: when the sum is the registry's length, neither group had anything that runs. */
  lemma GainedSecondCount(s: State, c: nat)
    requires Counts(s) && MainAgrees(s) && c in s.checks && s.checks[c].Inspect1? && ReadsHold(s, s.checks[c])
    ensures var s' := StepCheck(s, c, s.checks[c]); c in s'.checks ==> ReadsHold(s', s'.checks[c])
  {
    WaitersAreLive(s, Outer);
    RegistryIsBothSides(s);
  }

  /** The last read: with no external left, what the look found is a stop. */
  lemma GainedLastRead(s: State, c: nat)
    requires Counts(s) && MainAgrees(s) && c in s.checks && s.checks[c].Inspect3? && ReadsHold(s, s.checks[c])
    ensures var s' := StepCheck(s, c, s.checks[c]); c in s'.checks ==> ReadsHold(s', s'.checks[c])
  {
    var k := s.checks[c];
    var s' := StepCheck(s, c, k);
    if c in s'.checks && Current(s, k.main) {
      forall t | t in s.tasks
        ensures AtRest(s.tasks[t])
      {
        assert s.tasks[t].side.Own? || s.tasks[t].side.Outer?;
        assert s.tasks[t].phase != Waiting(true);
      }
    }
  }

  /** What a check's own read adds to what it knows, from the first look to the verdict. */
  lemma ReadsGained(s: State, c: nat)
    requires Counts(s) && MainAgrees(s) && CheckEnabled(s, c) && ReadsHold(s, s.checks[c])
    ensures var s' := StepCheck(s, c, s.checks[c]);
            c in s'.checks ==> ReadsHold(s', s'.checks[c])
  {
    var k := s.checks[c];
    if k.Inspect0? {
      GainedFirstCount(s, c);
    } else if k.Inspect1? {
      GainedSecondCount(s, c);
    } else if k.Inspect3? {
      GainedLastRead(s, c);
    }
  }

  /**
    A stop stays: while the program's thread waits and is not told, only checks can take a
    step, and none of them starts a task, wakes one or begins anything external.
   */
  lemma StopIsStable(s: State, a: Action)
    requires MainAgrees(s) && Enabled(s, a) && Stopped(s) && MainWaiting(s)
    ensures a.CheckAgain? || a.CheckStep?
    ensures Stopped(Apply(s, a)) || !MainWaiting(Apply(s, a))
    ensures !Stopped(Apply(s, a)) ==> a.CheckStep? && s.checks[a.check].Cancelling? && Cancels(s, s.checks[a.check].wait)
  {
    forall t | t in s.tasks
      ensures !Runs(s, t) && AtRest(s.tasks[t])
    {
    }
  }

  lemma VerdictFramedByLives(s: State, a: LifeStep, main: MainWaits)
    requires MainAgrees(s) && LifeEnabled(s, a) && VerdictHolds(s, main)
    ensures VerdictHolds(ApplyLife(s, a), main)
  {
    if s.main == Some(main) && MainWaiting(s) {
      StopIsStable(s, Life(a));
    }
  }

  lemma VerdictFramedByWaits(s: State, a: WaitStep, main: MainWaits)
    requires MainAgrees(s) && WaitEnabled(s, a) && VerdictHolds(s, main)
    ensures VerdictHolds(ApplyWait(s, a), main)
  {
    if s.main == Some(main) && MainWaiting(s) {
      StopIsStable(s, Wait(a));
    }
  }

  lemma VerdictFramedByMain(s: State, a: MainStep, main: MainWaits)
    requires MainAgrees(s) && MainEnabled(s, a) && VerdictHolds(s, main) && main.wait < s.nextWait
    ensures VerdictHolds(ApplyMain(s, a), main)
  {
    if s.main == Some(main) && MainWaiting(s) {
      StopIsStable(s, Main(a));
    }
  }

  lemma VerdictFramedByChecks(s: State, c: nat, main: MainWaits)
    requires MainAgrees(s) && CheckEnabled(s, c) && VerdictHolds(s, main)
    ensures VerdictHolds(StepCheck(s, c, s.checks[c]), main)
  {
    if s.main == Some(main) && MainWaiting(s) {
      StopIsStable(s, CheckStep(c));
    }
  }

  /** What a check knows is not undone by a step of another thread. */
  lemma ReadsFramed(s: State, a: Action, k: Check)
    requires MainAgrees(s) && LockAgrees(s) && Enabled(s, a) && Quiet(s, a)
    requires ReadsHold(s, k) && (NamesMain(k) ==> WaitOf(k) < s.nextWait)
    requires Inspects(k) ==> s.lock.Some? && s.checks[s.lock.value] == k && a != CheckStep(s.lock.value)
    ensures ReadsHold(Apply(s, a), k)
  {
    if Inspects(k) {
      match a
      case Life(l) => InspectFramedByLives(s, l, k);
      case Wait(w) => InspectFramedByWaits(s, w, k);
      case Main(m) => InspectFramedByMain(s, m, k);
      case CheckStep(c) => InspectFramedByChecks(s, c, k);
      case CheckAgain(_, _) => InspectFramed(s, Apply(s, a), k);
    } else if k.Telling? || k.Cancelling? {
      var main := if k.Telling? then k.main else Blocked(k.wait);
      match a
      case Life(l) => VerdictFramedByLives(s, l, main);
      case Wait(w) => VerdictFramedByWaits(s, w, main);
      case Main(m) => VerdictFramedByMain(s, m, main);
      case CheckStep(c) => VerdictFramedByChecks(s, c, main);
      case CheckAgain(_, _) =>
    }
  }

  /** The checks of the next state are those of this one, but for one that is new. */
  lemma OtherChecks(s: State, a: Action, c: nat)
    requires Enabled(s, a) && !a.CheckStep? && c in Apply(s, a).checks
    ensures Apply(s, a).checks[c].Begin? || (c in s.checks && Apply(s, a).checks[c] == s.checks[c])
    ensures s.nextWait <= Apply(s, a).nextWait
  {
  }

  lemma OtherChecksOfACheck(s: State, d: nat, c: nat)
    requires CheckEnabled(s, d) && c in StepCheck(s, d, s.checks[d]).checks && c != d
    ensures c in s.checks && StepCheck(s, d, s.checks[d]).checks[c] == s.checks[c]
    ensures s.nextWait == StepCheck(s, d, s.checks[d]).nextWait
  {
  }

  lemma StepNames(s: State, c: nat)
    requires MainAgrees(s) && CheckEnabled(s, c)
    requires NamesMain(s.checks[c]) ==> WaitOf(s.checks[c]) < s.nextWait
    ensures var s' := StepCheck(s, c, s.checks[c]);
            c in s'.checks && NamesMain(s'.checks[c]) ==> WaitOf(s'.checks[c]) < s.nextWait
  {
  }

  /** What was known of a check before the step: it is new, or was there, or made the step itself. */
  lemma WhoseCheck(s: State, a: Action, c: nat)
    requires Enabled(s, a) && c in Apply(s, a).checks && a != CheckStep(c)
    ensures Apply(s, a).checks[c].Begin? || (c in s.checks && Apply(s, a).checks[c] == s.checks[c])
    ensures s.nextWait <= Apply(s, a).nextWait
  {
    if a.CheckStep? {
      OtherChecksOfACheck(s, a.check, c);
    } else {
      OtherChecks(s, a, c);
    }
  }

  lemma NamesKept(s: State, a: Action)
    requires MainAgrees(s) && NamesKnown(s) && Enabled(s, a)
    ensures NamesKnown(Apply(s, a))
  {
    hide MainAgrees, StepCheck, ApplyLife, ApplyWait, ApplyMain;
    forall c | c in Apply(s, a).checks && NamesMain(Apply(s, a).checks[c])
      ensures WaitOf(Apply(s, a).checks[c]) < Apply(s, a).nextWait
    {
      if a == CheckStep(c) {
        StepNames(s, c);
        NextWaitStays(s, c);
      } else {
        WhoseCheck(s, a, c);
      }
    }
  }

  lemma NextWaitStays(s: State, c: nat)
    requires CheckEnabled(s, c)
    ensures StepCheck(s, c, s.checks[c]).nextWait == s.nextWait
  {
  }

  lemma ReadsKept(s: State, a: Action)
    requires Inv(s) && Enabled(s, a) && Quiet(s, a)
    ensures forall c :: c in Apply(s, a).checks ==> ReadsHold(Apply(s, a), Apply(s, a).checks[c])
  {
    hide StepCheck, ApplyLife, ApplyWait, ApplyMain, Counts, MainAgrees, Quiet;
    var s' := Apply(s, a);
    forall c | c in s'.checks
      ensures ReadsHold(s', s'.checks[c])
    {
      if a == CheckStep(c) {
        ReadsGained(s, c);
      } else {
        WhoseCheck(s, a, c);
        if !s'.checks[c].Begin? {
          ReadsFramed(s, a, s.checks[c]);
        }
      }
    }
  }

  // ---------------------------------------------------------------- while the registry is held

  lemma RegistryHeldByWaits(s: State, a: WaitStep)
    requires WaitEnabled(s, a) && s.lock.Some?
    ensures SameRegistry(s, ApplyWait(s, a))
  {
  }

  lemma RegistryHeldByLives(s: State, a: LifeStep)
    requires LifeEnabled(s, a)
    ensures SameRegistry(s, ApplyLife(s, a))
  {
  }

  lemma RegistryHeldByMain(s: State, a: MainStep)
    requires MainEnabled(s, a)
    ensures SameRegistry(s, ApplyMain(s, a))
  {
  }

  lemma RegistryHeldByChecks(s: State, c: nat)
    requires CheckEnabled(s, c) && s.lock.Some?
    ensures SameRegistry(s, StepCheck(s, c, s.checks[c]))
  {
  }

  /** Who holds the registry sees it as it was: nobody else parks or wakes. */
  lemma RegistryIsHeld(s: State, a: Action)
    requires Enabled(s, a) && s.lock.Some?
    ensures Count(Apply(s, a).tasks, InRegistry()) == Count(s.tasks, InRegistry())
  {
    match a
    case Life(l) => RegistryHeldByLives(s, l); RegistryCounts(s, Apply(s, a));
    case Wait(w) => RegistryHeldByWaits(s, w); RegistryCounts(s, Apply(s, a));
    case Main(m) => RegistryHeldByMain(s, m); RegistryCounts(s, Apply(s, a));
    case CheckStep(c) => RegistryHeldByChecks(s, c); RegistryCounts(s, Apply(s, a));
    case CheckAgain(_, _) =>
  }

  lemma OwnCountHolds(s: State, c: nat)
    requires CheckEnabled(s, c) && CountHolds(s, s.checks[c])
    ensures var s' := StepCheck(s, c, s.checks[c]); c in s'.checks ==> CountHolds(s', s'.checks[c])
  {
  }

  lemma CountsHeldKept(s: State, a: Action)
    requires LockAgrees(s) && Enabled(s, a) && forall c :: c in s.checks ==> CountHolds(s, s.checks[c])
    ensures forall c :: c in Apply(s, a).checks ==> CountHolds(Apply(s, a), Apply(s, a).checks[c])
  {
    hide StepCheck, ApplyLife, ApplyWait, ApplyMain;
    var s' := Apply(s, a);
    forall c | c in s'.checks
      ensures CountHolds(s', s'.checks[c])
    {
      if a == CheckStep(c) {
        OwnCountHolds(s, c);
      } else {
        WhoseCheck(s, a, c);
        if s.lock.Some? {
          RegistryIsHeld(s, a);
        }
      }
    }
  }

  /** In a stop every wait of a side is counted in `parking`, and every live task waits. */
  lemma StopPassesTheFirstLook(s: State, side: Side)
    requires Counts(s) && Stopped(s)
    ensures GroupOf(s, side).parking >= GroupOf(s, side).live
    ensures GroupOf(s, side).live == Count(s.tasks, WaitingIn(side))
  {
    forall t | t in s.tasks && s.tasks[t].side == side
      ensures s.tasks[t].phase.Ended? || s.tasks[t].phase.Waiting?
    {
      assert AtRest(s.tasks[t]);
    }
    WaitersAreLive(s, side);
    CountImplied(s.tasks, WaitingIn(side), ParkingIn(side));
  }

  /** How many steps a check has before it at most. */
  function Rank(k: Check): nat {
    match k
    case Begin(_) => 11
    case SawParking(_, _) => 10
    case Parked(_) => 9
    case SawMain(_, _) => 8
    case Looking(_) => 7
    case Inspect0(_, _, _, _) => 6
    case Inspect1(_, _, _, _, _) => 5
    case Inspect2(_, _) => 4
    case Inspect3(_, _, _) => 3
    case Telling(_) => 2
    case Cancelling(_) => 1
  }

  /** A check that sees a stop goes on to the verdict. */
  lemma EffectiveGoesOn(s: State, c: nat)
    requires Base(s) && CheckEnabled(s, c) && Stopped(s) && MainWaiting(s) && Effective(s, s.checks[c])
    ensures var s' := StepCheck(s, c, s.checks[c]);
            MainWaiting(s') ==> c in s'.checks && Effective(s', s'.checks[c]) && Rank(s'.checks[c]) < Rank(s.checks[c])
  {
    var k := s.checks[c];
    match k {
      case Begin(side) => StopPassesTheFirstLook(s, side);
      case Looking(_) =>
        assert forall t :: t in s.tasks ==> AtRest(s.tasks[t]);
      case Inspect1(_, _, _, _, _) =>
        StopPassesTheFirstLook(s, Own);
        StopPassesTheFirstLook(s, Outer);
        RegistryIsBothSides(s);
      case _ =>
    }
  }

  /** A stop comes about only by a step after which its thread runs a check. */
  lemma StopIsCompletedByACheck(s: State, a: Action)
    requires MainAgrees(s) && Enabled(s, a)
    requires !(Stopped(s) && MainWaiting(s)) && Stopped(Apply(s, a)) && MainWaiting(Apply(s, a))
    ensures exists c :: c in Apply(s, a).checks && Apply(s, a).checks[c].Begin?
  {
    hide StepCheck, ApplyLife, ApplyWait, ApplyMain, MainAgrees, Stopped, MainWaiting;
    match a {
      case Life(l) =>
        StopByLives(s, l);
      case Wait(w) =>
        StopByWaits(s, w);
      case Main(m) =>
        StopByMain(s, m);
      case CheckAgain(_, c) =>
        assert Apply(s, a).checks[c].Begin?;
      case CheckStep(c) =>
        StopByNoCheck(s, c);
    }
  }

  lemma StopByLives(s: State, a: LifeStep)
    requires LifeEnabled(s, a) && Stopped(ApplyLife(s, a))
    requires !(Stopped(s) && MainWaiting(s)) && MainWaiting(ApplyLife(s, a))
    ensures (a.EndExternal? || a.End?) && a.check in ApplyLife(s, a).checks && ApplyLife(s, a).checks[a.check].Begin?
  {
    var s' := ApplyLife(s, a);
    assert a.Spawn? || a.HandOver? || a.Finish? ==> !AtRest(s'.tasks[a.task]);
  }

  lemma StopByWaits(s: State, a: WaitStep)
    requires WaitEnabled(s, a) && Stopped(ApplyWait(s, a))
    ensures a.ParkCommit? && a.check in ApplyWait(s, a).checks && ApplyWait(s, a).checks[a.check].Begin?
  {
    assert AtRest(ApplyWait(s, a).tasks[a.task]);
  }

  lemma StopByMain(s: State, a: MainStep)
    requires MainAgrees(s) && MainEnabled(s, a) && Stopped(ApplyMain(s, a)) && MainWaiting(ApplyMain(s, a))
    ensures a.Settle? && a.check in ApplyMain(s, a).checks && ApplyMain(s, a).checks[a.check].Begin?
  {
    assert AtRest(ApplyMain(s, a).tasks[MAIN]);
  }

  /** A check completes no stop: it starts no wait and ends no task. */
  lemma StopByNoCheck(s: State, c: nat)
    requires CheckEnabled(s, c) && Stopped(StepCheck(s, c, s.checks[c])) && MainWaiting(StepCheck(s, c, s.checks[c]))
    ensures Stopped(s) && MainWaiting(s)
  {
    var s' := StepCheck(s, c, s.checks[c]);
    assert s'.tasks == s.tasks by {
      assert s'.tasks != s.tasks ==> MAIN in s'.tasks && !AtRest(s'.tasks[MAIN]);
    }
  }

  /** Another check's step takes nothing from a check that sees the stop. */
  lemma EffectiveFramed(s: State, a: Action, c: nat)
    requires MainAgrees(s) && Enabled(s, a) && Stopped(s) && MainWaiting(s) && (a.CheckAgain? || a.CheckStep?)
    requires c in s.checks && Effective(s, s.checks[c]) && a != CheckStep(c)
    requires MainWaiting(Apply(s, a))
    ensures c in Apply(s, a).checks && Effective(Apply(s, a), s.checks[c]) && Apply(s, a).checks[c] == s.checks[c]
  {
    if a.CheckStep? {
      ChecksFrame(s, a.check, c);
    }
    SameForChecks(s, Apply(s, a), s.checks[c]);
  }

  /** A check's step leaves other checks, the groups and what the program's thread waits for. */
  lemma ChecksFrame(s: State, d: nat, c: nat)
    requires CheckEnabled(s, d) && c in s.checks && c != d
    ensures var s' := StepCheck(s, d, s.checks[d]);
            s'.own == s.own && s'.outer == s.outer && s'.main == s.main && c in s'.checks && s'.checks[c] == s.checks[c]
  {
  }

  lemma SameForChecks(s: State, s': State, k: Check)
    requires s'.own == s.own && s'.outer == s.outer && s'.main == s.main && Effective(s, k)
    ensures Effective(s', k)
  {
  }

  lemma NoneMissedKept(s: State, a: Action)
    requires Base(s) && Enabled(s, a)
    ensures NoneMissed(Apply(s, a))
  {
    var s' := Apply(s, a);
    if Stopped(s') && MainWaiting(s') {
      if Stopped(s) && MainWaiting(s) {
        StopIsStable(s, a);
        var c :| c in s.checks && Effective(s, s.checks[c]);
        if a == CheckStep(c) {
          EffectiveGoesOn(s, c);
        } else {
          EffectiveFramed(s, a, c);
        }
        assert c in s'.checks && Effective(s', s'.checks[c]);
      } else {
        StopIsCompletedByACheck(s, a);
        var c :| c in s'.checks && s'.checks[c].Begin?;
        assert Effective(s', s'.checks[c]);
      }
    }
  }

  lemma CountersKept(s: State, a: Action)
    requires Counts(s) && MainAgrees(s) && LockAgrees(s) && NamesKnown(s) && Enabled(s, a)
    ensures Counts(Apply(s, a)) && MainAgrees(Apply(s, a)) && LockAgrees(Apply(s, a))
  {
    hide Counts, MainAgrees, LockAgrees, NamesKnown, StepCheck, ApplyLife, ApplyWait, ApplyMain;
    match a {
      case Life(l) =>
        CountsKeptByLives(s, l);
        MainKeptByLives(s, l);
        LockKept(s, a);
      case Wait(w) =>
        CountsKeptByWaits(s, w);
        MainKeptByWaits(s, w);
        LockKept(s, a);
      case Main(m) =>
        CountsKeptByMain(s, m);
        MainKeptByMain(s, m);
        LockKept(s, a);
      case CheckAgain(_, _) =>
        CheckAgainKeeps(s, a);
        LockKept(s, a);
      case CheckStep(c) =>
        CountsKeptByChecks(s, c);
        MainKeptByChecks(s, c);
        LockKeptByChecks(s, c);
    }
  }

  lemma CheckAgainKeeps(s: State, a: Action)
    requires Counts(s) && MainAgrees(s) && a.CheckAgain? && Enabled(s, a)
    ensures Counts(Apply(s, a)) && MainAgrees(Apply(s, a))
  {
    NoTaskMoves(s, Apply(s, a));
  }

  /** Every step keeps that the counters are right and that no stop is missed. */
  lemma BaseKept(s: State, a: Action)
    requires Base(s) && Enabled(s, a)
    ensures Base(Apply(s, a))
  {
    CountersKept(s, a);
    NamesKept(s, a);
    CountsHeldKept(s, a);
    NoneMissedKept(s, a);
    hide Counts, MainAgrees, LockAgrees, NamesKnown, NoneMissed, CountHolds, Apply;
  }

  /** Every step but a hand-over in the middle of a look keeps what a look has read. */
  lemma InvKept(s: State, a: Action)
    requires Inv(s) && Enabled(s, a) && Quiet(s, a)
    ensures Inv(Apply(s, a))
  {
    BaseKept(s, a);
    ReadsKept(s, a);
    hide Base, Apply, ReadsHold;
  }

  lemma InvInit(s: State)
    requires Init(s)
    ensures Inv(s) && Base(s)
  {
    forall side
      ensures GroupOf(s, side).live == Count(s.tasks, LiveIn(side))
      ensures GroupOf(s, side).parking == Count(s.tasks, ParkingIn(side))
    {
      var none: map<TaskId, Task> := map[];
      CountUpdate(none, MAIN, Task(Own, Running), LiveIn(side));
      CountUpdate(none, MAIN, Task(Own, Running), ParkingIn(side));
      assert s.tasks == none[MAIN := Task(Own, Running)];
    }
    assert s.tasks[MAIN].phase.Running?;
  }

  lemma {:induction false} BaseAlong(states: seq<State>, actions: seq<Action>, i: nat)
    requires Run(states, actions) && i < |states|
    ensures Base(states[i])
  {
    hide Base, Apply, Enabled;
    if i == 0 {
      InvInit(states[0]);
    } else {
      BaseAlong(states, actions, i - 1);
      assert Enabled(states[i - 1], actions[i - 1]);
      BaseKept(states[i - 1], actions[i - 1]);
    }
  }

  lemma {:induction false} InvAlong(states: seq<State>, actions: seq<Action>, i: nat)
    requires QuietRun(states, actions) && i < |states|
    ensures Inv(states[i])
  {
    hide Inv, Apply, Enabled, Quiet;
    if i == 0 {
      InvInit(states[0]);
    } else {
      InvAlong(states, actions, i - 1);
      assert Enabled(states[i - 1], actions[i - 1]) && Quiet(states[i - 1], actions[i - 1]);
      InvKept(states[i - 1], actions[i - 1]);
    }
  }

  // ---------------------------------------------------------------- the theorems

  /** The next step of the check `c` ends the wait of the program's thread. */
  ghost predicate Tells(s: State, c: nat) {
    && CheckEnabled(s, c)
    && match s.checks[c]
       case Telling(Settling(w)) => s.main == Some(Settling(w)) && w !in s.settled
       case Cancelling(w) => Cancels(s, w)
       case _ => false
  }

  /**
    The verdict is exact: whenever a check tells the program's thread that it is deadlocked,
    or that its tasks have settled, every task of both groups has ended or is in the registry
    with a wait that does not end by itself and nothing external is in flight, at the moment
    of telling; and no step but the telling can be taken by anything that is not a check.
   */
  lemma VerdictIsSound(states: seq<State>, actions: seq<Action>, i: nat, c: nat)
    requires QuietRun(states, actions) && i < |states| && Tells(states[i], c)
    ensures Stopped(states[i]) && MainWaiting(states[i])
    ensures forall a :: Enabled(states[i], a) ==> a.CheckAgain? || a.CheckStep?
  {
    var s := states[i];
    InvAlong(states, actions, i);
    assert ReadsHold(s, s.checks[c]);
    forall a | Enabled(s, a)
      ensures a.CheckAgain? || a.CheckStep?
    {
      StopIsStable(s, a);
    }
  }

  /** The counters, which are unsigned words, never go below zero, and `parking` covers every wait. */
  lemma CountersStayInRange(states: seq<State>, actions: seq<Action>, i: nat, side: Side)
    requires Run(states, actions) && i < |states|
    ensures var g := GroupOf(states[i], side);
            0 <= g.live && 0 <= g.external && Count(states[i].tasks, WaitingIn(side)) <= g.parking <= g.live
  {
    var s := states[i];
    BaseAlong(states, actions, i);
    CountImplied(s.tasks, WaitingIn(side), ParkingIn(side));
    CountImplied(s.tasks, ParkingIn(side), LiveIn(side));
  }

  /** `actions` can be taken from `s`, one after the other. */
  ghost predicate Follows(s: State, actions: seq<Action>)
    decreases |actions|
  {
    actions != [] ==> Enabled(s, actions[0]) && Follows(Apply(s, actions[0]), actions[1..])
  }

  ghost function After(s: State, actions: seq<Action>): State
    requires Follows(s, actions)
    decreases |actions|
  {
    if actions == [] then s else After(Apply(s, actions[0]), actions[1..])
  }

  /** How much is left to do before `c` has told: its own steps, and those of the check that holds the registry. */
  ghost function Left(s: State, c: nat): nat
    requires LockAgrees(s) && c in s.checks
  {
    Rank(s.checks[c]) + if s.lock.Some? && s.lock.value != c then Rank(s.checks[s.lock.value]) else 0
  }

  /** From a stop, the checks that are there already reach the verdict by their own steps alone. */
  lemma {:induction false} ChecksReachTheVerdict(s: State, c: nat) returns (actions: seq<Action>)
    requires Base(s) && Stopped(s) && MainWaiting(s) && c in s.checks && Effective(s, s.checks[c])
    ensures forall a :: a in actions ==> a.CheckStep?
    ensures |actions| <= Left(s, c)
    ensures Follows(s, actions) && !MainWaiting(After(s, actions))
    decreases Left(s, c)
  {
    var d := if s.lock.Some? then s.lock.value else c;
    var a := CheckStep(d);
    assert CheckEnabled(s, d);
    var s' := Apply(s, a);
    BaseKept(s, a);
    StopIsStable(s, a);
    if MainWaiting(s') {
      if d == c {
        EffectiveGoesOn(s, c);
      } else {
        EffectiveFramed(s, a, c);
      }
      HolderGoesOn(s, d);
      var more := ChecksReachTheVerdict(s', c);
      actions := [a] + more;
      assert actions[1..] == more;
    } else {
      actions := [a];
      assert actions[1..] == [];
      assert Follows(s', []);
    }
  }

  lemma HolderGoesOn(s: State, c: nat)
    requires LockAgrees(s) && CheckEnabled(s, c) && (s.lock.Some? ==> s.lock.value == c)
    ensures var s' := StepCheck(s, c, s.checks[c]);
            && (c in s'.checks ==> Rank(s'.checks[c]) < Rank(s.checks[c]))
            && (s'.lock.Some? ==> s'.lock.value == c)
  {
  }

  /**
    No verdict is missed: in every run, whenever the tasks of both groups have come to a stop
    and the program's thread is registered as waiting and was not told, some check is under
    way that tells it, by steps of checks alone.
   */
  lemma NoVerdictIsMissed(states: seq<State>, actions: seq<Action>, i: nat) returns (c: nat, rest: seq<Action>)
    requires Run(states, actions) && i < |states|
    requires Stopped(states[i]) && MainWaiting(states[i])
    ensures c in states[i].checks && Effective(states[i], states[i].checks[c])
    ensures forall a :: a in rest ==> a.CheckStep?
    ensures |rest| <= 17
    ensures Follows(states[i], rest) && !MainWaiting(After(states[i], rest))
  {
    BaseAlong(states, actions, i);
    c :| c in states[i].checks && Effective(states[i], states[i].checks[c]);
    rest := ChecksReachTheVerdict(states[i], c);
  }
}
