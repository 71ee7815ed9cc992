/**
  The run queue: how a queued task finds a worker.

  A worker that finds the queue empty looks on for a moment without the lock, counted in
  `spinning`, before it sleeps; whoever queues a task, or takes one and leaves others, wakes a
  sleeping worker only if nobody is counted in `spinning`. The counter changes outside the
  queue's lock. One step of the machine is one atomic operation; what is guarded by the lock
  (the tasks, `sleepers`) changes in the step that takes the lock or while it is held.
 */
module RunQueue {
  import opened Counting

  type TaskId = nat
  type WorkerId = nat

  datatype Phase =
    | Look                      // about to take the lock, at the top of the loop
    | Taking(task: TaskId)      // holds the lock with a task off the queue
    | Enters                    // found nothing; about to count itself in `spinning`
    | Spins(looks: bool)        // counted; `looks` when it is among the first two
    | Leaves(found: bool)       // counted; about to stop counting itself
    | LookAgain                 // about to take the lock for the last look before it sleeps
    | Asleep                    // waits on the condition variable
    | Notified                  // woken, or its time is over: about to take the lock again
    | Runs(task: TaskId)

  /** Who holds the queue's lock, and how far it is. */
  datatype Holder =
    | Free
    | Pushed                    // a task was put on the queue, `queued` is not told yet
    | Published                 // `queued` is told; whether to wake somebody is open
    | Popped(worker: WorkerId)
    | Taken(worker: WorkerId)

  datatype State = State(
    tasks: seq<TaskId>,
    queued: int,                // the counter that mirrors the queue's length
    spinning: int,
    sleepers: int,
    holder: Holder,
    workers: map<WorkerId, Phase>,
    put: seq<TaskId>,           // every task ever queued, in order
    got: seq<TaskId>)           // every task ever taken, in order

  datatype Action =
    | Enqueue(task: TaskId)
    | Publish
    | Decide(woken: WorkerId)
    | First(worker: WorkerId)
    | Enter(worker: WorkerId)
    | Spin(worker: WorkerId)
    | GiveUp(worker: WorkerId)
    | Leave(worker: WorkerId)
    | Second(worker: WorkerId)
    | TimeOut(worker: WorkerId)
    | WakeUp(worker: WorkerId)
    | Finish(worker: WorkerId)

  /** The bound on `spinning` (`LOOKING`). */
  const LOOKING := 2

  predicate At(s: State, w: WorkerId, p: Phase) {
    w in s.workers && s.workers[w] == p
  }

  predicate SomeAsleep(s: State) {
    exists w :: w in s.workers && s.workers[w].Asleep?
  }

  /** What `enqueue` and `pop` ask before they wake somebody. */
  predicate Wakes(s: State) {
    s.tasks != [] && s.sleepers > 0 && s.spinning == 0
  }

  predicate Enabled(s: State, a: Action) {
    match a
    case Enqueue(_) => s.holder.Free?
    case Publish => s.holder.Pushed? || s.holder.Popped?
    // `notify_one` wakes one of those that sleep, if any does.
    case Decide(v) =>
      (s.holder.Published? || (s.holder.Taken? && s.holder.worker in s.workers && s.workers[s.holder.worker].Taking?)) &&
      (Wakes(s) && SomeAsleep(s) ==> At(s, v, Asleep))
    case First(w) => s.holder.Free? && At(s, w, Look)
    case Enter(w) => At(s, w, Enters)
    case Spin(w) => At(s, w, Spins(true))
    case GiveUp(w) => w in s.workers && s.workers[w].Spins?
    case Leave(w) => w in s.workers && s.workers[w].Leaves?
    case Second(w) => s.holder.Free? && At(s, w, LookAgain)
    case TimeOut(w) => At(s, w, Asleep)
    case WakeUp(w) => s.holder.Free? && At(s, w, Notified)
    case Finish(w) => w in s.workers && s.workers[w].Runs?
  }

  function Move(s: State, w: WorkerId, p: Phase): State {
    s.(workers := s.workers[w := p])
  }

  /** The first task goes to `w`, which holds the lock from here. */
  function Pop(s: State, w: WorkerId): State
    requires s.tasks != []
  {
    Move(s, w, Taking(s.tasks[0])).(tasks := s.tasks[1..], holder := Popped(w), got := s.got + [s.tasks[0]])
  }

  /** `several`: the machine has more than one core, so a worker looks on before it sleeps. */
  function Apply(several: bool, s: State, a: Action): State
    requires Enabled(s, a)
  {
    match a
    case Enqueue(t) => s.(tasks := s.tasks + [t], holder := Pushed, put := s.put + [t])
    case Publish =>
      s.(queued := |s.tasks|, holder := if s.holder.Pushed? then Published else Taken(s.holder.worker))
    case Decide(v) =>
      var s' := if Wakes(s) && SomeAsleep(s) then Move(s, v, Notified) else s;
      if s.holder.Published? then s'.(holder := Free)
      else Move(s', s.holder.worker, Runs(s.workers[s.holder.worker].task)).(holder := Free)
    case First(w) =>
      if s.tasks != [] then Pop(s, w) else Move(s, w, if several then Enters else LookAgain)
    case Enter(w) => Move(s, w, Spins(s.spinning < LOOKING)).(spinning := s.spinning + 1)
    case Spin(w) => if s.queued > 0 then Move(s, w, Leaves(true)) else s
    case GiveUp(w) => Move(s, w, Leaves(false))
    case Leave(w) =>
      Move(s, w, if s.workers[w].found then Look else LookAgain).(spinning := s.spinning - 1)
    case Second(w) =>
      if s.tasks != [] then Pop(s, w) else Move(s, w, Asleep).(sleepers := s.sleepers + 1)
    case TimeOut(w) => Move(s, w, Notified)
    case WakeUp(w) => Move(s, w, Look).(sleepers := s.sleepers - 1)
    case Finish(w) => Move(s, w, Look)
  }

  ghost predicate Init(s: State) {
    && s.tasks == [] && s.queued == 0 && s.spinning == 0 && s.sleepers == 0 && s.holder.Free?
    && s.put == [] && s.got == []
    && forall w :: w in s.workers ==> s.workers[w].Look?
  }

  ghost predicate Run(several: bool, states: seq<State>, actions: seq<Action>) {
    && |states| == |actions| + 1
    && Init(states[0])
    && forall i :: 0 <= i < |actions| ==>
         Enabled(states[i], actions[i]) && states[i + 1] == Apply(several, states[i], actions[i])
  }

  // ---------------------------------------------------------------- the invariant

  ghost function Spinning(): Phase -> bool {
    (p: Phase) => p.Spins? || p.Leaves?
  }

  ghost function Sleeping(): Phase -> bool {
    (p: Phase) => p.Asleep? || p.Notified?
  }

  /** A worker that looks at the queue under its lock before it can sleep. */
  predicate Looks(p: Phase) {
    p.Look? || p.Enters? || p.Spins? || p.Leaves? || p.LookAgain? || p.Notified?
  }

  predicate SomeLooks(s: State) {
    exists w :: w in s.workers && Looks(s.workers[w])
  }

  ghost predicate HolderAgrees(s: State) {
    match s.holder
    case Free => s.queued == |s.tasks| && NobodyTakes(s)
    case Pushed => s.tasks != [] && s.queued == |s.tasks| - 1 && NobodyTakes(s)
    case Published => s.queued == |s.tasks| && NobodyTakes(s)
    case Popped(w) => s.queued == |s.tasks| + 1 && OnlyTakes(s, w)
    case Taken(w) => s.queued == |s.tasks| && OnlyTakes(s, w)
  }

  ghost predicate NobodyTakes(s: State) {
    forall w :: w in s.workers ==> !s.workers[w].Taking?
  }

  ghost predicate OnlyTakes(s: State, v: WorkerId) {
    v in s.workers && forall w :: w in s.workers ==> (s.workers[w].Taking? <==> w == v)
  }

  /** A task is queued and a worker sleeps: another one looks, or who holds the lock has yet to decide. */
  ghost predicate NobodyForgets(s: State) {
    s.tasks != [] && SomeAsleep(s) && s.holder.Free? ==> SomeLooks(s)
  }

  ghost predicate Inv(s: State) {
    && s.spinning == Count(s.workers, Spinning())
    && s.sleepers == Count(s.workers, Sleeping())
    && HolderAgrees(s)
    && NobodyForgets(s)
    && s.put == s.got + s.tasks
  }

  lemma MoveCounts(s: State, w: WorkerId, to: Phase)
    requires w in s.workers
    ensures Count(Move(s, w, to).workers, Spinning()) ==
            Count(s.workers, Spinning()) - One(Spinning()(s.workers[w])) + One(Spinning()(to))
    ensures Count(Move(s, w, to).workers, Sleeping()) ==
            Count(s.workers, Sleeping()) - One(Sleeping()(s.workers[w])) + One(Sleeping()(to))
  {
    CountUpdate(s.workers, w, to, Spinning());
    CountUpdate(s.workers, w, to, Sleeping());
  }

  /** The decision under the lock: nobody is woken only if nobody sleeps, or somebody looks. */
  lemma DecisionIsRight(s: State)
    requires Inv(s) && s.tasks != [] && SomeAsleep(s) && !Wakes(s)
    ensures exists w :: w in s.workers && Spinning()(s.workers[w])
  {
    var w :| w in s.workers && s.workers[w].Asleep?;
    ThereIsCounted(s.workers, w, Sleeping());
    CountedIsThere(s.workers, Spinning());
  }

  lemma InvKeptByDecide(several: bool, s: State, v: WorkerId)
    requires Inv(s) && Enabled(s, Decide(v))
    ensures Inv(Apply(several, s, Decide(v)))
  {
    var s' := Apply(several, s, Decide(v));
    var wakes := Wakes(s) && SomeAsleep(s);
    var mid := if wakes then Move(s, v, Notified) else s;
    if wakes {
      MoveCounts(s, v, Notified);
    }
    if s.holder.Taken? {
      MoveCounts(mid, s.holder.worker, Runs(s.workers[s.holder.worker].task));
    }
    if s'.tasks != [] && SomeAsleep(s') {
      if wakes {
        assert Looks(s'.workers[v]);
      } else {
        DecisionIsRight(s);
        var w :| w in s.workers && Spinning()(s.workers[w]);
        assert Looks(s'.workers[w]);
      }
    }
  }

  /** A worker that goes from one looking phase to another goes on standing for the others. */
  lemma InvKeptByLookers(several: bool, s: State, a: Action)
    requires Inv(s) && Enabled(s, a)
    requires a.Enter? || a.Spin? || a.GiveUp? || a.Leave? || a.TimeOut? || a.WakeUp? || a.Finish?
    ensures Inv(Apply(several, s, a))
  {
    var w, s' := a.worker, Apply(several, s, a);
    MoveCounts(s, w, s'.workers[w]);
    assert s'.workers == Move(s, w, s'.workers[w]).workers;
    assert Looks(s'.workers[w]);
  }

  lemma InvKeptByLooks(several: bool, s: State, a: Action)
    requires Inv(s) && Enabled(s, a) && (a.First? || a.Second?)
    ensures Inv(Apply(several, s, a))
  {
    var w, s' := a.worker, Apply(several, s, a);
    MoveCounts(s, w, s'.workers[w]);
    if s.tasks != [] {
      assert s.tasks == [s.tasks[0]] + s.tasks[1..];
    }
  }

  lemma InvKept(several: bool, s: State, a: Action)
    requires Inv(s) && Enabled(s, a)
    ensures Inv(Apply(several, s, a))
  {
    match a
    case Enqueue(_) =>
    case Publish =>
    case Decide(v) => InvKeptByDecide(several, s, v);
    case First(_) => InvKeptByLooks(several, s, a);
    case Second(_) => InvKeptByLooks(several, s, a);
    case _ => InvKeptByLookers(several, s, a);
  }

  lemma InvInit(s: State)
    requires Init(s)
    ensures Inv(s)
  {
    if Count(s.workers, Spinning()) > 0 {
      CountedIsThere(s.workers, Spinning());
    }
    if Count(s.workers, Sleeping()) > 0 {
      CountedIsThere(s.workers, Sleeping());
    }
  }

  lemma {:induction false} InvAlong(several: bool, states: seq<State>, actions: seq<Action>, i: nat)
    requires Run(several, states, actions) && i < |states|
    ensures Inv(states[i])
  {
    if i == 0 {
      InvInit(states[0]);
    } else {
      InvAlong(several, states, actions, i - 1);
      assert Enabled(states[i - 1], actions[i - 1]);
      InvKept(several, states[i - 1], actions[i - 1]);
    }
  }

  // ---------------------------------------------------------------- the theorems

  /**
    No wakeup is lost: in every run, whenever nobody holds the queue's lock, a task is queued
    and a worker sleeps that nobody has woken, another worker is in a phase that looks at the
    queue under its lock before it can sleep. So the workers do not all sleep over a task.
   */
  lemma NoLostWakeup(several: bool, states: seq<State>, actions: seq<Action>, i: nat)
    requires Run(several, states, actions) && i < |states|
    requires states[i].holder.Free? && states[i].tasks != []
    ensures SomeAsleep(states[i]) ==> SomeLooks(states[i])
    ensures states[i].workers.Keys != {} ==> exists w :: w in states[i].workers && !states[i].workers[w].Asleep?
  {
    var s := states[i];
    InvAlong(several, states, actions, i);
    if s.workers.Keys != {} {
      var v :| v in s.workers.Keys;
      assert s.workers[v].Asleep? ==> SomeAsleep(s);
    }
  }

  /** The steps of its own, but for repeated looks while it spins, that a looking worker has before its look. */
  function Distance(p: Phase): nat {
    match p
    case Look => 1
    case LookAgain => 1
    case Leaves(_) => 2
    case Notified => 2
    case Spins(_) => 3
    case Enters => 4
    case _ => 0
  }

  predicate OwnStep(a: Action, w: WorkerId) {
    match a
    case Enqueue(_) => false
    case Publish => false
    case Decide(_) => false
    case _ => a.worker == w
  }

  /**
    A looking worker gets to the queue: no other thread's step takes it away from there, each
    step of its own brings it nearer, and where its look finds a task it takes the first one.
   */
  lemma LookerArrives(several: bool, s: State, a: Action, w: WorkerId)
    requires Inv(s) && Enabled(s, a) && w in s.workers && Looks(s.workers[w])
    ensures var p', s' := Apply(several, s, a).workers[w], Apply(several, s, a);
            if !OwnStep(a, w) then p' == s.workers[w]
            else if a.First? || a.Second? then
              s.tasks != [] ==> p' == Taking(s.tasks[0]) && s'.got == s.got + [s.tasks[0]] && s'.tasks == s.tasks[1..]
            else Looks(p') && (Distance(p') < Distance(s.workers[w]) || (a.Spin? && s.queued == 0 && p' == s.workers[w]))
  {
  }

  /** Tasks are taken in the order they were queued, each once, and none is lost. */
  lemma FirstInFirstOut(several: bool, states: seq<State>, actions: seq<Action>, i: nat)
    requires Run(several, states, actions) && i < |states|
    ensures states[i].got <= states[i].put
    ensures states[i].put[|states[i].got|..] == states[i].tasks
    ensures states[i].holder.Free? ==> states[i].queued == |states[i].put| - |states[i].got|
  {
    InvAlong(several, states, actions, i);
  }
}
