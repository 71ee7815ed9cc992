/**
  A thread that holds an `External` and exchanges it for a count as a task while a check looks at
  the registry: exactly which of those exchanges make the check's verdict wrong.
 */
module StopHandOver {
  import opened Basics
  import opened Counting
  import opened StopDetection

  // ---------------------------------------------------------------- one run

  ghost predicate Reachable(s: State) {
    exists states, actions :: Run(states, actions) && states[|states| - 1] == s
  }

  lemma ReachableNext(s: State, a: Action)
    requires Reachable(s) && Enabled(s, a)
    ensures Reachable(Apply(s, a))
  {
    var states, actions :| Run(states, actions) && states[|states| - 1] == s;
    var more, all := states + [Apply(s, a)], actions + [a];
    forall i | 0 <= i < |all|
      ensures Enabled(more[i], all[i]) && more[i + 1] == Apply(more[i], all[i])
    {
      if i < |actions| {
        assert all[i] == actions[i] && more[i] == states[i] && more[i + 1] == states[i + 1];
      }
    }
    assert Run(more, all);
  }

  /** The program's thread waits, its one task is on its way into a wait, and a check has begun. */
  ghost function CheckBegun(): State {
    State(map[MAIN := Task(Own, Waiting(false)), 1 := Task(Own, Entering)], Group(2, 0, 2), Group(0, 0, 0),
          Some(Blocked(0)), InWait(0), 1, {}, None, map[0 := Begin(Own)], None)
  }

  lemma ReachableCheckBegun()
    ensures Reachable(CheckBegun())
  {
    var s0 := State(map[MAIN := Task(Own, Running)], Group(1, 0, 0), Group(0, 0, 0),
                    None, Code, 0, {}, None, map[], None);
    var states: seq<State>, actions: seq<Action> := [s0], [];
    assert Run(states, actions);
    assert Reachable(s0);
    hide Reachable;
    var s1 := Apply(s0, Life(Spawn(MAIN, 1, Own)));
    ReachableNext(s0, Life(Spawn(MAIN, 1, Own)));
    var s2 := Apply(s1, Main(Register));
    ReachableNext(s1, Main(Register));
    var s3 := Apply(s2, Wait(ParkBegin(MAIN)));
    ReachableNext(s2, Wait(ParkBegin(MAIN)));
    var s4 := Apply(s3, Wait(ParkCommit(MAIN, false, 0)));
    ReachableNext(s3, Wait(ParkCommit(MAIN, false, 0)));
    ReachableNext(s4, Wait(ParkBegin(1)));
    assert Apply(s4, Wait(ParkBegin(1))) == CheckBegun();
  }

  /** That check has passed every look without a lock: nothing external is in flight yet. */
  lemma ReachableLooking()
    ensures Reachable(CheckBegun().(checks := map[0 := Looking(Blocked(0))]))
  {
    hide Reachable;
    ReachableCheckBegun();
    var s0 := CheckBegun();
    var s1 := Apply(s0, CheckStep(0));
    ReachableNext(s0, CheckStep(0));
    assert s1 == s0.(checks := map[0 := SawParking(Own, 2)]);
    var s2 := Apply(s1, CheckStep(0));
    ReachableNext(s1, CheckStep(0));
    assert s2 == s0.(checks := map[0 := Parked(Own)]);
    var s3 := Apply(s2, CheckStep(0));
    ReachableNext(s2, CheckStep(0));
    assert s3 == s0.(checks := map[0 := SawMain(Own, Blocked(0))]);
    ReachableNext(s3, CheckStep(0));
    assert Apply(s3, CheckStep(0)) == s0.(checks := map[0 := Looking(Blocked(0))]);
  }

  /** The task's wait was over at once; it starts something external and then waits. */
  ghost function BothWait(): State {
    State(map[MAIN := Task(Own, Waiting(false)), 1 := Task(Own, Waiting(false))], Group(2, 1, 2), Group(0, 0, 0),
          Some(Blocked(0)), InWait(0), 1, {}, None, map[0 := Looking(Blocked(0)), 1 := Begin(Own)], None)
  }

  lemma ReachableBothWait()
    ensures Reachable(BothWait())
  {
    hide Reachable;
    ReachableLooking();
    var s0 := CheckBegun().(checks := map[0 := Looking(Blocked(0))]);
    var s1 := Apply(s0, Wait(ParkOver(1, true)));
    ReachableNext(s0, Wait(ParkOver(1, true)));
    var s2 := Apply(s1, Life(StartExternal(1)));
    ReachableNext(s1, Life(StartExternal(1)));
    var s3 := Apply(s2, Wait(ParkBegin(1)));
    ReachableNext(s2, Wait(ParkBegin(1)));
    ReachableNext(s3, Wait(ParkCommit(1, false, 1)));
    assert Apply(s3, Wait(ParkCommit(1, false, 1))) == BothWait();
  }

  /** The check has read `live`; then the external's thread counts as a task, and the external ends. */
  ghost function HandedOver(): State {
    State(map[MAIN := Task(Own, Waiting(false)), 1 := Task(Own, Waiting(false)), 2 := Task(Own, Running)],
          Group(3, 0, 2), Group(0, 0, 0), Some(Blocked(0)), InWait(0), 1, {}, None,
          map[0 := Inspect1(Blocked(0), 2, false, true, 2), 1 := Begin(Own), 2 := Begin(Own)], Some(0))
  }

  lemma TwoWait()
    ensures Count(BothWait().tasks, InRegistry()) == 2
    ensures !SomeTimed(BothWait())
  {
    var none: map<TaskId, Task> := map[];
    CountUpdate(none, MAIN, Task(Own, Waiting(false)), InRegistry());
    CountUpdate(none[MAIN := Task(Own, Waiting(false))], 1, Task(Own, Waiting(false)), InRegistry());
    assert BothWait().tasks == none[MAIN := Task(Own, Waiting(false))][1 := Task(Own, Waiting(false))];
  }

  lemma ReachableHalfRead()
    ensures Reachable(BothWait().(checks := map[0 := Inspect1(Blocked(0), 2, false, true, 2), 1 := Begin(Own)], lock := Some(0)))
  {
    ReachableBothWait();
    TwoWait();
    hide Reachable, Count;
    var s0 := BothWait();
    var s1 := Apply(s0, CheckStep(0));
    ReachableNext(s0, CheckStep(0));
    ReachableNext(s1, CheckStep(0));
    assert Apply(s1, CheckStep(0)) ==
           s0.(checks := map[0 := Inspect1(Blocked(0), 2, false, true, 2), 1 := Begin(Own)], lock := Some(0));
  }

  lemma ReachableHandedOver()
    ensures Reachable(HandedOver())
  {
    hide Reachable;
    ReachableHalfRead();
    var s2 := BothWait().(checks := map[0 := Inspect1(Blocked(0), 2, false, true, 2), 1 := Begin(Own)], lock := Some(0));
    var s3 := Apply(s2, Life(HandOver(Own, 2)));
    ReachableNext(s2, Life(HandOver(Own, 2)));
    ReachableNext(s3, Life(EndExternal(Own, 2)));
    assert Apply(s3, Life(EndExternal(Own, 2))) == HandedOver();
  }

  lemma FollowsCons(s: State, a: Action, rest: seq<Action>)
    requires Enabled(s, a) && Follows(Apply(s, a), rest)
    ensures Follows(s, [a] + rest) && After(s, [a] + rest) == After(Apply(s, a), rest)
  {
    assert ([a] + rest)[1..] == rest;
  }

  lemma {:induction false} ReachableAfter(s: State, actions: seq<Action>)
    requires Reachable(s) && Follows(s, actions)
    ensures Reachable(After(s, actions))
    decreases |actions|
  {
    if actions != [] {
      ReachableNext(s, actions[0]);
      ReachableAfter(Apply(s, actions[0]), actions[1..]);
    }
  }

  /** A look whose counts agree reads on to the verdict when nothing external is counted. */
  lemma LookGoesThrough(s: State, c: nat)
    requires c in s.checks && s.checks[c].Inspect1?
    requires !s.checks[c].timed && s.checks[c].waiting == s.checks[c].live + s.outer.live
    requires s.checks[c].main.Blocked? ==> s.checks[c].mine
    requires s.own.external == 0 && s.outer.external == 0
    ensures Follows(s, [CheckStep(c), CheckStep(c), CheckStep(c)])
    ensures After(s, [CheckStep(c), CheckStep(c), CheckStep(c)]) ==
            Put(s, c, Telling(s.checks[c].main)).(lock := None)
  {
    var a, k := CheckStep(c), s.checks[c];
    var s1 := Put(s, c, Inspect2(k.main, k.mine));
    var s2 := Put(s, c, Inspect3(k.main, k.mine, 0));
    var s3 := Put(s, c, Telling(k.main)).(lock := None);
    assert Apply(s, a) == s1;
    assert Apply(s1, a) == s2;
    assert Apply(s2, a) == s3;
    assert Follows(s3, []) && After(s3, []) == s3;
    FollowsCons(s2, a, []);
    FollowsCons(s1, a, [a]);
    FollowsCons(s, a, [a, a]);
    assert [a] + [] == [a] && [a] + [a] == [a, a] && [a] + [a, a] == [a, a, a];
  }

  /** The check reads on, and is about to tell. */
  lemma ReachableTelling()
    ensures Reachable(Put(HandedOver(), 0, Telling(Blocked(0))).(lock := None))
  {
    ReachableHandedOver();
    LookGoesThrough(HandedOver(), 0);
    ReachableAfter(HandedOver(), [CheckStep(0), CheckStep(0), CheckStep(0)]);
  }

  /**
    The limit of the exactness: a thread that holds an `External` and exchanges it for a count
    as a task (`enter`, then the drop) between the read of `live` and the reads of `external`
    is in neither of them. The program's thread is then told of a deadlock while a task runs.
   */
  lemma HandOverInALookBreaksTheVerdict()
    ensures exists s :: Reachable(s) && Tells(s, 0) && !Stopped(s)
  {
    ReachableTelling();
    var s0 := Put(HandedOver(), 0, Telling(Blocked(0))).(lock := None);
    var s := Apply(s0, CheckStep(0));
    ReachableNext(s0, CheckStep(0));
    assert !AtRest(s.tasks[2]);
    assert Reachable(s) && Tells(s, 0) && !Stopped(s);
  }

  // ---------------------------------------------------------------- every run

  /** A look that will not see the task `t`, which runs: the counter that counts it has been read. */
  ghost predicate Blind(s: State, c: nat, t: TaskId) {
    && Counts(s) && MainAgrees(s) && s.lock == Some(c) && c in s.checks
    && t in s.tasks && s.tasks[t] == Task(Own, Running)
    && match s.checks[c]
       case Inspect1(main, waiting, timed, mine, live) =>
         Found(s, main, mine) && !timed && waiting == live + Count(s.tasks, WaitingIn(Outer))
       case Inspect2(main, mine) => Found(s, main, mine)
       case Inspect3(main, mine, external) => Found(s, main, mine) && external == 0
       case _ => false
  }

  ghost predicate Found(s: State, main: MainWaits, mine: bool) {
    Sought(s, main, mine) && (main.Blocked? ==> IsWaiting(s, MAIN))
  }

  /** Tasks of the outer group on their way into a wait or out of one; those that run; those about to end. */
  ghost function Moving(): Task -> bool {
    (task: Task) => task.side.Outer? && (task.phase.Entering? || task.phase.Woken?)
  }

  ghost function RunningOuter(): Task -> bool {
    (task: Task) => task.side.Outer? && task.phase.Running?
  }

  ghost function EndingOuter(): Task -> bool {
    (task: Task) => task.side.Outer? && task.phase.Ending?
  }

  /** The step by which a task of the outer group comes nearer to its end. */
  function EndStep(s: State, u: TaskId, d: nat): Action
    requires u in s.tasks
  {
    match s.tasks[u].phase
    case Running => Life(Finish(u))
    case Ending => Life(End(u, d))
    case Woken(_) => Wait(Ready(u))
    case _ => Wait(ParkOver(u, false))
  }

  lemma EndStepIsBlind(s: State, c: nat, t: TaskId, u: TaskId, d: nat)
    requires Blind(s, c, t) && s.checks[c].Inspect1? && d !in s.checks
    requires u in s.tasks && s.tasks[u].side.Outer? && !s.tasks[u].phase.Ended? && !s.tasks[u].phase.Waiting?
    ensures Enabled(s, EndStep(s, u, d)) && Blind(Apply(s, EndStep(s, u, d)), c, t)
    ensures Apply(s, EndStep(s, u, d)).checks[c] == s.checks[c]
  {
    var a := EndStep(s, u, d);
    var s' := Apply(s, a);
    if a.Life? {
      CountsKeptByLives(s, a.life);
      MainKeptByLives(s, a.life);
    } else {
      CountsKeptByWaits(s, a.step);
      MainKeptByWaits(s, a.step);
    }
    CountUpdate(s.tasks, u, s'.tasks[u], WaitingIn(Outer));
    assert s'.tasks == s.tasks[u := s'.tasks[u]];
    hide Counts, MainAgrees, Count;
  }

  lemma EndStepCounts(s: State, u: TaskId, d: nat)
    requires u in s.tasks && s.tasks[u].side.Outer? && !s.tasks[u].phase.Ended? && !s.tasks[u].phase.Waiting?
    requires Enabled(s, EndStep(s, u, d))
    ensures var s' := Apply(s, EndStep(s, u, d));
            && Count(s'.tasks, Moving()) <= Count(s.tasks, Moving())
            && (Count(s'.tasks, Moving()) == Count(s.tasks, Moving()) ==>
                  Count(s'.tasks, RunningOuter()) <= Count(s.tasks, RunningOuter()))
            && (Count(s'.tasks, Moving()) == Count(s.tasks, Moving()) &&
                Count(s'.tasks, RunningOuter()) == Count(s.tasks, RunningOuter()) ==>
                  Count(s'.tasks, EndingOuter()) < Count(s.tasks, EndingOuter()))
  {
    var s' := Apply(s, EndStep(s, u, d));
    assert s'.tasks == s.tasks[u := s'.tasks[u]];
    CountUpdate(s.tasks, u, s'.tasks[u], Moving());
    CountUpdate(s.tasks, u, s'.tasks[u], RunningOuter());
    CountUpdate(s.tasks, u, s'.tasks[u], EndingOuter());
    hide Count;
  }

  lemma EndExternalIsBlind(s: State, c: nat, t: TaskId, side: Side, d: nat)
    requires Blind(s, c, t) && GroupOf(s, side).external > 0 && d !in s.checks
    ensures var s' := Apply(s, Life(EndExternal(side, d)));
            && Blind(s', c, t) && s'.checks[c] == s.checks[c] && s'.tasks == s.tasks
            && s'.own.external + s'.outer.external == s.own.external + s.outer.external - 1
  {
    CountsKeptByLives(s, EndExternal(side, d));
    MainKeptByLives(s, EndExternal(side, d));
    hide Counts, MainAgrees, Count;
  }

  /** The look reads on, where what it reads next is as it should be. */
  lemma LookIsBlind(s: State, c: nat, t: TaskId)
    requires Blind(s, c, t) && (s.checks[c].Inspect1? || s.checks[c].Inspect2?)
    requires s.checks[c].Inspect1? ==> AllWait(s, Outer)
    requires s.checks[c].Inspect2? ==> s.own.external == 0
    ensures Enabled(s, CheckStep(c)) && Blind(Apply(s, CheckStep(c)), c, t)
    ensures Rank(Apply(s, CheckStep(c)).checks[c]) < Rank(s.checks[c])
  {
    CountsKeptByChecks(s, c);
    WaitersAreLive(s, Outer);
    hide Counts, Count;
  }

  /** The last read, and the verdict about a program in which `t` runs. */
  lemma BlindTells(s: State, c: nat, t: TaskId) returns (actions: seq<Action>)
    requires Blind(s, c, t) && s.checks[c].Inspect3? && s.outer.external == 0
    ensures (forall a :: a in actions ==> a == CheckStep(c)) && Follows(s, actions)
    ensures Tells(After(s, actions), c) && !Stopped(After(s, actions))
  {
    var a, main := CheckStep(c), s.checks[c].main;
    var s1 := Put(s, c, Telling(main)).(lock := None);
    assert Apply(s, a) == s1;
    assert !AtRest(s1.tasks[t]);
    if main.Settling? {
      actions := [a];
      assert actions[1..] == [];
      assert Follows(s1, []);
    } else {
      var s2 := Put(s1, c, Cancelling(main.wait)).(deadlock := Some(main.wait));
      assert Apply(s1, a) == s2;
      actions := [a, a];
      assert actions[1..] == [a] && [a][1..] == [];
      assert Follows(s2, []) && Follows(s1, [a]) && After(s1, [a]) == s2;
      assert !AtRest(s2.tasks[t]);
    }
  }

  /** No task but `t` runs on, every external ends, and the look reads on to its verdict. */
  lemma {:induction false} BlindLookTells(s: State, c: nat, t: TaskId) returns (actions: seq<Action>)
    requires Blind(s, c, t)
    ensures forall a :: a in actions ==> !(a.Life? && a.life.HandOver?)
    ensures Follows(s, actions) && Tells(After(s, actions), c) && !Stopped(After(s, actions))
    decreases Rank(s.checks[c]), Count(s.tasks, Moving()), Count(s.tasks, RunningOuter()), Count(s.tasks, EndingOuter()),
              s.own.external + s.outer.external
  {
    var k := s.checks[c];
    var d := BeyondAll(s.checks.Keys);
    if k.Inspect3? && s.outer.external == 0 {
      actions := BlindTells(s, c, t);
    } else {
      var a: Action;
      if k.Inspect1? && !AllWait(s, Outer) {
        var u :| u in s.tasks && s.tasks[u].side.Outer? && !s.tasks[u].phase.Ended? && !s.tasks[u].phase.Waiting?;
        a := EndStep(s, u, d);
        EndStepIsBlind(s, c, t, u, d);
        EndStepCounts(s, u, d);
      } else if k.Inspect1? || (k.Inspect2? && s.own.external == 0) {
        a := CheckStep(c);
        LookIsBlind(s, c, t);
      } else {
        var side := if k.Inspect2? then Own else Outer;
        a := Life(EndExternal(side, d));
        EndExternalIsBlind(s, c, t, side, d);
      }
      hide Blind, Count, Apply, Stopped, Tells, AllWait, Enabled;
      var rest := BlindLookTells(Apply(s, a), c, t);
      FollowsCons(s, a, rest);
      actions := [a] + rest;
    }
  }

  /** A hand-over in an open look leaves it blind for the task. */
  lemma HandOverBlinds(s: State, side: Side, t: TaskId)
    requires Inv(s) && Enabled(s, Life(HandOver(side, t))) && !Quiet(s, Life(HandOver(side, t)))
    ensures Blind(Apply(s, Life(HandOver(side, t))), s.lock.value, t)
  {
    var c := s.lock.value;
    var s' := Apply(s, Life(HandOver(side, t)));
    assert ReadsHold(s, s.checks[c]);
    CountsKeptByLives(s, HandOver(side, t));
    MainKeptByLives(s, HandOver(side, t));
    RegistryIsBothSides(s);
    CountUpdate(s.tasks, t, Task(Own, Running), WaitingIn(Outer));
    hide Counts, Count;
  }

  /**
    Exactly the hand-overs in an open look are harmful: any other keeps what makes every verdict
    right, and from each of those a wrong verdict can follow without another hand-over.
   */
  lemma HandOverExactly(s: State, side: Side, t: TaskId) returns (actions: seq<Action>)
    requires Inv(s) && Enabled(s, Life(HandOver(side, t)))
    ensures var a := Life(HandOver(side, t));
            var s' := Apply(s, a);
            if Quiet(s, a) then Inv(s')
            else
              && (forall b :: b in actions ==> !(b.Life? && b.life.HandOver?)) && Follows(s', actions)
              && Tells(After(s', actions), s.lock.value) && !Stopped(After(s', actions))
  {
    var a := Life(HandOver(side, t));
    if Quiet(s, a) {
      InvKept(s, a);
      actions := [];
    } else {
      HandOverBlinds(s, side, t);
      hide Blind, Apply, Stopped, Tells, Enabled, Inv, Quiet;
      actions := BlindLookTells(Apply(s, a), s.lock.value, t);
    }
  }

  /** So every quiet run that comes to such a hand-over goes on to a wrong verdict. */
  lemma EveryHandOverInALookBreaksIt(states: seq<State>, actions: seq<Action>, side: Side, t: TaskId)
    requires QuietRun(states, actions)
    requires var s, a := states[|states| - 1], Life(HandOver(side, t)); Enabled(s, a) && !Quiet(s, a)
    ensures exists e, c :: Reachable(e) && Tells(e, c) && !Stopped(e)
  {
    var s, a := states[|states| - 1], Life(HandOver(side, t));
    InvAlong(states, actions, |states| - 1);
    assert Reachable(s);
    hide Inv, Apply, Enabled, Quiet, Tells, Stopped, Run;
    ReachableNext(s, a);
    var rest := HandOverExactly(s, side, t);
    hide Reachable;
    ReachableAfter(Apply(s, a), rest);
    assert Reachable(After(Apply(s, a), rest)) && Tells(After(Apply(s, a), rest), s.lock.value);
  }
}
