/**
  The verdict that a check leaves for the program's thread before it cancels the thread's wait:
  that the thread finds one, and when it is the one about its own wait.
 */
module StopVerdict {
  import opened Basics
  import opened Counting
  import opened StopDetection
  import opened StopHandOver

  // ---------------------------------------------------------------- a cancelled wait finds a verdict

  ghost predicate Unregisters(a: Action) {
    a == Main(Unregister)
  }

  /** A check that is to cancel the wait there is has left its verdict. */
  ghost predicate VerdictLeft(s: State) {
    forall c :: c in s.checks && s.checks[c].Cancelling? && s.main == Some(Blocked(s.checks[c].wait)) ==> s.deadlock.Some?
  }

  lemma VerdictLeftByLives(s: State, a: LifeStep)
    requires VerdictLeft(s) && LifeEnabled(s, a)
    ensures VerdictLeft(ApplyLife(s, a)) && ApplyLife(s, a).deadlock == s.deadlock
  {
  }

  lemma VerdictLeftByWaits(s: State, a: WaitStep)
    requires VerdictLeft(s) && WaitEnabled(s, a)
    ensures VerdictLeft(ApplyWait(s, a)) && ApplyWait(s, a).deadlock == s.deadlock
  {
  }

  lemma VerdictLeftByMain(s: State, a: MainStep)
    requires Base(s) && VerdictLeft(s) && MainEnabled(s, a)
    ensures VerdictLeft(ApplyMain(s, a)) && (!a.Unregister? ==> ApplyMain(s, a).deadlock == s.deadlock)
  {
    assert NamesKnown(s);
    hide Counts, NoneMissed, LockAgrees;
  }

  lemma VerdictLeftByChecks(s: State, c: nat)
    requires VerdictLeft(s) && CheckEnabled(s, c)
    ensures VerdictLeft(StepCheck(s, c, s.checks[c])) && (s.deadlock.Some? ==> StepCheck(s, c, s.checks[c]).deadlock.Some?)
  {
    hide Count, SomeTimed;
  }

  lemma VerdictLeftKept(s: State, a: Action)
    requires Base(s) && VerdictLeft(s) && Enabled(s, a)
    ensures VerdictLeft(Apply(s, a)) && (s.deadlock.Some? && !Unregisters(a) ==> Apply(s, a).deadlock.Some?)
  {
    match a
    case Life(l) => VerdictLeftByLives(s, l);
    case Wait(w) => VerdictLeftByWaits(s, w);
    case Main(m) => VerdictLeftByMain(s, m);
    case CheckStep(c) => VerdictLeftByChecks(s, c);
    case CheckAgain(_, _) =>
  }

  lemma {:induction false} VerdictLeftAlong(states: seq<State>, actions: seq<Action>, i: nat)
    requires Run(states, actions) && i < |states|
    ensures VerdictLeft(states[i])
  {
    hide Base, Apply, Enabled;
    if i > 0 {
      VerdictLeftAlong(states, actions, i - 1);
      BaseAlong(states, actions, i - 1);
      assert Enabled(states[i - 1], actions[i - 1]);
      hide VerdictLeft;
      VerdictLeftKept(states[i - 1], actions[i - 1]);
    }
  }

  /** From the moment at which a check cancels the thread's wait until the thread looks, a verdict is there. */
  lemma {:induction false} CancelledFindsAVerdict(states: seq<State>, actions: seq<Action>, i: nat, j: nat)
    requires Run(states, actions) && i <= j < |actions| && actions[i].CheckStep?
    requires states[i].checks[actions[i].check].Cancelling? && Cancels(states[i], states[i].checks[actions[i].check].wait)
    requires forall k :: i <= k < j ==> !Unregisters(actions[k])
    ensures states[j].deadlock.Some?
    decreases j
  {
    if j == i {
      VerdictLeftAlong(states, actions, i);
      BaseAlong(states, actions, i);
      assert MainAgrees(states[i]);
      assert Enabled(states[i], actions[i]);
    } else {
      CancelledFindsAVerdict(states, actions, i, j - 1);
      VerdictLeftAlong(states, actions, j - 1);
      BaseAlong(states, actions, j - 1);
      assert Enabled(states[j - 1], actions[j - 1]);
      hide Base, Apply, Enabled, VerdictLeft;
      VerdictLeftKept(states[j - 1], actions[j - 1]);
    }
  }

  // ---------------------------------------------------------------- whose verdict it is

  /** A look that found the thread's wait in the registry holds the registry, so the wait lasts. */
  ghost predicate MineHolds(s: State) {
    forall c :: c in s.checks && Inspects(s.checks[c]) && s.checks[c].mine ==>
      s.pc == InWait(s.checks[c].main.wait) && IsWaiting(s, MAIN)
  }

  lemma MineKeptByOthers(s: State, a: Action)
    requires LockAgrees(s) && MainAgrees(s) && MineHolds(s) && Enabled(s, a) && !a.CheckStep?
    ensures MineHolds(Apply(s, a))
  {
    var s' := Apply(s, a);
    forall c | c in s'.checks && Inspects(s'.checks[c]) && s'.checks[c].mine
      ensures s'.pc == InWait(s'.checks[c].main.wait) && IsWaiting(s', MAIN)
    {
      OtherChecks(s, a, c);
      MainStays(s, a);
    }
  }

  /** While the registry is held, a wait of the program's thread goes on. */
  lemma MainStays(s: State, a: Action)
    requires MainAgrees(s) && Enabled(s, a) && !a.CheckStep? && s.lock.Some? && IsWaiting(s, MAIN)
    ensures Apply(s, a).pc == s.pc && IsWaiting(Apply(s, a), MAIN)
  {
  }

  lemma MineKeptByChecks(s: State, d: nat)
    requires LockAgrees(s) && MainAgrees(s) && MineHolds(s) && CheckEnabled(s, d)
    ensures MineHolds(StepCheck(s, d, s.checks[d]))
  {
    hide Count, SomeTimed;
    var s' := StepCheck(s, d, s.checks[d]);
    forall c | c in s'.checks && Inspects(s'.checks[c]) && s'.checks[c].mine
      ensures s'.pc == InWait(s'.checks[c].main.wait) && IsWaiting(s', MAIN)
    {
      assert c != d ==> c in s.checks && s'.checks[c] == s.checks[c];
    }
  }

  /** A check that is about to leave a verdict about another wait than `w`. */
  ghost predicate Stale(k: Check, w: nat) {
    k.Telling? && k.main.Blocked? && k.main.wait != w
  }

  ghost predicate NoneStale(s: State, w: nat) {
    forall c :: c in s.checks ==> !Stale(s.checks[c], w)
  }

  /** The thread waits in `w`, and what it will find is about `w`. */
  ghost predicate OwnVerdict(s: State, w: nat) {
    s.main == Some(Blocked(w)) && s.deadlock == Some(w) && NoneStale(s, w)
  }

  lemma OwnVerdictByOthers(s: State, a: Action, w: nat)
    requires MainAgrees(s) && OwnVerdict(s, w) && Enabled(s, a) && !a.CheckStep? && !Unregisters(a)
    ensures OwnVerdict(Apply(s, a), w)
  {
    forall c | c in Apply(s, a).checks
      ensures !Stale(Apply(s, a).checks[c], w)
    {
      OtherChecks(s, a, c);
    }
    WaitStays(s, a);
  }

  lemma WaitStays(s: State, a: Action)
    requires MainAgrees(s) && Enabled(s, a) && !a.CheckStep? && !Unregisters(a) && s.main.Some? && s.main.value.Blocked?
    ensures Apply(s, a).main == s.main && Apply(s, a).deadlock == s.deadlock
  {
  }

  lemma OwnVerdictByChecks(s: State, d: nat, w: nat)
    requires MainAgrees(s) && MineHolds(s) && OwnVerdict(s, w) && CheckEnabled(s, d)
    ensures OwnVerdict(StepCheck(s, d, s.checks[d]), w)
  {
    hide Count, SomeTimed;
    var s' := StepCheck(s, d, s.checks[d]);
    assert !Stale(s.checks[d], w);
    forall c | c in s'.checks
      ensures !Stale(s'.checks[c], w)
    {
      assert c != d ==> c in s.checks && s'.checks[c] == s.checks[c];
    }
  }

  ghost predicate Steady(s: State) {
    Base(s) && MineHolds(s)
  }

  lemma SteadyKept(s: State, a: Action)
    requires Steady(s) && Enabled(s, a)
    ensures Steady(Apply(s, a))
  {
    BaseKept(s, a);
    assert LockAgrees(s) && MainAgrees(s);
    hide Base, LockAgrees, MainAgrees, Counts;
    if a.CheckStep? {
      MineKeptByChecks(s, a.check);
    } else {
      MineKeptByOthers(s, a);
    }
  }

  lemma {:induction false} SteadyAlong(states: seq<State>, actions: seq<Action>, i: nat)
    requires Run(states, actions) && i < |states|
    ensures Steady(states[i])
  {
    hide Base, Apply, Enabled;
    if i == 0 {
      InvInit(states[0]);
    } else {
      SteadyAlong(states, actions, i - 1);
      assert Enabled(states[i - 1], actions[i - 1]);
      hide Steady;
      SteadyKept(states[i - 1], actions[i - 1]);
    }
  }

  lemma {:induction false} OwnVerdictLasts(s: State, w: nat, actions: seq<Action>)
    requires Steady(s) && OwnVerdict(s, w) && Follows(s, actions) && forall a :: a in actions ==> !Unregisters(a)
    ensures After(s, actions).deadlock == Some(w)
    decreases |actions|
  {
    if actions != [] {
      var a := actions[0];
      SteadyKept(s, a);
      assert MainAgrees(s) && MineHolds(s);
      if a.CheckStep? {
        OwnVerdictByChecks(s, a.check, w);
      } else {
        OwnVerdictByOthers(s, a, w);
      }
      hide Steady, OwnVerdict, Apply, Enabled;
      OwnVerdictLasts(Apply(s, a), w, actions[1..]);
    }
  }

  /**
    In every run: the verdict that was left about the wait `w` is what the thread finds, however the
    run goes on, exactly if no check is left that is about to tell it of another wait.
   */
  lemma OwnVerdictExactly(states: seq<State>, actions: seq<Action>, i: nat, w: nat)
    requires Run(states, actions) && i < |states| && states[i].main == Some(Blocked(w)) && states[i].deadlock == Some(w)
    ensures (forall more :: Follows(states[i], more) && (forall a :: a in more ==> !Unregisters(a)) ==>
               After(states[i], more).deadlock == Some(w))
            <==> NoneStale(states[i], w)
  {
    var s := states[i];
    SteadyAlong(states, actions, i);
    hide Steady, Run;
    if NoneStale(s, w) {
      forall more | Follows(s, more) && forall a :: a in more ==> !Unregisters(a)
        ensures After(s, more).deadlock == Some(w)
      {
        OwnVerdictLasts(s, w, more);
      }
    } else {
      var c :| c in s.checks && Stale(s.checks[c], w);
      var s' := Apply(s, CheckStep(c));
      assert Follows(s', []) && After(s', []) == s';
      FollowsCons(s, CheckStep(c), []);
      assert After(s, [CheckStep(c)] + []).deadlock == Some(s.checks[c].main.wait);
    }
  }

  // ---------------------------------------------------------------- a verdict about an earlier wait

  /** The program's thread waits in `w`, and has no tasks. */
  ghost function Lonely(w: nat, deadlock: Option<nat>, checks: map<nat, Check>): State {
    State(map[MAIN := Task(Own, Waiting(false))], Group(1, 0, 1), Group(0, 0, 0),
          Some(Blocked(w)), InWait(w), w + 1, {}, deadlock, checks, None)
  }

  lemma LonelyCounts(w: nat, deadlock: Option<nat>, checks: map<nat, Check>)
    ensures Count(Lonely(w, deadlock, checks).tasks, InRegistry()) == 1 && !SomeTimed(Lonely(w, deadlock, checks))
  {
    var none: map<TaskId, Task> := map[];
    CountUpdate(none, MAIN, Task(Own, Waiting(false)), InRegistry());
    assert Lonely(w, deadlock, checks).tasks == none[MAIN := Task(Own, Waiting(false))];
  }

  /** A check that begins in that state passes the looks without a lock. */
  lemma LonelyLooks(w: nat, deadlock: Option<nat>, checks: map<nat, Check>, c: nat)
    requires c in checks && checks[c] == Begin(Own) && Reachable(Lonely(w, deadlock, checks))
    ensures Reachable(Lonely(w, deadlock, checks[c := Looking(Blocked(w))]))
  {
    hide Reachable;
    var s0, a := Lonely(w, deadlock, checks), CheckStep(c);
    ReachableNext(s0, a);
    var s1 := Put(s0, c, SawParking(Own, 1));
    assert Apply(s0, a) == s1;
    ReachableNext(s1, a);
    var s2 := Put(s0, c, Parked(Own));
    assert Apply(s1, a) == s2;
    ReachableNext(s2, a);
    var s3 := Put(s0, c, SawMain(Own, Blocked(w)));
    assert Apply(s2, a) == s3;
    ReachableNext(s3, a);
    assert Apply(s3, a) == Lonely(w, deadlock, checks[c := Looking(Blocked(w))]);
  }

  /** And then looks at the registry, and is about to tell. */
  lemma LonelyTells(w: nat, deadlock: Option<nat>, checks: map<nat, Check>, c: nat)
    requires c in checks && checks[c] == Begin(Own) && Reachable(Lonely(w, deadlock, checks))
    ensures Reachable(Lonely(w, deadlock, checks[c := Telling(Blocked(w))]))
  {
    LonelyLooks(w, deadlock, checks, c);
    LonelyCounts(w, deadlock, checks[c := Looking(Blocked(w))]);
    hide Reachable, Count;
    var s0, a := Lonely(w, deadlock, checks[c := Looking(Blocked(w))]), CheckStep(c);
    ReachableNext(s0, a);
    var s1 := Put(s0, c, Inspect0(Blocked(w), 1, false, true)).(lock := Some(c));
    assert Apply(s0, a) == s1;
    ReachableNext(s1, a);
    var s2 := Put(s1, c, Inspect1(Blocked(w), 1, false, true, 1));
    assert Apply(s1, a) == s2;
    LookGoesThrough(s2, c);
    ReachableAfter(s2, [a, a, a]);
    assert Put(s2, c, Telling(Blocked(w))).(lock := None) == Lonely(w, deadlock, checks[c := Telling(Blocked(w))]);
  }

  lemma FirstWait()
    ensures Reachable(Lonely(0, None, map[0 := Begin(Own)]))
  {
    var s0 := State(map[MAIN := Task(Own, Running)], Group(1, 0, 0), Group(0, 0, 0),
                    None, Code, 0, {}, None, map[], None);
    var states: seq<State>, actions: seq<Action> := [s0], [];
    assert Run(states, actions);
    assert Reachable(s0);
    hide Reachable;
    var s1 := Apply(s0, Main(Register));
    ReachableNext(s0, Main(Register));
    var s2 := Apply(s1, Wait(ParkBegin(MAIN)));
    ReachableNext(s1, Wait(ParkBegin(MAIN)));
    ReachableNext(s2, Wait(ParkCommit(MAIN, false, 0)));
    assert Apply(s2, Wait(ParkCommit(MAIN, false, 0))) == Lonely(0, None, map[0 := Begin(Own)]);
  }

  /** Two checks are about to tell of the thread's first wait. */
  lemma TwoTell()
    ensures Reachable(Lonely(0, None, map[0 := Telling(Blocked(0)), 1 := Telling(Blocked(0))]))
  {
    hide Reachable;
    FirstWait();
    LonelyTells(0, None, map[0 := Begin(Own)], 0);
    var s := Lonely(0, None, map[0 := Telling(Blocked(0))]);
    assert map[0 := Begin(Own)][0 := Telling(Blocked(0))] == map[0 := Telling(Blocked(0))];
    ReachableNext(s, CheckAgain(Own, 1));
    var two := map[0 := Telling(Blocked(0)), 1 := Begin(Own)];
    assert Apply(s, CheckAgain(Own, 1)) == Lonely(0, None, two);
    LonelyTells(0, None, two, 1);
    assert two[1 := Telling(Blocked(0))] == map[0 := Telling(Blocked(0)), 1 := Telling(Blocked(0))];
  }

  /** One of them ends that wait; the thread waits again, and another check has begun. */
  lemma SecondWait()
    ensures Reachable(Lonely(1, None, map[1 := Telling(Blocked(0)), 2 := Begin(Own)]))
  {
    TwoTell();
    hide Reachable;
    var s0 := Lonely(0, None, map[0 := Telling(Blocked(0)), 1 := Telling(Blocked(0))]);
    var s1 := Apply(s0, CheckStep(0));
    ReachableNext(s0, CheckStep(0));
    var s2 := Apply(s1, CheckStep(0));
    ReachableNext(s1, CheckStep(0));
    assert s2.checks == map[1 := Telling(Blocked(0))];
    var s3 := Apply(s2, Wait(Ready(MAIN)));
    ReachableNext(s2, Wait(Ready(MAIN)));
    var s4 := Apply(s3, Main(Unregister));
    ReachableNext(s3, Main(Unregister));
    WaitsAgain(s4);
  }

  lemma WaitsAgain(s: State)
    requires Reachable(s)
    requires s == State(map[MAIN := Task(Own, Running)], Group(1, 0, 0), Group(0, 0, 0),
                        None, Code, 1, {}, None, map[1 := Telling(Blocked(0))], None)
    ensures Reachable(Lonely(1, None, map[1 := Telling(Blocked(0)), 2 := Begin(Own)]))
  {
    hide Reachable;
    var s1 := Apply(s, Main(Register));
    ReachableNext(s, Main(Register));
    var s2 := Apply(s1, Wait(ParkBegin(MAIN)));
    ReachableNext(s1, Wait(ParkBegin(MAIN)));
    ReachableNext(s2, Wait(ParkCommit(MAIN, false, 2)));
    assert Apply(s2, Wait(ParkCommit(MAIN, false, 2))) == Lonely(1, None, map[1 := Telling(Blocked(0)), 2 := Begin(Own)]);
  }

  /** The slower of two checks of the first wait writes over the verdict about the second. */
  lemma VerdictOfAnEarlierWait()
    ensures exists s :: Reachable(s) && Tells(s, 2) && s.checks[2] == Cancelling(1) && s.deadlock == Some(0)
  {
    SecondWait();
    LonelyTells(1, None, map[1 := Telling(Blocked(0)), 2 := Begin(Own)], 2);
    hide Reachable;
    var both := map[1 := Telling(Blocked(0)), 2 := Telling(Blocked(1))];
    assert map[1 := Telling(Blocked(0)), 2 := Begin(Own)][2 := Telling(Blocked(1))] == both;
    var s0 := Lonely(1, None, both);
    var s1 := Apply(s0, CheckStep(2));
    ReachableNext(s0, CheckStep(2));
    var s2 := Apply(s1, CheckStep(1));
    ReachableNext(s1, CheckStep(1));
    assert Tells(s2, 2) && s2.checks[2] == Cancelling(1) && s2.deadlock == Some(0);
  }
}
