/**
  What a late task may still do: one past its deadline, or cancelled outside of a wait. Its steps
  are counted one by one, up to `LATE_STEPS`. The code of the task is a function from the number of
  a step to how that step ends.
 */
module LateBudget {
  import opened Basics

  /** One standard slice. */
  const LATE_STEPS := 2000

  /** How one step ends. `Blocked(ready)`: with a wait, `ready` if that wait needs no waiting. */
  datatype StepResult = Yielded | Completed | Failed | Blocked(ready: bool)

  type Code = nat -> StepResult

  /** What becomes of the task. */
  datatype Fate =
    | Returned
    | Errored
    | Refused                   // ended at a wait that was not ready
    | UsedUp                    // ended where its steps were used up

  /** What the steps of `code` from number `from` come to, with `left` of them to run. */
  function FateOf(code: Code, from: nat, left: nat): (Fate, nat)
    requires left > 0
    decreases left
  {
    match code(from)
    case Completed => (Returned, 1)
    case Failed => (Errored, 1)
    case Yielded => if left == 1 then (UsedUp, 1) else Later(code, from, left)
    // The wait that the last step began is not tried.
    case Blocked(ready) => if left == 1 then (UsedUp, 1) else if ready then Later(code, from, left) else (Refused, 1)
  }

  function Later(code: Code, from: nat, left: nat): (Fate, nat)
    requires left > 1
    decreases left, 0
  {
    var (fate, steps) := FateOf(code, from + 1, left - 1);
    (fate, steps + 1)
  }

  /** The step does not end the task by itself. */
  predicate GoesOn(r: StepResult) {
    r.Yielded? || r == Blocked(true)
  }

  /**
    A late task runs at most its budget, and it is ended for having used it up exactly when
    no step of the budget returns or fails and no wait but the last step's is refused.
   */
  lemma {:induction false} BudgetIsExact(code: Code, from: nat, left: nat)
    requires left > 0
    ensures var (fate, steps) := FateOf(code, from, left);
            && 1 <= steps <= left
            && (forall i :: from <= i < from + steps - 1 ==> GoesOn(code(i)))
            && (fate.UsedUp? ==> steps == left && (code(from + left - 1).Yielded? || code(from + left - 1).Blocked?))
            && (fate.Returned? ==> code(from + steps - 1).Completed?)
            && (fate.Errored? ==> code(from + steps - 1).Failed?)
            && (fate.Refused? ==> steps < left && code(from + steps - 1) == Blocked(false))
    decreases left
  {
    if left > 1 && GoesOn(code(from)) {
      BudgetIsExact(code, from + 1, left - 1);
    }
  }

  /** The converse: a task that never returns, fails or is refused a wait is ended at exactly the last step. */
  lemma {:induction false} NeverEndingIsEnded(code: Code, from: nat, left: nat)
    requires left > 0
    requires forall i :: from <= i < from + left - 1 ==> GoesOn(code(i))
    requires code(from + left - 1).Yielded? || code(from + left - 1).Blocked?
    ensures FateOf(code, from, left) == (UsedUp, left)
    decreases left
  {
    if left > 1 {
      assert GoesOn(code(from));
      NeverEndingIsEnded(code, from + 1, left - 1);
    }
  }

  /** What the fate is depends on nothing but the steps: a slice's end in between leaves no trace. */
  lemma {:induction false} FateGoesOn(code: Code, from: nat, left: nat, ran: nat)
    requires 0 < left && ran < left
    requires forall i :: from <= i < from + ran ==> GoesOn(code(i))
    ensures FateOf(code, from, left).0 == FateOf(code, from + ran, left - ran).0
    ensures FateOf(code, from, left).1 == ran + FateOf(code, from + ran, left - ran).1
    decreases ran
  {
    if ran > 0 {
      assert GoesOn(code(from));
      FateGoesOn(code, from + 1, left - 1, ran - 1);
    }
  }

  /** What is known of the task when a slice of it begins. */
  datatype Flags = Flags(cancelled: bool, over: bool, stopped: bool)

  datatype Slice =
    | Dropped                   // it ran no slice: stopped, or cancelled before its first one
    | Again                     // it can go on: back on the queue, or on its worker
    | Over(fate: Fate)
    | Parks                     // it waits: only a task that is not late does

  /** A spawned task, with the count of its late steps to itself. */
  class Task {
    const code: Code
    var at: nat                 // the number of its next step
    var late: nat               // its handle's count
    var ran: bool

    constructor (code: Code)
      ensures this.code == code && at == 0 && late == 0 && !ran
    {
      this.code := code;
      at, late, ran := 0, 0, false;
    }

    /** Counted steps while each yields: the last is at the end of the slice or of the budget, or it ended otherwise. */
    method LateSlice(slice: nat) returns (result: StepResult, spent: bool)
      requires late < LATE_STEPS
      modifies this`at, this`late
      ensures old(at) < at && at - old(at) == late - old(late)
      ensures late <= LATE_STEPS && spent == (late == LATE_STEPS)
      ensures result == code(at - 1)
      ensures forall i :: old(at) <= i < at - 1 ==> code(i).Yielded?
      ensures result.Yielded? ==> spent || at - old(at) == if slice == 0 then 1 else slice
    {
      ghost var start := at;
      var steps := 0;
      while true
        invariant at == start + steps && late == old(late) + steps && late < LATE_STEPS
        invariant forall i :: start <= i < at ==> code(i).Yielded?
        invariant steps == 0 || steps < slice
        decreases LATE_STEPS - late
      {
        result := code(at);
        at := at + 1;
        steps := steps + 1;
        late := late + 1;
        spent := late >= LATE_STEPS;
        if !(result.Yielded? && !spent && steps < slice) {
          return;
        }
      }
    }

    /**
      One turn of the task, with what is known of it at the turn's beginning. For a task that is
      not late, `steps` and `timely` are what its turn ran and came to, and the count stays.
     */
    method RunOnce(flags: Flags, slice: nat, steps: nat, timely: Slice) returns (what: Slice)
      requires late < LATE_STEPS && !timely.Dropped?
      modifies this
      ensures what.Dropped? <==> flags.stopped || (flags.cancelled && !old(ran))
      ensures what.Dropped? ==> at == old(at) && late == old(late) && ran == old(ran)
      ensures !what.Dropped? ==> ran
      ensures !what.Dropped? && !flags.cancelled && !flags.over ==>
                late == old(late) && at == old(at) + steps && what == timely
      ensures !what.Dropped? && (flags.cancelled || flags.over) ==>
                && old(at) < at && late - old(late) == at - old(at) && late <= LATE_STEPS
                && (what.Again? ==> late < LATE_STEPS && forall i :: old(at) <= i < at ==> GoesOn(code(i)))
                && (what.Over? ==> (what.fate, late - old(late)) == FateOf(code, old(at), LATE_STEPS - old(late)))
                && !what.Parks?
    {
      if flags.stopped || (flags.cancelled && !ran) {
        return Dropped;
      }
      if !flags.cancelled && !flags.over {
        at, ran := at + steps, true;
        return timely;
      }
      ghost var start, before := at, late;
      var result, spent := LateSlice(slice);
      FateGoesOn(code, start, LATE_STEPS - before, at - start - 1);
      ran := true;
      match result {
        case Yielded => what := if spent then Over(UsedUp) else Again;
        // (Its wait is over at once, or it is refused.)
        case Blocked(ready) => what := if spent then Over(UsedUp) else if ready then Again else Over(Refused);
        case Completed => what := Over(Returned);
        case Failed => what := Over(Errored);
      }
    }

    /**
      The rest of a task that is late from here on: slice after slice, of any lengths. However
      they are cut, it comes to the fate of its steps, and the budget left is what ends the loop.
     */
    method RunLate(flags: Flags, slices: nat -> nat) returns (fate: Fate)
      requires late < LATE_STEPS && ran
      requires (flags.cancelled || flags.over) && !flags.stopped
      modifies this
      ensures (fate, late - old(late)) == FateOf(code, old(at), LATE_STEPS - old(late))
      ensures at - old(at) == late - old(late) && late <= LATE_STEPS
    {
      ghost var start, before := at, late;
      var n := 0;
      while true
        invariant ran && late < LATE_STEPS && start <= at && at - start == late - before
        invariant forall i :: start <= i < at ==> GoesOn(code(i))
        decreases LATE_STEPS - late
      {
        FateGoesOn(code, start, LATE_STEPS - before, at - start);
        var what := RunOnce(flags, slices(n), 0, Again);
        if what.Over? {
          return what.fate;
        }
        n := n + 1;
      }
    }
  }

  // ---------------------------------------------------------------- a count that tasks share

  /**
    One count that several tasks add to, those of nested deadlines. A task compares the count with
    the budget only after a step of its own, so it runs that step even if others have used the
    budget up. `active` are the tasks that have neither seen this nor ended by themselves.
   */
  datatype Shared = Shared(count: nat, active: set<nat>)

  /** A late step of a sharer, which may end it by itself; or a sharer starts another, inside its deadline. */
  datatype Move = Work(task: nat, ends: bool) | Join(parent: nat, task: nat)

  predicate CanMove(s: Shared, m: Move) {
    match m
    case Work(t, _) => t in s.active
    case Join(u, t) => u in s.active && t !in s.active
  }

  function Moved(s: Shared, m: Move, budget: nat): Shared {
    match m
    case Work(t, ends) => Shared(s.count + 1, if ends || s.count + 1 >= budget then s.active - {t} else s.active)
    case Join(_, t) => Shared(s.count, s.active + {t})
  }

  predicate Runs(s: Shared, moves: seq<Move>, budget: nat)
    decreases |moves|
  {
    moves != [] ==> CanMove(s, moves[0]) && Runs(Moved(s, moves[0], budget), moves[1..], budget)
  }

  /** The late steps of a run, and the sharers that join in it. */
  function Steps(moves: seq<Move>): nat {
    if moves == [] then 0 else (if moves[0].Work? then 1 else 0) + Steps(moves[1..])
  }

  function Joins(moves: seq<Move>): nat {
    if moves == [] then 0 else (if moves[0].Join? then 1 else 0) + Joins(moves[1..])
  }

  /** How many steps the sharers have left at most, if none joins. */
  function Most(s: Shared, budget: nat): int {
    if s.count >= budget then |s.active|
    else if s.active == {} then 0
    else budget - s.count + |s.active| - 1
  }

  /**
    Tasks with one count of `budget` run at most `budget + k - 1` late steps in all, where `k` of
    them ever have it: those that have it from the beginning, and those that join.
   */
  lemma {:induction false} SharersAreBounded(s: Shared, moves: seq<Move>, budget: nat)
    requires Runs(s, moves, budget)
    ensures Steps(moves) <= Most(s, budget) + Joins(moves)
    decreases |moves|
  {
    if moves != [] {
      var m := moves[0];
      if m.Work? {
        assert |s.active - {m.task}| == |s.active| - 1;
      } else {
        assert |s.active + {m.task}| == |s.active| + 1;
      }
      SharersAreBounded(Moved(s, m, budget), moves[1..], budget);
    }
  }

  lemma RunsCons(s: Shared, m: Move, more: seq<Move>, budget: nat)
    requires CanMove(s, m) && Runs(Moved(s, m, budget), more, budget)
    ensures var moves := [m] + more;
            && Runs(s, moves, budget)
            && Steps(moves) == Steps(more) + (if m.Work? then 1 else 0) && Joins(moves) == Joins(more) + if m.Join? then 1 else 0
  {
    assert ([m] + more)[1..] == more;
  }

  /** The bound is met: one task uses the count up, and each of the others runs one more step. */
  lemma {:induction false} SharersMeetTheBound(s: Shared, joins: nat, budget: nat) returns (moves: seq<Move>)
    requires s.active != {}
    ensures Runs(s, moves, budget) && Joins(moves) == joins && Steps(moves) == Most(s, budget) + joins
    decreases joins, Most(s, budget)
  {
    var t :| t in s.active;
    if joins > 0 {
      var u := BeyondAll(s.active);
      var m := Join(t, u);
      assert |s.active + {u}| == |s.active| + 1;
      var more := SharersMeetTheBound(Moved(s, m, budget), joins - 1, budget);
      RunsCons(s, m, more, budget);
      moves := [m] + more;
    } else {
      var m := Work(t, false);
      assert |s.active - {t}| == |s.active| - 1;
      var s' := Moved(s, m, budget);
      var more: seq<Move> := [];
      if s'.active != {} {
        more := SharersMeetTheBound(s', 0, budget);
      }
      RunsCons(s, m, more, budget);
      moves := [m] + more;
    }
  }

  /**
    All late steps together keep within the budget, whatever the tasks do, exactly when one task
    has the count to itself and none joins; with `k` of them it can be `k - 1` steps more.
   */
  lemma WithinTheBudgetExactlyAlone(tasks: set<nat>, joins: nat, budget: nat)
    requires tasks != {} && budget > 0
    ensures (forall moves :: Runs(Shared(0, tasks), moves, budget) && Joins(moves) <= joins ==> Steps(moves) <= budget)
            <==> |tasks| + joins == 1
  {
    var s := Shared(0, tasks);
    var longest := SharersMeetTheBound(s, joins, budget);
    if |tasks| + joins == 1 {
      forall moves | Runs(s, moves, budget) && Joins(moves) <= joins
        ensures Steps(moves) <= budget
      {
        SharersAreBounded(s, moves, budget);
      }
    } else {
      assert Steps(longest) > budget;
    }
  }
}
