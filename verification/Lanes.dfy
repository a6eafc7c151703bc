/**
 * The concurrency limits around the backend: one semaphore for in-session commands, one for control
 * operations, and the slot lock. A task is what it still has to take and give back; everything it does
 * in between always ends, because every backend call has a timeout.
 */
module Lanes {
  import opened Common

  datatype Lane = ExecLane | ControlLane

  datatype Action = TakeLock | FreeLock | Take(lane: Lane) | Free(lane: Lane)

  datatype Task = Task(todo: seq<Action>, locked: bool, holding: Option<Lane>)

  /** Permits left in each semaphore, the slot lock, and every task of the replica. */
  datatype State = State(execFree: nat, controlFree: nat, lockFree: bool, tasks: seq<Task>)

  const CONTROL_PERMITS: nat := 8

  // ----- What each operation takes -----

  /** `async with lane: call` */
  function Call(lane: Lane): seq<Action> {
    [Take(lane), Free(lane)]
  }

  /** docker `exec`; `confirm` when its error looks like a missing container. */
  function DockerExec(confirm: bool): seq<Action> {
    Call(ExecLane) + (if confirm then Call(ControlLane) else [])
  }

  /** `acquire`: nothing without a cap; under the lock, a docker recount uses the control lane and a
      Kubernetes one uses none. */
  function AcquireSlot(capped: bool, recountOnLane: bool): seq<Action> {
    if !capped then []
    else [TakeLock] + (if recountOnLane then Call(ControlLane) else []) + [FreeLock]
  }

  /** Creating: the slot, then the control lane for the backend call; on Kubernetes a failed readiness
      wait, itself outside the lane, adds a delete. */
  function CreateSession(capped: bool, recountOnLane: bool, admitted: bool, cleanup: bool): seq<Action> {
    AcquireSlot(capped, recountOnLane)
    + (if admitted then Call(ControlLane) + (if cleanup then Call(ControlLane) else []) else [])
  }

  function DestroySession(): seq<Action> {
    Call(ControlLane)
  }

  /** docker `preflight`: two commands on the exec lane, the second only if the daemon answers. On
      Kubernetes it takes no lane, and neither does the sweep of finished pods. */
  function DockerPreflight(reachable: bool): seq<Action> {
    Call(ExecLane) + (if reachable then Call(ExecLane) else [])
  }

  // ----- The discipline every operation keeps -----

  /** While a task holds a lane it asks for nothing; while it holds the slot lock it asks for at most
      the control lane; it ends with nothing in hand. */
  predicate Disciplined(t: Task)
    decreases |t.todo|
  {
    if t.todo == [] then !t.locked && t.holding == None
    else
      var rest := t.todo[1..];
      match t.todo[0]
      case TakeLock => !t.locked && t.holding == None && Disciplined(Task(rest, true, None))
      case FreeLock => t.locked && t.holding == None && Disciplined(Task(rest, false, None))
      case Take(lane) =>
        t.holding == None && (t.locked ==> lane == ControlLane) && Disciplined(Task(rest, t.locked, Some(lane)))
      case Free(lane) =>
        t.holding == Some(lane) && (t.locked ==> lane == ControlLane) && Disciplined(Task(rest, t.locked, None))
  }

  lemma CallThen(lane: Lane, rest: seq<Action>, locked: bool)
    requires (locked ==> lane == ControlLane) && Disciplined(Task(rest, locked, None))
    ensures Disciplined(Task(Call(lane) + rest, locked, None))
  {
    var t := Call(lane) + rest;
    assert t[1..] == [Free(lane)] + rest;
    assert t[1..][1..] == rest;
  }

  lemma AcquireThen(capped: bool, recountOnLane: bool, rest: seq<Action>)
    requires Disciplined(Task(rest, false, None))
    ensures Disciplined(Task(AcquireSlot(capped, recountOnLane) + rest, false, None))
  {
    if capped {
      var unlock := [FreeLock] + rest;
      assert unlock[1..] == rest;
      assert Disciplined(Task(unlock, true, None));
      if recountOnLane {
        CallThen(ControlLane, unlock, true);
        var t := AcquireSlot(capped, recountOnLane) + rest;
        assert t[1..] == Call(ControlLane) + unlock;
      } else {
        var t := AcquireSlot(capped, recountOnLane) + rest;
        assert t[1..] == unlock;
      }
    } else {
      assert AcquireSlot(capped, recountOnLane) + rest == rest;
    }
  }

  /** Every operation of either provider keeps the discipline. */
  lemma OperationsAreDisciplined(capped: bool, recountOnLane: bool, admitted: bool, cleanup: bool, confirm: bool,
                                 reachable: bool)
    ensures Disciplined(Task(DockerPreflight(reachable), false, None))
    ensures Disciplined(Task(DockerExec(confirm), false, None))
    ensures Disciplined(Task(CreateSession(capped, recountOnLane, admitted, cleanup), false, None))
    ensures Disciplined(Task(DestroySession(), false, None))
  {
    assert Disciplined(Task([], false, None));
    CallThen(ControlLane, [], false);
    assert Call(ControlLane) + [] == Call(ControlLane);
    CallThen(ControlLane, Call(ControlLane), false);
    CallThen(ExecLane, [], false);
    CallThen(ExecLane, Call(ControlLane), false);
    CallThen(ExecLane, Call(ExecLane), false);
    var rest := if admitted then Call(ControlLane) + (if cleanup then Call(ControlLane) else []) else [];
    AcquireThen(capped, recountOnLane, rest);
  }

  // ----- Steps -----

  function FreePermits(s: State, lane: Lane): nat {
    if lane == ExecLane then s.execFree else s.controlFree
  }

  function WithPermits(s: State, lane: Lane, n: nat): State {
    if lane == ExecLane then s.(execFree := n) else s.(controlFree := n)
  }

  /** Task `i` can perform its next action now. */
  predicate CanStep(s: State, i: nat) {
    i < |s.tasks| && s.tasks[i].todo != []
    && match s.tasks[i].todo[0]
       case TakeLock => s.lockFree
       case Take(lane) => FreePermits(s, lane) > 0
       case FreeLock => true
       case Free(_) => true
  }

  function Step(s: State, i: nat): State
    requires CanStep(s, i)
  {
    var t := s.tasks[i];
    var rest := t.todo[1..];
    match t.todo[0]
    case TakeLock => s.(lockFree := false, tasks := s.tasks[i := Task(rest, true, t.holding)])
    case FreeLock => s.(lockFree := true, tasks := s.tasks[i := Task(rest, false, t.holding)])
    case Take(lane) =>
      WithPermits(s, lane, FreePermits(s, lane) - 1).(tasks := s.tasks[i := Task(rest, t.locked, Some(lane))])
    case Free(lane) =>
      WithPermits(s, lane, FreePermits(s, lane) + 1).(tasks := s.tasks[i := Task(rest, t.locked, None)])
  }

  /** A cancelled task leaves its `async with` blocks, giving back what it holds, and asks for nothing
      more. */
  function Cancel(s: State, i: nat): State
    requires i < |s.tasks|
  {
    var t := s.tasks[i];
    var s1 := if t.holding.Some? then WithPermits(s, t.holding.value, FreePermits(s, t.holding.value) + 1) else s;
    var s2 := if t.locked then s1.(lockFree := true) else s1;
    s2.(tasks := s.tasks[i := Task([], false, None)])
  }

  /** Task `i` is inside the recount, waiting for the lane or holding it. */
  predicate InRecount(t: Task) {
    t.locked && t.todo != [] && (t.todo[0].Take? || t.todo[0].Free?)
  }

  /** The recount times out: it is cancelled where it is, and `acquire` goes on under the lock. */
  function TimeOut(s: State, i: nat): State
    requires i < |s.tasks| && InRecount(s.tasks[i])
  {
    var t := s.tasks[i];
    var rest := t.todo[1..];
    if t.todo[0].Take? then s.(tasks := s.tasks[i := Task(if rest == [] then [] else rest[1..], true, None)])
    else WithPermits(s, t.todo[0].lane, FreePermits(s, t.todo[0].lane) + 1).(tasks := s.tasks[i := Task(rest, true, None)])
  }

  datatype Event = Advance(i: nat) | Cancelled(i: nat) | TimedOut(i: nat) | Arrive(todo: seq<Action>)

  predicate Enabled(s: State, e: Event) {
    match e
    case Advance(i) => CanStep(s, i)
    case Cancelled(i) => i < |s.tasks|
    case TimedOut(i) => i < |s.tasks| && InRecount(s.tasks[i])
    case Arrive(todo) => Disciplined(Task(todo, false, None))
  }

  function Apply(s: State, e: Event): State
    requires Enabled(s, e)
  {
    match e
    case Advance(i) => Step(s, i)
    case Cancelled(i) => Cancel(s, i)
    case TimedOut(i) => TimeOut(s, i)
    case Arrive(todo) => s.(tasks := s.tasks + [Task(todo, false, None)])
  }

  function RunFrom(s: State, es: seq<Event>): Option<State>
    decreases |es|
  {
    if es == [] then Some(s)
    else if Enabled(s, es[0]) then RunFrom(Apply(s, es[0]), es[1..])
    else None
  }

  // ----- Permits are conserved -----

  function Holders(tasks: seq<Task>, lane: Lane): nat {
    if tasks == [] then 0
    else (if tasks[0].holding == Some(lane) then 1 else 0) + Holders(tasks[1..], lane)
  }

  function Lockers(tasks: seq<Task>): nat {
    if tasks == [] then 0 else (if tasks[0].locked then 1 else 0) + Lockers(tasks[1..])
  }

  ghost predicate Valid(s: State, execPermits: nat) {
    s.execFree + Holders(s.tasks, ExecLane) == execPermits
    && s.controlFree + Holders(s.tasks, ControlLane) == CONTROL_PERMITS
    && (if s.lockFree then 0 else 1) == Lockers(s.tasks)
    && forall i :: 0 <= i < |s.tasks| ==> Disciplined(s.tasks[i])
  }

  lemma {:induction false} Replaced(tasks: seq<Task>, i: nat, t: Task, lane: Lane)
    requires i < |tasks|
    ensures Holders(tasks[i := t], lane)
         == Holders(tasks, lane) - (if tasks[i].holding == Some(lane) then 1 else 0)
            + (if t.holding == Some(lane) then 1 else 0)
    ensures Lockers(tasks[i := t]) == Lockers(tasks) - (if tasks[i].locked then 1 else 0) + (if t.locked then 1 else 0)
  {
    var updated := tasks[i := t];
    if i == 0 {
      assert updated[1..] == tasks[1..];
    } else {
      Replaced(tasks[1..], i - 1, t, lane);
      assert updated[1..] == tasks[1..][i - 1 := t];
    }
  }

  lemma {:induction false} Appended(tasks: seq<Task>, t: Task, lane: Lane)
    requires t.holding == None && !t.locked
    ensures Holders(tasks + [t], lane) == Holders(tasks, lane) && Lockers(tasks + [t]) == Lockers(tasks)
  {
    if tasks == [] {
      assert tasks + [t] == [t] && [t][1..] == [];
    } else {
      Appended(tasks[1..], t, lane);
      assert (tasks + [t])[1..] == tasks[1..] + [t];
    }
  }

  /** What follows the recount is as disciplined without it. */
  lemma RecountAbandoned(t: Task)
    requires Disciplined(t) && InRecount(t)
    ensures t.todo[0].Take? ==> |t.todo| >= 2 && t.holding == None && Disciplined(Task(t.todo[2..], true, None))
    ensures t.todo[0].Free? ==> t.holding == Some(t.todo[0].lane) && Disciplined(Task(t.todo[1..], true, None))
  {
    if t.todo[0].Take? {
      var taken := Task(t.todo[1..], true, Some(t.todo[0].lane));
      assert Disciplined(taken);
      assert taken.todo[1..] == t.todo[2..];
    }
  }

  /** A change to one task that gives or takes what the permits say keeps the state valid. */
  lemma ReplacedValid(s: State, i: nat, t: Task, after: State, execPermits: nat)
    requires Valid(s, execPermits) && i < |s.tasks| && Disciplined(t) && after.tasks == s.tasks[i := t]
    requires after.execFree - s.execFree == Held(s.tasks[i], ExecLane) - Held(t, ExecLane)
    requires after.controlFree - s.controlFree == Held(s.tasks[i], ControlLane) - Held(t, ControlLane)
    requires (if after.lockFree then 0 else 1) - (if s.lockFree then 0 else 1)
          == (if t.locked then 1 else 0) - (if s.tasks[i].locked then 1 else 0)
    ensures Valid(after, execPermits)
  {
    Replaced(s.tasks, i, t, ExecLane);
    Replaced(s.tasks, i, t, ControlLane);
  }

  function Held(t: Task, lane: Lane): nat {
    if t.holding == Some(lane) then 1 else 0
  }

  lemma {:induction false} SomeLock(tasks: seq<Task>, i: nat)
    requires i < |tasks| && tasks[i].locked
    ensures Lockers(tasks) >= 1
  {
    if i > 0 {
      SomeLock(tasks[1..], i - 1);
    }
  }

  lemma StepValid(s: State, i: nat, execPermits: nat)
    requires Valid(s, execPermits) && CanStep(s, i)
    ensures Valid(Step(s, i), execPermits)
  {
    assert Disciplined(s.tasks[i]);
    if s.tasks[i].locked {
      SomeLock(s.tasks, i);
    }
    ReplacedValid(s, i, Step(s, i).tasks[i], Step(s, i), execPermits);
  }

  lemma CancelValid(s: State, i: nat, execPermits: nat)
    requires Valid(s, execPermits) && i < |s.tasks|
    ensures Valid(Cancel(s, i), execPermits)
  {
    if s.tasks[i].locked {
      SomeLock(s.tasks, i);
    }
    assert Disciplined(Task([], false, None));
    ReplacedValid(s, i, Task([], false, None), Cancel(s, i), execPermits);
  }

  lemma TimeOutValid(s: State, i: nat, execPermits: nat)
    requires Valid(s, execPermits) && i < |s.tasks| && InRecount(s.tasks[i])
    ensures Valid(TimeOut(s, i), execPermits)
  {
    assert Disciplined(s.tasks[i]);
    RecountAbandoned(s.tasks[i]);
    ReplacedValid(s, i, TimeOut(s, i).tasks[i], TimeOut(s, i), execPermits);
  }

  lemma ArriveValid(s: State, todo: seq<Action>, execPermits: nat)
    requires Valid(s, execPermits) && Disciplined(Task(todo, false, None))
    ensures Valid(s.(tasks := s.tasks + [Task(todo, false, None)]), execPermits)
  {
    Appended(s.tasks, Task(todo, false, None), ExecLane);
    Appended(s.tasks, Task(todo, false, None), ControlLane);
  }

  lemma ApplyValid(s: State, e: Event, execPermits: nat)
    requires Valid(s, execPermits) && Enabled(s, e)
    ensures Valid(Apply(s, e), execPermits)
  {
    match e
    case Advance(i) => StepValid(s, i, execPermits);
    case Cancelled(i) => CancelValid(s, i, execPermits);
    case TimedOut(i) => TimeOutValid(s, i, execPermits);
    case Arrive(todo) => ArriveValid(s, todo, execPermits);
  }

  /** In every reachable state, cancellations included, the permits out are exactly the lanes held: at
      most `execPermits` commands and 8 control operations are in flight, and the slot lock has at most
      one owner. */
  lemma {:induction false} LanesAreBounded(s: State, es: seq<Event>, execPermits: nat)
    requires Valid(s, execPermits) && RunFrom(s, es).Some?
    ensures var after := RunFrom(s, es).value;
            Valid(after, execPermits)
            && Holders(after.tasks, ExecLane) <= execPermits
            && Holders(after.tasks, ControlLane) <= CONTROL_PERMITS
            && Lockers(after.tasks) <= 1
    decreases |es|
  {
    if es != [] {
      ApplyValid(s, es[0], execPermits);
      LanesAreBounded(Apply(s, es[0]), es[1..], execPermits);
    }
  }

  /** So from a start with every permit free and no task, the bounds hold along every run. */
  lemma LanesAreBoundedFromIdle(execPermits: nat, es: seq<Event>)
    ensures var run := RunFrom(State(execPermits, CONTROL_PERMITS, true, []), es);
            run.Some? ==>
              Holders(run.value.tasks, ExecLane) <= execPermits
              && Holders(run.value.tasks, ControlLane) <= CONTROL_PERMITS
              && Lockers(run.value.tasks) <= 1
  {
    var idle := State(execPermits, CONTROL_PERMITS, true, []);
    assert Valid(idle, execPermits);
    if RunFrom(idle, es).Some? {
      LanesAreBounded(idle, es, execPermits);
    }
  }

  // ----- No deadlock -----

  /** Whoever holds a lane waits for nothing: its next action gives the lane back. */
  lemma HolderNeverWaits(s: State, execPermits: nat, i: nat)
    requires Valid(s, execPermits) && i < |s.tasks| && s.tasks[i].holding.Some?
    ensures CanStep(s, i) && s.tasks[i].todo[0] == Free(s.tasks[i].holding.value)
  {
    assert Disciplined(s.tasks[i]);
  }

  lemma {:induction false} SomeHolder(tasks: seq<Task>, lane: Lane) returns (i: nat)
    requires Holders(tasks, lane) > 0
    ensures i < |tasks| && tasks[i].holding == Some(lane)
  {
    if tasks[0].holding == Some(lane) {
      i := 0;
    } else {
      i := SomeHolder(tasks[1..], lane);
      i := i + 1;
    }
  }

  lemma {:induction false} SomeLocker(tasks: seq<Task>) returns (i: nat)
    requires Lockers(tasks) > 0
    ensures i < |tasks| && tasks[i].locked
  {
    if tasks[0].locked {
      i := 0;
    } else {
      i := SomeLocker(tasks[1..]);
      i := i + 1;
    }
  }

  /** Deadlock freedom: as long as any task has something left to do, some task can do its next action. */
  lemma SomeoneCanStep(s: State, execPermits: nat, waiting: nat) returns (i: nat)
    requires Valid(s, execPermits) && execPermits > 0
    requires waiting < |s.tasks| && s.tasks[waiting].todo != []
    ensures CanStep(s, i)
  {
    if Holders(s.tasks, ExecLane) > 0 {
      i := SomeHolder(s.tasks, ExecLane);
      HolderNeverWaits(s, execPermits, i);
    } else if Holders(s.tasks, ControlLane) > 0 {
      i := SomeHolder(s.tasks, ControlLane);
      HolderNeverWaits(s, execPermits, i);
    } else {
      i := waiting;
      if !s.lockFree {
        i := SomeLocker(s.tasks);
      }
      assert Disciplined(s.tasks[i]);
    }
  }

  /** Actions left in all tasks together. */
  function Remaining(tasks: seq<Task>): nat {
    if tasks == [] then 0 else |tasks[0].todo| + Remaining(tasks[1..])
  }

  lemma {:induction false} StepShrinks(tasks: seq<Task>, i: nat, t: Task)
    requires i < |tasks| && |t.todo| < |tasks[i].todo|
    ensures Remaining(tasks[i := t]) < Remaining(tasks)
  {
    if i == 0 {
      assert tasks[i := t][1..] == tasks[1..];
    } else {
      StepShrinks(tasks[1..], i - 1, t);
      assert tasks[i := t][1..] == tasks[1..][i - 1 := t];
    }
  }

  /** Whatever the schedule, it is over after at most `Remaining` steps; and it cannot be over while a
      task still has something to do. So every schedule of the tasks present that is carried on as long
      as anyone can step ends with all of them finished. */
  lemma {:induction false} EveryScheduleEnds(s: State, es: seq<Event>, execPermits: nat)
    requires Valid(s, execPermits) && execPermits > 0 && RunFrom(s, es).Some?
    requires forall k :: 0 <= k < |es| ==> es[k].Advance? || es[k].TimedOut?
    ensures var after := RunFrom(s, es).value;
            |es| + Remaining(after.tasks) <= Remaining(s.tasks)
            && ((forall i :: !CanStep(after, i)) ==>
                  forall k :: 0 <= k < |after.tasks| ==> after.tasks[k] == Task([], false, None))
    decreases |es|
  {
    if es == [] {
      forall k | 0 <= k < |s.tasks| && forall i :: !CanStep(s, i)
        ensures s.tasks[k] == Task([], false, None)
      {
        assert Disciplined(s.tasks[k]);
        if s.tasks[k].todo != [] {
          var i := SomeoneCanStep(s, execPermits, k);
          assert false;
        }
      }
    } else {
      var next := Apply(s, es[0]);
      var i := es[0].i;
      ApplyValid(s, es[0], execPermits);
      StepShrinks(s.tasks, i, next.tasks[i]);
      assert next.tasks == s.tasks[i := next.tasks[i]];
      EveryScheduleEnds(next, es[1..], execPermits);
    }
  }

  /** From every valid state there is such a schedule, and at its end every permit is back. */
  lemma {:induction false} EveryoneFinishes(s: State, execPermits: nat) returns (es: seq<Event>)
    requires Valid(s, execPermits) && execPermits > 0
    ensures RunFrom(s, es).Some? && |es| <= Remaining(s.tasks)
    ensures forall k :: 0 <= k < |es| ==> es[k].Advance?
    ensures var after := RunFrom(s, es).value;
            Valid(after, execPermits)
            && after.execFree == execPermits && after.controlFree == CONTROL_PERMITS && after.lockFree
            && forall k :: 0 <= k < |after.tasks| ==> after.tasks[k] == Task([], false, None)
    decreases Remaining(s.tasks)
  {
    if exists w :: 0 <= w < |s.tasks| && s.tasks[w].todo != [] {
      var w :| 0 <= w < |s.tasks| && s.tasks[w].todo != [];
      var i := SomeoneCanStep(s, execPermits, w);
      var e := Advance(i);
      ApplyValid(s, e, execPermits);
      StepShrinks(s.tasks, i, Step(s, i).tasks[i]);
      assert Step(s, i).tasks == s.tasks[i := Step(s, i).tasks[i]];
      var rest := EveryoneFinishes(Step(s, i), execPermits);
      es := [e] + rest;
      assert es[1..] == rest;
    } else {
      es := [];
      forall k | 0 <= k < |s.tasks|
        ensures s.tasks[k] == Task([], false, None)
      {
        assert Disciplined(s.tasks[k]);
      }
      AllIdle(s.tasks);
    }
  }

  lemma {:induction false} AllIdle(tasks: seq<Task>)
    requires forall k :: 0 <= k < |tasks| ==> tasks[k] == Task([], false, None)
    ensures Holders(tasks, ExecLane) == 0 && Holders(tasks, ControlLane) == 0 && Lockers(tasks) == 0
  {
    if tasks != [] {
      AllIdle(tasks[1..]);
    }
  }

  // ----- A DELETE waits only for control operations -----

  /** A task about to take a lane is blocked exactly when all its permits are out, whatever happens on the
      other lane; and whoever holds one can give it back at once, which lets the task in. */
  lemma WaitsForLaneOnly(s: State, execPermits: nat, i: nat, lane: Lane)
    requires Valid(s, execPermits) && i < |s.tasks| && s.tasks[i].todo != [] && s.tasks[i].todo[0] == Take(lane)
    ensures CanStep(s, i) <==> Holders(s.tasks, lane) < if lane == ExecLane then execPermits else 8
    ensures CanStep(s, i) ==> Step(s, i).tasks[i].holding == Some(lane) && Step(s, i).tasks[i].todo == s.tasks[i].todo[1..]
    ensures forall k :: 0 <= k < |s.tasks| && s.tasks[k].holding == Some(lane) ==>
              CanStep(s, k) && CanStep(Step(s, k), i)
  {
    assert Disciplined(s.tasks[i]);
    forall k | 0 <= k < |s.tasks| && s.tasks[k].holding == Some(lane)
      ensures CanStep(s, k) && CanStep(Step(s, k), i)
    {
      HolderNeverWaits(s, execPermits, k);
    }
  }

  /** A destroy waits for control operations only: it goes ahead exactly when fewer than 8 of them are in
      flight, however many commands run, any one of them can let it in, and two steps complete it. */
  lemma DestroyWaitsForControlOnly(s: State, execPermits: nat, i: nat)
    requires Valid(s, execPermits) && i < |s.tasks| && s.tasks[i] == Task(DestroySession(), false, None)
    ensures CanStep(s, i) <==> Holders(s.tasks, ControlLane) < 8
    ensures forall k :: 0 <= k < |s.tasks| && s.tasks[k].holding == Some(ControlLane) ==>
              CanStep(s, k) && CanStep(Step(s, k), i)
    ensures CanStep(s, i) ==>
              CanStep(Step(s, i), i) && Step(Step(s, i), i).tasks[i] == Task([], false, None)
  {
    WaitsForLaneOnly(s, execPermits, i, ControlLane);
    if CanStep(s, i) {
      StepValid(s, i, execPermits);
      HolderNeverWaits(Step(s, i), execPermits, i);
      assert DestroySession()[1..][1..] == [];
    }
  }

  /** A command waits for commands only; and if its error has to be confirmed, the question it then asks
      waits for control operations only, when its own permit is back. */
  lemma ExecWaitsForCommandsOnly(s: State, execPermits: nat, i: nat, confirm: bool)
    requires Valid(s, execPermits) && i < |s.tasks| && s.tasks[i] == Task(DockerExec(confirm), false, None)
    ensures CanStep(s, i) <==> Holders(s.tasks, ExecLane) < execPermits
    ensures CanStep(s, i) ==>
              CanStep(Step(s, i), i)
              && var after := Step(Step(s, i), i);
                 Valid(after, execPermits) && after.tasks[i].holding == None
                 && (if confirm then CanStep(after, i) <==> Holders(after.tasks, ControlLane) < 8
                     else after.tasks[i] == Task([], false, None))
  {
    WaitsForLaneOnly(s, execPermits, i, ExecLane);
    if CanStep(s, i) {
      var next := Step(s, i);
      StepValid(s, i, execPermits);
      HolderNeverWaits(next, execPermits, i);
      StepValid(next, i, execPermits);
      var after := Step(next, i);
      if confirm {
        assert DockerExec(true)[1..][1..] == Call(ControlLane);
        WaitsForLaneOnly(after, execPermits, i, ControlLane);
      } else {
        assert DockerExec(false)[1..][1..] == [];
      }
    }
  }

  /** A create with a cap waits for the slot lock and nothing else; without one, for control operations
      only. */
  lemma CreateWaitsForLockOrControl(s: State, execPermits: nat, i: nat, capped: bool, recountOnLane: bool, cleanup: bool)
    requires Valid(s, execPermits) && i < |s.tasks|
    requires s.tasks[i] == Task(CreateSession(capped, recountOnLane, true, cleanup), false, None)
    ensures capped ==> (CanStep(s, i) <==> s.lockFree)
    ensures !capped ==> (CanStep(s, i) <==> Holders(s.tasks, ControlLane) < 8)
  {
    if !capped {
      assert s.tasks[i].todo[0] == Take(ControlLane);
      WaitsForLaneOnly(s, execPermits, i, ControlLane);
    }
  }

  /** The lanes each operation takes, in order. */
  lemma WhatOperationsTake()
    ensures DestroySession() == [Take(ControlLane), Free(ControlLane)]
    ensures DockerExec(false) == [Take(ExecLane), Free(ExecLane)]
    ensures DockerExec(true) == [Take(ExecLane), Free(ExecLane), Take(ControlLane), Free(ControlLane)]
    ensures DockerPreflight(true) == [Take(ExecLane), Free(ExecLane), Take(ExecLane), Free(ExecLane)]
    ensures DockerPreflight(false) == [Take(ExecLane), Free(ExecLane)]
    ensures AcquireSlot(false, false) == AcquireSlot(false, true) == []
    ensures AcquireSlot(true, false) == [TakeLock, FreeLock]
    ensures AcquireSlot(true, true) == [TakeLock, Take(ControlLane), Free(ControlLane), FreeLock]
  {
  }

  /** A create first gets its slot, under the lock; its backend call, and the delete after a failed readiness
      wait, come when nothing is held. */
  lemma WhatCreateTakes(capped: bool, lane: bool, cleanup: bool)
    ensures CreateSession(capped, lane, false, cleanup) == AcquireSlot(capped, lane)
    ensures CreateSession(capped, lane, true, false) == AcquireSlot(capped, lane) + [Take(ControlLane), Free(ControlLane)]
    ensures CreateSession(capped, lane, true, true)
         == AcquireSlot(capped, lane) + [Take(ControlLane), Free(ControlLane), Take(ControlLane), Free(ControlLane)]
  {
  }

  // ----- What can happen, and what leaving early gives back -----

  /** Any operation can arrive, and any task can be cancelled, at any moment. */
  lemma TasksComeAndGo(s: State, i: nat, todo: seq<Action>)
    ensures Disciplined(Task(todo, false, None)) ==>
              Enabled(s, Arrive(todo)) && Apply(s, Arrive(todo)) == s.(tasks := s.tasks + [Task(todo, false, None)])
    ensures i < |s.tasks| ==> Enabled(s, Cancelled(i)) && Apply(s, Cancelled(i)) == Cancel(s, i)
    ensures i < |s.tasks| && InRecount(s.tasks[i]) ==>
              Enabled(s, TimedOut(i)) && Apply(s, TimedOut(i)) == TimeOut(s, i)
    ensures CanStep(s, i) ==> Enabled(s, Advance(i)) && Apply(s, Advance(i)) == Step(s, i)
  {
  }

  /** A cancelled task holds nothing and asks for nothing any more: its permit and the lock are back, and no
      other task is touched. */
  lemma CancelGivesBack(s: State, i: nat, execPermits: nat)
    requires Valid(s, execPermits) && i < |s.tasks|
    ensures var after := Cancel(s, i);
            after.tasks == s.tasks[i := Task([], false, None)]
            && after.execFree == s.execFree + (if s.tasks[i].holding == Some(ExecLane) then 1 else 0)
            && after.controlFree == s.controlFree + (if s.tasks[i].holding == Some(ControlLane) then 1 else 0)
            && (s.tasks[i].locked ==> after.lockFree) && (!s.tasks[i].locked ==> after.lockFree == s.lockFree)
  {
  }

  /** A recount that times out gives back its permit if it had one, and its create goes on with what comes
      after the recount, still under the lock. */
  lemma TimeOutGoesOn(s: State, i: nat, execPermits: nat)
    requires Valid(s, execPermits) && i < |s.tasks| && InRecount(s.tasks[i])
    ensures var t, after := s.tasks[i], TimeOut(s, i);
            after.lockFree == s.lockFree && after.execFree == s.execFree
            && (if t.holding == Some(ControlLane) then
                  after.controlFree == s.controlFree + 1 && after.tasks == s.tasks[i := Task(t.todo[1..], true, None)]
                else
                  |t.todo| >= 2 && after.controlFree == s.controlFree
                  && after.tasks == s.tasks[i := Task(t.todo[2..], true, None)])
  {
    assert Disciplined(s.tasks[i]);
    RecountAbandoned(s.tasks[i]);
    var t := s.tasks[i];
    if t.todo[0].Take? {
      assert t.todo[1..][1..] == t.todo[2..];
    } else {
      RecountIsOnControl(t);
    }
  }

  lemma RecountIsOnControl(t: Task)
    requires Disciplined(t) && InRecount(t) && t.todo[0].Free?
    ensures t.holding == Some(ControlLane)
  {
  }
}
