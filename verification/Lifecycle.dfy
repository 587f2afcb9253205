/** The sticky drain flag and the registry of controller tasks behind a lock. */
module Lifecycle {
  import opened Wrappers

  type Instant = int
  type TaskId = nat
  type CallId = nat

  function DrainFrom(draining: Option<Instant>, now: Instant): Option<Instant> {
    if draining.Some? then draining else Some(now)
  }

  /** The handles whose task has not finished, in their order. */
  function Pruned(tasks: seq<TaskId>, alive: set<TaskId>): (kept: seq<TaskId>)
    ensures forall task :: task in kept <==> task in tasks && task in alive
  {
    if tasks == [] then []
    else
      var last, before := tasks[|tasks| - 1], Pruned(tasks[..|tasks| - 1], alive);
      if last in alive then before + [last] else before
  }

  /** The object itself; each method is what runs while the lock is held or the flag is updated. */
  class Registry {
    var draining: Option<Instant>
    var controllers: seq<TaskId>

    constructor ()
      ensures draining == None && controllers == []
    {
      draining, controllers := None, [];
    }

    predicate Accepting()
      reads this
    {
      draining.None?
    }

    method BeginDrain(now: Instant)
      modifies this
      ensures draining == DrainFrom(old(draining), now) && controllers == old(controllers)
    {
      if draining.None? {
        draining := Some(now);
      }
    }

    method SpawnController(task: TaskId, alive: set<TaskId>) returns (spawned: bool)
      modifies this
      ensures spawned <==> old(draining).None?
      ensures draining == old(draining)
      ensures controllers == if spawned then Pruned(old(controllers), alive) + [task] else old(controllers)
    {
      if !Accepting() {
        return false;
      }
      var kept := [];
      for i := 0 to |controllers|
        invariant controllers == old(controllers)
        invariant draining == old(draining)
        invariant kept == Pruned(controllers[..i], alive)
      {
        assert controllers[..i + 1][..i] == controllers[..i];
        if controllers[i] in alive {
          kept := kept + [controllers[i]];
        }
      }
      assert controllers[..|controllers|] == controllers;
      controllers := kept + [task];
      return true;
    }

    method TakeControllers() returns (tasks: seq<TaskId>)
      modifies this
      ensures tasks == old(controllers) && controllers == [] && draining == old(draining)
    {
      tasks := controllers;
      controllers := [];
    }
  }

  // ---- All interleavings -----------------------------------------------------------------------------

  /** A spawn call holds the lock in both phases; the drain flag is read between them. */
  datatype SpawnPhase = Locked | Accepted | Done

  /** A stop call remembers whether draining had begun when it started and which tasks it took. */
  datatype StopPhase =
    | Starting(afterDrain: bool)
    | Awaiting(afterDrain: bool, tasks: seq<TaskId>)
    | Returned(afterDrain: bool, tasks: seq<TaskId>)

  datatype State = State(
    draining: Option<Instant>,
    lock: Option<CallId>,
    registry: seq<TaskId>,
    spawned: set<TaskId>,
    alive: set<TaskId>,
    spawns: map<CallId, SpawnPhase>,
    stops: map<CallId, StopPhase>)

  datatype Action =
    | BeginDrain(now: Instant)
    | SpawnLock(call: CallId)
    | SpawnCheck(call: CallId)
    | SpawnPush(call: CallId, task: TaskId)
    | StopStart(call: CallId)
    | StopTake(call: CallId)
    | StopReturn(call: CallId)
    | TaskEnds(task: TaskId)

  const INITIAL: State := State(None, None, [], {}, {}, map[], map[])

  predicate AllEnded(tasks: seq<TaskId>, alive: set<TaskId>) {
    forall task :: task in tasks ==> task !in alive
  }

  /** One atomic step. A step that is not enabled changes nothing. */
  function Apply(state: State, action: Action): State {
    match action
    case BeginDrain(now) => state.(draining := DrainFrom(state.draining, now))
    case SpawnLock(call) =>
      if state.lock.Some? || call in state.spawns then state
      else state.(lock := Some(call), spawns := state.spawns[call := Locked])
    case SpawnCheck(call) =>
      if call !in state.spawns || state.spawns[call] != Locked then state
      else if state.draining.Some? then state.(lock := None, spawns := state.spawns[call := Done])
      else state.(spawns := state.spawns[call := Accepted])
    case SpawnPush(call, task) =>
      if call !in state.spawns || state.spawns[call] != Accepted || task in state.spawned then state
      else state.(registry := Pruned(state.registry, state.alive) + [task],
                  spawned := state.spawned + {task}, alive := state.alive + {task},
                  lock := None, spawns := state.spawns[call := Done])
    case StopStart(call) =>
      if call in state.stops then state
      else state.(stops := state.stops[call := Starting(state.draining.Some?)])
    case StopTake(call) =>
      if call !in state.stops || !state.stops[call].Starting? || state.lock.Some? then state
      else state.(registry := [],
                  stops := state.stops[call := Awaiting(state.stops[call].afterDrain, state.registry)])
    case StopReturn(call) =>
      if call !in state.stops || !state.stops[call].Awaiting? || !AllEnded(state.stops[call].tasks, state.alive)
      then state
      else state.(stops := state.stops[call := Returned(state.stops[call].afterDrain, state.stops[call].tasks)])
    case TaskEnds(task) => state.(alive := state.alive - {task})
  }

  function Run(state: State, actions: seq<Action>): State
    decreases actions
  {
    if actions == [] then state else Run(Apply(state, actions[0]), actions[1..])
  }

  /** A stop call that has taken the registry and still waits holds the task. */
  predicate HeldBy(stops: map<CallId, StopPhase>, call: CallId, task: TaskId) {
    call in stops && stops[call].Awaiting? && task in stops[call].tasks
  }

  ghost predicate Held(stops: map<CallId, StopPhase>, task: TaskId) {
    exists call :: HeldBy(stops, call, task)
  }

  /** Some stop call that started after the drain began has taken the registry. */
  ghost predicate Fenced(state: State) {
    exists call :: call in state.stops && state.stops[call].afterDrain && !state.stops[call].Starting?
  }

  ghost predicate Inv(state: State) {
    && state.alive <= state.spawned
    && (forall task :: task in state.registry ==> task in state.spawned)
    && (forall task | task in state.alive :: task in state.registry || Held(state.stops, task))
    && (forall call | call in state.spawns && state.spawns[call] != Done :: state.lock == Some(call))
    && (state.lock.Some? ==> state.lock.value in state.spawns && state.spawns[state.lock.value] != Done)
    && (forall call | call in state.stops && state.stops[call].afterDrain :: state.draining.Some?)
    && (forall call | call in state.stops && state.stops[call].Returned? ::
          AllEnded(state.stops[call].tasks, state.alive))
    && (forall call | call in state.stops && !state.stops[call].Starting? ::
          forall task :: task in state.stops[call].tasks ==> task in state.spawned)
    && (Fenced(state) ==>
          && state.registry == []
          && forall call :: call in state.spawns ==> state.spawns[call] != Accepted)
  }

  /** Taking over the registry moves its tasks from the registry to the call and loses none that is alive. */
  lemma HeldAfterStop(stops: map<CallId, StopPhase>, call: CallId, phase: StopPhase, task: TaskId)
    requires Held(stops, task) || (phase.Awaiting? && task in phase.tasks)
    requires call in stops && stops[call].Awaiting? ==> task !in stops[call].tasks
    ensures Held(stops[call := phase], task)
  {
    if phase.Awaiting? && task in phase.tasks {
      assert HeldBy(stops[call := phase], call, task);
    } else {
      var other :| HeldBy(stops, other, task);
      assert HeldBy(stops[call := phase], other, task);
    }
  }

  lemma StopStepKeepsInv(state: State, action: Action)
    requires Inv(state) && (action.StopStart? || action.StopTake? || action.StopReturn?)
    ensures Inv(Apply(state, action))
  {
    var next := Apply(state, action);
    if next != state {
      var call, phase := action.call, next.stops[action.call];
      forall task | task in next.alive ensures task in next.registry || Held(next.stops, task) {
        if action.StopTake? || task !in state.registry {
          HeldAfterStop(state.stops, call, phase, task);
        }
      }
      if Fenced(next) && !action.StopTake? {
        var fence :| fence in next.stops && next.stops[fence].afterDrain && !next.stops[fence].Starting?;
        assert fence in state.stops && state.stops[fence].afterDrain && !state.stops[fence].Starting?;
      }
    }
  }

  lemma StepKeepsInv(state: State, action: Action)
    requires Inv(state)
    ensures Inv(Apply(state, action))
  {
    if action.StopStart? || action.StopTake? || action.StopReturn? {
      StopStepKeepsInv(state, action);
    }
  }

  lemma {:induction false} RunKeepsInv(state: State, actions: seq<Action>)
    requires Inv(state)
    ensures Inv(Run(state, actions))
    decreases actions
  {
    if actions != [] {
      StepKeepsInv(state, actions[0]);
      RunKeepsInv(Apply(state, actions[0]), actions[1..]);
    }
  }

  lemma FencedStep(state: State, action: Action)
    requires Inv(state) && Fenced(state)
    ensures Fenced(Apply(state, action))
    ensures Apply(state, action).spawned == state.spawned && Apply(state, action).alive <= state.alive
  {
    var next := Apply(state, action);
    var fence :| fence in state.stops && state.stops[fence].afterDrain && !state.stops[fence].Starting?;
    assert fence in next.stops && next.stops[fence].afterDrain && !next.stops[fence].Starting?;
  }

  /** Once a stop call that started after the drain holds the registry, nothing is ever spawned again. */
  lemma {:induction false} FenceIsForGood(state: State, later: seq<Action>)
    requires Inv(state) && Fenced(state)
    ensures var end := Run(state, later);
            Inv(end) && Fenced(end) && end.spawned == state.spawned && end.alive <= state.alive
    decreases later
  {
    if later != [] {
      StepKeepsInv(state, later[0]);
      FencedStep(state, later[0]);
      FenceIsForGood(Apply(state, later[0]), later[1..]);
    }
  }

  /**
   * When a stop call that started after the drain returns, every controller still alive, then or later,
   * is one that another stop call took before and still waits for; nothing new is ever spawned.
   */
  lemma StopLeavesOnlyWhatOthersHold(actions: seq<Action>, later: seq<Action>, call: CallId)
    requires var state := Run(INITIAL, actions);
             call in state.stops && state.stops[call].Returned? && state.stops[call].afterDrain
    ensures var state := Run(INITIAL, actions);
            var end := Run(state, later);
            && (forall task | task in state.alive :: Held(state.stops, task))
            && end.alive <= state.alive && end.spawned == state.spawned
  {
    RunKeepsInv(INITIAL, actions);
    FenceIsForGood(Run(INITIAL, actions), later);
  }

  // ---- When a stop can return too early ------------------------------------------------------------------

  /** A stop call that has taken the registry keeps the tasks it took. */
  predicate HasTaken(state: State, call: CallId, tasks: seq<TaskId>) {
    && call in state.stops && !state.stops[call].Starting?
    && state.stops[call].afterDrain && state.stops[call].tasks == tasks
  }

  lemma {:induction false} TakenIsKept(state: State, later: seq<Action>, call: CallId, tasks: seq<TaskId>)
    requires HasTaken(state, call, tasks)
    ensures HasTaken(Run(state, later), call, tasks)
    decreases later
  {
    if later != [] {
      TakenIsKept(Apply(state, later[0]), later[1..], call, tasks);
    }
  }

  function Endings(tasks: seq<TaskId>): seq<Action> {
    if tasks == [] then [] else [TaskEnds(tasks[0])] + Endings(tasks[1..])
  }

  function Without(alive: set<TaskId>, tasks: seq<TaskId>): set<TaskId> {
    set task | task in alive && task !in tasks
  }

  lemma {:induction false} EndingsEnd(state: State, tasks: seq<TaskId>, rest: seq<Action>)
    ensures Run(state, Endings(tasks) + rest)
         == Run(state.(alive := Without(state.alive, tasks)), rest)
    decreases tasks
  {
    if tasks == [] {
      assert Endings(tasks) + rest == rest;
      assert state.alive == Without(state.alive, tasks);
    } else {
      var next := Apply(state, TaskEnds(tasks[0]));
      var actions := Endings(tasks) + rest;
      assert actions[0] == TaskEnds(tasks[0]) && actions[1..] == Endings(tasks[1..]) + rest;
      EndingsEnd(next, tasks[1..], rest);
      assert Without(next.alive, tasks[1..]) == Without(state.alive, tasks);
      assert next.(alive := Without(state.alive, tasks)) == state.(alive := Without(state.alive, tasks));
    }
  }

  /** Another waiting stop call holds a live task that this one did not take. */
  ghost predicate RivalHoldsLiveTask(state: State, call: CallId)
    requires call in state.stops && state.stops[call].Awaiting?
  {
    exists other, task :: && other != call && HeldBy(state.stops, other, task) && task in state.alive
                          && task !in state.stops[call].tasks
  }

  /** However the run goes on, the stop call may have returned while a controller is alive. */
  ghost predicate MayReturnTooEarly(state: State, call: CallId) {
    exists later :: var end := Run(state, later);
                    call in end.stops && end.stops[call].Returned? && end.alive != {}
  }

  lemma SurvivorIsHeldByRival(state: State, later: seq<Action>, call: CallId)
    requires Inv(state) && call in state.stops && state.stops[call].Awaiting? && state.stops[call].afterDrain
    requires var end := Run(state, later); call in end.stops && end.stops[call].Returned? && end.alive != {}
    ensures RivalHoldsLiveTask(state, call)
  {
    var end := Run(state, later);
    FenceIsForGood(state, later);
    TakenIsKept(state, later, call, state.stops[call].tasks);
    var survivor :| survivor in end.alive;
    assert survivor in state.alive && Held(state.stops, survivor);
    var other :| HeldBy(state.stops, other, survivor);
  }

  /**
   * From the moment a stop that started after the drain has taken the registry, it can come to return
   * while a controller is alive exactly when another stop then holds a live task that it did not take.
   * Every state that a run reaches satisfies the invariant.
   */
  lemma StopReturnsTooEarlyExactlyWhen(state: State, call: CallId)
    requires Inv(state) && call in state.stops && state.stops[call].Awaiting? && state.stops[call].afterDrain
    ensures MayReturnTooEarly(state, call) <==> RivalHoldsLiveTask(state, call)
  {
    if MayReturnTooEarly(state, call) {
      var later :| var end := Run(state, later); call in end.stops && end.stops[call].Returned? && end.alive != {};
      SurvivorIsHeldByRival(state, later, call);
    }
    if RivalHoldsLiveTask(state, call) {
      var tasks := state.stops[call].tasks;
      var ended := state.(alive := Without(state.alive, tasks));
      EndingsEnd(state, tasks, [StopReturn(call)]);
      var end := Apply(ended, StopReturn(call));
      assert [StopReturn(call)][1..] == [];
      assert Run(ended, [StopReturn(call)]) == end;
      var other, task :| other != call && HeldBy(state.stops, other, task) && task in state.alive && task !in tasks;
      assert task in end.alive;
      assert Run(state, Endings(tasks) + [StopReturn(call)]) == end;
    }
  }

  /** With no other stop call in progress the registry's promise holds outright. */
  lemma SoleStopLeavesNothingAlive(actions: seq<Action>, later: seq<Action>, call: CallId)
    requires var state := Run(INITIAL, actions);
             && call in state.stops && state.stops[call].Returned? && state.stops[call].afterDrain
             && forall other | other in state.stops :: !state.stops[other].Awaiting?
    ensures Run(Run(INITIAL, actions), later).alive == {}
  {
    StopLeavesOnlyWhatOthersHold(actions, later, call);
  }

  // ---- The order in which the server shuts down ------------------------------------------------------------

  ghost predicate OnlyStop(actions: seq<Action>, call: CallId) {
    forall action | action in actions :: action.StopStart? ==> action.call == call
  }

  lemma {:induction false} OnlyThatStopExists(state: State, actions: seq<Action>, call: CallId)
    requires OnlyStop(actions, call) && state.stops.Keys <= {call}
    requires call in state.stops && state.draining.None? ==> !state.stops[call].afterDrain
    ensures Run(state, actions).stops.Keys <= {call}
    ensures state.draining.Some? && state.stops == map[] && call in Run(state, actions).stops ==>
              Run(state, actions).stops[call].afterDrain
    ensures state.draining.Some? && call in state.stops && state.stops[call].afterDrain ==>
              call in Run(state, actions).stops && Run(state, actions).stops[call].afterDrain
    decreases actions
  {
    if actions != [] {
      assert actions[0] in actions;
      var next := Apply(state, actions[0]);
      assert forall action | action in actions[1..] :: action in actions;
      OnlyThatStopExists(next, actions[1..], call);
    }
  }

  lemma {:induction false} RunsCompose(state: State, first: seq<Action>, second: seq<Action>)
    ensures Run(state, first + second) == Run(Run(state, first), second)
    decreases first
  {
    if first == [] {
      assert first + second == second;
    } else {
      assert (first + second)[1..] == first[1..] + second;
      RunsCompose(Apply(state, first[0]), first[1..], second);
    }
  }

  lemma {:induction false} NoStopWithoutStart(state: State, actions: seq<Action>)
    requires state.stops == map[] && forall action | action in actions :: !action.StopStart?
    ensures Run(state, actions).stops == map[]
    decreases actions
  {
    if actions != [] {
      assert actions[0] in actions && forall action | action in actions[1..] :: action in actions;
      NoStopWithoutStart(Apply(state, actions[0]), actions[1..]);
    }
  }

  /** When controllers are stopped once, and only after the drain has begun, none is alive after that, ever. */
  lemma OneStopAfterTheDrainSuffices(
    before: seq<Action>, now: Instant, after: seq<Action>, call: CallId, later: seq<Action>)
    requires forall action | action in before :: !action.StopStart?
    requires OnlyStop(after, call)
    requires var state := Run(INITIAL, before + [BeginDrain(now)] + after);
             call in state.stops && state.stops[call].Returned?
    ensures Run(Run(INITIAL, before + [BeginDrain(now)] + after), later).alive == {}
  {
    var drained := Run(INITIAL, before + [BeginDrain(now)]);
    RunsCompose(INITIAL, before, [BeginDrain(now)]);
    RunsCompose(INITIAL, before + [BeginDrain(now)], after);
    NoStopWithoutStart(INITIAL, before);
    assert [BeginDrain(now)][1..] == [];
    assert drained == Apply(Run(INITIAL, before), BeginDrain(now));
    OnlyThatStopExists(drained, after, call);
    SoleStopLeavesNothingAlive(before + [BeginDrain(now)] + after, later, call);
  }

  lemma ThreeSteps(state: State, a: Action, b: Action, c: Action, rest: seq<Action>)
    ensures Run(state, [a, b, c] + rest) == Run(Apply(Apply(Apply(state, a), b), c), rest)
  {
    var actions := [a, b, c] + rest;
    assert actions[1..] == [b, c] + rest && ([b, c] + rest)[1..] == [c] + rest && ([c] + rest)[1..] == rest;
    assert Run(state, actions) == Run(Apply(state, a), [b, c] + rest);
    assert Run(Apply(state, a), [b, c] + rest) == Run(Apply(Apply(state, a), b), [c] + rest);
  }

  // Two overlapping stop calls: the second takes an empty registry and returns while the first still waits.

  const ONE_RUNNING: State := State(None, None, [7], {7}, {7}, map[0 := Done], map[])
  const ONE_HELD: State := State(Some(0), None, [], {7}, {7}, map[0 := Done], map[1 := Awaiting(true, [7])])

  lemma SpawnsOne()
    ensures Apply(Apply(Apply(INITIAL, SpawnLock(0)), SpawnCheck(0)), SpawnPush(0, 7)) == ONE_RUNNING
  {
  }

  lemma HoldsOne()
    ensures Apply(Apply(Apply(ONE_RUNNING, BeginDrain(0)), StopStart(1)), StopTake(1)) == ONE_HELD
  {
  }

  lemma ReturnsEarly()
    ensures var end := Apply(Apply(Apply(ONE_HELD, StopStart(2)), StopTake(2)), StopReturn(2));
            2 in end.stops && end.stops[2] == Returned(true, []) && end.alive == {7}
  {
  }

  lemma OverlappingStopReturnsEarly()
    ensures exists actions ::
              var state := Run(INITIAL, actions);
              2 in state.stops && state.stops[2] == Returned(true, []) && state.alive == {7}
  {
    var last := [StopStart(2), StopTake(2), StopReturn(2)] + [];
    var middle := [BeginDrain(0), StopStart(1), StopTake(1)] + last;
    var actions := [SpawnLock(0), SpawnCheck(0), SpawnPush(0, 7)] + middle;
    ThreeSteps(INITIAL, SpawnLock(0), SpawnCheck(0), SpawnPush(0, 7), middle);
    SpawnsOne();
    ThreeSteps(ONE_RUNNING, BeginDrain(0), StopStart(1), StopTake(1), last);
    HoldsOne();
    ThreeSteps(ONE_HELD, StopStart(2), StopTake(2), StopReturn(2), []);
    ReturnsEarly();
    assert Run(INITIAL, actions) == Run(ONE_HELD, last);
  }

  /** The drain start never changes once it is set, whatever is interleaved. */
  lemma {:induction false} DrainIsSticky(state: State, later: seq<Action>)
    requires state.draining.Some?
    ensures Run(state, later).draining == state.draining
    decreases later
  {
    if later != [] {
      DrainIsSticky(Apply(state, later[0]), later[1..]);
    }
  }

  // ---- Fresh numbers ---------------------------------------------------------------------------------------

  lemma SomeNumberIsUnused(taken: set<nat>) returns (unused: nat)
    ensures unused !in taken
  {
    if taken == {} {
      unused := 0;
    } else {
      var largest := LargestIn(taken);
      unused := largest + 1;
    }
  }

  lemma {:induction false} LargestIn(taken: set<nat>) returns (largest: nat)
    requires taken != {}
    ensures largest in taken && forall number | number in taken :: number <= largest
    decreases |taken|
  {
    var some :| some in taken;
    if taken == {some} {
      largest := some;
    } else {
      assert taken - {some} != {};
      var rest := LargestIn(taken - {some});
      largest := if rest < some then some else rest;
      forall number | number in taken ensures number <= largest {
        assert number == some || number in taken - {some};
      }
    }
  }
}
