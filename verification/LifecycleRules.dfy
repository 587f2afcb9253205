/** Exactly which controllers are spawned and when the drain begins, over whole runs; and that stopping never hangs. */
module LifecycleRules {
  import opened Wrappers
  import opened Lifecycle

  /** Pruning judges every handle on its own and keeps the order. */
  lemma {:induction false} PrunedKeepsOrder(first: seq<TaskId>, second: seq<TaskId>, alive: set<TaskId>)
    ensures Pruned(first + second, alive) == Pruned(first, alive) + Pruned(second, alive)
    decreases |second|
  {
    if second == [] {
      assert first + second == first;
    } else {
      var n := |second| - 1;
      assert (first + second)[..|first| + n] == first + second[..n];
      PrunedKeepsOrder(first, second[..n], alive);
    }
  }

  lemma RunOneMore(actions: seq<Action>)
    requires actions != []
    ensures Run(INITIAL, actions) == Apply(Run(INITIAL, actions[..|actions| - 1]), actions[|actions| - 1])
  {
    var init, last := actions[..|actions| - 1], actions[|actions| - 1];
    assert actions == init + [last];
    RunsCompose(INITIAL, init, [last]);
    assert [last][1..] == [];
  }

  // ---- The drain -----------------------------------------------------------------------------------------

  /** When the drain was first begun. */
  function FirstDrain(actions: seq<Action>): Option<Instant>
    decreases actions
  {
    if actions == [] then None
    else if actions[0].BeginDrain? then Some(actions[0].now)
    else FirstDrain(actions[1..])
  }

  /** Draining begins with the first call that begins it, and bears its time, whatever is interleaved. */
  lemma {:induction false} DrainBeginsWithTheFirstCall(state: State, actions: seq<Action>)
    ensures Run(state, actions).draining == if state.draining.Some? then state.draining else FirstDrain(actions)
    decreases actions
  {
    if actions != [] {
      DrainBeginsWithTheFirstCall(Apply(state, actions[0]), actions[1..]);
    }
  }

  // ---- Spawning ------------------------------------------------------------------------------------------

  /** The step in which a call that was let through spawns the task. */
  predicate Spawns(state: State, action: Action, task: TaskId) {
    && action.SpawnPush? && action.task == task && task !in state.spawned
    && action.call in state.spawns && state.spawns[action.call] == Accepted
  }

  /** The step in which a call looks at the drain flag, under the lock, and finds it clear. */
  predicate LetsThrough(state: State, action: Action, call: CallId) {
    action == SpawnCheck(call) && call in state.spawns && state.spawns[call] == Locked && state.draining.None?
  }

  /** In every run a task is spawned exactly by a call that was let through. */
  lemma {:induction false} SpawnedExactlyWhen(actions: seq<Action>, task: TaskId)
    ensures task in Run(INITIAL, actions).spawned <==>
            exists k :: 0 <= k < |actions| && Spawns(Run(INITIAL, actions[..k]), actions[k], task)
    decreases |actions|
  {
    if actions != [] {
      var n := |actions| - 1;
      RunOneMore(actions);
      SpawnedExactlyWhen(actions[..n], task);
      assert forall k :: 0 <= k < n ==> actions[..n][..k] == actions[..k] && actions[..n][k] == actions[k];
    }
  }

  lemma {:induction false} AcceptedWasLetThrough(actions: seq<Action>, call: CallId)
    requires var state := Run(INITIAL, actions); call in state.spawns && state.spawns[call] == Accepted
    ensures exists j :: 0 <= j < |actions| && LetsThrough(Run(INITIAL, actions[..j]), actions[j], call)
    decreases |actions|
  {
    var n := |actions| - 1;
    if actions != [] {
      RunOneMore(actions);
      if !LetsThrough(Run(INITIAL, actions[..n]), actions[n], call) {
        AcceptedWasLetThrough(actions[..n], call);
        var j :| 0 <= j < n && LetsThrough(Run(INITIAL, actions[..n][..j]), actions[..n][j], call);
        assert actions[..n][..j] == actions[..j] && actions[..n][j] == actions[j];
      }
    }
  }

  /** Behind every spawned task is one call that found the flag clear under the lock, and pushed the task after that. */
  lemma SpawnedOnlyBehindAClearFlag(actions: seq<Action>, task: TaskId)
    requires task in Run(INITIAL, actions).spawned
    ensures exists j, k ::
              && 0 <= j < k < |actions| && actions[k].SpawnPush? && actions[k].task == task
              && LetsThrough(Run(INITIAL, actions[..j]), actions[j], actions[k].call)
  {
    SpawnedExactlyWhen(actions, task);
    var k :| 0 <= k < |actions| && Spawns(Run(INITIAL, actions[..k]), actions[k], task);
    var j := LetThroughBefore(actions, k);
    assert LetsThrough(Run(INITIAL, actions[..j]), actions[j], actions[k].call);
  }

  lemma LetThroughBefore(actions: seq<Action>, k: nat) returns (j: nat)
    requires k < |actions| && actions[k].SpawnPush?
    requires var state, call := Run(INITIAL, actions[..k]), actions[k].call;
             call in state.spawns && state.spawns[call] == Accepted
    ensures j < k && LetsThrough(Run(INITIAL, actions[..j]), actions[j], actions[k].call)
  {
    AcceptedWasLetThrough(actions[..k], actions[k].call);
    j :| 0 <= j < k && LetsThrough(Run(INITIAL, actions[..k][..j]), actions[..k][j], actions[k].call);
    assert actions[..k][..j] == actions[..j] && actions[..k][j] == actions[j];
  }

  /** A call left to itself spawns its task exactly when the drain has not begun, and gives the lock back either way. */
  lemma UndisturbedSpawnSucceedsExactlyWhen(state: State, call: CallId, task: TaskId)
    requires state.lock.None? && call !in state.spawns && task !in state.spawned
    ensures var end := Run(state, [SpawnLock(call), SpawnCheck(call), SpawnPush(call, task)] + []);
            && end.lock == None && end.draining == state.draining && end.stops == state.stops
            && end.spawned == (if state.draining.None? then state.spawned + {task} else state.spawned)
            && end.alive == (if state.draining.None? then state.alive + {task} else state.alive)
            && end.registry == if state.draining.None? then Pruned(state.registry, state.alive) + [task]
                               else state.registry
  {
    ThreeSteps(state, SpawnLock(call), SpawnCheck(call), SpawnPush(call, task), []);
  }

  // ---- Stopping ------------------------------------------------------------------------------------------

  lemma RunTwo(state: State, first: seq<Action>, action: Action)
    ensures Run(state, first + [action]) == Apply(Run(state, first), action)
  {
    RunsCompose(state, first, [action]);
    assert [action][1..] == [];
  }

  /** Whoever holds the lock can always give it back. */
  lemma LockCanAlwaysBeReleased(state: State) returns (more: seq<Action>)
    requires Inv(state)
    ensures Run(state, more).lock.None? && Run(state, more).stops == state.stops
    ensures forall action | action in more :: action.SpawnCheck? || action.SpawnPush?
  {
    more := [];
    if state.lock.Some? {
      var call := state.lock.value;
      var task := SomeNumberIsUnused(state.spawned);
      var checked := Apply(state, SpawnCheck(call));
      more := [SpawnCheck(call), SpawnPush(call, task)];
      RunTwo(state, [SpawnCheck(call)], SpawnPush(call, task));
      RunTwo(state, [], SpawnCheck(call));
      assert [] + [SpawnCheck(call)] == [SpawnCheck(call)];
      assert [SpawnCheck(call)] + [SpawnPush(call, task)] == more;
      assert Run(state, []) == state;
    }
  }

  /** A stop that waits returns once the tasks it took have ended. */
  lemma WaitingStopCanReturn(state: State, call: CallId) returns (more: seq<Action>)
    requires call in state.stops && state.stops[call].Awaiting?
    ensures var end := Run(state, more); call in end.stops && end.stops[call].Returned?
    ensures forall action | action in more :: action.TaskEnds? || action == StopReturn(call)
  {
    var tasks := state.stops[call].tasks;
    more := Endings(tasks) + [StopReturn(call)];
    EndingsEnd(state, tasks, [StopReturn(call)]);
    assert [StopReturn(call)][1..] == [];
    EndingsOnlyEnd(tasks);
  }

  lemma {:induction false} EndingsOnlyEnd(tasks: seq<TaskId>)
    ensures forall action | action in Endings(tasks) :: action.TaskEnds?
  {
    if tasks != [] {
      EndingsOnlyEnd(tasks[1..]);
    }
  }

  /** Stopping never hangs for good: from every state some way on leads to the return of the stop. */
  lemma StopCanAlwaysReturn(state: State, call: CallId) returns (more: seq<Action>)
    requires Inv(state)
    ensures var end := Run(state, more); call in end.stops && end.stops[call].Returned?
    ensures forall action | action in more ::
              || action.SpawnCheck? || action.SpawnPush? || action.TaskEnds?
              || action == StopStart(call) || action == StopTake(call) || action == StopReturn(call)
  {
    var release := LockCanAlwaysBeReleased(state);
    var free := Run(state, release);
    var take := release + [StopStart(call)] + [StopTake(call)];
    RunTwo(state, release, StopStart(call));
    RunTwo(state, release + [StopStart(call)], StopTake(call));
    var taken := Run(state, take);
    assert call in taken.stops && !taken.stops[call].Starting?;
    if taken.stops[call].Returned? {
      more := take;
    } else {
      var rest := WaitingStopCanReturn(taken, call);
      RunsCompose(state, take, rest);
      more := take + rest;
    }
  }
}
