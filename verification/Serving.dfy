/** The accept loop that owns its connection tasks, and the response body that draining may cut short. */
module Serving {
  import opened Wrappers
  import opened Lifecycle

  type Connection = nat

  datatype Phase =
    | Accepting
    | BackingOff(until: Instant)
    | Joining(deadline: Instant)
    | Aborting
    | Finished

  /** Running tasks and finished but unjoined ones make up the task set. */
  datatype ServeState = ServeState(
    phase: Phase,
    now: Instant,
    draining: Option<Instant>,
    accepted: set<Connection>,
    running: set<Connection>,
    ended: set<Connection>,
    joined: set<Connection>,
    acceptedWhileDraining: set<Connection>,
    shutdownAt: Option<Instant>,
    abortedAt: Option<Instant>)

  datatype ServeStep =
    | Tick(span: nat)
    | AcceptOk(connection: Connection)
    | AcceptFails(transient: bool)
    | BackoffElapses
    | ShutdownSignal
    | TaskEnded(connection: Connection)
    | JoinNext(connection: Connection)
    | DeadlinePasses
    | AllJoined
    | DrainElsewhere

  const ACCEPT_BACKOFF: nat := 1000

  function Starts(now: Instant): ServeState {
    ServeState(Accepting, now, None, {}, {}, {}, {}, {}, None, None)
  }

  /** The loop is left: draining begins, and the deadline allows the longer of the two graces. */
  function LeaveLoop(state: ServeState, requestGrace: nat, streamGrace: nat): ServeState {
    state.(draining := DrainFrom(state.draining, state.now), shutdownAt := Some(state.now),
           phase := Joining(state.now + if requestGrace < streamGrace then streamGrace else requestGrace))
  }

  function ServeApply(state: ServeState, step: ServeStep, requestGrace: nat, streamGrace: nat): ServeState {
    match step
    case Tick(span) => state.(now := state.now + span)
    case AcceptOk(connection) =>
      if state.phase != Accepting || connection in state.accepted then state
      else state.(accepted := state.accepted + {connection}, running := state.running + {connection},
                  acceptedWhileDraining := if state.draining.None? then state.acceptedWhileDraining
                                           else state.acceptedWhileDraining + {connection})
    case AcceptFails(transient) =>
      if state.phase != Accepting || transient then state
      else state.(phase := BackingOff(state.now + ACCEPT_BACKOFF))
    case BackoffElapses =>
      if state.phase.BackingOff? && state.now >= state.phase.until then state.(phase := Accepting) else state
    case ShutdownSignal =>
      if state.phase == Accepting || state.phase.BackingOff? then LeaveLoop(state, requestGrace, streamGrace) else state
    case TaskEnded(connection) =>
      if connection !in state.running then state
      else state.(running := state.running - {connection}, ended := state.ended + {connection})
    case JoinNext(connection) =>
      if connection !in state.ended || state.phase.BackingOff? || state.phase == Finished then state
      else state.(ended := state.ended - {connection}, joined := state.joined + {connection})
    case DeadlinePasses =>
      if state.phase.Joining? && state.now >= state.phase.deadline
      then state.(phase := Aborting, abortedAt := Some(state.now)) else state
    case AllJoined =>
      if (state.phase.Joining? || state.phase == Aborting) && state.running == {} && state.ended == {}
      then state.(phase := Finished) else state
    case DrainElsewhere => state.(draining := DrainFrom(state.draining, state.now))
  }

  function ServeRun(state: ServeState, steps: seq<ServeStep>, requestGrace: nat, streamGrace: nat): ServeState
    decreases steps
  {
    if steps == [] then state
    else ServeRun(ServeApply(state, steps[0], requestGrace, streamGrace), steps[1..], requestGrace, streamGrace)
  }

  predicate InLoop(phase: Phase) {
    phase == Accepting || phase.BackingOff?
  }

  ghost predicate Owned(state: ServeState, longest: nat) {
    && state.running !! state.ended !! state.joined
    && state.accepted == state.running + state.ended + state.joined
    && (state.phase == Finished ==> state.running == {} && state.ended == {})
    && (state.shutdownAt.Some? <==> !InLoop(state.phase))
    && (!InLoop(state.phase) ==> state.draining.Some? && state.draining.value <= state.shutdownAt.value)
    && (state.draining.Some? ==> state.draining.value <= state.now)
    && (state.phase.Joining? ==> state.phase.deadline == state.shutdownAt.value + longest)
    && (state.abortedAt.Some? ==> !InLoop(state.phase) && state.abortedAt.value >= state.shutdownAt.value + longest)
    && (InLoop(state.phase) && state.draining.None? ==> state.acceptedWhileDraining == {})
  }

  lemma ServeStepKeepsOwned(state: ServeState, step: ServeStep, requestGrace: nat, streamGrace: nat)
    requires Owned(state, if requestGrace < streamGrace then streamGrace else requestGrace)
    ensures Owned(ServeApply(state, step, requestGrace, streamGrace),
                  if requestGrace < streamGrace then streamGrace else requestGrace)
  {
  }

  lemma {:induction false} ServeRunKeepsOwned(
    state: ServeState, steps: seq<ServeStep>, requestGrace: nat, streamGrace: nat)
    requires Owned(state, if requestGrace < streamGrace then streamGrace else requestGrace)
    ensures Owned(ServeRun(state, steps, requestGrace, streamGrace),
                  if requestGrace < streamGrace then streamGrace else requestGrace)
    decreases steps
  {
    if steps != [] {
      ServeStepKeepsOwned(state, steps[0], requestGrace, streamGrace);
      ServeRunKeepsOwned(ServeApply(state, steps[0], requestGrace, streamGrace), steps[1..], requestGrace, streamGrace);
    }
  }

  /**
   * In every run the accepted connections are those joined plus those still owned, each once; none is
   * left when the server returns; and none is aborted before the longer grace after shutdown has passed.
   */
  lemma ServerOwnsEveryConnection(start: Instant, steps: seq<ServeStep>, requestGrace: nat, streamGrace: nat)
    ensures var end := ServeRun(Starts(start), steps, requestGrace, streamGrace);
            && |end.accepted| == |end.joined| + |end.running| + |end.ended|
            && end.joined <= end.accepted
            && (end.phase == Finished ==> end.accepted == end.joined && end.running == {})
            && (end.phase == Finished ==> end.draining.Some?)
            && (end.abortedAt.Some? ==>
                  && end.shutdownAt.Some?
                  && end.abortedAt.value >= end.shutdownAt.value + requestGrace
                  && end.abortedAt.value >= end.shutdownAt.value + streamGrace)
  {
    ServeRunKeepsOwned(Starts(start), steps, requestGrace, streamGrace);
    var end := ServeRun(Starts(start), steps, requestGrace, streamGrace);
    assert |end.running + end.ended| == |end.running| + |end.ended|;
    assert |end.running + end.ended + end.joined| == |end.running + end.ended| + |end.joined|;
  }

  /** How far a state is from the return: two steps for every running task, one for every unjoined one. */
  function Distance(state: ServeState): nat {
    (if InLoop(state.phase) then 1 else 0) + (if state.phase == Finished then 0 else 1)
    + 2 * |state.running| + |state.ended|
  }

  function StepTowardReturn(state: ServeState, running: Connection, ended: Connection): ServeStep {
    if InLoop(state.phase) then ShutdownSignal
    else if state.running != {} then TaskEnded(running)
    else if state.ended != {} then JoinNext(ended)
    else AllJoined
  }

  lemma StepComesCloser(state: ServeState, running: Connection, ended: Connection, requestGrace: nat, streamGrace: nat)
    requires state.phase != Finished && state.running !! state.ended
    requires state.running != {} ==> running in state.running
    requires state.ended != {} ==> ended in state.ended
    ensures Distance(ServeApply(state, StepTowardReturn(state, running, ended), requestGrace, streamGrace))
          < Distance(state)
  {
  }

  /** Waiting for every connection never blocks for good: from any state some way on leads to the return. */
  lemma {:induction false} ServerCanAlwaysReturn(state: ServeState, requestGrace: nat, streamGrace: nat)
    returns (steps: seq<ServeStep>)
    requires Owned(state, if requestGrace < streamGrace then streamGrace else requestGrace)
    ensures ServeRun(state, steps, requestGrace, streamGrace).phase == Finished
    ensures forall step :: step in steps ==>
              step == ShutdownSignal || step.TaskEnded? || step.JoinNext? || step == AllJoined
    decreases Distance(state)
  {
    if state.phase == Finished {
      steps := [];
    } else {
      var running, ended: Connection := 0, 0;
      if state.running != {} {
        running :| running in state.running;
      }
      if state.ended != {} {
        ended :| ended in state.ended;
      }
      var step := StepTowardReturn(state, running, ended);
      ServeStepKeepsOwned(state, step, requestGrace, streamGrace);
      StepComesCloser(state, running, ended, requestGrace, streamGrace);
      var rest := ServerCanAlwaysReturn(ServeApply(state, step, requestGrace, streamGrace), requestGrace, streamGrace);
      steps := [step] + rest;
      assert steps[1..] == rest;
    }
  }

  /** The loop itself accepts nothing once it has begun the drain. */
  lemma {:induction false} NothingAcceptedAfterOwnDrain(
    state: ServeState, steps: seq<ServeStep>, requestGrace: nat, streamGrace: nat)
    requires InLoop(state.phase) ==> state.draining.None?
    requires DrainElsewhere !in steps
    ensures ServeRun(state, steps, requestGrace, streamGrace).acceptedWhileDraining == state.acceptedWhileDraining
    ensures !InLoop(state.phase) ==> ServeRun(state, steps, requestGrace, streamGrace).accepted == state.accepted
    decreases steps
  {
    if steps != [] {
      var next := ServeApply(state, steps[0], requestGrace, streamGrace);
      assert steps[0] in steps;
      NothingAcceptedAfterOwnDrain(next, steps[1..], requestGrace, streamGrace);
    }
  }

  lemma ThreeServeSteps(
    state: ServeState, a: ServeStep, b: ServeStep, c: ServeStep, requestGrace: nat, streamGrace: nat)
    ensures ServeRun(state, [a, b, c], requestGrace, streamGrace)
         == ServeApply(ServeApply(ServeApply(state, a, requestGrace, streamGrace), b, requestGrace, streamGrace),
                       c, requestGrace, streamGrace)
  {
    assert [a, b, c][1..] == [b, c] && [b, c][1..] == [c] && [c][1..] == [];
    var next := ServeApply(state, a, requestGrace, streamGrace);
    assert ServeRun(next, [b, c], requestGrace, streamGrace)
        == ServeRun(ServeApply(next, b, requestGrace, streamGrace), [c], requestGrace, streamGrace);
  }

  /** Some way on, without another drain begun elsewhere, accepts one more connection during the drain. */
  ghost predicate CanAcceptWhileDraining(state: ServeState, requestGrace: nat, streamGrace: nat) {
    exists steps: seq<ServeStep> ::
      && DrainElsewhere !in steps
      && ServeRun(state, steps, requestGrace, streamGrace).acceptedWhileDraining != state.acceptedWhileDraining
  }

  /**
   * A connection can be accepted during a drain exactly when the drain has begun while the loop still
   * runs: then only someone else can have begun it, since the loop begins it on leaving.
   */
  lemma AcceptsWhileDrainingExactlyWhen(state: ServeState, requestGrace: nat, streamGrace: nat)
    requires state.acceptedWhileDraining <= state.accepted
    ensures CanAcceptWhileDraining(state, requestGrace, streamGrace) <==> InLoop(state.phase) && state.draining.Some?
  {
    if InLoop(state.phase) && state.draining.Some? {
      var unused := SomeNumberIsUnused(state.accepted);
      var wait := if state.phase.BackingOff? && state.now < state.phase.until then state.phase.until - state.now else 0;
      var steps := [Tick(wait), BackoffElapses, AcceptOk(unused)];
      ThreeServeSteps(state, Tick(wait), BackoffElapses, AcceptOk(unused), requestGrace, streamGrace);
      assert unused in ServeRun(state, steps, requestGrace, streamGrace).acceptedWhileDraining;
    } else if CanAcceptWhileDraining(state, requestGrace, streamGrace) {
      var steps: seq<ServeStep> :|
        && DrainElsewhere !in steps
        && ServeRun(state, steps, requestGrace, streamGrace).acceptedWhileDraining != state.acceptedWhileDraining;
      NothingAcceptedAfterOwnDrain(state, steps, requestGrace, streamGrace);
      assert false;
    }
  }

  /** A drain begun elsewhere does not stop the loop, which then still accepts. */
  lemma DrainElsewhereKeepsAccepting(start: Instant, connection: Connection, requestGrace: nat, streamGrace: nat)
    ensures connection in
      ServeRun(Starts(start), [DrainElsewhere, AcceptOk(connection)], requestGrace, streamGrace).acceptedWhileDraining
  {
    var steps := [DrainElsewhere, AcceptOk(connection)];
    assert steps[1..] == [AcceptOk(connection)] && steps[1..][1..] == [];
    var drained := ServeApply(Starts(start), DrainElsewhere, requestGrace, streamGrace);
    assert ServeRun(Starts(start), steps, requestGrace, streamGrace)
        == ServeRun(drained, [AcceptOk(connection)], requestGrace, streamGrace)
        == ServeApply(drained, AcceptOk(connection), requestGrace, streamGrace);
  }

  /** The drain start never changes once it is set. */
  lemma {:induction false} ServeDrainIsSticky(
    state: ServeState, steps: seq<ServeStep>, requestGrace: nat, streamGrace: nat)
    requires state.draining.Some?
    ensures ServeRun(state, steps, requestGrace, streamGrace).draining == state.draining
    decreases steps
  {
    if steps != [] {
      ServeDrainIsSticky(ServeApply(state, steps[0], requestGrace, streamGrace), steps[1..], requestGrace, streamGrace);
    }
  }

  // ---- The wrapped response body -----------------------------------------------------------------------

  /** One frame of the inner body, data or an error of its own, and when it becomes ready. */
  datatype Frame = Frame(readyAt: Instant, content: Result<nat, nat>)

  datatype Item = Delivered(content: Result<nat, nat>) | Interrupted

  function Later(a: Instant, b: Instant): Instant {
    if a < b then b else a
  }

  function Items(frames: seq<Frame>): (items: seq<Item>)
    ensures |items| == |frames|
  {
    seq(|frames|, i requires 0 <= i < |frames| => Delivered(frames[i].content))
  }

  function ReadyAt(frames: seq<Frame>, endsAt: Instant, k: nat): Instant
    requires k <= |frames|
  {
    if k < |frames| then frames[k].readyAt else endsAt
  }

  /** One poll: the next event of the body races the cut, and when both are ready either may win. */
  method Race(poll: Instant, readyAt: Instant, draining: Option<Instant>, grace: nat) returns (cut: bool, at: Instant)
    ensures cut ==> draining.Some? && at == Later(poll, draining.value + grace) && at <= Later(poll, readyAt)
    ensures !cut ==> at == Later(poll, readyAt) && (draining.Some? ==> at <= Later(poll, draining.value + grace))
  {
    cut, at := false, Later(poll, readyAt);
    if draining.Some? {
      var cutAt := Later(poll, draining.value + grace);
      var raced: bool := *;
      if cutAt < at || (cutAt == at && raced) {
        return true, cutAt;
      }
    }
  }

  /**
   * The consumer polls at times of its own choosing; at each poll the body's next event races the cut,
   * and when both are ready either may win. Items are returned with the times they were yielded, and
   * with the polls they answer; the end of the body answers one poll more. A consumer that polls no
   * later than the drain start plus grace gets the error exactly then, before anything not yet ready.
   */
  method WrapBody(frames: seq<Frame>, endsAt: Instant, draining: Option<Instant>, grace: nat, start: Instant)
    returns (items: seq<Item>, times: seq<Instant>, polls: seq<Instant>)
    ensures |items| == |times|
    ensures items == Items(frames) ||
            (exists k :: 0 <= k <= |frames| && items == Items(frames[..k]) + [Interrupted])
    ensures Interrupted in items ==>
              && items[|items| - 1] == Interrupted
              && draining.Some? && times[|items| - 1] >= draining.value + grace
    ensures forall i :: 0 <= i < |items| && items[i].Delivered? ==> times[i] >= frames[i].readyAt
    ensures forall i, j :: 0 <= i < j < |times| ==> start <= times[i] <= times[j]
    ensures |polls| == |items| + if Interrupted in items then 0 else 1
    ensures |polls| <= |frames| + 1
    ensures forall i :: 0 <= i < |items| && items[i].Delivered? ==> times[i] == Later(polls[i], frames[i].readyAt)
    ensures Interrupted in items ==>
              var k := |items| - 1;
              && times[k] == Later(polls[k], draining.value + grace)
              && times[k] <= Later(polls[k], ReadyAt(frames, endsAt, k))
    ensures draining.Some? && Interrupted !in items ==>
              forall k :: 0 <= k <= |frames| ==> ReadyAt(frames, endsAt, k) <= Later(polls[k], draining.value + grace)
    ensures draining.Some? && Interrupted in items ==>
              forall k :: 0 <= k < |items| - 1 ==> frames[k].readyAt <= Later(polls[k], draining.value + grace)
    ensures draining.Some? && (forall i :: 0 <= i < |polls| ==> polls[i] <= draining.value + grace) ==>
              forall k :: 0 <= k <= |frames| && ReadyAt(frames, endsAt, k) > draining.value + grace ==>
                && Interrupted in items && |items| <= k + 1
                && times[|items| - 1] == draining.value + grace
  {
    items, times, polls := [], [], [];
    var now := start;
    var taken := 0;
    while true
      invariant 0 <= taken <= |frames| && |times| == |items| == |polls| == taken
      invariant items == Items(frames[..taken])
      invariant forall i :: 0 <= i < taken ==> times[i] == Later(polls[i], frames[i].readyAt)
      invariant forall i, j :: 0 <= i <= j < |times| ==> start <= times[i] <= times[j] <= now
      invariant start <= now
      invariant draining.Some? ==>
                  forall k :: 0 <= k < taken ==> frames[k].readyAt <= Later(polls[k], draining.value + grace)
      decreases |frames| - taken
    {
      var poll :| poll >= now;
      polls := polls + [poll];
      var cut, at := Race(poll, ReadyAt(frames, endsAt, taken), draining, grace);
      if cut {
        items, times := items + [Interrupted], times + [at];
        return;
      }
      if taken == |frames| {
        assert frames[..taken] == frames;
        return;
      }
      assert Items(frames[..taken + 1]) == Items(frames[..taken]) + [Delivered(frames[taken].content)];
      items, times := items + [Delivered(frames[taken].content)], times + [at];
      now := at;
      taken := taken + 1;
    }
  }
}
