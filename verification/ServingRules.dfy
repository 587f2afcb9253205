/** When the accept loop accepts, backs off, is left and aborts what it owns, over whole runs. */
module ServingRules {
  import opened Wrappers
  import opened Lifecycle
  import opened Serving

  lemma {:induction false} RunSplits(
    state: ServeState, first: seq<ServeStep>, second: seq<ServeStep>, requestGrace: nat, streamGrace: nat)
    ensures ServeRun(state, first + second, requestGrace, streamGrace)
         == ServeRun(ServeRun(state, first, requestGrace, streamGrace), second, requestGrace, streamGrace)
    decreases first
  {
    if first == [] {
      assert first + second == second;
    } else {
      assert (first + second)[1..] == first[1..] + second;
      RunSplits(ServeApply(state, first[0], requestGrace, streamGrace), first[1..], second, requestGrace, streamGrace);
    }
  }

  lemma RunOneMore(start: Instant, steps: seq<ServeStep>, requestGrace: nat, streamGrace: nat)
    requires steps != []
    ensures var n := |steps| - 1;
            ServeRun(Starts(start), steps, requestGrace, streamGrace)
            == ServeApply(ServeRun(Starts(start), steps[..n], requestGrace, streamGrace), steps[n],
                          requestGrace, streamGrace)
  {
    var n := |steps| - 1;
    assert steps == steps[..n] + [steps[n]];
    RunSplits(Starts(start), steps[..n], [steps[n]], requestGrace, streamGrace);
  }

  // ---- Accepting -----------------------------------------------------------------------------------------

  /** The step in which the connection arrives while the loop is listening. */
  predicate TakesIn(state: ServeState, step: ServeStep, connection: Connection) {
    step == AcceptOk(connection) && state.phase == Accepting && connection !in state.accepted
  }

  /** In every run a connection is owned exactly when it arrived while the loop was listening, drain or not. */
  lemma {:induction false} AcceptedExactlyWhen(
    start: Instant, steps: seq<ServeStep>, connection: Connection, requestGrace: nat, streamGrace: nat)
    ensures var end := ServeRun(Starts(start), steps, requestGrace, streamGrace);
            && (connection in end.accepted <==>
                exists k :: 0 <= k < |steps|
                  && TakesIn(ServeRun(Starts(start), steps[..k], requestGrace, streamGrace), steps[k], connection))
            && (connection in end.acceptedWhileDraining <==>
                exists k :: 0 <= k < |steps|
                  && TakesIn(ServeRun(Starts(start), steps[..k], requestGrace, streamGrace), steps[k], connection)
                  && ServeRun(Starts(start), steps[..k], requestGrace, streamGrace).draining.Some?)
    decreases |steps|
  {
    if steps != [] {
      var n := |steps| - 1;
      RunOneMore(start, steps, requestGrace, streamGrace);
      AcceptedExactlyWhen(start, steps[..n], connection, requestGrace, streamGrace);
      assert forall k :: 0 <= k < n ==> steps[..n][..k] == steps[..k] && steps[..n][k] == steps[k];
    }
  }

  // ---- Backing off ---------------------------------------------------------------------------------------

  /** After a transient failure the loop listens at once. */
  lemma TransientFailureDelaysNothing(state: ServeState, requestGrace: nat, streamGrace: nat)
    requires state.phase == Accepting
    ensures ServeRun(state, [AcceptFails(true)], requestGrace, streamGrace) == state
  {
    assert [AcceptFails(true)][1..] == [];
  }

  /** Whatever happens before the time has come, the sleeping loop neither accepts nor joins, unless it is left. */
  lemma {:induction false} NothingHappensWhileBackingOff(
    state: ServeState, until: Instant, later: seq<ServeStep>, requestGrace: nat, streamGrace: nat)
    requires state.phase == BackingOff(until)
    requires ServeRun(state, later, requestGrace, streamGrace).now < until
    ensures var end := ServeRun(state, later, requestGrace, streamGrace);
            && end.accepted == state.accepted
            && (ShutdownSignal !in later ==> end.phase == BackingOff(until) && end.joined == state.joined)
            && (ShutdownSignal in later ==> !InLoop(end.phase))
    decreases later
  {
    if later != [] {
      var next := ServeApply(state, later[0], requestGrace, streamGrace);
      assert later == [later[0]] + later[1..];
      TimeGoesOn(next, later[1..], requestGrace, streamGrace);
      if later[0] == ShutdownSignal {
        LeftForGood(next, later[1..], requestGrace, streamGrace);
      } else {
        NothingHappensWhileBackingOff(next, until, later[1..], requestGrace, streamGrace);
      }
    }
  }

  /** After any other failure nothing is accepted for one second, whatever happens; then the loop listens again. */
  lemma FailureBacksOffForOneSecond(
    state: ServeState, later: seq<ServeStep>, connection: Connection, requestGrace: nat, streamGrace: nat)
    requires state.phase == Accepting && connection !in state.accepted
    ensures var end := ServeRun(state, [AcceptFails(false)] + later, requestGrace, streamGrace);
            end.now < state.now + 1000 ==> end.accepted == state.accepted
    ensures var again := [AcceptFails(false), Tick(1000), BackoffElapses, AcceptOk(connection)];
            connection in ServeRun(state, again, requestGrace, streamGrace).accepted
  {
    var slept := ServeApply(state, AcceptFails(false), requestGrace, streamGrace);
    RunSplits(state, [AcceptFails(false)], later, requestGrace, streamGrace);
    assert [AcceptFails(false)][1..] == [];
    assert ServeRun(state, [AcceptFails(false)], requestGrace, streamGrace) == slept;
    if ServeRun(slept, later, requestGrace, streamGrace).now < state.now + 1000 {
      NothingHappensWhileBackingOff(slept, state.now + 1000, later, requestGrace, streamGrace);
    }
    var awake := [Tick(1000), BackoffElapses, AcceptOk(connection)];
    assert [AcceptFails(false), Tick(1000), BackoffElapses, AcceptOk(connection)] == [AcceptFails(false)] + awake;
    RunSplits(state, [AcceptFails(false)], awake, requestGrace, streamGrace);
    ThreeServeSteps(slept, Tick(1000), BackoffElapses, AcceptOk(connection), requestGrace, streamGrace);
  }

  lemma {:induction false} TimeGoesOn(
    state: ServeState, later: seq<ServeStep>, requestGrace: nat, streamGrace: nat)
    ensures state.now <= ServeRun(state, later, requestGrace, streamGrace).now
    decreases later
  {
    if later != [] {
      TimeGoesOn(ServeApply(state, later[0], requestGrace, streamGrace), later[1..], requestGrace, streamGrace);
    }
  }

  // ---- Leaving the loop ----------------------------------------------------------------------------------

  lemma {:induction false} LeftForGood(state: ServeState, later: seq<ServeStep>, requestGrace: nat, streamGrace: nat)
    requires !InLoop(state.phase)
    ensures var end := ServeRun(state, later, requestGrace, streamGrace);
            !InLoop(end.phase) && end.accepted == state.accepted && end.shutdownAt == state.shutdownAt
    decreases later
  {
    if later != [] {
      LeftForGood(ServeApply(state, later[0], requestGrace, streamGrace), later[1..], requestGrace, streamGrace);
    }
  }

  /** The time of the first signal, if there was one. */
  function FirstSignal(start: Instant, steps: seq<ServeStep>): Option<Instant>
    decreases |steps|
  {
    if steps == [] then None
    else
      var before, last := FirstSignal(start, steps[..|steps| - 1]), steps[|steps| - 1];
      if before.Some? || last != ShutdownSignal then before else Some(start + Elapsed(steps[..|steps| - 1]))
  }

  function Elapsed(steps: seq<ServeStep>): nat
    decreases |steps|
  {
    if steps == [] then 0
    else Elapsed(steps[..|steps| - 1]) + match steps[|steps| - 1] case Tick(span) => span case _ => 0
  }

  /**
   * In every run the loop is left by the first shutdown signal and by nothing else, whatever it was doing then.
   * The drain begins at that moment, unless someone else began it before.
   */
  lemma {:induction false} LoopIsLeftByTheFirstSignal(
    start: Instant, steps: seq<ServeStep>, requestGrace: nat, streamGrace: nat)
    ensures var end := ServeRun(Starts(start), steps, requestGrace, streamGrace);
            && end.now == start + Elapsed(steps)
            && end.shutdownAt == FirstSignal(start, steps)
            && (InLoop(end.phase) <==> FirstSignal(start, steps).None?)
            && (DrainElsewhere !in steps ==> end.draining == FirstSignal(start, steps))
    decreases |steps|
  {
    if steps != [] {
      var n := |steps| - 1;
      RunOneMore(start, steps, requestGrace, streamGrace);
      LoopIsLeftByTheFirstSignal(start, steps[..n], requestGrace, streamGrace);
      assert steps == steps[..n] + [steps[n]];
    }
  }

  /** Connections are aborted from the longer grace after that signal on, and not before. */
  lemma AbortsExactlyAtTheDeadline(start: Instant, steps: seq<ServeStep>, requestGrace: nat, streamGrace: nat)
    ensures var state := ServeRun(Starts(start), steps, requestGrace, streamGrace);
            var next := ServeApply(state, DeadlinePasses, requestGrace, streamGrace);
            state.phase.Joining? ==>
              && FirstSignal(start, steps).Some?
              && (next.phase == Aborting <==>
                  && state.now >= FirstSignal(start, steps).value + requestGrace
                  && state.now >= FirstSignal(start, steps).value + streamGrace)
              && (next.phase == Aborting ==> next.abortedAt == Some(state.now))
              && (next.phase != Aborting ==> next == state)
  {
    ServeRunKeepsOwned(Starts(start), steps, requestGrace, streamGrace);
    LoopIsLeftByTheFirstSignal(start, steps, requestGrace, streamGrace);
  }

  /** A connection whose task has ended is joined, except by a loop that sleeps; nothing else is ever joined. */
  lemma JoinedExactlyWhen(
    state: ServeState, step: ServeStep, connection: Connection, requestGrace: nat, streamGrace: nat)
    requires Owned(state, if requestGrace < streamGrace then streamGrace else requestGrace)
    ensures var next := ServeApply(state, step, requestGrace, streamGrace);
            && (connection in next.joined <==>
                || connection in state.joined
                || (step == JoinNext(connection) && connection in state.ended && !state.phase.BackingOff?))
            && (connection in next.ended <==>
                || (step == TaskEnded(connection) && connection in state.running)
                || (connection in state.ended && connection !in next.joined))
  {
  }
}
