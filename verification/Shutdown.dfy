/** The server as it is wired: one drain flag, the accept loop, and after its return one stop of the controllers. */
module Shutdown {
  import opened Wrappers
  import opened Lifecycle
  import opened LifecycleRules
  import opened Serving

  /** The accept loop and the controller registry; both hold the one drain flag they share. */
  datatype Server = Server(serve: ServeState, registry: State)

  datatype Event = FromLoop(step: ServeStep) | FromRegistry(action: Action)

  datatype Graces = Graces(request: nat, stream: nat)

  /** The one call that stops the controllers. */
  const THE_STOP: CallId := 0

  function Booted(now: Instant): Server {
    Server(Starts(now), INITIAL)
  }

  /** Whether the wiring lets an event happen: the workers are shut down only after the loop has returned. */
  predicate IsWired(server: Server, event: Event) {
    match event
    case FromLoop(step) => step != DrainElsewhere
    case FromRegistry(action) =>
      && (action.BeginDrain? || action.StopStart? ==> server.serve.phase == Finished)
      && (action.StopStart? ==> action.call == THE_STOP && server.registry.draining.Some?)
  }

  /** One event; one that the wiring rules out changes nothing. Whoever sets the flag sets it for both. */
  function Follow(server: Server, event: Event, graces: Graces): Server {
    if !IsWired(server, event) then server
    else match event
      case FromLoop(step) =>
        var serve := ServeApply(server.serve, step, graces.request, graces.stream);
        Server(serve, server.registry.(draining := serve.draining))
      case FromRegistry(action) =>
        var registry := Lifecycle.Apply(server.registry, action);
        Server(server.serve.(draining := registry.draining), registry)
  }

  function FollowAll(server: Server, events: seq<Event>, graces: Graces): Server
    decreases events
  {
    if events == [] then server else FollowAll(Follow(server, events[0], graces), events[1..], graces)
  }

  ghost predicate Clean(server: Server) {
    && server.serve.draining == server.registry.draining
    && Inv(server.registry)
    && server.serve.acceptedWhileDraining == {}
    && (InLoop(server.serve.phase) <==> server.serve.draining.None?)
    && server.registry.stops.Keys <= {THE_STOP}
    && (THE_STOP in server.registry.stops ==>
          server.registry.stops[THE_STOP].afterDrain && server.serve.phase == Finished)
  }

  lemma LoopStepStaysClean(server: Server, step: ServeStep, graces: Graces)
    requires Clean(server) && step != DrainElsewhere
    ensures Clean(Follow(server, FromLoop(step), graces))
  {
    var serve := ServeApply(server.serve, step, graces.request, graces.stream);
    if serve.draining != server.serve.draining {
      StepKeepsInv(server.registry, BeginDrain(serve.draining.value));
      assert server.registry.(draining := serve.draining)
          == Lifecycle.Apply(server.registry, BeginDrain(serve.draining.value));
    } else {
      assert server.registry.(draining := serve.draining) == server.registry;
    }
  }

  lemma RegistryStepStaysClean(server: Server, action: Action, graces: Graces)
    requires Clean(server) && IsWired(server, FromRegistry(action))
    ensures Clean(Follow(server, FromRegistry(action), graces))
  {
    StepKeepsInv(server.registry, action);
  }

  lemma EventStaysClean(server: Server, event: Event, graces: Graces)
    requires Clean(server)
    ensures Clean(Follow(server, event, graces))
  {
    if IsWired(server, event) {
      match event {
        case FromLoop(step) => LoopStepStaysClean(server, step, graces);
        case FromRegistry(action) => RegistryStepStaysClean(server, action, graces);
      }
    }
  }

  lemma {:induction false} EveryRunStaysClean(server: Server, events: seq<Event>, graces: Graces)
    requires Clean(server)
    ensures Clean(FollowAll(server, events, graces))
    decreases events
  {
    if events != [] {
      EventStaysClean(server, events[0], graces);
      EveryRunStaysClean(Follow(server, events[0], graces), events[1..], graces);
    }
  }

  /**
   * In every run of the wired server no connection is ever accepted during the drain, the controllers are
   * stopped only when the loop has returned, and from the return of that stop on none of them is alive.
   */
  lemma ShutdownIsClean(now: Instant, events: seq<Event>, graces: Graces)
    ensures var end := FollowAll(Booted(now), events, graces);
            && end.serve.acceptedWhileDraining == {}
            && end.serve.draining == end.registry.draining
            && (forall call | call in end.registry.stops :: end.serve.phase == Finished)
            && (forall call | call in end.registry.stops ::
                  end.registry.stops[call].Returned? ==> end.registry.alive == {})
  {
    EveryRunStaysClean(Booted(now), events, graces);
    var end := FollowAll(Booted(now), events, graces);
    forall call | call in end.registry.stops && end.registry.stops[call].Returned?
      ensures end.registry.alive == {}
    {
      assert call == THE_STOP && Fenced(end.registry);
      assert forall task :: !Held(end.registry.stops, task);
    }
  }

  // ---- Shutting down never hangs -------------------------------------------------------------------------

  function Longest(graces: Graces): nat {
    if graces.request < graces.stream then graces.stream else graces.request
  }

  lemma EventStaysOwned(server: Server, event: Event, graces: Graces)
    requires server.serve.draining == server.registry.draining && Owned(server.serve, Longest(graces))
    requires !InLoop(server.serve.phase) ==> server.serve.draining.Some?
    ensures Owned(Follow(server, event, graces).serve, Longest(graces))
  {
    match event {
      case FromLoop(step) =>
        ServeStepKeepsOwned(server.serve, step, graces.request, graces.stream);
      case FromRegistry(action) =>
        if IsWired(server, event) {
          FlagStays(server.registry, action);
          assert Follow(server, event, graces).serve == server.serve;
        }
    }
  }

  lemma FlagStays(registry: State, action: Action)
    requires action.BeginDrain? ==> registry.draining.Some?
    ensures Lifecycle.Apply(registry, action).draining == registry.draining
  {
  }

  lemma {:induction false} EveryRunStaysOwned(server: Server, events: seq<Event>, graces: Graces)
    requires Clean(server) && Owned(server.serve, Longest(graces))
    ensures Owned(FollowAll(server, events, graces).serve, Longest(graces))
    decreases events
  {
    if events != [] {
      EventStaysClean(server, events[0], graces);
      EventStaysOwned(server, events[0], graces);
      EveryRunStaysOwned(Follow(server, events[0], graces), events[1..], graces);
    }
  }

  lemma {:induction false} RunsCompose(server: Server, first: seq<Event>, second: seq<Event>, graces: Graces)
    ensures FollowAll(server, first + second, graces) == FollowAll(FollowAll(server, first, graces), second, graces)
    decreases first
  {
    if first == [] {
      assert first + second == second;
    } else {
      assert (first + second)[1..] == first[1..] + second;
      RunsCompose(Follow(server, first[0], graces), first[1..], second, graces);
    }
  }

  lemma {:induction false} LoopEventsRunTheLoop(server: Server, steps: seq<ServeStep>, graces: Graces)
    returns (events: seq<Event>)
    requires DrainElsewhere !in steps
    ensures FollowAll(server, events, graces).serve == ServeRun(server.serve, steps, graces.request, graces.stream)
    decreases steps
  {
    if steps == [] {
      events := [];
    } else {
      assert steps[0] in steps && DrainElsewhere !in steps[1..];
      var rest := LoopEventsRunTheLoop(Follow(server, FromLoop(steps[0]), graces), steps[1..], graces);
      events := [FromLoop(steps[0])] + rest;
      assert events[1..] == rest;
    }
  }

  /** What stops the controllers, or lets a spawn that has begun come to its end. */
  predicate IsStopping(action: Action) {
    || action.SpawnCheck? || action.SpawnPush? || action.TaskEnds?
    || action == StopStart(THE_STOP) || action == StopTake(THE_STOP) || action == StopReturn(THE_STOP)
  }

  lemma {:induction false} RegistryEventsRunTheRegistry(server: Server, actions: seq<Action>, graces: Graces)
    returns (events: seq<Event>)
    requires server.serve.phase == Finished && server.registry.draining.Some?
    requires forall action :: action in actions ==> IsStopping(action)
    ensures FollowAll(server, events, graces).registry == Lifecycle.Run(server.registry, actions)
    ensures FollowAll(server, events, graces).serve.phase == Finished
    decreases actions
  {
    if actions == [] {
      events := [];
    } else {
      assert actions[0] in actions && forall action :: action in actions[1..] ==> action in actions;
      var next := Follow(server, FromRegistry(actions[0]), graces);
      assert IsWired(server, FromRegistry(actions[0]));
      var rest := RegistryEventsRunTheRegistry(next, actions[1..], graces);
      events := [FromRegistry(actions[0])] + rest;
      assert events[1..] == rest;
    }
  }

  /** After any run of the wired server some way on leads to the loop's return and to a returned stop. */
  lemma ShutdownCanAlwaysComplete(now: Instant, events: seq<Event>, graces: Graces) returns (more: seq<Event>)
    ensures var end := FollowAll(Booted(now), events + more, graces);
            && end.serve.phase == Finished && end.serve.accepted == end.serve.joined
            && THE_STOP in end.registry.stops && end.registry.stops[THE_STOP].Returned? && end.registry.alive == {}
  {
    var server := FollowAll(Booted(now), events, graces);
    EveryRunStaysClean(Booted(now), events, graces);
    EveryRunStaysOwned(Booted(now), events, graces);
    var steps := ServerCanAlwaysReturn(server.serve, graces.request, graces.stream);
    var leave := LoopEventsRunTheLoop(server, steps, graces);
    var left := FollowAll(server, leave, graces);
    EveryRunStaysClean(server, leave, graces);
    var actions := StopCanAlwaysReturn(left.registry, THE_STOP);
    var stop := RegistryEventsRunTheRegistry(left, actions, graces);
    more := leave + stop;
    RunsCompose(server, leave, stop, graces);
    RunsCompose(Booted(now), events, more, graces);
    EveryRunStaysOwned(Booted(now), events + more, graces);
    ShutdownIsClean(now, events + more, graces);
  }
}
