/**
 * Span accounting: lock-free counters around a bounded queue, with request threads, the exporter and
 * shutdown interleaving at every atomic operation.
 */
module Telemetry {

  type Span = nat

  const QUEUE_CAPACITY: nat := 512
  const BATCH_SIZE: nat := 128
  const USIZE_BOUND: nat := 0x1_0000_0000_0000_0000

  datatype Counters = Counters(outstanding: nat, dropped: nat, failed: nat, exported: nat, closed: bool)

  function Admit(counters: Counters): Counters {
    if counters.outstanding < QUEUE_CAPACITY then counters.(outstanding := counters.outstanding + 1) else counters
  }

  function CountDropped(counters: Counters): Counters {
    counters.(dropped := counters.dropped + 1)
  }

  function CountBatch(counters: Counters, count: nat, delivered: bool): Counters {
    if delivered then counters.(exported := counters.exported + count)
    else counters.(failed := counters.failed + count)
  }

  /** Subtraction on the machine word: it wraps when it would go below zero. */
  function Settle(counters: Counters, count: nat): Counters {
    counters.(outstanding := (counters.outstanding - count) % USIZE_BOUND)
  }

  /** The shared counters; every method is one atomic operation. */
  class ExportState {
    var outstanding: nat
    var dropped: nat
    var failed: nat
    var exported: nat
    var closed: bool

    function View(): Counters
      reads this
    {
      Counters(outstanding, dropped, failed, exported, closed)
    }

    constructor ()
      ensures View() == Counters(0, 0, 0, 0, false)
    {
      outstanding, dropped, failed, exported, closed := 0, 0, 0, 0, false;
    }

    method TryAdmit() returns (admitted: bool)
      modifies this
      ensures admitted <==> old(outstanding) < QUEUE_CAPACITY
      ensures View() == Admit(old(View()))
    {
      admitted := outstanding < QUEUE_CAPACITY;
      if admitted {
        outstanding := outstanding + 1;
      }
    }

    method RecordDrop()
      modifies this
      ensures View() == CountDropped(old(View()))
    {
      dropped := dropped + 1;
    }

    method RecordBatch(count: nat, delivered: bool)
      modifies this
      ensures View() == CountBatch(old(View()), count, delivered)
    {
      if delivered {
        exported := exported + count;
      } else {
        failed := failed + count;
      }
    }

    method Release(count: nat)
      modifies this
      ensures View() == Settle(old(View()), count)
    {
      outstanding := (outstanding - count) % USIZE_BOUND;
    }

    method Close()
      modifies this
      ensures View() == old(View()).(closed := true)
    {
      closed := true;
    }
  }

  // ---- All interleavings -----------------------------------------------------------------------------

  datatype Exporter = Waiting | Exporting | Settling(count: nat)

  /** How far the thread that ended a span has come. */
  datatype Stage = Checking | Admitting | Dropping | Admitted | Completing | Completed

  /**
   * Everything behind the threads: the queue, the exporter's batch and where each span finally went.
   * Stranded spans met a worker that had already shut down; overflowed ones a full queue.
   */
  datatype Pipe = Pipe(
    queue: seq<Span>,
    batch: seq<Span>,
    exporter: Exporter,
    dropped: seq<Span>,
    failed: seq<Span>,
    exported: seq<Span>,
    overflowed: seq<Span>,
    stranded: seq<Span>,
    disconnected: bool)

  /** Started spans with their sampling decision, ended ones with their thread's stage, and the pipe. */
  datatype State = State(
    counters: Counters, active: int, started: map<Span, bool>, stages: map<Span, Stage>, pipe: Pipe)

  datatype Action =
    | Start(span: Span, sampled: bool)
    | Finish(span: Span)
    | LoadClosed(span: Span)
    | TryAdmit(span: Span)
    | CountDrop(span: Span)
    | Enqueue(span: Span)
    | CountActive(span: Span)
    | TakeBatch(count: nat)
    | FinishExport(delivered: bool)
    | SettleBatch
    | Close
    | Disconnect

  const INITIAL: State :=
    State(Counters(0, 0, 0, 0, false), 0, map[], map[], Pipe([], [], Waiting, [], [], [], [], [], false))

  predicate Stands(state: State, span: Span, stage: Stage) {
    span in state.stages && state.stages[span] == stage
  }

  function Advance(state: State, span: Span, stage: Stage): State {
    state.(stages := state.stages[span := stage])
  }

  /** The inner processor takes an admitted span. */
  function Push(pipe: Pipe, span: Span): Pipe {
    if pipe.disconnected then pipe.(stranded := pipe.stranded + [span])
    else if |pipe.queue| < QUEUE_CAPACITY then pipe.(queue := pipe.queue + [span])
    else pipe.(overflowed := pipe.overflowed + [span])
  }

  function Take(pipe: Pipe, count: nat): Pipe {
    if pipe.exporter != Waiting || count == 0 || count > BATCH_SIZE || count > |pipe.queue| then pipe
    else pipe.(batch := pipe.queue[..count], queue := pipe.queue[count..], exporter := Exporting)
  }

  function Log(pipe: Pipe, delivered: bool): Pipe {
    var counted := pipe.(batch := [], exporter := Settling(|pipe.batch|));
    if delivered then counted.(exported := pipe.exported + pipe.batch)
    else counted.(failed := pipe.failed + pipe.batch)
  }

  function Hangup(pipe: Pipe): Pipe {
    pipe.(disconnected := true, queue := [], stranded := pipe.stranded + pipe.queue)
  }

  /** One atomic step. A step that is not enabled changes nothing. */
  function Apply(state: State, action: Action): State {
    match action
    case Start(span, sampled) =>
      if span in state.started then state
      else state.(started := state.started[span := sampled], active := state.active + 1)
    case Finish(span) =>
      // The swap of the span's flag lets only the first of finish and drop through.
      if span !in state.started || span in state.stages then state
      else Advance(state, span, if state.started[span] then Checking else Completing)
    case LoadClosed(span) =>
      if !Stands(state, span, Checking) then state
      else Advance(state, span, if state.counters.closed then Dropping else Admitting)
    case TryAdmit(span) =>
      if !Stands(state, span, Admitting) then state
      else Advance(state, span, if state.counters.outstanding < QUEUE_CAPACITY then Admitted else Dropping)
           .(counters := Admit(state.counters))
    case CountDrop(span) =>
      if !Stands(state, span, Dropping) then state
      else Advance(state, span, Completing)
           .(counters := CountDropped(state.counters), pipe := state.pipe.(dropped := state.pipe.dropped + [span]))
    case Enqueue(span) =>
      if !Stands(state, span, Admitted) then state
      else Advance(state, span, Completing).(pipe := Push(state.pipe, span))
    case CountActive(span) =>
      if !Stands(state, span, Completing) then state
      else Advance(state, span, Completed).(active := state.active - 1)
    case TakeBatch(count) => state.(pipe := Take(state.pipe, count))
    case FinishExport(delivered) =>
      if state.pipe.exporter != Exporting then state
      else state.(pipe := Log(state.pipe, delivered),
                  counters := CountBatch(state.counters, |state.pipe.batch|, delivered))
    case SettleBatch =>
      if !state.pipe.exporter.Settling? then state
      else state.(pipe := state.pipe.(exporter := Waiting),
                  counters := Settle(state.counters, state.pipe.exporter.count))
    case Close => state.(counters := state.counters.(closed := true))
    case Disconnect =>
      if !state.counters.closed || state.pipe.exporter != Waiting || state.pipe.disconnected then state
      else state.(pipe := Hangup(state.pipe))
  }

  function Run(state: State, actions: seq<Action>): State
    decreases actions
  {
    if actions == [] then state else Run(Apply(state, actions[0]), actions[1..])
  }

  // ---- The inductive invariant -------------------------------------------------------------------------

  function At(stages: map<Span, Stage>, stage: Stage): set<Span> {
    set span | span in stages && stages[span] == stage
  }

  function Unsettled(pipe: Pipe): nat {
    if pipe.exporter.Settling? then pipe.exporter.count else 0
  }

  /** The spans whose threads still hold them. */
  function InThreads(stages: map<Span, Stage>): set<Span> {
    set span | span in stages && stages[span] != Completing && stages[span] != Completed
  }

  function InPipe(pipe: Pipe): multiset<Span> {
    multiset(pipe.queue) + multiset(pipe.batch) + multiset(pipe.dropped) + multiset(pipe.failed)
    + multiset(pipe.exported) + multiset(pipe.overflowed) + multiset(pipe.stranded)
  }

  function SampledEnded(state: State): set<Span> {
    set span | span in state.stages && span in state.started && state.started[span]
  }

  ghost predicate PipeBalanced(pipe: Pipe, counters: Counters, admitted: nat) {
    && counters.outstanding == admitted + |pipe.queue| + |pipe.batch| + |pipe.stranded| + Unsettled(pipe)
    && counters.outstanding <= QUEUE_CAPACITY
    && counters.dropped == |pipe.dropped|
    && counters.failed == |pipe.failed|
    && counters.exported == |pipe.exported|
    && pipe.overflowed == []
    && |pipe.batch| <= BATCH_SIZE && Unsettled(pipe) <= BATCH_SIZE
    && (pipe.exporter == Exporting <==> pipe.batch != [])
    && (pipe.disconnected ==> counters.closed)
    && (pipe.stranded != [] ==> pipe.disconnected)
  }

  ghost predicate Located(state: State) {
    && state.stages.Keys <= state.started.Keys
    && (forall span | span in InThreads(state.stages) :: state.started[span])
  }

  ghost predicate Balanced(state: State) {
    && state.active == |state.started.Keys| - |At(state.stages, Completed)|
    && PipeBalanced(state.pipe, state.counters, |At(state.stages, Admitted)|)
  }

  ghost predicate Conserved(state: State) {
    multiset(InThreads(state.stages)) + InPipe(state.pipe) == multiset(SampledEnded(state))
  }

  ghost predicate Inv(state: State) {
    Located(state) && Balanced(state) && Conserved(state)
  }

  lemma AdvancedStage(stages: map<Span, Stage>, span: Span, to: Stage, stage: Stage)
    requires span !in stages || stages[span] != to
    ensures At(stages[span := to], stage)
         == if stage == to then At(stages, stage) + {span} else At(stages, stage) - {span}
    ensures stage == to ==> |At(stages[span := to], stage)| == |At(stages, stage)| + 1
    ensures stage != to ==>
              (|At(stages[span := to], stage)|
               == |At(stages, stage)| - if span in stages && stages[span] == stage then 1 else 0)
  {
  }

  lemma AdvancedThreads(stages: map<Span, Stage>, span: Span, to: Stage)
    ensures var keeps := to != Completing && to != Completed;
            InThreads(stages[span := to]) == if keeps then InThreads(stages) + {span} else InThreads(stages) - {span}
  {
  }

  lemma TakeKeepsSpans(pipe: Pipe, count: nat)
    requires pipe.exporter != Exporting ==> pipe.batch == []
    ensures InPipe(Take(pipe, count)) == InPipe(pipe)
  {
    if count <= |pipe.queue| {
      assert pipe.queue == pipe.queue[..count] + pipe.queue[count..];
    }
  }

  lemma LogKeepsSpans(pipe: Pipe, delivered: bool)
    ensures InPipe(Log(pipe, delivered)) == InPipe(pipe)
  {
  }

  lemma HangupKeepsSpans(pipe: Pipe)
    ensures InPipe(Hangup(pipe)) == InPipe(pipe)
  {
  }

  predicate PipeAction(action: Action) {
    action.TakeBatch? || action.FinishExport? || action.SettleBatch? || action.Close? || action.Disconnect?
  }

  lemma PipeStepKeepsBalance(state: State, admitted: nat, action: Action)
    requires PipeAction(action) && PipeBalanced(state.pipe, state.counters, admitted)
    ensures PipeBalanced(Apply(state, action).pipe, Apply(state, action).counters, admitted)
  {
  }

  /** The exporter moves spans between the places of the pipe and never loses one. */
  lemma PipeStepKeepsSpans(state: State, admitted: nat, action: Action)
    requires PipeAction(action) && PipeBalanced(state.pipe, state.counters, admitted)
    ensures InPipe(Apply(state, action).pipe) == InPipe(state.pipe)
  {
    var next := Apply(state, action).pipe;
    match action {
      case TakeBatch(count) =>
        TakeKeepsSpans(state.pipe, count);
        assert next == Take(state.pipe, count);
      case FinishExport(delivered) =>
        LogKeepsSpans(state.pipe, delivered);
        assert next == state.pipe || next == Log(state.pipe, delivered);
      case SettleBatch =>
        assert next == state.pipe.(exporter := next.exporter);
      case Close =>
        assert next == state.pipe;
      case Disconnect =>
        HangupKeepsSpans(state.pipe);
        assert next == state.pipe || next == Hangup(state.pipe);
    }
  }

  lemma PushKeepsBalance(pipe: Pipe, counters: Counters, admitted: nat, span: Span)
    requires PipeBalanced(pipe, counters, admitted) && admitted > 0
    ensures PipeBalanced(Push(pipe, span), counters, admitted - 1)
    ensures InPipe(Push(pipe, span)) == InPipe(pipe) + multiset{span}
  {
  }

  predicate Moves(state: State, action: Action) {
    !PipeAction(action) && !action.Start? && Apply(state, action) != state
  }

  lemma ThreadStepKeepsBalance(state: State, action: Action)
    requires Located(state) && Balanced(state) && Moves(state, action)
    ensures Balanced(Apply(state, action))
  {
    var next := Apply(state, action);
    var span := action.span;
    AdvancedStage(state.stages, span, next.stages[span], Admitted);
    AdvancedStage(state.stages, span, next.stages[span], Completed);
    if action.Enqueue? {
      assert span in At(state.stages, Admitted);
      PushKeepsBalance(state.pipe, state.counters, |At(state.stages, Admitted)|, span);
    }
  }

  lemma ThreadStepKeepsLocated(state: State, action: Action)
    requires Located(state) && Moves(state, action)
    ensures Located(Apply(state, action))
  {
  }

  lemma FinishConserves(state: State, span: Span)
    requires Located(state) && Conserved(state) && Moves(state, Finish(span))
    ensures Conserved(Apply(state, Finish(span)))
  {
    var next := Apply(state, Finish(span));
    AdvancedThreads(state.stages, span, next.stages[span]);
    assert span !in InThreads(state.stages) && span !in SampledEnded(state);
    if state.started[span] {
      assert SampledEnded(next) == SampledEnded(state) + {span};
      OneMore(InThreads(state.stages), span);
      OneMore(SampledEnded(state), span);
    } else {
      assert SampledEnded(next) == SampledEnded(state);
      assert InThreads(next.stages) == InThreads(state.stages);
    }
  }

  /** A span leaves its thread for the pipe: what the thread gives up the pipe gains. */
  lemma LeavesThread(stages: map<Span, Stage>, span: Span)
    requires span in InThreads(stages)
    ensures multiset(InThreads(stages)) == multiset(InThreads(stages[span := Completing])) + multiset{span}
  {
    var after := InThreads(stages[span := Completing]);
    AdvancedThreads(stages, span, Completing);
    assert InThreads(stages) == after + {span};
    OneMore(after, span);
  }

  lemma MovedSpanConserves(state: State, next: State, span: Span)
    requires Conserved(state) && span in InThreads(state.stages)
    requires next.stages == state.stages[span := Completing] && next.started == state.started
    requires InPipe(next.pipe) == InPipe(state.pipe) + multiset{span}
    ensures Conserved(next)
  {
    LeavesThread(state.stages, span);
    assert SampledEnded(next) == SampledEnded(state);
  }

  lemma CountDropConserves(state: State, span: Span)
    requires Conserved(state) && Moves(state, CountDrop(span))
    ensures Conserved(Apply(state, CountDrop(span)))
  {
    var next := Apply(state, CountDrop(span));
    assert InPipe(next.pipe) == InPipe(state.pipe) + multiset{span};
    MovedSpanConserves(state, next, span);
  }

  lemma EnqueueConserves(state: State, span: Span)
    requires Balanced(state) && Conserved(state) && Moves(state, Enqueue(span))
    ensures Conserved(Apply(state, Enqueue(span)))
  {
    var next := Apply(state, Enqueue(span));
    assert span in At(state.stages, Admitted);
    PushKeepsBalance(state.pipe, state.counters, |At(state.stages, Admitted)|, span);
    MovedSpanConserves(state, next, span);
  }

  /** A thread that is done with its span hands it to the pipe. */
  lemma HandOverConserves(state: State, action: Action)
    requires Located(state) && Balanced(state) && Conserved(state)
    requires Moves(state, action) && (action.CountDrop? || action.Enqueue?)
    ensures Conserved(Apply(state, action))
  {
    if action.CountDrop? {
      CountDropConserves(state, action.span);
    } else {
      EnqueueConserves(state, action.span);
    }
  }

  /** Before that it only changes its stage. */
  lemma StageChangeConserves(state: State, action: Action)
    requires Located(state) && Conserved(state)
    requires Moves(state, action) && !action.Finish? && !action.CountDrop? && !action.Enqueue?
    ensures Conserved(Apply(state, action))
  {
    var next := Apply(state, action);
    AdvancedThreads(state.stages, action.span, next.stages[action.span]);
    assert SampledEnded(next) == SampledEnded(state);
    assert InThreads(next.stages) == InThreads(state.stages);
  }

  lemma OneMore(spans: set<Span>, span: Span)
    requires span !in spans
    ensures multiset(spans + {span}) == multiset(spans) + multiset{span}
  {
  }

  lemma StartKeepsInv(state: State, span: Span, sampled: bool)
    requires Inv(state) && span !in state.started
    ensures Inv(Apply(state, Start(span, sampled)))
  {
  }

  lemma ThreadsUntouched(state: State, action: Action)
    requires PipeAction(action)
    ensures var next := Apply(state, action);
            next.active == state.active && next.started == state.started && next.stages == state.stages
  {
  }

  lemma PipeKeepsInv(state: State, action: Action)
    requires Inv(state) && PipeAction(action)
    ensures Inv(Apply(state, action))
  {
    var next := Apply(state, action);
    PipeStepKeepsBalance(state, |At(state.stages, Admitted)|, action);
    PipeStepKeepsSpans(state, |At(state.stages, Admitted)|, action);
    ThreadsUntouched(state, action);
    assert SampledEnded(next) == SampledEnded(state);
  }

  lemma StepKeepsInv(state: State, action: Action)
    requires Inv(state)
    ensures Inv(Apply(state, action))
  {
    if Apply(state, action) == state {
    } else if action.Start? {
      StartKeepsInv(state, action.span, action.sampled);
    } else if PipeAction(action) {
      PipeKeepsInv(state, action);
    } else {
      ThreadStepKeepsLocated(state, action);
      ThreadStepKeepsBalance(state, action);
      if action.Finish? {
        FinishConserves(state, action.span);
      } else if action.CountDrop? || action.Enqueue? {
        HandOverConserves(state, action);
      } else {
        StageChangeConserves(state, action);
      }
    }
  }

  lemma {:induction false} RunKeepsInv(state: State, actions: seq<Action>)
    requires Inv(state)
    ensures Inv(Run(state, actions))
    decreases actions
  {
    if actions != [] {
      StepKeepsInv(state, actions[0]);
      RunKeepsInv(Apply(state, actions[0]), actions[1..]);
    }
  }

  // ---- What holds at every instant of every run --------------------------------------------------------

  /**
   * At every atomic step outstanding spans are exactly those admitted but not yet queued, queued, in
   * flight, stranded by shutdown, or exported but not yet subtracted, and never more than the capacity.
   * So the inner queue never overflows, and the exporter's subtraction never wraps.
   */
  lemma OutstandingIsExact(actions: seq<Action>)
    ensures var state := Run(INITIAL, actions);
            && state.counters.outstanding == |At(state.stages, Admitted)| + |state.pipe.queue| + |state.pipe.batch|
                                             + |state.pipe.stranded| + Unsettled(state.pipe)
            && state.counters.outstanding <= QUEUE_CAPACITY
            && state.pipe.overflowed == []
            && (forall span :: Stands(state, span, Admitted) ==> |state.pipe.queue| < QUEUE_CAPACITY)
            && (state.pipe.exporter.Settling? ==> state.pipe.exporter.count <= state.counters.outstanding)
            && (!state.pipe.disconnected ==> state.pipe.stranded == [])
            && (state.pipe.exporter == Exporting ==> 1 <= |state.pipe.batch| <= 128)
  {
    RunKeepsInv(INITIAL, actions);
    var state := Run(INITIAL, actions);
    forall span | Stands(state, span, Admitted) ensures |state.pipe.queue| < QUEUE_CAPACITY {
      assert span in At(state.stages, Admitted);
    }
  }

  /** Every ended, sampled span is in exactly one place, and no other span is anywhere. */
  lemma EverySpanIsInOnePlace(actions: seq<Action>, span: Span)
    ensures var state := Run(INITIAL, actions);
            multiset(InThreads(state.stages))[span] + InPipe(state.pipe)[span]
            == if span in SampledEnded(state) then 1 else 0
  {
    RunKeepsInv(INITIAL, actions);
    var state := Run(INITIAL, actions);
    assert (multiset(InThreads(state.stages)) + InPipe(state.pipe))[span] == multiset(SampledEnded(state))[span];
  }

  lemma ThreadsByStage(stages: map<Span, Stage>)
    ensures |InThreads(stages)| == |At(stages, Checking)| + |At(stages, Admitting)| + |At(stages, Dropping)|
                                   + |At(stages, Admitted)|
  {
    var checking, admitting, dropping, admitted :=
      At(stages, Checking), At(stages, Admitting), At(stages, Dropping), At(stages, Admitted);
    assert InThreads(stages) == checking + (admitting + (dropping + admitted));
    assert dropping !! admitted && admitting !! (dropping + admitted);
    assert checking !! (admitting + (dropping + admitted));
    assert |dropping + admitted| == |dropping| + |admitted|;
    assert |admitting + (dropping + admitted)| == |admitting| + |dropping + admitted|;
  }

  /**
   * At every instant the four published counters and the spans still before their decision account for
   * every ended, sampled span, up to the one batch that is counted but not yet subtracted.
   */
  lemma CountersConserveSpans(actions: seq<Action>)
    ensures var state := Run(INITIAL, actions);
            var counters := state.counters;
            && counters.dropped + counters.failed + counters.exported + counters.outstanding
               + |At(state.stages, Checking)| + |At(state.stages, Admitting)| + |At(state.stages, Dropping)|
               == |SampledEnded(state)| + Unsettled(state.pipe)
            && Unsettled(state.pipe) <= BATCH_SIZE
            && state.active == |state.started.Keys| - |At(state.stages, Completed)|
  {
    RunKeepsInv(INITIAL, actions);
    var state := Run(INITIAL, actions);
    ThreadsByStage(state.stages);
    assert |multiset(InThreads(state.stages)) + InPipe(state.pipe)| == |multiset(SampledEnded(state))|;
  }

  /** When no thread is inside on_end and the exporter rests, the published counters are exact. */
  lemma CountersAreExactAtRest(actions: seq<Action>)
    requires var state := Run(INITIAL, actions);
             InThreads(state.stages) == {} && state.pipe.exporter == Waiting
    ensures var state := Run(INITIAL, actions);
            var counters := state.counters;
            && |SampledEnded(state)| == counters.dropped + counters.failed + counters.exported + counters.outstanding
            && counters.outstanding == |state.pipe.queue| + |state.pipe.stranded|
  {
    CountersConserveSpans(actions);
    RunKeepsInv(INITIAL, actions);
    ThreadsByStage(Run(INITIAL, actions).stages);
  }
}
