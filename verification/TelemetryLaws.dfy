/** What happens to a single span over a whole run: why it is dropped or admitted, and in which order spans leave. */
module TelemetryLaws {
  import opened Telemetry

  lemma {:induction false} RunSplits(state: State, first: seq<Action>, second: seq<Action>)
    ensures Run(state, first + second) == Run(Run(state, first), second)
    decreases first
  {
    if first == [] {
      assert first + second == second;
    } else {
      assert (first + second)[1..] == first[1..] + second;
      RunSplits(Apply(state, first[0]), first[1..], second);
    }
  }

  lemma RunOneMore(actions: seq<Action>)
    requires actions != []
    ensures Run(INITIAL, actions) == Apply(Run(INITIAL, actions[..|actions| - 1]), actions[|actions| - 1])
  {
    var init, last := actions[..|actions| - 1], actions[|actions| - 1];
    assert actions == init + [last];
    RunSplits(INITIAL, init, [last]);
  }

  // ---- The closed flag -----------------------------------------------------------------------------------

  /** The processor is closed exactly when a shutdown closed it. */
  lemma {:induction false} ClosedExactlyWhen(actions: seq<Action>)
    ensures Run(INITIAL, actions).counters.closed <==> Close in actions
    decreases |actions|
  {
    if actions != [] {
      var init, last := actions[..|actions| - 1], actions[|actions| - 1];
      assert actions == init + [last];
      RunOneMore(actions);
      ClosedExactlyWhen(init);
    }
  }

  // ---- Dropped -------------------------------------------------------------------------------------------

  /** The step in which a span's thread finds the flag set, or the counter at the capacity. */
  predicate Refuses(state: State, action: Action, span: Span) {
    || (action == LoadClosed(span) && Stands(state, span, Checking) && state.counters.closed)
    || (action == TryAdmit(span) && Stands(state, span, Admitting) && state.counters.outstanding >= 512)
  }

  predicate IsDropped(state: State, span: Span) {
    Stands(state, span, Dropping) || span in state.pipe.dropped
  }

  lemma StepDropsExactlyWhen(state: State, action: Action, span: Span)
    ensures IsDropped(Apply(state, action), span) <==> IsDropped(state, span) || Refuses(state, action, span)
  {
  }

  /** In every run a span is dropped exactly when its thread met a closed processor or a full counter. */
  lemma {:induction false} DroppedExactlyWhenRefused(actions: seq<Action>, span: Span)
    ensures IsDropped(Run(INITIAL, actions), span) <==>
            exists k :: 0 <= k < |actions| && Refuses(Run(INITIAL, actions[..k]), actions[k], span)
    decreases |actions|
  {
    if actions != [] {
      var n := |actions| - 1;
      var init := actions[..n];
      RunOneMore(actions);
      DroppedExactlyWhenRefused(init, span);
      StepDropsExactlyWhen(Run(INITIAL, init), actions[n], span);
      assert forall k :: 0 <= k < n ==> init[..k] == actions[..k] && init[k] == actions[k];
    }
  }

  lemma DropsAreCounted(actions: seq<Action>)
    ensures Run(INITIAL, actions).counters.dropped == |Run(INITIAL, actions).pipe.dropped|
  {
    RunKeepsInv(INITIAL, actions);
  }

  /** While nobody closes the processor and the counter stays below the capacity, nothing is dropped. */
  lemma OpenProcessorDropsNothing(actions: seq<Action>)
    requires Close !in actions
    requires forall k :: 0 <= k < |actions| ==> Run(INITIAL, actions[..k]).counters.outstanding < 512
    ensures Run(INITIAL, actions).counters.dropped == 0
    ensures forall span :: !Stands(Run(INITIAL, actions), span, Dropping)
  {
    var state := Run(INITIAL, actions);
    DropsAreCounted(actions);
    forall k | 0 <= k < |actions| ensures !Run(INITIAL, actions[..k]).counters.closed {
      ClosedExactlyWhen(actions[..k]);
    }
    forall span ensures !IsDropped(state, span) && !Stands(state, span, Dropping) {
      DroppedExactlyWhenRefused(actions, span);
    }
    if state.pipe.dropped != [] {
      assert IsDropped(state, state.pipe.dropped[0]);
    }
  }

  // ---- Admitted ------------------------------------------------------------------------------------------

  /** The step in which a span's thread passes the counter. */
  predicate LetsIn(state: State, action: Action, span: Span) {
    action == TryAdmit(span) && Stands(state, span, Admitting) && state.counters.outstanding < 512
  }

  /** Admitted and on its way through the queue, or at the end of it. */
  predicate IsAdmitted(state: State, span: Span) {
    || Stands(state, span, Admitted) || span in state.pipe.queue || span in state.pipe.batch
    || span in state.pipe.exported || span in state.pipe.failed || span in state.pipe.stranded
    || span in state.pipe.overflowed
  }

  lemma StepAdmitsExactlyWhen(state: State, action: Action, span: Span)
    requires state.pipe.exporter != Exporting ==> state.pipe.batch == []
    ensures IsAdmitted(Apply(state, action), span) <==> IsAdmitted(state, span) || LetsIn(state, action, span)
  {
    if action.TakeBatch? && Take(state.pipe, action.count) != state.pipe {
      assert state.pipe.queue == state.pipe.queue[..action.count] + state.pipe.queue[action.count..];
    }
  }

  lemma RunAdmitsExactlyWhen(actions: seq<Action>, action: Action, span: Span)
    ensures var state := Run(INITIAL, actions);
            IsAdmitted(Apply(state, action), span) <==> IsAdmitted(state, span) || LetsIn(state, action, span)
  {
    RunKeepsInv(INITIAL, actions);
    StepAdmitsExactlyWhen(Run(INITIAL, actions), action, span);
  }

  /** In every run a span enters the pipe exactly when its thread found the counter below the capacity. */
  lemma {:induction false} AdmittedExactlyWhenLetIn(actions: seq<Action>, span: Span)
    ensures IsAdmitted(Run(INITIAL, actions), span) <==>
            exists k :: 0 <= k < |actions| && LetsIn(Run(INITIAL, actions[..k]), actions[k], span)
    decreases |actions|
  {
    if actions != [] {
      var n := |actions| - 1;
      var init := actions[..n];
      RunOneMore(actions);
      AdmittedExactlyWhenLetIn(init, span);
      RunAdmitsExactlyWhen(init, actions[n], span);
      assert forall k :: 0 <= k < n ==> init[..k] == actions[..k] && init[k] == actions[k];
    }
  }

  /** The fate of a span whose flag is not yet read when the processor closes. */
  predicate IsBarred(state: State, span: Span) {
    && state.counters.closed
    && (|| Stands(state, span, Checking) || Stands(state, span, Dropping)
        || (span in state.pipe.dropped && (Stands(state, span, Completing) || Stands(state, span, Completed))))
  }

  lemma {:induction false} BarredStaysBarred(state: State, span: Span, more: seq<Action>)
    requires IsBarred(state, span)
    ensures IsBarred(Run(state, more), span)
    decreases more
  {
    if more != [] {
      assert IsBarred(Apply(state, more[0]), span);
      BarredStaysBarred(Apply(state, more[0]), span, more[1..]);
    }
  }

  /** A span whose thread has not read the flag when the processor closes is never admitted, whatever follows. */
  lemma ClosedProcessorAdmitsNothing(actions: seq<Action>, more: seq<Action>, span: Span)
    requires Close in actions && Stands(Run(INITIAL, actions), span, Checking)
    ensures var state := Run(INITIAL, actions + more);
            !Stands(state, span, Admitting) && !IsAdmitted(state, span)
  {
    ClosedExactlyWhen(actions);
    RunSplits(INITIAL, actions, more);
    BarredStaysBarred(Run(INITIAL, actions), span, more);
    var state := Run(INITIAL, actions + more);
    EverySpanIsInOnePlace(actions + more, span);
    if span in state.pipe.dropped {
      assert multiset(state.pipe.dropped)[span] >= 1;
    } else {
      assert multiset(InThreads(state.stages))[span] == 1;
    }
  }

  // ---- The order in which spans leave ----------------------------------------------------------------------

  /** The spans in the order in which their threads handed them over. */
  function Entered(actions: seq<Action>): seq<Span>
    decreases |actions|
  {
    if actions == [] then []
    else
      var n := |actions| - 1;
      var last := actions[n];
      Entered(actions[..n])
      + if last.Enqueue? && Stands(Run(INITIAL, actions[..n]), last.span, Admitted) then [last.span] else []
  }

  /** The whole is the two parts, each in its own order. */
  ghost predicate IsMerge(whole: seq<Span>, left: seq<Span>, right: seq<Span>)
    decreases |whole|
  {
    if whole == [] then left == [] && right == []
    else
      var n := |whole| - 1;
      || (left != [] && left[|left| - 1] == whole[n] && IsMerge(whole[..n], left[..|left| - 1], right))
      || (right != [] && right[|right| - 1] == whole[n] && IsMerge(whole[..n], left, right[..|right| - 1]))
  }

  lemma {:induction false} MergeGrows(whole: seq<Span>, left: seq<Span>, right: seq<Span>, more: seq<Span>)
    requires IsMerge(whole, left, right)
    ensures IsMerge(whole + more, left + more, right) && IsMerge(whole + more, left, right + more)
    decreases |more|
  {
    if more == [] {
      assert whole + more == whole && left + more == left && right + more == right;
    } else {
      var n := |more| - 1;
      MergeGrows(whole, left, right, more[..n]);
      assert (whole + more)[..|whole| + n] == whole + more[..n];
      assert (left + more)[..|left| + n] == left + more[..n];
      assert (right + more)[..|right| + n] == right + more[..n];
    }
  }

  /** What left the pipe, what is in it, and nothing behind a worker that hung up. */
  ghost predicate IsInOrder(pipe: Pipe, entered: seq<Span>) {
    && (exists gone :: IsMerge(gone, pipe.exported, pipe.failed)
                       && entered == gone + pipe.batch + pipe.queue + pipe.stranded)
    && (pipe.disconnected ==> pipe.batch == [] && pipe.queue == [])
    && (!pipe.disconnected ==> pipe.stranded == [])
    && (pipe.exporter != Exporting ==> pipe.batch == [])
  }

  lemma TakeKeepsOrder(pipe: Pipe, entered: seq<Span>, count: nat)
    requires IsInOrder(pipe, entered)
    ensures IsInOrder(Take(pipe, count), entered)
  {
    if Take(pipe, count) != pipe {
      assert pipe.queue == pipe.queue[..count] + pipe.queue[count..];
    }
  }

  lemma LogKeepsOrder(pipe: Pipe, entered: seq<Span>, delivered: bool)
    requires IsInOrder(pipe, entered)
    ensures IsInOrder(Log(pipe, delivered), entered)
  {
    var gone :| IsMerge(gone, pipe.exported, pipe.failed)
                && entered == gone + pipe.batch + pipe.queue + pipe.stranded;
    MergeGrows(gone, pipe.exported, pipe.failed, pipe.batch);
    assert entered == (gone + pipe.batch) + [] + pipe.queue + pipe.stranded;
  }

  lemma HangupKeepsOrder(pipe: Pipe, entered: seq<Span>)
    requires IsInOrder(pipe, entered) && pipe.exporter == Waiting && !pipe.disconnected
    ensures IsInOrder(Hangup(pipe), entered)
  {
  }

  lemma PushKeepsOrder(pipe: Pipe, entered: seq<Span>, span: Span)
    requires IsInOrder(pipe, entered) && |pipe.queue| < QUEUE_CAPACITY
    ensures IsInOrder(Push(pipe, span), entered + [span])
  {
    var gone :| IsMerge(gone, pipe.exported, pipe.failed)
                && entered == gone + pipe.batch + pipe.queue + pipe.stranded;
  }

  lemma StepKeepsOrder(state: State, action: Action, entered: seq<Span>)
    requires Inv(state) && IsInOrder(state.pipe, entered)
    ensures var enters := action.Enqueue? && Stands(state, action.span, Admitted);
            IsInOrder(Apply(state, action).pipe, entered + if enters then [action.span] else [])
  {
    match action {
      case Enqueue(span) =>
        if Stands(state, span, Admitted) {
          assert span in At(state.stages, Admitted);
          PushKeepsOrder(state.pipe, entered, span);
        }
      case TakeBatch(count) =>
        TakeKeepsOrder(state.pipe, entered, count);
      case FinishExport(delivered) =>
        LogKeepsOrder(state.pipe, entered, delivered);
      case Disconnect =>
        if Apply(state, action) != state {
          HangupKeepsOrder(state.pipe, entered);
        }
      case _ =>
    }
    assert entered + [] == entered;
  }

  /**
   * Whatever is delivered, failed, in flight, queued or stranded left and stands in the order in which it entered:
   * first what is exported or failed, each in that order, then the batch, then the queue, or what a hang-up stranded.
   */
  lemma {:induction false} SpansLeaveInOrder(actions: seq<Action>)
    ensures IsInOrder(Run(INITIAL, actions).pipe, Entered(actions))
    decreases |actions|
  {
    if actions == [] {
      assert IsMerge([], [], []);
      assert Run(INITIAL, actions) == INITIAL;
    } else {
      var init := actions[..|actions| - 1];
      SpansLeaveInOrder(init);
      RunOneMore(actions);
      RunKeepsInv(INITIAL, init);
      StepKeepsOrder(Run(INITIAL, init), actions[|actions| - 1], Entered(init));
    }
  }

  // ---- Delivery --------------------------------------------------------------------------------------------

  lemma StepDelivers(state: State, action: Action)
    ensures Apply(state, action).pipe.failed != state.pipe.failed ==> action == FinishExport(false)
    ensures Apply(state, action).pipe.exported != state.pipe.exported ==> action == FinishExport(true)
  {
  }

  /** Spans fail only by an export that failed, and are exported only by one that was delivered. */
  lemma {:induction false} DeliveryDecides(actions: seq<Action>)
    ensures FinishExport(false) !in actions ==> Run(INITIAL, actions).pipe.failed == []
    ensures FinishExport(true) !in actions ==> Run(INITIAL, actions).pipe.exported == []
    decreases |actions|
  {
    if actions != [] {
      var init, last := actions[..|actions| - 1], actions[|actions| - 1];
      RunOneMore(actions);
      DeliveryDecides(init);
      StepDelivers(Run(INITIAL, init), last);
    }
  }

  // ---- A worker that hung up -------------------------------------------------------------------------------

  /** The step in which the worker, resting, hangs up on a closed processor. */
  predicate HangsUp(state: State, action: Action) {
    action == Disconnect && state.counters.closed && state.pipe.exporter == Waiting
  }

  /** In every run the worker is gone exactly when it hung up while it rested, after the processor was closed. */
  lemma {:induction false} DisconnectedExactlyWhen(actions: seq<Action>)
    ensures Run(INITIAL, actions).pipe.disconnected <==>
            exists k :: 0 <= k < |actions| && HangsUp(Run(INITIAL, actions[..k]), actions[k])
    decreases |actions|
  {
    if actions != [] {
      var n := |actions| - 1;
      RunOneMore(actions);
      DisconnectedExactlyWhen(actions[..n]);
      StepDisconnects(Run(INITIAL, actions[..n]), actions[n]);
      assert forall k :: 0 <= k < n ==> actions[..n][..k] == actions[..k] && actions[..n][k] == actions[k];
    }
  }

  lemma StepDisconnects(state: State, action: Action)
    ensures Apply(state, action).pipe.disconnected <==> state.pipe.disconnected || HangsUp(state, action)
  {
  }

  lemma StepAfterHangup(state: State, action: Action)
    requires var pipe := state.pipe; pipe.disconnected && pipe.queue == [] && pipe.exporter == Waiting
    ensures var pipe, next := state.pipe, Apply(state, action).pipe;
            && next.disconnected && next.queue == [] && next.exporter == Waiting
            && next.exported == pipe.exported && next.failed == pipe.failed && pipe.stranded <= next.stranded
  {
  }

  lemma {:induction false} HungUpStays(state: State, more: seq<Action>)
    requires var pipe := state.pipe; pipe.disconnected && pipe.queue == [] && pipe.exporter == Waiting
    ensures var pipe, end := state.pipe, Run(state, more).pipe;
            end.exported == pipe.exported && end.failed == pipe.failed && pipe.stranded <= end.stranded
    decreases more
  {
    if more != [] {
      StepAfterHangup(state, more[0]);
      HungUpStays(Apply(state, more[0]), more[1..]);
    }
  }

  /** From then on nothing is exported and nothing fails any more; what was queued and what still comes is stranded. */
  lemma NothingIsExportedAfterHangup(actions: seq<Action>, more: seq<Action>)
    requires HangsUp(Run(INITIAL, actions), Disconnect)
    ensures var before, end := Run(INITIAL, actions).pipe, Run(INITIAL, actions + [Disconnect] + more).pipe;
            && end.exported == before.exported && end.failed == before.failed
            && before.stranded + before.queue <= end.stranded
  {
    var state := Run(INITIAL, actions);
    RunSplits(INITIAL, actions, [Disconnect]);
    RunSplits(INITIAL, actions + [Disconnect], more);
    var gone := Apply(state, Disconnect);
    assert Run(state, [Disconnect]) == gone by {
      assert [Disconnect][1..] == [];
    }
    SpansLeaveInOrder(actions);
    HungUpStays(gone, more);
  }

  // ---- Nothing gets stuck ------------------------------------------------------------------------------------

  function StepsLeft(stage: Stage): nat {
    match stage
    case Checking => 4
    case Admitting => 3
    case Dropping | Admitted => 2
    case Completing => 1
    case Completed => 0
  }

  predicate IsThreadStep(action: Action, span: Span) {
    || action == LoadClosed(span) || action == TryAdmit(span) || action == CountDrop(span)
    || action == Enqueue(span) || action == CountActive(span)
  }

  /** The thread that ended a span can always go on to its end by itself, in at most four steps. */
  lemma {:induction false} ThreadCanAlwaysFinish(state: State, span: Span) returns (more: seq<Action>)
    requires span in state.stages
    ensures |more| <= StepsLeft(state.stages[span])
    ensures forall action :: action in more ==> IsThreadStep(action, span)
    ensures Stands(Run(state, more), span, Completed)
    decreases StepsLeft(state.stages[span])
  {
    more := [];
    if state.stages[span] != Completed {
      var step := match state.stages[span]
        case Checking => LoadClosed(span)
        case Admitting => TryAdmit(span)
        case Dropping => CountDrop(span)
        case Admitted => Enqueue(span)
        case _ => CountActive(span);
      var rest := ThreadCanAlwaysFinish(Apply(state, step), span);
      more := [step] + rest;
      assert more[1..] == rest;
    }
  }

  /** The exporter can always empty the queue and come to rest, whatever is delivered. */
  lemma {:induction false} QueueCanAlwaysDrain(state: State, delivered: bool) returns (more: seq<Action>)
    ensures forall action :: action in more ==>
              action.TakeBatch? || action == FinishExport(delivered) || action == SettleBatch
    ensures var end := Run(state, more); end.pipe.queue == [] && end.pipe.exporter == Waiting
    decreases |state.pipe.queue|, match state.pipe.exporter case Exporting => 2 case Settling(_) => 1 case Waiting => 0
  {
    var pipe := state.pipe;
    more := [];
    if pipe.exporter != Waiting || pipe.queue != [] {
      var step := match pipe.exporter
        case Exporting => FinishExport(delivered)
        case Settling(_) => SettleBatch
        case Waiting => TakeBatch(if |pipe.queue| < BATCH_SIZE then |pipe.queue| else BATCH_SIZE);
      var rest := QueueCanAlwaysDrain(Apply(state, step), delivered);
      more := [step] + rest;
      assert more[1..] == rest;
    }
  }
}
